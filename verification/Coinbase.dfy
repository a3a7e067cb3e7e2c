/** The genesis coinbase transaction and the block header, and the reader of the former. */
module Coinbase {
  import opened Amounts
  import opened Bytes
  import opened Options
  import opened Positional
  import opened Serialization

  const PREMINE_TRANCHE_AMOUNT := 400_000 * COIN
  const PREMINE_UNLOCK_TIMES := [1820966400, 1852588800, 1884124800, 1915660800, 1947196800]
  const OP_TRUE_SCRIPT: seq<Byte> := [0x51]

  /** A value in atoms and the script that locks it. */
  datatype Output = Output(value: int, script: seq<Byte>) {
    /** What the packing of the two fields accepts. */
    predicate Packs() {
      -0x8000_0000_0000_0000 <= value < 0x8000_0000_0000_0000 && |script| < U64
    }
  }

  predicate AllPack(outputs: seq<Output>) { forall i :: 0 <= i < |outputs| ==> outputs[i].Packs() }

  // ------------------------------------------------------------------ scripts

  function P2pkhScript(hash: seq<Byte>): (bs: seq<Byte>)
    requires |hash| == 20
    ensures |bs| == 25 && bs[0] == 0x76 && bs[3..23] == hash
  {
    [0x76, 0xA9, 0x14] + hash + [0x88, 0xAC]
  }

  /** The lock time, CHECKLOCKTIMEVERIFY and DROP in front; nothing at all for lock time 0. */
  function TimelockedScript(hash: seq<Byte>, locktime: int): seq<Byte>
    requires |hash| == 20 && |ScriptNum(locktime)| < U32
  {
    if locktime == 0 then P2pkhScript(hash)
    else PushData(ScriptNum(locktime)) + [0xB1, 0x75] + P2pkhScript(hash)
  }

  /** The lock time and key hash a script of this family was made from. */
  function ReadTimelock(script: seq<Byte>): Option<(seq<Byte>, int)> {
    if script == [] then None
    else if script[0] == 0x76 then
      if |script| < 23 then None else Some((script[3..23], 0))
    else
      match TakePush(script)
      case None => None
      case Some(t) =>
        if |t.rest| < 25 then None else Some((t.rest[5..25], ScriptNumValue(t.item)))
  }

  /** A locked script gives back its key hash and its lock time: no two pairs share a script. */
  lemma ReadTimelockBack(hash: seq<Byte>, locktime: int)
    requires |hash| == 20 && |ScriptNum(locktime)| < U32
    ensures ReadTimelock(TimelockedScript(hash, locktime)) == Some((hash, locktime))
  {
    if locktime != 0 {
      var num := ScriptNum(locktime);
      var rest := [0xB1, 0x75] + P2pkhScript(hash);
      assert PushData(num) + [0xB1, 0x75] + P2pkhScript(hash) == PushData(num) + rest;
      ReadPushed(num, rest);
      HashInRest(hash);
      ScriptNumBack(locktime);
    }
  }

  lemma ReadPushed(num: seq<Byte>, rest: seq<Byte>)
    requires |num| < U32 && |rest| >= 25
    ensures ReadTimelock(PushData(num) + rest) == Some((rest[5..25], ScriptNumValue(num)))
  {
    TakePushBack(num, rest);
    assert (PushData(num) + rest)[0] == PushData(num)[0];
  }

  lemma HashInRest(hash: seq<Byte>)
    requires |hash| == 20
    ensures ([0xB1, 0x75] + P2pkhScript(hash))[5..25] == hash
  {
    assert ([0xB1, 0x75] + P2pkhScript(hash))[5..25] == P2pkhScript(hash)[3..23];
  }

  // ------------------------------------------------------------------ the outputs

  function Total(outputs: seq<Output>): int {
    if outputs == [] then 0 else outputs[0].value + Total(outputs[1..])
  }

  /** A four-byte lock time takes at most five bytes as a script number. */
  lemma LockTimeFits(locktime: int)
    requires 0 <= locktime < U32
    ensures |ScriptNum(locktime)| <= 5
  {
    Widths();
    if locktime > 0 { MagnitudeLength(locktime, 4); }
  }

  function Tranches(hash: seq<Byte>, times: seq<int>): (outputs: seq<Output>)
    requires |hash| == 20 && forall i :: 0 <= i < |times| ==> 0 <= times[i] < U32
    ensures |outputs| == |times|
  {
    if times == [] then [] else
    LockTimeFits(times[0]);
    [Output(PREMINE_TRANCHE_AMOUNT, TimelockedScript(hash, times[0]))] + Tranches(hash, times[1..])
  }

  function GenesisOutputs(hash: seq<Byte>, single: bool, opTrue: bool): seq<Output>
    requires |hash| == 20
  {
    if opTrue then [Output(GENESIS_PREMINE, OP_TRUE_SCRIPT)]
    else if single then [Output(GENESIS_PREMINE, P2pkhScript(hash))]
    else Tranches(hash, PREMINE_UNLOCK_TIMES)
  }

  lemma {:induction false} TranchesTotal(hash: seq<Byte>, times: seq<int>)
    requires |hash| == 20 && forall i :: 0 <= i < |times| ==> 0 <= times[i] < U32
    ensures Total(Tranches(hash, times)) == |times| * PREMINE_TRANCHE_AMOUNT
  {
    hide TimelockedScript;
    if times != [] {
      TranchesTotal(hash, times[1..]);
      assert Tranches(hash, times)[1..] == Tranches(hash, times[1..]);
    }
  }

  /** Whatever the options, the outputs mint exactly the premine. */
  lemma OutputsMintPremine(hash: seq<Byte>, single: bool, opTrue: bool)
    requires |hash| == 20
    ensures Total(GenesisOutputs(hash, single, opTrue)) == GENESIS_PREMINE
  {
    if !opTrue && !single {
      TranchesTotal(hash, PREMINE_UNLOCK_TIMES);
    } else {
      var o := GenesisOutputs(hash, single, opTrue);
      assert o[1..] == [];
    }
  }

  // ------------------------------------------------------------------ the transaction

  const BITCOIN_NBITS := 486604799

  function ScriptSig(phrase: seq<Byte>): seq<Byte>
    requires |phrase| < U32
  {
    NumbersFit();
    PushData(ScriptNum(BITCOIN_NBITS)) + PushData(ScriptNum(4)) + PushData(phrase)
  }

  lemma NumbersFit()
    ensures |ScriptNum(BITCOIN_NBITS)| <= 5 && |ScriptNum(4)| <= 5
  {
    LockTimeFits(BITCOIN_NBITS);
    LockTimeFits(4);
  }

  function OutputBytes(o: Output): seq<Byte>
    requires o.Packs()
  {
    Signed8(o.value) + (Varint(|o.script|) + o.script)
  }

  function OutputsBytes(outputs: seq<Output>): seq<Byte>
    requires AllPack(outputs)
  {
    if outputs == [] then [] else OutputBytes(outputs[0]) + OutputsBytes(outputs[1..])
  }

  /** Version 1, one null input with the script signature, the outputs, lock time 0. */
  function CoinbaseTx(outputs: seq<Output>, phrase: seq<Byte>): seq<Byte>
    requires AllPack(outputs) && |outputs| < U64
    requires |phrase| < U32 && |ScriptSig(phrase)| < U64
  {
    Head() + (Varint(|ScriptSig(phrase)|) + (ScriptSig(phrase) + (LE4(U32 - 1)
      + (Varint(|outputs|) + (OutputsBytes(outputs) + LE4(0))))))
  }

  /** Everything before the script signature: version, input count, null outpoint. */
  function Head(): (bs: seq<Byte>)
    ensures |bs| == 41
  {
    LE4(1) + Varint(1) + Zeros(32) + LE4(U32 - 1)
  }

  /** `build_coinbase_tx` as it runs, appending field by field. */
  method BuildCoinbaseTx(outputs: seq<Output>, phrase: seq<Byte>) returns (tx: seq<Byte>)
    requires AllPack(outputs) && |outputs| < U64
    requires |phrase| < U32 && |ScriptSig(phrase)| < U64
    ensures tx == CoinbaseTx(outputs, phrase)
  {
    var scriptSig := ScriptSig(phrase);
    tx := BuildHead();
    tx := AppendBody(tx, scriptSig, U32 - 1, outputs);
  }

  method BuildHead() returns (tx: seq<Byte>)
    ensures tx == Head()
  {
    tx := LE4(1);
    tx := tx + Varint(1);
    tx := tx + Zeros(32);
    tx := tx + LE4(U32 - 1);
  }

  /** The fields after the null outpoint, in order. */
  method AppendBody(start: seq<Byte>, scriptSig: seq<Byte>, sequence: nat, outputs: seq<Output>)
    returns (tx: seq<Byte>)
    requires |scriptSig| < U64 && sequence < U32 && AllPack(outputs) && |outputs| < U64
    ensures tx == start + (Varint(|scriptSig|) + (scriptSig + (LE4(sequence)
                    + (Varint(|outputs|) + (OutputsBytes(outputs) + LE4(0))))))
  {
    tx := start + (Varint(|scriptSig|) + scriptSig);
    tx := tx + LE4(sequence);
    tx := tx + Varint(|outputs|);
    tx := AppendOutputs(tx, outputs);
    tx := tx + LE4(0);
    JoinFields(start, Varint(|scriptSig|), scriptSig, LE4(sequence), Varint(|outputs|),
               OutputsBytes(outputs), LE4(0));
  }

  lemma JoinFields(a: seq<Byte>, b: seq<Byte>, c: seq<Byte>, d: seq<Byte>, e: seq<Byte>, f: seq<Byte>, g: seq<Byte>)
    ensures a + (b + c) + d + e + f + g == a + (b + (c + (d + (e + (f + g)))))
  {}

  method AppendOutputs(start: seq<Byte>, outputs: seq<Output>) returns (tx: seq<Byte>)
    requires AllPack(outputs)
    ensures tx == start + OutputsBytes(outputs)
  {
    tx := start;
    for i := 0 to |outputs|
      invariant tx + OutputsBytes(outputs[i..]) == start + OutputsBytes(outputs)
    {
      assert outputs[i..][1..] == outputs[i + 1..];
      var o := outputs[i];
      ghost var before, rest := tx, OutputsBytes(outputs[i + 1..]);
      assert OutputsBytes(outputs[i..]) == OutputBytes(o) + rest;
      tx := tx + Signed8(o.value);
      tx := tx + (Varint(|o.script|) + o.script);
      assert tx == before + OutputBytes(o) by { hide Signed8, Varint; }
      hide *;
      assert before + (OutputBytes(o) + rest) == (before + OutputBytes(o)) + rest;
    }
  }

  // ------------------------------------------------------------------ reading it back

  function TakeOutput(bs: seq<Byte>): Option<Taken<Output>> {
    match TakeSigned8(bs)
    case None => None
    case Some(v) =>
      match TakeScript(v.rest)
      case None => None
      case Some(s) => Some(Taken(Output(v.item, s.item), s.rest))
  }

  function TakeScript(bs: seq<Byte>): Option<Taken<seq<Byte>>> {
    match TakeVarint(bs)
    case None => None
    case Some(n) => TakeBytes(n.rest, n.item)
  }

  function TakeOutputs(bs: seq<Byte>, count: nat): Option<Taken<seq<Output>>> {
    if count == 0 then Some(Taken([], bs)) else
    match TakeOutput(bs)
    case None => None
    case Some(o) =>
      match TakeOutputs(o.rest, count - 1)
      case None => None
      case Some(os) => Some(Taken([o.item] + os.item, os.rest))
  }

  function TakePhrase(scriptSig: seq<Byte>): Option<seq<Byte>> {
    match TakePush(scriptSig)
    case None => None
    case Some(a) =>
      match TakePush(a.rest)
      case None => None
      case Some(b) =>
        match TakePush(b.rest)
        case None => None
        case Some(c) => if c.rest == [] then Some(c.item) else None
  }

  /** The outputs and the phrase of a coinbase, or nothing if the bytes are not one. */
  function ReadCoinbase(tx: seq<Byte>): Option<(seq<Output>, seq<Byte>)> {
    if |tx| < 41 || tx[..41] != Head() then None else
    match TakeVarint(tx[41..])
    case None => None
    case Some(n) =>
      match TakeBytes(n.rest, n.item)
      case None => None
      case Some(sig) =>
        match TakeLE(sig.rest, 4)
        case None => None
        case Some(sequence) => ReadTail(TakePhrase(sig.item), sequence.rest)
  }

  function ReadTail(phrase: Option<seq<Byte>>, bs: seq<Byte>): Option<(seq<Output>, seq<Byte>)> {
    if phrase.None? then None else
    match TakeVarint(bs)
    case None => None
    case Some(count) =>
      match TakeOutputs(count.rest, count.item)
      case None => None
      case Some(outputs) =>
        if outputs.rest == LE4(0) then Some((outputs.item, phrase.value)) else None
  }

  lemma TakeOutputBack(o: Output, rest: seq<Byte>)
    requires o.Packs()
    ensures TakeOutput(OutputBytes(o) + rest) == Some(Taken(o, rest))
  {
    var sized := Varint(|o.script|) + o.script;
    TakeSigned8Back(o.value, sized + rest);
    assert OutputBytes(o) + rest == Signed8(o.value) + (sized + rest);
    TakeScriptBack(o.script, rest);
  }

  lemma TakeScriptBack(script: seq<Byte>, rest: seq<Byte>)
    requires |script| < U64
    ensures TakeScript((Varint(|script|) + script) + rest) == Some(Taken(script, rest))
  {
    TakeVarintBack(|script|, script + rest);
    assert (Varint(|script|) + script) + rest == Varint(|script|) + (script + rest);
    TakeBytesBack(script, rest);
  }

  lemma {:induction false} TakeOutputsBack(outputs: seq<Output>, rest: seq<Byte>)
    requires AllPack(outputs)
    ensures TakeOutputs(OutputsBytes(outputs) + rest, |outputs|) == Some(Taken(outputs, rest))
  {
    hide OutputBytes, TakeOutput;
    if outputs == [] {
      assert OutputsBytes(outputs) + rest == rest;
    } else {
      var more := OutputsBytes(outputs[1..]);
      TakeOutputBack(outputs[0], more + rest);
      assert OutputsBytes(outputs) + rest == OutputBytes(outputs[0]) + (more + rest);
      TakeOutputsBack(outputs[1..], rest);
      assert [outputs[0]] + outputs[1..] == outputs;
    }
  }

  lemma TakePhraseBack(phrase: seq<Byte>)
    requires |phrase| < U32
    ensures TakePhrase(ScriptSig(phrase)) == Some(phrase)
  {
    NumbersFit();
    var a, b, c := ScriptNum(BITCOIN_NBITS), ScriptNum(4), PushData(phrase);
    TakePushBack(a, PushData(b) + c);
    assert ScriptSig(phrase) == PushData(a) + (PushData(b) + c);
    TakePushBack(b, c);
    TakePushBack(phrase, []);
    assert c + [] == c;
  }

  lemma ReadTailBack(outputs: seq<Output>, phrase: seq<Byte>)
    requires AllPack(outputs) && |outputs| < U64
    ensures ReadTail(Some(phrase), Varint(|outputs|) + (OutputsBytes(outputs) + LE4(0)))
         == Some((outputs, phrase))
  {
    TakeVarintBack(|outputs|, OutputsBytes(outputs) + LE4(0));
    TakeOutputsBack(outputs, LE4(0));
  }

  /**
   The serialization is unambiguous: the bytes determine the phrase and every output, in
   order, for all values and lengths the packing accepts.
   */
  lemma ReadCoinbaseBack(outputs: seq<Output>, phrase: seq<Byte>)
    requires AllPack(outputs) && |outputs| < U64
    requires |phrase| < U32 && |ScriptSig(phrase)| < U64
    ensures ReadCoinbase(CoinbaseTx(outputs, phrase)) == Some((outputs, phrase))
  {
    Widths();
    var sig := ScriptSig(phrase);
    var tail := Varint(|outputs|) + (OutputsBytes(outputs) + LE4(0));
    var afterSig := LE4(U32 - 1) + tail;
    var body := Varint(|sig|) + (sig + afterSig);
    assert CoinbaseTx(outputs, phrase) == Head() + body;
    TakeBytesBack(Head(), body);
    TakeVarintBack(|sig|, sig + afterSig);
    TakeBytesBack(sig, afterSig);
    TakeLEBack(U32 - 1, 4, tail);
    TakePhraseBack(phrase);
    ReadTailBack(outputs, phrase);
  }

  // ------------------------------------------------------------------ the header

  function Header(version: int, prev: seq<Byte>, merkle: seq<Byte>, time: nat, bits: nat, nonce: nat): seq<Byte>
    requires -0x8000_0000 <= version < 0x8000_0000 && time < U32 && bits < U32 && nonce < U32
  {
    Signed4(version) + prev + merkle + LE4(time) + LE4(bits) + LE4(nonce)
  }

  /** The 76-byte prefix the miner keeps, plus a packed nonce, is the whole header, for every nonce. */
  lemma PrefixPlusNonce(version: int, prev: seq<Byte>, merkle: seq<Byte>, time: nat, bits: nat, nonce: nat)
    requires -0x8000_0000 <= version < 0x8000_0000 && time < U32 && bits < U32 && nonce < U32
    requires |prev| == 32 && |merkle| == 32
    ensures |Header(version, prev, merkle, time, bits, 0)| == 80
    ensures Header(version, prev, merkle, time, bits, 0)[..76] + LE4(nonce)
         == Header(version, prev, merkle, time, bits, nonce)
  {
    var prefix := Signed4(version) + prev + merkle + LE4(time) + LE4(bits);
    assert Header(version, prev, merkle, time, bits, 0)[..76] == prefix;
  }

  /** Different nonces give different headers, so different inputs to the hash. */
  lemma NoncesDiffer(prefix: seq<Byte>, m: nat, n: nat)
    requires m < U32 && n < U32 && prefix + LE4(m) == prefix + LE4(n)
    ensures m == n
  {
    Widths();
    LEValueOfLE(m, 4);
    LEValueOfLE(n, 4);
    assert LE4(m) == (prefix + LE4(m))[|prefix|..];
    assert LE4(n) == (prefix + LE4(n))[|prefix|..];
  }
}
