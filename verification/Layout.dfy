/**
 What the byte formats look like from outside: which form each length takes, that it is
 the shortest there is, and where every field of the coinbase and the header stands.
 */
module Layout {
  import opened Amounts
  import opened Arith
  import opened Bytes
  import opened Coinbase
  import opened Options
  import opened Positional
  import opened Serialization

  // ------------------------------------------------------------------ integers

  lemma {:induction false} LEByte(n: nat, width: nat, i: nat)
    requires n < Shl8(1, width) && i < width
    ensures LE(n, width)[i] == Shr8(n, i) % 256
  {
    if i > 0 { LEByte(n / 256, width - 1, i - 1); }
  }

  /** Four bytes, the least significant first. */
  lemma LE4Is(n: nat)
    requires n < U32
    ensures LE4(n) == [n % 256, n / 0x100 % 256, n / 0x1_0000 % 256, n / 0x100_0000]
  {
    Widths();
    LEByte(n, 4, 0);
    LEByte(n, 4, 1);
    LEByte(n, 4, 2);
    LEByte(n, 4, 3);
    ShrByHand(n);
    hide LE, Shr8, Shl8;
  }

  lemma ShrByHand(n: nat)
    ensures Shr8(n, 0) == n && Shr8(n, 1) == n / 0x100
    ensures Shr8(n, 2) == n / 0x1_0000 && Shr8(n, 3) == n / 0x100_0000
  {
    assert Shr8(n, 1) == Shr8(n / 256, 0);
    assert Shr8(n, 2) == Shr8(n / 256, 1) == n / 256 / 256;
    assert Shr8(n, 3) == Shr8(n / 256, 2) == n / 256 / 256 / 256;
  }

  /** Every string of bytes is the little-endian form of its value. */
  lemma {:induction false} LEOfValue(bs: seq<Byte>)
    ensures LEValue(bs) < Shl8(1, |bs|) && LE(LEValue(bs), |bs|) == bs
  {
    if bs != [] {
      var rest := LEValue(bs[1..]);
      LEOfValue(bs[1..]);
      LowByte(bs[0], rest);
      assert bs == [bs[0]] + bs[1..];
    }
  }

  lemma LowByte(b: Byte, rest: nat)
    ensures (b + 256 * rest) % 256 == b && (b + 256 * rest) / 256 == rest
  {}

  // ------------------------------------------------------------------ CompactSize

  /** Up to 252 the byte itself; then a tag and two, four or eight bytes, the least significant first. */
  lemma VarintForm(n: nat)
    requires n < U64
    ensures |Varint(n)| == 1 <==> n <= 252
    ensures |Varint(n)| == 3 <==> 253 <= n <= 65535
    ensures |Varint(n)| == 5 <==> 65536 <= n <= 4294967295
    ensures |Varint(n)| == 9 <==> n >= 4294967296
    ensures n <= 252 ==> Varint(n) == [n]
    ensures n > 252 ==> Varint(n)[0] == (if n < 65536 then 253 else if n < 4294967296 then 254 else 255)
                        && LEValue(Varint(n)[1..]) == n
  {
    Widths();
    if n < 0xFD { LEOne(n); }
    else if n <= 0xFFFF { LEValueOfLE(n, 2); }
    else if n <= 0xFFFF_FFFF { LEValueOfLE(n, 4); }
    else { LEValueOfLE(n, 8); }
  }

  /** No shorter bytes are read as the same length, and no others of that size. */
  lemma VarintIsShortest(bs: seq<Byte>, n: nat)
    requires n < U64 && TakeVarint(bs) == Some(Taken(n, []))
    ensures |bs| >= |Varint(n)|
    ensures |bs| == |Varint(n)| ==> bs == Varint(n)
  {
    Widths();
    VarintForm(n);
    var tail := bs[1..];
    if bs[0] < 0xFD {
      assert bs == [bs[0]] + tail;
    } else {
      var width := if bs[0] == 0xFD then 2 else if bs[0] == 0xFE then 4 else 8;
      assert |tail| == width && tail[..width] == tail;
      LEOfValue(tail);
      assert bs == [bs[0]] + tail;
      hide LE, Shl8;
    }
  }

  // ------------------------------------------------------------------ pushes

  /** Up to 75 bytes the length itself in front; then a tag and one, two or four bytes of length. */
  lemma PushForm(data: seq<Byte>)
    requires |data| < U32
    ensures var extra := |PushData(data)| - |data|;
            && (extra == 1 <==> |data| <= 75)
            && (extra == 2 <==> 76 <= |data| <= 255)
            && (extra == 3 <==> 256 <= |data| <= 65535)
            && (extra == 5 <==> |data| >= 65536)
            && extra >= 1 && PushData(data)[extra..] == data
            && (extra == 1 ==> PushData(data)[0] == |data|)
            && (extra > 1 ==> PushData(data)[0] == (if extra == 2 then 76 else if extra == 3 then 77 else 78)
                              && LEValue(PushData(data)[1..extra]) == |data|)
  {
    Widths();
    var n, p := |data|, PushData(data);
    if n < 0x4C { LEOne(n); }
    else if n <= 0xFF { LEValueOfLE(n, 1); assert p[1..2] == LE1(n); }
    else if n <= 0xFFFF { LEValueOfLE(n, 2); assert p[1..3] == LE2(n); }
    else { LEValueOfLE(n, 4); assert p[1..5] == LE4(n); }
  }

  // ------------------------------------------------------------------ script numbers

  /** A number written with zeros on top is its magnitude and those zeros. */
  lemma {:induction false} MagnitudeAndZeros(bs: seq<Byte>)
    ensures var m := Magnitude(LEValue(bs)); |m| <= |bs| && bs == m + Zeros(|bs| - |m|)
  {
    if bs != [] {
      MagnitudeAndZeros(bs[1..]);
      var v, rest := LEValue(bs), LEValue(bs[1..]);
      var m := Magnitude(rest);
      assert v / 256 == rest && v % 256 == bs[0];
      assert bs == [bs[0]] + bs[1..];
      if v == 0 {
        assert Zeros(|bs|) == [0] + Zeros(|bs| - 1);
      } else {
        assert Magnitude(v) == [bs[0]] + m;
      }
    }
  }

  /** A script number is the shortest form that reads as its integer, and the only one of that size. */
  lemma ScriptNumIsShortest(n: int, bs: seq<Byte>)
    requires n != 0 && ScriptNumValue(bs) == n
    ensures |bs| >= |ScriptNum(n)|
    ensures |bs| == |ScriptNum(n)| ==> bs == ScriptNum(n)
  {
    EmptyIsZero(bs);
    SignedValue(n, bs);
    ScriptNumIs(n);
    hide *;
    var top := |bs| - 1;
    var plain := if bs[top] >= 0x80 then bs[top := bs[top] - 0x80] else bs;
    MagnitudeAndZeros(plain);
    ShortestSigned(plain, Magnitude(Abs(n)), n < 0);
    assert bs == if n < 0 then plain[top := plain[top] + 0x80] else plain;
  }

  lemma EmptyIsZero(bs: seq<Byte>)
    ensures bs == [] ==> ScriptNumValue(bs) == 0
  {}

  lemma ScriptNumIs(n: int)
    requires n != 0
    ensures var m := Magnitude(Abs(n)); m != [] && m[|m| - 1] > 0 && ScriptNum(n) == WithSign(m, n < 0)
  {
    hide Magnitude;
  }

  lemma SignedValue(n: int, bs: seq<Byte>)
    requires bs != [] && ScriptNumValue(bs) == n && n != 0
    ensures var top := |bs| - 1;
            var plain := if bs[top] >= 0x80 then bs[top := bs[top] - 0x80] else bs;
            LEValue(plain) == Abs(n) && (n < 0 <==> bs[top] >= 0x80)
  {
    hide LEValue;
  }

  lemma ShortestSigned(plain: seq<Byte>, m: seq<Byte>, neg: bool)
    requires plain != [] && plain[|plain| - 1] < 0x80 && m != [] && m[|m| - 1] > 0
    requires |m| <= |plain| && plain == m + Zeros(|plain| - |m|)
    ensures |plain| >= |WithSign(m, neg)|
    ensures var top := |plain| - 1;
            |plain| == |WithSign(m, neg)| ==>
              WithSign(m, neg) == if neg then plain[top := plain[top] + 0x80] else plain
  {
    if |plain| == |m| { assert plain == m; }
    if |plain| == |m| + 1 { assert plain == m + [0]; }
  }

  /** A positive number of four bytes with a clear top bit is its four bytes. */
  lemma FourByteNum(t: int)
    requires 0x100_0000 <= t < 0x8000_0000
    ensures ScriptNum(t) == LE4(t)
  {
    Widths();
    var bs := LE4(t);
    LEValueOfLE(t, 4);
    LE4Is(t);
    assert bs[3] == t / 0x100_0000 && 1 <= bs[3] < 0x80;
    MagnitudeAndZeros(bs);
    var m := Magnitude(t);
    assert bs == m + Zeros(4 - |m|);
    hide *;
    NoZerosOnTop(bs, m);
    SameSize(t, bs, m);
  }

  lemma NoZerosOnTop(bs: seq<Byte>, m: seq<Byte>)
    requires |m| <= |bs| && bs == m + Zeros(|bs| - |m|) && bs != []
    ensures bs[|bs| - 1] != 0 ==> bs == m
  {
    var z := Zeros(|bs| - |m|);
    if z != [] { assert bs[|bs| - 1] == z[|z| - 1]; }
  }

  lemma SameSize(t: int, bs: seq<Byte>, m: seq<Byte>)
    requires t > 0 && m == Magnitude(t) && m == bs && |bs| == 4 && bs[3] < 0x80
    ensures ScriptNum(t) == bs
  {
    hide Magnitude;
  }

  // ------------------------------------------------------------------ scripts and outputs

  lemma ScriptLayout(hash: seq<Byte>, locktime: int)
    requires |hash| == 20 && 0x100_0000 <= locktime < 0x8000_0000
    ensures |ScriptNum(locktime)| == 4
    ensures P2pkhScript(hash) == [0x76, 0xA9, 0x14] + hash + [0x88, 0xAC]
    ensures TimelockedScript(hash, locktime)
         == [4] + LE4(locktime) + [0xB1, 0x75, 0x76, 0xA9, 0x14] + hash + [0x88, 0xAC]
  {
    FourByteNum(locktime);
    var num := ScriptNum(locktime);
    PushForm(num);
    assert PushData(num) == [4] + num;
    hide PushData, ScriptNum, LE4;
    assert [0xB1, 0x75] + [0x76, 0xA9, 0x14] == [0xB1, 0x75, 0x76, 0xA9, 0x14];
  }

  /** The five tranches: 400,000 WAM each, locked to the key until their times. */
  lemma TranchesAre(hash: seq<Byte>, i: nat)
    requires |hash| == 20 && i < 5
    ensures |GenesisOutputs(hash, false, false)| == 5
    ensures GenesisOutputs(hash, false, false)[i]
         == Output(400_000 * 100_000_000,
                   [4] + LE4([1820966400, 1852588800, 1884124800, 1915660800, 1947196800][i])
                   + [0xB1, 0x75, 0x76, 0xA9, 0x14] + hash + [0x88, 0xAC])
  {
    TrancheIs(hash, PREMINE_UNLOCK_TIMES, i);
    ScriptLayout(hash, PREMINE_UNLOCK_TIMES[i]);
  }

  lemma FirstTranche(hash: seq<Byte>, times: seq<int>)
    requires |hash| == 20 && times != [] && forall k :: 0 <= k < |times| ==> 0 <= times[k] < U32
    ensures |ScriptNum(times[0])| < U32
    ensures Tranches(hash, times)
         == [Output(PREMINE_TRANCHE_AMOUNT, TimelockedScript(hash, times[0]))] + Tranches(hash, times[1..])
  {
    LockTimeFits(times[0]);
    hide TimelockedScript, ScriptNum;
  }

  lemma {:induction false} TrancheIs(hash: seq<Byte>, times: seq<int>, i: nat)
    requires |hash| == 20 && i < |times| && forall k :: 0 <= k < |times| ==> 0 <= times[k] < U32
    ensures |ScriptNum(times[i])| < U32
    ensures Tranches(hash, times)[i] == Output(PREMINE_TRANCHE_AMOUNT, TimelockedScript(hash, times[i]))
  {
    LockTimeFits(times[i]);
    FirstTranche(hash, times);
    hide *;
    var rest := times[1..];
    if i > 0 {
      TrancheIs(hash, rest, i - 1);
      assert rest[i - 1] == times[i];
    }
  }

  /** An output is its value, the length of its script, and the script; one after the other. */
  lemma OutputsLayout(o: Output, rest: seq<Output>)
    requires o.Packs() && AllPack(rest)
    ensures AllPack([o] + rest)
    ensures OutputsBytes([o] + rest) == Signed8(o.value) + Varint(|o.script|) + o.script + OutputsBytes(rest)
    ensures LEValue(Signed8(o.value)) == if o.value < 0 then o.value + U64 else o.value
  {
    Widths();
    LEValueOfLE(if o.value < 0 then o.value + U64 else o.value, 8);
    assert ([o] + rest)[1..] == rest;
    hide Signed8, Varint;
    assert Signed8(o.value) + (Varint(|o.script|) + o.script) == Signed8(o.value) + Varint(|o.script|) + o.script;
  }

  // ------------------------------------------------------------------ the coinbase and the header

  lemma SigLayout(phrase: seq<Byte>)
    requires |phrase| < U32
    ensures ScriptSig(phrase) == [4, 0xFF, 0xFF, 0x00, 0x1D, 1, 4] + PushData(phrase)
  {
    FirstNumber();
    SmallNum();
    hide *;
    ScriptSigIs(phrase);
    PushForm(ScriptNum(BITCOIN_NBITS));
    PushForm(ScriptNum(4));
    SevenBytes(PushData(ScriptNum(BITCOIN_NBITS)), PushData(ScriptNum(4)));
  }

  lemma SevenBytes(a: seq<Byte>, b: seq<Byte>)
    requires |a| == 5 && a[0] == 4 && a[1..] == [0xFF, 0xFF, 0x00, 0x1D]
    requires |b| == 2 && b[0] == 1 && b[1..] == [4]
    ensures a + b == [4, 0xFF, 0xFF, 0x00, 0x1D, 1, 4]
  {
    assert forall i :: 0 <= i < 4 ==> a[i + 1] == a[1..][i];
    assert b[1] == b[1..][0];
  }

  lemma ScriptSigIs(phrase: seq<Byte>)
    requires |phrase| < U32
    ensures |ScriptNum(BITCOIN_NBITS)| < U32 && |ScriptNum(4)| < U32
    ensures ScriptSig(phrase) == PushData(ScriptNum(BITCOIN_NBITS)) + PushData(ScriptNum(4)) + PushData(phrase)
  {
    NumbersFit();
    hide PushData, ScriptNum;
  }

  lemma FirstNumber()
    ensures ScriptNum(BITCOIN_NBITS) == [0xFF, 0xFF, 0x00, 0x1D]
  {
    var n := BITCOIN_NBITS;
    FourByteNum(n);
    LE4Is(n);
    hide ScriptNum, LE4;
  }

  lemma SmallNum()
    ensures ScriptNum(4) == [4]
  {
    assert Magnitude(0) == [];
    assert Magnitude(4) == [4 % 256] + Magnitude(4 / 256);
  }

  /** Every field of the coinbase, in its place. */
  lemma CoinbaseLayout(outputs: seq<Output>, phrase: seq<Byte>)
    requires AllPack(outputs) && |outputs| < U64
    requires |phrase| < U32 && |ScriptSig(phrase)| < U64
    ensures var sig := [4, 0xFF, 0xFF, 0x00, 0x1D, 1, 4] + PushData(phrase);
            |sig| < U64 &&
            CoinbaseTx(outputs, phrase)
              == [1, 0, 0, 0] + [1] + Zeros(32) + [255, 255, 255, 255]
                 + (Varint(|sig|) + (sig + ([255, 255, 255, 255]
                 + (Varint(|outputs|) + (OutputsBytes(outputs) + [0, 0, 0, 0])))))
  {
    SigLayout(phrase);
    HeadIs();
    hide ScriptSig, LE4, Varint, OutputsBytes, PushData, Head;
  }

  lemma HeadIs()
    ensures Head() == [1, 0, 0, 0] + [1] + Zeros(32) + [255, 255, 255, 255]
    ensures LE4(U32 - 1) == [255, 255, 255, 255] && LE4(0) == [0, 0, 0, 0]
  {
    LE4Is(1);
    LE4Is(U32 - 1);
    LE4Is(0);
    VarintForm(1);
    hide LE4, Varint;
  }

  /** Every field of the header, in its place, integers with the least significant byte first. */
  lemma HeaderLayout(version: int, prev: seq<Byte>, merkle: seq<Byte>, time: nat, bits: nat, nonce: nat)
    requires -0x8000_0000 <= version < 0x8000_0000 && time < U32 && bits < U32 && nonce < U32
    requires |prev| == 32 && |merkle| == 32
    ensures var h := Header(version, prev, merkle, time, bits, nonce);
            && |h| == 80
            && LEValue(h[..4]) == (if version < 0 then version + U32 else version)
            && h[4..36] == prev && h[36..68] == merkle
            && LEValue(h[68..72]) == time && LEValue(h[72..76]) == bits && LEValue(h[76..80]) == nonce
  {
    Widths();
    LEValueOfLE(if version < 0 then version + U32 else version, 4);
    LEValueOfLE(time, 4);
    LEValueOfLE(bits, 4);
    LEValueOfLE(nonce, 4);
    var v := Signed4(version);
    var h := Header(version, prev, merkle, time, bits, nonce);
    hide LEValue, LE;
    Fields(v, prev, merkle, LE4(time), LE4(bits), LE4(nonce));
  }

  lemma Fields(a: seq<Byte>, b: seq<Byte>, c: seq<Byte>, d: seq<Byte>, e: seq<Byte>, f: seq<Byte>)
    requires |a| == |d| == |e| == |f| == 4 && |b| == |c| == 32
    ensures var h := a + b + c + d + e + f;
            && h[..4] == a && h[4..36] == b && h[36..68] == c
            && h[68..72] == d && h[72..76] == e && h[76..80] == f
  {}
}
