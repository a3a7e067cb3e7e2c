/**
 Base58Check: the printer of the key generator, and the three parsers that read what it
 prints. SHA-256 is any function to 32 bytes.
 */
module Base58 {
  import opened Bytes
  import opened Positional
  import opened Text

  type Hash = f: seq<Byte> -> seq<Byte> | forall m :: |f(m)| == 32
    ghost witness _ => seq(32, _ => 0)

  /** Why a parser refuses a string. */
  datatype Error = BadCharacter(at: nat) | TooShort | WrongLength(bytes: nat) | BadChecksum
  datatype Result<+T> = Ok(value: T) | Err(error: Error)

  // In pieces: the solver looks no further than a dozen characters into one literal.
  const ALPHABET := "123456789" + "ABCDEFGH" + "JKLMN" + "PQRSTUVWXYZ" + "abcdefghijk" + "mnopqrstuvwxyz"

  /** The first four bytes of the double hash. */
  function Checksum(sha: Hash, payload: seq<Byte>): (c: seq<Byte>)
    ensures |c| == 4
  {
    sha(sha(payload))[..4]
  }

  // ------------------------------------------------------------------ the alphabet

  lemma AlphabetRises(i: nat)
    ensures |ALPHABET| == 58
    ensures i < 57 ==> ALPHABET[i] < ALPHABET[i + 1]
  {}

  lemma FirstSymbol()
    ensures |ALPHABET| == 58 && ALPHABET[0] == '1'
  {}

  lemma {:induction false} AlphabetSorted(i: nat, j: nat)
    requires i < j < |ALPHABET|
    ensures ALPHABET[i] < ALPHABET[j]
    decreases j - i
  {
    AlphabetRises(i);
    if i + 1 < j { AlphabetSorted(i + 1, j); }
  }

  /** Looking a symbol up gives back its digit: no symbol occurs twice. */
  lemma FindSymbol(d: nat)
    requires d < 58
    ensures |ALPHABET| == 58 && Find(ALPHABET, ALPHABET[d]) == d
  {
    AlphabetRises(0);
    var k := Find(ALPHABET, ALPHABET[d]);
    assert ALPHABET[d] in ALPHABET;
    if k < d { AlphabetSorted(k, d); }
    if d < k { AlphabetSorted(d, k); }
  }

  lemma SymbolIsGraphic(c: char)
    requires c in ALPHABET
    ensures '1' <= c <= 'z' && !IsSpace(c)
  {
    AlphabetRises(0);
    var k := Find(ALPHABET, c);
    if k > 0 { AlphabetSorted(0, k); }
    if k < 57 { AlphabetSorted(k, 57); }
  }

  predicate Readable(s: string) { forall i :: 0 <= i < |s| ==> s[i] in ALPHABET }

  function Symbols(ds: seq<nat>): (s: string)
    requires Proper(ds, 58)
    ensures |s| == |ds| && Readable(s)
  {
    AlphabetRises(0);
    seq(|ds|, i requires 0 <= i < |ds| => ALPHABET[ds[i]])
  }

  function SymbolDigits(s: string): (ds: seq<nat>)
    requires Readable(s)
    ensures |ds| == |s| && Proper(ds, 58)
    ensures forall i :: 0 <= i < |s| ==> ds[i] == Find(ALPHABET, s[i])
  {
    AlphabetRises(0);
    seq(|s|, i requires 0 <= i < |s| => Find(ALPHABET, s[i]))
  }

  lemma SymbolsInvert(ds: seq<nat>)
    requires Proper(ds, 58)
    ensures SymbolDigits(Symbols(ds)) == ds
  {
    AlphabetRises(0);
    forall i | 0 <= i < |ds| ensures SymbolDigits(Symbols(ds))[i] == ds[i] {
      FindSymbol(ds[i]);
    }
  }

  lemma SymbolDigitsInvert(s: string)
    requires Readable(s)
    ensures Symbols(SymbolDigits(s)) == s
  {}

  // ------------------------------------------------------------------ bytes and text

  /** Bytes in base 58, one `1` for each leading zero byte. */
  function Encode(raw: seq<Byte>): (s: string)
    ensures Readable(s)
  {
    Symbols(Rebase(raw, 256, 58))
  }

  /** The bytes a readable string stands for. */
  function Decode(s: string): (raw: seq<Byte>)
    requires Readable(s)
  {
    Rebase(SymbolDigits(s), 58, 256)
  }

  lemma DecodeEncode(raw: seq<Byte>)
    ensures Decode(Encode(raw)) == raw
  {
    SymbolsInvert(Rebase(raw, 256, 58));
    RebaseInverts(raw, 256, 58);
  }

  lemma EncodeDecode(s: string)
    requires Readable(s)
    ensures Encode(Decode(s)) == s
  {
    RebaseInverts(SymbolDigits(s), 58, 256);
    SymbolDigitsInvert(s);
  }

  // ------------------------------------------------------------------ the printer

  function Print(sha: Hash, payload: seq<Byte>): (s: string)
    ensures Readable(s)
  {
    Encode(payload + Checksum(sha, payload))
  }

  /** `b58check`: divide by 58 until nothing is left, then one `1` per leading zero byte. */
  method B58Check(sha: Hash, payload: seq<Byte>) returns (out: string)
    ensures out == Print(sha, payload)
  {
    var raw := payload + Checksum(sha, payload);
    out := DivideLoop(Value(raw, 256));
    out := PadZeros(raw, Digits(Value(raw, 256), 58), out);
  }

  /** The first loop of the printer: remainders by 58, each put in front. */
  method DivideLoop(number: nat) returns (out: string)
    ensures out == Symbols(Digits(number, 58))
  {
    var n := number;
    ghost var tail: seq<nat> := [];
    out := "";
    assert Digits(n, 58) + tail == Digits(number, 58);
    while n > 0
      invariant Proper(tail, 58) && out == Symbols(tail)
      invariant Digits(n, 58) + tail == Digits(number, 58)
    {
      DigitStep(n, 58);
      var q, r := n / 58, n % 58;
      PushSymbol(r, tail);
      ghost var rest := Digits(q, 58);
      assert Digits(n, 58) + tail == rest + ([r] + tail);
      n, out, tail := q, [ALPHABET[r]] + out, [r] + tail;
    }
    assert tail == Digits(number, 58);
  }

  /** The second loop of the printer: a `1` in front for each leading zero byte. */
  method PadZeros(raw: seq<Byte>, ghost all: seq<nat>, digits: string) returns (out: string)
    requires Proper(all, 58) && digits == Symbols(all)
    ensures out == Symbols(Zeros(LeadingZeros(raw)) + all)
  {
    var k := 0;
    out := digits;
    assert Zeros(0) + all == all;
    while k < |raw| && raw[k] == 0
      invariant k <= |raw| && raw[..k] == Zeros(k)
      invariant out == Symbols(Zeros(k) + all)
    {
      FirstSymbol();
      PushSymbol(0, Zeros(k) + all);
      assert Zeros(k + 1) + all == [0] + (Zeros(k) + all);
      out := "1" + out;
      k := k + 1;
    }
    LeadingZerosIs(raw, k);
  }

  lemma PushSymbol(d: nat, ds: seq<nat>)
    requires d < 58 && Proper(ds, 58)
    ensures |ALPHABET| == 58 && Symbols([d] + ds) == [ALPHABET[d]] + Symbols(ds)
  {
    AlphabetRises(0);
    var out := Symbols([d] + ds);
    assert out[0] == ALPHABET[d] && out[1..] == Symbols(ds);
  }

  // ------------------------------------------------------------------ the parsers

  /** The first character that is not in the alphabet, or the length of the string. */
  function FirstBad(symbols: string, s: string): (k: nat)
    ensures k <= |s| && forall i :: 0 <= i < k ==> s[i] in symbols
    ensures k < |s| ==> s[k] !in symbols
  {
    if s == "" || s[0] !in symbols then 0 else 1 + FirstBad(symbols, s[1..])
  }

  /** All three parsers read the characters first. */
  function Read(s: string): (r: Result<seq<Byte>>)
    ensures r.Ok? <==> Readable(s)
    ensures r.Ok? ==> r.value == Decode(s)
  {
    var k := FirstBad(ALPHABET, s);
    if k < |s| then Err(BadCharacter(k)) else
    assert s[..k] == s;
    Ok(Decode(s))
  }

  function Body(raw: seq<Byte>): seq<Byte> requires |raw| >= 4 { raw[..|raw| - 4] }
  function Tail(raw: seq<Byte>): seq<Byte> requires |raw| >= 4 { raw[|raw| - 4..] }

  /** What `base58_decode_check` accepts, and the payload it returns. */
  function ParseCheck(sha: Hash, s: string): Result<seq<Byte>> {
    match Read(s)
    case Err(e) => Err(e)
    case Ok(raw) =>
      if |raw| < 5 then Err(TooShort)
      else if Checksum(sha, Body(raw)) != Tail(raw) then Err(BadChecksum)
      else Ok(Body(raw))
  }

  /** What the address checker's `decode` returns: a payload, and whether its checksum holds. */
  function ParseAddress(sha: Hash, s: string): Result<(seq<Byte>, bool)> {
    match Read(s)
    case Err(e) => Err(e)
    case Ok(raw) =>
      if |raw| != 25 then Err(WrongLength(|raw|))
      else Ok((Body(raw), Tail(raw) == Checksum(sha, Body(raw))))
  }

  /** The loop every parser runs: the value of the digits, then the zero bytes put back. */
  method ReadLoop(s: string) returns (r: Result<seq<Byte>>)
    ensures r == Read(s)
  {
    var n := 0;
    var i := 0;
    while i < |s|
      invariant 0 <= i <= |s| && Readable(s[..i])
      invariant n == Value(SymbolDigits(s[..i]), 58)
    {
      var idx := Find(ALPHABET, s[i]);
      if idx < 0 {
        FirstBadIs(s, i);
        return Err(BadCharacter(i));
      }
      AppendSymbol(s, i);
      n := n * 58 + idx;
      i := i + 1;
    }
    assert s[..i] == s;
    ToMinimalBytes(n);
    var raw: seq<Byte> := if n > 0 then ToBytes(n, ByteLength(n)) else [];
    var pad := CountOnes(s);
    r := Ok(Zeros(pad) + raw);
  }

  lemma AppendSymbol(s: string, i: nat)
    requires i < |s| && Readable(s[..i]) && s[i] in ALPHABET
    ensures Readable(s[..i + 1])
    ensures Value(SymbolDigits(s[..i + 1]), 58)
         == Value(SymbolDigits(s[..i]), 58) * 58 + Find(ALPHABET, s[i])
  {
    hide Find;
    assert s[..i + 1] == s[..i] + [s[i]];
    var ds := SymbolDigits(s[..i + 1]);
    assert ds[..|ds| - 1] == SymbolDigits(s[..i]);
  }

  /** `len(s) - len(s.lstrip("1"))`. */
  method CountOnes(s: string) returns (pad: nat)
    requires Readable(s)
    ensures pad == LeadingZeros(SymbolDigits(s))
  {
    hide *;
    pad := 0;
    ghost var ds := SymbolDigits(s);
    while pad < |s| && s[pad] == '1'
      invariant 0 <= pad <= |s| && ds[..pad] == Zeros(pad)
    {
      OneIsZero(s, pad);
      assert ds[..pad + 1] == ds[..pad] + [0];
      pad := pad + 1;
    }
    if pad < |s| { OneIsZero(s, pad); }
    LeadingZerosIs(ds, pad);
  }

  lemma OneIsZero(s: string, i: nat)
    requires Readable(s) && i < |s|
    ensures SymbolDigits(s)[i] == 0 <==> s[i] == '1'
  {
    FirstSymbol();
    FindSymbol(0);
    hide SymbolDigits;
  }

  lemma {:induction false} FirstBadIs(s: string, k: nat)
    requires k < |s| && Readable(s[..k]) && s[k] !in ALPHABET
    ensures FirstBad(ALPHABET, s) == k
  {
    if k > 0 {
      assert s[0] == s[..k][0];
      assert s[1..][..k - 1] == s[..k][1..];
      FirstBadIs(s[1..], k - 1);
    }
  }

  method Base58DecodeCheck(sha: Hash, s: string) returns (r: Result<seq<Byte>>)
    ensures r == ParseCheck(sha, s)
  {
    var read := ReadLoop(s);
    if read.Err? {
      return Err(read.error);
    }
    var raw := read.value;
    if |raw| < 5 {
      return Err(TooShort);
    }
    var payload, checksum := raw[..|raw| - 4], raw[|raw| - 4..];
    if Checksum(sha, payload) != checksum {
      return Err(BadChecksum);
    }
    r := Ok(payload);
  }

  method DecodeAddress(sha: Hash, s: string) returns (r: Result<(seq<Byte>, bool)>)
    ensures r == ParseAddress(sha, s)
  {
    var read := ReadLoop(s);
    if read.Err? {
      return Err(read.error);
    }
    var raw := read.value;
    if |raw| != 25 {
      return Err(WrongLength(|raw|));
    }
    var payload, checksum := raw[..|raw| - 4], raw[|raw| - 4..];
    r := Ok((payload, checksum == Checksum(sha, payload)));
  }

  // ------------------------------------------------------------------ the bijection

  /** Parsing what was printed gives the payload back, leading zero bytes included. */
  lemma ParsePrint(sha: Hash, payload: seq<Byte>)
    ensures ParseCheck(sha, Print(sha, payload)) == if payload == [] then Err(TooShort) else Ok(payload)
  {
    var raw := payload + Checksum(sha, payload);
    DecodeEncode(raw);
    assert Body(raw) == payload && Tail(raw) == Checksum(sha, payload);
  }

  /** What acceptance says of the bytes read. */
  lemma AcceptedBytes(sha: Hash, s: string)
    requires ParseCheck(sha, s).Ok?
    ensures Readable(s) && |Decode(s)| >= 5 && Checksum(sha, Body(Decode(s))) == Tail(Decode(s))
    ensures ParseCheck(sha, s).value == Body(Decode(s))
  {
    hide Decode, Checksum;
  }

  /** Printing what was parsed gives the string back: no two spellings of one payload. */
  lemma PrintParse(sha: Hash, s: string)
    requires ParseCheck(sha, s).Ok?
    ensures Print(sha, ParseCheck(sha, s).value) == s
  {
    AcceptedBytes(sha, s);
    hide Decode, Encode, Checksum, Readable, ParseCheck;
    var raw := Decode(s);
    EncodeDecode(s);
    assert Body(raw) + Tail(raw) == raw;
  }

  /**
   The address checker reports a valid checksum on exactly the strings the generator's
   parser accepts with a 21-byte payload, and reports the same payload.
   */
  lemma ParsersAgree(sha: Hash, s: string, payload: seq<Byte>)
    ensures ParseAddress(sha, s) == Ok((payload, true))
       <==> ParseCheck(sha, s) == Ok(payload) && |payload| == 21
  {}

  // ------------------------------------------------------------------ what stands in the string

  /** The symbols are the digits and letters without 0, I, O and l. */
  lemma AlphabetIs(c: char)
    ensures c in ALPHABET <==>
              ('1' <= c <= '9' || 'A' <= c <= 'Z' || 'a' <= c <= 'z') && c != 'I' && c != 'O' && c != 'l'
  {
    var a, b, d := "123456789", "ABCDEFGH" + "JKLMN" + "PQRSTUVWXYZ", "abcdefghijk" + "mnopqrstuvwxyz";
    assert c in ALPHABET <==> c in a || c in b || c in d;
    InDigits(c);
    InCapitals(c);
    InSmall(c);
  }

  lemma InDigits(c: char)
    ensures c in "123456789" <==> '1' <= c <= '9'
  {}

  lemma InCapitals(c: char)
    ensures c in "ABCDEFGH" <==> 'A' <= c <= 'H'
    ensures c in "JKLMN" <==> 'J' <= c <= 'N'
    ensures c in "PQRSTUVWXYZ" <==> 'P' <= c <= 'Z'
  {}

  lemma InSmall(c: char)
    ensures c in "abcdefghijk" <==> 'a' <= c <= 'k'
    ensures c in "mnopqrstuvwxyz" <==> 'm' <= c <= 'z'
  {}

  /** The string is the number of the payload and its double hash in base 58, one `1` for each zero byte in front. */
  lemma PrintedNumber(sha: Hash, payload: seq<Byte>)
    ensures var raw, ds := payload + sha(sha(payload))[..4], SymbolDigits(Print(sha, payload));
            && Value(ds, 58) == Value(raw, 256)
            && LeadingZeros(ds) == LeadingZeros(raw)
    ensures Decode(Print(sha, payload)) == payload + sha(sha(payload))[..4]
  {
    var raw := payload + sha(sha(payload))[..4];
    DecodeEncode(raw);
    SymbolsInvert(Rebase(raw, 256, 58));
    RebaseKeeps(raw, 256, 58);
  }

  /** A string is accepted with a payload exactly when it spells the payload and four bytes of its double hash. */
  lemma AcceptedExactly(sha: Hash, s: string, payload: seq<Byte>)
    ensures ParseCheck(sha, s) == Ok(payload) <==>
              Readable(s) && payload != [] && Decode(s) == payload + sha(sha(payload))[..4]
  {
    if Readable(s) {
      ParseReadable(sha, s);
      var c := sha(sha(payload))[..4];
      CutsAt(Decode(s), payload, c);
      ChecksumIs(sha, payload);
      hide *;
    } else if ParseCheck(sha, s).Ok? {
      AcceptedBytes(sha, s);
    }
  }

  lemma ChecksumIs(sha: Hash, payload: seq<Byte>)
    ensures Checksum(sha, payload) == sha(sha(payload))[..4] && |sha(sha(payload))[..4]| == 4
  {}

  lemma ParseReadable(sha: Hash, s: string)
    requires Readable(s)
    ensures var raw := Decode(s);
            ParseCheck(sha, s) == if |raw| < 5 then Err(TooShort)
                                  else if Checksum(sha, Body(raw)) != Tail(raw) then Err(BadChecksum)
                                  else Ok(Body(raw))
  {
    hide Decode, Checksum, Readable;
  }

  lemma CutsAt(raw: seq<Byte>, payload: seq<Byte>, c: seq<Byte>)
    requires |c| == 4
    ensures raw == payload + c <==> |raw| >= 4 && Body(raw) == payload && Tail(raw) == c
    ensures |raw| >= 4 ==> (|raw| >= 5 <==> Body(raw) != [])
  {
    if |raw| >= 4 { assert raw == Body(raw) + Tail(raw); }
    if raw == payload + c { assert raw[..|raw| - 4] == payload && raw[|raw| - 4..] == c; }
  }
}
