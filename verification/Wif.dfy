/** Wallet import format: a private key as a Base58Check string. */
module Wif {
  import opened Bytes
  import opened Positional
  import opened Text
  import opened Base58

  /** A decoded key: the scalar, the version byte and the compression flag. */
  datatype Key = Key(scalar: nat, version: Byte, compressed: bool)

  /** One more than the largest 32-byte number. */
  function KeySpan(width: nat): nat { Shl8(1, width) }

  function Payload(key: Key): (p: seq<Byte>)
    ensures |p| == if key.compressed then 34 else 33
  {
    [key.version] + ToBytes(key.scalar, 32) + (if key.compressed then [1] else [])
  }

  /** The string for a key whose scalar fits in 32 bytes. */
  function ToWif(sha: Hash, key: Key): string
    requires key.scalar < KeySpan(32)
  {
    Print(sha, Payload(key))
  }

  /** `to_wif` as it runs: the body grows, then is printed. */
  method BuildWif(sha: Hash, key: Key) returns (wif: string)
    requires key.scalar < KeySpan(32)
    ensures wif == ToWif(sha, key)
  {
    var body: seq<Byte> := [key.version] + ToBytes(key.scalar, 32);
    if key.compressed {
      body := body + [1];
    }
    assert body == Payload(key);
    wif := B58Check(sha, body);
  }

  function KeyOf(payload: seq<Byte>): Key
    requires |payload| in {33, 34}
  {
    Key(Value(payload[1..33], 256), payload[0], |payload| == 34 && payload[33] == 1)
  }

  function ParseWif(sha: Hash, text: string): Result<Key> {
    match Read(Strip(text))
    case Err(e) => Err(e)
    case Ok(raw) =>
      if |raw| !in {37, 38} then Err(WrongLength(|raw|))
      else if Checksum(sha, Body(raw)) != Tail(raw) then Err(BadChecksum)
      else Ok(KeyOf(Body(raw)))
  }

  method WifToPrivkey(sha: Hash, text: string) returns (r: Result<Key>)
    ensures r == ParseWif(sha, text)
  {
    hide Strip, Decode, Value, Checksum;
    var wif := Strip(text);
    var read := ReadLoop(wif);
    if read.Err? {
      return Err(read.error);
    }
    var raw := read.value;
    if |raw| != 37 && |raw| != 38 {
      return Err(WrongLength(|raw|));
    }
    var payload, checksum := raw[..|raw| - 4], raw[|raw| - 4..];
    if Checksum(sha, payload) != checksum {
      return Err(BadChecksum);
    }
    var compressed := |payload| == 34 && payload[|payload| - 1] == 1;
    r := Ok(Key(Value(payload[1..33], 256), payload[0], compressed));
  }

  /** Every key survives the trip through its string, for both compression flags. */
  lemma WifRoundTrip(sha: Hash, key: Key)
    requires key.scalar < KeySpan(32)
    ensures ParseWif(sha, ToWif(sha, key)) == Ok(key)
  {
    var p := Payload(key);
    var wif := ToWif(sha, key);
    hide Checksum, Decode, Strip, Print, ParseCheck, ParseWif;
    ReadableIsStripped(wif);
    ParsePrint(sha, p);
    ParseWifIs(sha, wif, p);
    assert p[1..33] == ToBytes(key.scalar, 32);
    ValueOfToBytes(key.scalar, 32);
  }

  /** What a key spells: the version, the scalar in 32 bytes, a 1 if compressed, four bytes of double hash. */
  lemma WifBytes(sha: Hash, key: Key)
    requires key.scalar < KeySpan(32)
    ensures Readable(ToWif(sha, key))
    ensures var raw := Decode(ToWif(sha, key)); var n := |raw|;
            && n == (if key.compressed then 38 else 37)
            && raw[0] == key.version && Value(raw[1..33], 256) == key.scalar
            && (key.compressed ==> raw[33] == 1)
            && raw[n - 4..] == sha(sha(raw[..n - 4]))[..4]
  {
    hide Value, ToBytes, Decode, Print, Readable;
    var p := Payload(key);
    var raw := p + sha(sha(p))[..4];
    PrintedNumber(sha, p);
    ValueOfToBytes(key.scalar, 32);
    assert raw[1..33] == ToBytes(key.scalar, 32);
    assert raw[..|raw| - 4] == p && raw[|raw| - 4..] == sha(sha(p))[..4];
  }

  lemma ReadableIsStripped(s: string)
    requires Readable(s)
    ensures Strip(s) == s
  {
    forall i | 0 <= i < |s| ensures !IsSpace(s[i]) { SymbolIsGraphic(s[i]); }
    StripKeeps(s);
  }

  /** The key parser accepts what the address parser accepts, at two lengths only. */
  lemma ParseWifIs(sha: Hash, text: string, payload: seq<Byte>)
    requires |payload| in {33, 34}
    ensures ParseCheck(sha, Strip(text)) == Ok(payload) ==> ParseWif(sha, text) == Ok(KeyOf(payload))
  {}

  /** The scalar of an accepted string always fits in 32 bytes. */
  lemma {:induction false} ValueBound(bs: seq<Byte>)
    ensures Value(bs, 256) < Shl8(1, |bs|)
  {
    if bs != [] { ValueBound(bs[..|bs| - 1]); }
  }

  /** The body a key prints is the payload it was read from, but for one case. */
  lemma KeyOfReprints(payload: seq<Byte>)
    requires |payload| in {33, 34}
    ensures KeyOf(payload).scalar < KeySpan(32)
    ensures Payload(KeyOf(payload)) == payload <==> |payload| == 33 || payload[33] == 1
  {
    ValueBound(payload[1..33]);
    ToBytesOfValue(payload[1..33]);
    hide ToBytes, Value;
    assert payload[..33] == [payload[0]] + payload[1..33];
    if |payload| == 34 { assert payload == payload[..33] + [payload[33]]; }
  }

  /**
   The other direction has one gap. An accepted string is what its key prints back
   exactly when its payload is 33 bytes, or 34 ending in the byte 1: a 34-byte payload
   with any other last byte is accepted and read as an uncompressed key.
   */
  lemma WifReprints(sha: Hash, text: string)
    requires ParseWif(sha, text).Ok?
    ensures ParseCheck(sha, Strip(text)).Ok?
    ensures var payload := ParseCheck(sha, Strip(text)).value;
            var key := ParseWif(sha, text).value;
            && |payload| in {33, 34}
            && key.scalar < KeySpan(32)
            && (ToWif(sha, key) == Strip(text) <==> |payload| == 33 || payload[33] == 1)
  {
    var s := Strip(text);
    var payload := Body(Decode(s));
    var key := KeyOf(payload);
    assert ParseCheck(sha, s) == Ok(payload) && ParseWif(sha, text) == Ok(key);
    hide Strip, Decode, Checksum, Payload, KeyOf, Print, ParseCheck, ParseWif;
    KeyOfReprints(payload);
    PrintParse(sha, s);
    ParsePrint(sha, payload);
    ParsePrint(sha, Payload(key));
  }

  /** Any 34-byte payload with another last byte shows it: its string is accepted, its key prints a different one. */
  lemma LooseFlagByte(sha: Hash, payload: seq<Byte>)
    requires |payload| == 34 && payload[33] != 1
    ensures ParseWif(sha, Print(sha, payload)) == Ok(KeyOf(payload))
    ensures KeyOf(payload).scalar < KeySpan(32) && ToWif(sha, KeyOf(payload)) != Print(sha, payload)
  {
    var s := Print(sha, payload);
    ReadableIsStripped(s);
    ParsePrint(sha, payload);
    ParseWifIs(sha, s, payload);
    hide Checksum, Decode, Strip, Print, ParseCheck, KeyOf;
    WifReprints(sha, s);
  }
}
