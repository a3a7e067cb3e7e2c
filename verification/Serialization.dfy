/**
 The byte formats of the genesis coinbase: little-endian integers, CompactSize, script
 pushes and script numbers, each with the reader that undoes it.
 */
module Serialization {
  import opened Arith
  import opened Bytes
  import opened Options
  import opened Positional

  /** What a reader took off the front, and what is left. */
  datatype Taken<+T> = Taken(item: T, rest: seq<Byte>)

  // ------------------------------------------------------------------ integers

  /** `struct.pack` of an unsigned integer in `width` little-endian bytes. */
  function LE(n: nat, width: nat): (bs: seq<Byte>)
    requires n < Shl8(1, width)
    ensures |bs| == width
  {
    if width == 0 then [] else [n % 256] + LE(n / 256, width - 1)
  }

  function LEValue(bs: seq<Byte>): nat {
    if bs == [] then 0 else bs[0] + 256 * LEValue(bs[1..])
  }

  lemma {:induction false} LEValueOfLE(n: nat, width: nat)
    requires n < Shl8(1, width)
    ensures LEValue(LE(n, width)) == n
  {
    if width > 0 {
      LEValueOfLE(n / 256, width - 1);
      assert LE(n, width)[1..] == LE(n / 256, width - 1);
    }
  }

  function TakeBytes(bs: seq<Byte>, n: nat): Option<Taken<seq<Byte>>> {
    if |bs| < n then None else Some(Taken(bs[..n], bs[n..]))
  }

  function TakeLE(bs: seq<Byte>, width: nat): Option<Taken<nat>> {
    if |bs| < width then None else Some(Taken(LEValue(bs[..width]), bs[width..]))
  }

  lemma TakeBytesBack(bs: seq<Byte>, rest: seq<Byte>)
    ensures TakeBytes(bs + rest, |bs|) == Some(Taken(bs, rest))
  {
    assert (bs + rest)[..|bs|] == bs && (bs + rest)[|bs|..] == rest;
  }

  lemma TakeLEBack(n: nat, width: nat, rest: seq<Byte>)
    requires n < Shl8(1, width)
    ensures TakeLE(LE(n, width) + rest, width) == Some(Taken(n, rest))
  {
    LEValueOfLE(n, width);
    TakeBytesBack(LE(n, width), rest);
  }

  /** The widths `struct` knows, as numbers. */
  lemma Widths()
    ensures Shl8(1, 1) == 0x100 && Shl8(1, 2) == 0x1_0000 && Shl8(1, 4) == 0x1_0000_0000
    ensures Shl8(1, 8) == 0x1_0000_0000_0000_0000
  {
    ShlShl(1, 4, 4);
    ShlScales(0x1_0000_0000, 1, 4);
    assert 0x1_0000_0000 * 1 == 0x1_0000_0000;
  }

  const U32 := 0x1_0000_0000
  const U64 := 0x1_0000_0000_0000_0000

  function LE1(n: nat): (bs: seq<Byte>) requires n < 0x100 ensures |bs| == 1 { Widths(); LE(n, 1) }
  function LE2(n: nat): (bs: seq<Byte>) requires n < 0x1_0000 ensures |bs| == 2 { Widths(); LE(n, 2) }
  function LE4(n: nat): (bs: seq<Byte>) requires n < U32 ensures |bs| == 4 { Widths(); LE(n, 4) }
  function LE8(n: nat): (bs: seq<Byte>) requires n < U64 ensures |bs| == 8 { Widths(); LE(n, 8) }

  /** `struct.pack("<i", v)`: two's complement in four bytes. */
  function Signed4(v: int): (bs: seq<Byte>)
    requires -0x8000_0000 <= v < 0x8000_0000
    ensures |bs| == 4
  {
    LE4(if v < 0 then v + U32 else v)
  }

  /** `struct.pack("<q", v)`: two's complement in eight bytes. */
  function Signed8(v: int): (bs: seq<Byte>)
    requires -0x8000_0000_0000_0000 <= v < 0x8000_0000_0000_0000
    ensures |bs| == 8
  {
    LE8(if v < 0 then v + U64 else v)
  }

  function TakeSigned8(bs: seq<Byte>): Option<Taken<int>> {
    match TakeLE(bs, 8)
    case None => None
    case Some(t) => Some(Taken(if t.item >= 0x8000_0000_0000_0000 then t.item - U64 else t.item, t.rest))
  }

  lemma TakeSigned8Back(v: int, rest: seq<Byte>)
    requires -0x8000_0000_0000_0000 <= v < 0x8000_0000_0000_0000
    ensures TakeSigned8(Signed8(v) + rest) == Some(Taken(v, rest))
  {
    Widths();
    TakeLEBack(if v < 0 then v + U64 else v, 8, rest);
  }

  // ------------------------------------------------------------------ CompactSize

  function Varint(n: nat): (bs: seq<Byte>)
    requires n < U64
    ensures bs != []
  {
    if n < 0xFD then LE1(n)
    else if n <= 0xFFFF then [0xFD] + LE2(n)
    else if n <= 0xFFFF_FFFF then [0xFE] + LE4(n)
    else [0xFF] + LE8(n)
  }

  function TakeVarint(bs: seq<Byte>): Option<Taken<nat>> {
    if bs == [] then None
    else if bs[0] < 0xFD then Some(Taken(bs[0], bs[1..]))
    else TakeLE(bs[1..], if bs[0] == 0xFD then 2 else if bs[0] == 0xFE then 4 else 8)
  }

  /** The length prefix reads back whatever follows it: no prefix is the start of another. */
  lemma TakeVarintBack(n: nat, rest: seq<Byte>)
    requires n < U64
    ensures TakeVarint(Varint(n) + rest) == Some(Taken(n, rest))
  {
    Widths();
    if n < 0xFD {
      LEOne(n);
      assert ([n] + rest)[1..] == rest;
    } else if n <= 0xFFFF {
      TakeTagged(0xFD, n, 2, rest);
    } else if n <= 0xFFFF_FFFF {
      TakeTagged(0xFE, n, 4, rest);
    } else {
      TakeTagged(0xFF, n, 8, rest);
    }
  }

  lemma LEOne(n: nat)
    requires n < 0x100
    ensures LE1(n) == [n]
  {
    assert LE(n / 256, 0) == [];
  }

  lemma TakeTagged(tag: Byte, n: nat, width: nat, rest: seq<Byte>)
    requires n < Shl8(1, width)
    ensures var bs := [tag] + LE(n, width) + rest;
            bs[0] == tag && TakeLE(bs[1..], width) == Some(Taken(n, rest))
  {
    assert ([tag] + LE(n, width) + rest)[1..] == LE(n, width) + rest;
    TakeLEBack(n, width, rest);
  }

  // ------------------------------------------------------------------ pushes

  function PushData(data: seq<Byte>): (bs: seq<Byte>)
    requires |data| < U32
    ensures bs != [] && bs[0] <= 0x4E
  {
    var n := |data|;
    if n < 0x4C then assert LE1(n)[0] == n; LE1(n) + data
    else if n <= 0xFF then [0x4C] + LE1(n) + data
    else if n <= 0xFFFF then [0x4D] + LE2(n) + data
    else [0x4E] + LE4(n) + data
  }

  function TakePush(bs: seq<Byte>): Option<Taken<seq<Byte>>> {
    if bs == [] then None
    else if bs[0] < 0x4C then TakeBytes(bs[1..], bs[0])
    else if bs[0] > 0x4E then None
    else
      match TakeLE(bs[1..], if bs[0] == 0x4C then 1 else if bs[0] == 0x4D then 2 else 4)
      case None => None
      case Some(t) => TakeBytes(t.rest, t.item)
  }

  lemma TakePushBack(data: seq<Byte>, rest: seq<Byte>)
    requires |data| < U32
    ensures TakePush(PushData(data) + rest) == Some(Taken(data, rest))
  {
    Widths();
    var n := |data|;
    TakeBytesBack(data, rest);
    if n < 0x4C {
      LEOne(n);
      assert ([n] + data + rest)[1..] == data + rest;
    } else if n <= 0xFF {
      TakeTagged(0x4C, n, 1, data + rest);
      assert [0x4C] + LE1(n) + data + rest == [0x4C] + LE1(n) + (data + rest);
    } else if n <= 0xFFFF {
      TakeTagged(0x4D, n, 2, data + rest);
      assert [0x4D] + LE2(n) + data + rest == [0x4D] + LE2(n) + (data + rest);
    } else {
      TakeTagged(0x4E, n, 4, data + rest);
      assert [0x4E] + LE4(n) + data + rest == [0x4E] + LE4(n) + (data + rest);
    }
  }

  // ------------------------------------------------------------------ script numbers

  /** The bytes of a magnitude, least significant first, none for zero. */
  function Magnitude(n: nat): (bs: seq<Byte>)
    ensures n > 0 ==> bs != [] && bs[|bs| - 1] > 0
  {
    if n == 0 then [] else [n % 256] + Magnitude(n / 256)
  }

  /** A magnitude with its sign in the top bit, one byte longer if that bit is taken. */
  function WithSign(bs: seq<Byte>, neg: bool): (r: seq<Byte>)
    requires bs != []
    ensures r != []
  {
    var last := bs[|bs| - 1];
    if last >= 0x80 then bs + [if neg then 0x80 else 0]
    else if neg then bs[|bs| - 1 := last + 0x80]
    else bs
  }

  function Abs(n: int): nat { if n < 0 then -n else n }

  function ScriptNum(n: int): (bs: seq<Byte>)
    ensures bs != []
  {
    if n == 0 then [0] else WithSign(Magnitude(Abs(n)), n < 0)
  }

  /** `script_num` as it runs: the magnitude a byte at a time, then the sign. */
  method BuildScriptNum(n: int) returns (out: seq<Byte>)
    ensures out == ScriptNum(n)
  {
    if n == 0 {
      return [0];
    }
    var neg := n < 0;
    out := BuildMagnitude(Abs(n));
    if out[|out| - 1] / 0x80 % 2 == 1 {
      out := out + [if neg then 0x80 else 0x00];
    } else if neg {
      out := out[|out| - 1 := out[|out| - 1] + 0x80];
    }
  }

  method BuildMagnitude(n: nat) returns (out: seq<Byte>)
    ensures out == Magnitude(n)
  {
    assert Magnitude(0) == [];
    hide Magnitude;
    var absn := n;
    out := [];
    while absn > 0
      invariant out + Magnitude(absn) == Magnitude(n)
    {
      MagnitudeStep(absn);
      Regroup(out, absn % 256, Magnitude(absn / 256));
      out := out + [absn % 256];
      absn := absn / 256;
    }
  }

  lemma Regroup(front: seq<Byte>, b: Byte, rest: seq<Byte>)
    ensures front + ([b] + rest) == (front + [b]) + rest
  {}

  lemma MagnitudeStep(n: nat)
    requires n > 0
    ensures Magnitude(n) == [n % 256] + Magnitude(n / 256)
  {}

  /** How a node reads a script number: little-endian, the top bit of the last byte is the sign. */
  function ScriptNumValue(bs: seq<Byte>): int {
    if bs == [] then 0 else
    var last := bs[|bs| - 1];
    if last >= 0x80 then 0 - LEValue(bs[|bs| - 1 := last - 0x80]) else LEValue(bs)
  }

  lemma {:induction false} MagnitudeValue(n: nat)
    ensures LEValue(Magnitude(n)) == n
  {
    if n > 0 {
      MagnitudeValue(n / 256);
      assert Magnitude(n)[1..] == Magnitude(n / 256);
    }
  }

  lemma {:induction false} LEValueAppendZero(bs: seq<Byte>)
    ensures LEValue(bs + [0]) == LEValue(bs)
  {
    if bs == [] {
      assert LEValue([0]) == 0 + 256 * LEValue([0][1..]);
    } else {
      LEValueAppendZero(bs[1..]);
      assert (bs + [0])[1..] == bs[1..] + [0];
    }
  }

  /** Every integer reads back as itself, whatever its sign and size. */
  lemma ScriptNumBack(n: int)
    ensures ScriptNumValue(ScriptNum(n)) == n
  {
    if n == 0 {
      var none: seq<Byte> := [];
      LEValueAppendZero(none);
      assert none + [0] == [0];
    } else {
      MagnitudeValue(Abs(n));
      SignReadsBack(Magnitude(Abs(n)), n < 0);
    }
  }

  lemma SignReadsBack(bs: seq<Byte>, neg: bool)
    requires bs != []
    ensures ScriptNumValue(WithSign(bs, neg)) == if neg then 0 - LEValue(bs) else LEValue(bs)
  {
    var last := bs[|bs| - 1];
    LEValueAppendZero(bs);
    if last >= 0x80 {
      assert (bs + [0x80])[|bs| := 0] == bs + [0];
    } else if neg {
      assert bs[|bs| - 1 := last + 0x80][|bs| - 1 := last] == bs;
    }
  }

  lemma {:induction false} MagnitudeLength(n: nat, width: nat)
    requires n < Shl8(1, width)
    ensures |Magnitude(n)| <= width
  {
    if n > 0 { MagnitudeLength(n / 256, width - 1); }
  }
}
