/** Shifts by whole bytes, and the length of a number in bits and in bytes. */
module Bytes {

  /** `x << (8 * k)`, one byte at a time. */
  function Shl8(x: nat, k: nat): nat {
    if k == 0 then x else 256 * Shl8(x, k - 1)
  }

  /** `x >> (8 * k)`, one byte at a time. */
  function Shr8(x: nat, k: nat): nat {
    if k == 0 then x else Shr8(x / 256, k - 1)
  }

  /** `x >> k`. */
  function Shr(x: nat, k: nat): nat {
    if k == 0 then x else Shr(x / 2, k - 1)
  }

  /** Python's `int.bit_length` on a non-negative number. */
  function BitLength(n: nat): nat {
    if n == 0 then 0 else 1 + BitLength(n / 2)
  }

  /** The number of bytes `(n.bit_length() + 7) // 8` needs for `n`. */
  function ByteLength(n: nat): nat {
    (BitLength(n) + 7) / 8
  }

  lemma {:induction false} ShlAdds(x: nat, y: nat, k: nat)
    ensures Shl8(x + y, k) == Shl8(x, k) + Shl8(y, k)
  {
    if k > 0 { ShlAdds(x, y, k - 1); }
  }

  lemma {:induction false} ShlScales(c: nat, x: nat, k: nat)
    ensures Shl8(c * x, k) == c * Shl8(x, k)
  {
    if c == 0 {
      ShlZero(k);
    } else {
      ShlScales(c - 1, x, k);
      ShlAdds((c - 1) * x, x, k);
      assert (c - 1) * x + x == c * x;
      assert (c - 1) * Shl8(x, k) + Shl8(x, k) == c * Shl8(x, k);
    }
  }

  lemma {:induction false} ShlZero(k: nat)
    ensures Shl8(0, k) == 0
  {
    if k > 0 { ShlZero(k - 1); }
  }

  lemma {:induction false} ShlOrder(x: nat, y: nat, k: nat)
    ensures x <= y <==> Shl8(x, k) <= Shl8(y, k)
  {
    if k > 0 { ShlOrder(x, y, k - 1); }
  }

  /** Byte `j` of a shift counts from either end: `(x << 8j) << 8k == x << 8(j + k)`. */
  lemma {:induction false} ShlShl(x: nat, j: nat, k: nat)
    ensures Shl8(Shl8(x, j), k) == Shl8(x, j + k)
  {
    if k > 0 { ShlShl(x, j, k - 1); }
  }

  /** The two shifts are a Galois connection: shifting right is the floor of undoing a left shift. */
  lemma {:induction false} ShrFloor(x: nat, y: nat, k: nat)
    ensures x <= Shr8(y, k) <==> Shl8(x, k) <= y
  {
    if k > 0 { ShrFloor(x, y / 256, k - 1); }
  }

  lemma ShrOfShl(x: nat, y: nat, k: nat)
    requires Shl8(x, k) <= y < Shl8(x + 1, k)
    ensures Shr8(y, k) == x
  {
    ShrFloor(x, y, k);
    ShrFloor(x + 1, y, k);
  }

  /** `y` loses less than one unit of the last place kept. */
  lemma ShrBounds(y: nat, k: nat)
    ensures Shl8(Shr8(y, k), k) <= y < Shl8(Shr8(y, k) + 1, k)
  {
    ShrFloor(Shr8(y, k), y, k);
    ShrFloor(Shr8(y, k) + 1, y, k);
  }

  lemma ByteOfBits(n: nat)
    requires n >= 256
    ensures BitLength(n) == 8 + BitLength(n / 256)
  {
    var a := n / 2;
    var b := a / 2;
    var c := b / 2;
    var d := c / 2;
    var e := d / 2;
    var f := e / 2;
    var g := f / 2;
    assert BitLength(n) == 1 + BitLength(a) && BitLength(a) == 1 + BitLength(b);
    assert BitLength(b) == 1 + BitLength(c) && BitLength(c) == 1 + BitLength(d);
    assert BitLength(d) == 1 + BitLength(e) && BitLength(e) == 1 + BitLength(f);
    assert BitLength(f) == 1 + BitLength(g) && BitLength(g) == 1 + BitLength(g / 2);
    assert g / 2 == n / 256;
  }

  lemma BitsOfByte(n: nat)
    requires 0 < n < 256
    ensures 1 <= BitLength(n) <= 8
  {
    BitLengthBound(n, 8);
  }

  lemma {:induction false} BitLengthBound(n: nat, k: nat)
    requires n < Pow2(k)
    ensures BitLength(n) <= k
  {
    if n > 0 { BitLengthBound(n / 2, k - 1); }
  }

  function Pow2(k: nat): (p: nat)
    ensures p > 0
  {
    if k == 0 then 1 else 2 * Pow2(k - 1)
  }

  /** Dropping the last byte shortens a number by one byte. */
  lemma ByteLengthStep(n: nat)
    requires n > 0
    ensures ByteLength(n) == 1 + ByteLength(n / 256)
  {
    if n < 256 { BitsOfByte(n); } else { ByteOfBits(n); }
  }

  /** `ByteLength` is the exact number of base-256 digits. */
  lemma {:induction false} ByteLengthBounds(n: nat)
    ensures n < Shl8(1, ByteLength(n))
    ensures n > 0 ==> ByteLength(n) > 0 && Shl8(1, ByteLength(n) - 1) <= n
  {
    if n > 0 {
      ByteLengthStep(n);
      ByteLengthBounds(n / 256);
    }
  }

  lemma {:induction false} ShlOneGrows(j: nat, k: nat)
    requires j <= k
    ensures Shl8(1, j) <= Shl8(1, k)
  {
    if j < k {
      ShlOneGrows(j, k - 1);
      assert Shl8(1, k) == 256 * Shl8(1, k - 1);
    }
  }
}
