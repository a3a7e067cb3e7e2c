/** Numbers written as digits, most significant first, in any base. */
module Positional {
  import opened Arith
  import opened Bytes

  type Byte = x: nat | x < 256

  /** Horner's rule: the value of the digits, as the decoders accumulate it. */
  function Value(ds: seq<nat>, base: nat): nat {
    if ds == [] then 0 else Value(ds[..|ds| - 1], base) * base + ds[|ds| - 1]
  }

  /** The digits of `n` with no leading zero; none at all for zero. */
  function Digits(n: nat, base: nat): (ds: seq<nat>)
    requires base >= 2
    ensures Proper(ds, base)
  {
    if n == 0 then [] else
    DigitStep(n, base);
    Digits(n / base, base) + [n % base]
  }

  predicate Proper(ds: seq<nat>, base: nat) {
    forall i :: 0 <= i < |ds| ==> ds[i] < base
  }

  lemma DigitStep(n: nat, base: nat)
    requires base >= 2 && n > 0
    ensures n / base < n
  {
    DivMod(n, base);
    MulGrows(2, base, n / base);
  }

  function Zeros(k: nat): (z: seq<nat>)
    ensures |z| == k && forall i :: 0 <= i < k ==> z[i] == 0
  {
    seq(k, _ => 0)
  }

  function LeadingZeros(ds: seq<nat>): (k: nat)
    ensures k <= |ds| && ds[..k] == Zeros(k)
    ensures k < |ds| ==> ds[k] != 0
  {
    if ds != [] && ds[0] == 0 then 1 + LeadingZeros(ds[1..]) else 0
  }

  lemma {:induction false} LeadingZerosIs(ds: seq<nat>, k: nat)
    requires k <= |ds| && ds[..k] == Zeros(k) && (k < |ds| ==> ds[k] != 0)
    ensures LeadingZeros(ds) == k
  {
    if k > 0 {
      assert ds[0] == ds[..k][0];
      assert ds[1..][..k - 1] == ds[..k][1..];
      LeadingZerosIs(ds[1..], k - 1);
    }
  }

  lemma {:induction false} ValueOfDigits(n: nat, base: nat)
    requires base >= 2
    ensures Value(Digits(n, base), base) == n
  {
    if n > 0 {
      DigitStep(n, base);
      ValueOfDigits(n / base, base);
      var ds := Digits(n, base);
      assert ds[..|ds| - 1] == Digits(n / base, base);
      DivMod(n, base);
    }
  }

  lemma {:induction false} DigitsStartNonZero(n: nat, base: nat)
    requires base >= 2 && n > 0
    ensures Digits(n, base) != [] && Digits(n, base)[0] != 0
  {
    DigitStep(n, base);
    if n / base > 0 {
      DigitsStartNonZero(n / base, base);
    } else {
      DivMod(n, base);
    }
  }

  lemma ValuePositive(ds: seq<nat>, base: nat)
    requires base >= 1 && ds != [] && ds[0] != 0
    ensures Value(ds, base) > 0
  {
    if |ds| > 1 {
      ValuePositive(ds[..|ds| - 1], base);
      MulGrows(1, Value(ds[..|ds| - 1], base), base);
    } else {
      assert Value(ds[..0], base) == 0;
    }
  }

  /** Digits without a leading zero are the digits of their value. */
  lemma {:induction false} DigitsOfValue(ds: seq<nat>, base: nat)
    requires base >= 2 && Proper(ds, base) && (ds != [] ==> ds[0] != 0)
    ensures Digits(Value(ds, base), base) == ds
  {
    if ds != [] {
      var init, last := ds[..|ds| - 1], ds[|ds| - 1];
      DigitsOfValue(init, base);
      ValuePositive(ds, base);
      DivModIs(Value(init, base), last, base);
      assert ds == init + [last];
    }
  }

  lemma {:induction false} ValueSkipsZeros(k: nat, ds: seq<nat>, base: nat)
    ensures Value(Zeros(k) + ds, base) == Value(ds, base)
  {
    var all := Zeros(k) + ds;
    if ds == [] {
      if k > 0 {
        assert Zeros(k)[..k - 1] == Zeros(k - 1) + [];
        ValueSkipsZeros(k - 1, [], base);
        assert all == Zeros(k);
      }
    } else {
      var init := ds[..|ds| - 1];
      ValueSkipsZeros(k, init, base);
      assert all[..|all| - 1] == Zeros(k) + init;
    }
  }

  function Pow(base: nat, k: nat): nat { if k == 0 then 1 else Pow(base, k - 1) * base }

  /** The first digit weighs the most: its place counts the digits after it. */
  lemma {:induction false} FirstDigitWeighs(d: nat, ds: seq<nat>, base: nat)
    ensures Value([d] + ds, base) == d * Pow(base, |ds|) + Value(ds, base)
  {
    var all := [d] + ds;
    if ds == [] {
      assert all[..0] == [];
      assert Value(all, base) == 0 * base + d;
    } else {
      var n := |ds| - 1;
      FirstDigitWeighs(d, ds[..n], base);
      assert all[..n + 1] == [d] + ds[..n];
      Distribute(d * Pow(base, n), Value(ds[..n], base), base);
      Associate(d, Pow(base, n), base);
    }
  }

  lemma Distribute(x: nat, y: nat, base: nat)
    ensures (x + y) * base == x * base + y * base
  {}

  lemma Associate(x: nat, y: nat, base: nat)
    ensures x * y * base == x * (y * base)
  {}

  /** The same number in another base, keeping the count of leading zeros. */
  function Rebase(ds: seq<nat>, from: nat, to: nat): (r: seq<nat>)
    requires to >= 2
    ensures Proper(r, to)
  {
    Zeros(LeadingZeros(ds)) + Digits(Value(ds, from), to)
  }

  /** Changing base keeps the number and the count of leading zeros. */
  lemma RebaseKeeps(ds: seq<nat>, from: nat, to: nat)
    requires from >= 2 && to >= 2 && Proper(ds, from)
    ensures Value(Rebase(ds, from, to), to) == Value(ds, from)
    ensures LeadingZeros(Rebase(ds, from, to)) == LeadingZeros(ds)
  {
    var k, n := LeadingZeros(ds), Value(ds, from);
    var rest, ds' := ds[k..], Rebase(ds, from, to);
    assert ds == Zeros(k) + rest;
    ValueSkipsZeros(k, rest, from);
    if rest != [] {
      ValuePositive(rest, from);
      DigitsStartNonZero(n, to);
    }
    assert ds'[..k] == Zeros(k);
    LeadingZerosIs(ds', k);
    ValueSkipsZeros(k, Digits(n, to), to);
    ValueOfDigits(n, to);
  }

  /** Changing base and back is the identity, leading zeros included. */
  lemma RebaseInverts(ds: seq<nat>, from: nat, to: nat)
    requires from >= 2 && to >= 2 && Proper(ds, from)
    ensures Rebase(Rebase(ds, from, to), to, from) == ds
  {
    var k := LeadingZeros(ds);
    var rest := ds[k..];
    assert ds == Zeros(k) + rest;
    ValueSkipsZeros(k, rest, from);
    RebaseKeeps(ds, from, to);
    DigitsOfValue(rest, from);
  }

  /** `n.to_bytes(width, "big")` for an `n` that fits. */
  function ToBytes(n: nat, width: nat): (bs: seq<Byte>)
    ensures |bs| == width
  {
    if width == 0 then [] else ToBytes(n / 256, width - 1) + [n % 256]
  }

  lemma {:induction false} ToMinimalBytes(n: nat)
    ensures ToBytes(n, ByteLength(n)) == Digits(n, 256)
  {
    if n > 0 {
      ByteLengthStep(n);
      ToMinimalBytes(n / 256);
    }
  }

  lemma {:induction false} ToBytesOfValue(bs: seq<Byte>)
    ensures ToBytes(Value(bs, 256), |bs|) == bs
  {
    if bs != [] {
      var init := bs[..|bs| - 1];
      ToBytesOfValue(init);
      assert bs == init + [bs[|bs| - 1]];
    }
  }

  lemma {:induction false} ValueOfToBytes(n: nat, width: nat)
    requires n < Shl8(1, width)
    ensures Value(ToBytes(n, width), 256) == n
  {
    if width > 0 {
      ValueOfToBytes(n / 256, width - 1);
      var bs := ToBytes(n, width);
      assert bs[..|bs| - 1] == ToBytes(n / 256, width - 1);
    }
  }
}
