/**
 Double-and-add, for any associative addition with an identity. On the curve the identity
 is the point at infinity; the group laws are the specification of the addition.
 */
module ScalarMul {
  import opened Bytes

  ghost predicate Laws<T(!new)>(add: (T, T) -> T, zero: T) {
    && (forall x: T :: add(zero, x) == x && add(x, zero) == x)
    && (forall x: T, y: T, z: T :: add(add(x, y), z) == add(x, add(y, z)))
  }

  /** `p` added to itself `k` times. */
  function Times<T>(add: (T, T) -> T, zero: T, k: nat, p: T): T {
    if k == 0 then zero else add(Times(add, zero, k - 1, p), p)
  }

  lemma {:induction false} TimesAdds<T(!new)>(add: (T, T) -> T, zero: T, j: nat, k: nat, p: T)
    requires Laws(add, zero)
    ensures add(Times(add, zero, j, p), Times(add, zero, k, p)) == Times(add, zero, j + k, p)
  {
    if k > 0 { TimesAdds(add, zero, j, k - 1, p); }
  }

  /** k doublings of p are 2k of p. */
  lemma {:induction false} TimesDoubled<T(!new)>(add: (T, T) -> T, zero: T, k: nat, p: T)
    requires Laws(add, zero)
    ensures Times(add, zero, k, add(p, p)) == Times(add, zero, 2 * k, p)
  {
    if k > 0 {
      TimesDoubled(add, zero, k - 1, p);
      var rest := Times(add, zero, 2 * k - 2, p);
      assert Times(add, zero, 2 * k, p) == add(add(rest, p), p);
    }
  }

  lemma Once<T(!new)>(add: (T, T) -> T, zero: T, p: T)
    requires Laws(add, zero)
    ensures Times(add, zero, 1, p) == p
  {
    assert Times(add, zero, 1, p) == add(Times(add, zero, 0, p), p);
  }

  lemma OddRound<T(!new)>(add: (T, T) -> T, zero: T, h: nat, result: T, addend: T)
    requires Laws(add, zero)
    ensures add(add(result, addend), Times(add, zero, 2 * h, addend))
         == add(result, Times(add, zero, 1 + 2 * h, addend))
  {
    Once(add, zero, addend);
    TimesAdds(add, zero, 1, 2 * h, addend);
    hide Times;
    var rest := Times(add, zero, 2 * h, addend);
    assert add(add(result, addend), rest) == add(result, add(addend, rest));
  }

  /** A round moves the low bit into the result and halves what is left to add. */
  lemma OneRound<T(!new)>(add: (T, T) -> T, zero: T, k: nat, result: T, addend: T)
    requires Laws(add, zero)
    ensures add(if k % 2 == 1 then add(result, addend) else result, Times(add, zero, k / 2, add(addend, addend)))
         == add(result, Times(add, zero, k, addend))
  {
    hide *;
    var h := k / 2;
    TimesDoubled(add, zero, h, addend);
    if k % 2 == 1 {
      OddRound(add, zero, h, result, addend);
      assert k == 1 + 2 * h;
    } else {
      assert k == 2 * h;
    }
  }

  lemma Unit<T(!new)>(add: (T, T) -> T, zero: T, x: T, p: T)
    requires Laws(add, zero)
    ensures add(zero, x) == x && add(x, Times(add, zero, 0, p)) == x
  {}

  /** `_mul`: one round for each bit of the scalar, and exactly the k-fold sum. */
  method Mul<T(!new)>(add: (T, T) -> T, zero: T, scalar: nat, point: T) returns (result: T, rounds: nat)
    requires Laws(add, zero)
    ensures result == Times(add, zero, scalar, point)
    ensures rounds == BitLength(scalar)
  {
    hide Laws, Times;
    var k, addend := scalar, point;
    result, rounds := zero, 0;
    Unit(add, zero, Times(add, zero, scalar, point), point);
    while k > 0
      invariant add(result, Times(add, zero, k, addend)) == Times(add, zero, scalar, point)
      invariant rounds + BitLength(k) == BitLength(scalar)
      decreases k
    {
      OneRound(add, zero, k, result, addend);
      if k % 2 == 1 {
        result := add(result, addend);
      }
      addend := add(addend, addend);
      k, rounds := k / 2, rounds + 1;
    }
    Unit(add, zero, result, addend);
  }
}
