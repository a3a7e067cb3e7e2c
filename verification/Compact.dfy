/**
 The compact target encoding (`nBits`): a size in bytes and a 23-bit mantissa.
 Encoding truncates; everything the difficulty rule computes is fed back through it.
 */
module Compact {
  import opened Arith
  import opened Bytes

  const SIGN_BIT := 0x80_0000
  const WORD_SPAN := 0x100_0000

  /** The target a compact code stands for. The sign bit of the mantissa is ignored. */
  function CompactToTarget(nbits: nat): nat {
    var size := nbits / WORD_SPAN;
    var word := nbits % SIGN_BIT;
    if size <= 3 then Shr8(word, 3 - size) else Shl8(word, size - 3)
  }

  /** The three leading bytes of a target that occupies `size` bytes. */
  function LeadingWord(target: nat, size: nat): nat {
    if size <= 3 then Shl8(target, 3 - size) else Shr8(target, size - 3)
  }

  /** The compact code of a target, the sign bit normalised away. */
  function TargetToCompact(target: nat): nat {
    var size := ByteLength(target);
    var compact := LeadingWord(target, size);
    if compact / SIGN_BIT % 2 == 1
    then compact / 256 + (size + 1) * WORD_SPAN
    else compact + size * WORD_SPAN
  }

  /** `target_to_compact` as it runs, adjusting `compact` and `size` in place. */
  method EncodeTarget(target: nat) returns (nbits: nat)
    ensures nbits == TargetToCompact(target)
    ensures nbits % WORD_SPAN < SIGN_BIT
  {
    hide Shl8, Shr8, ByteLength;
    var size := ByteLength(target);
    var compact: nat;
    if size <= 3 {
      compact := Shl8(target, 3 - size);
    } else {
      compact := Shr8(target, size - 3);
    }
    LeadingWordRange(target);
    TopBit(compact);
    if compact / SIGN_BIT % 2 == 1 {
      compact := compact / 256;
      size := size + 1;
    }
    // The two fields do not overlap, so `|` is `+`.
    CodeFields(size, compact);
    nbits := compact + size * WORD_SPAN;
  }

  lemma TopBit(word: nat)
    requires word < WORD_SPAN
    ensures word / SIGN_BIT % 2 == 1 <==> word >= SIGN_BIT
  {}

  lemma LeadingWordRange(target: nat)
    ensures LeadingWord(target, ByteLength(target)) < WORD_SPAN
    ensures target > 0 ==> 0x1_0000 <= LeadingWord(target, ByteLength(target))
    ensures ByteLength(target) == 0 <==> target == 0
    ensures ByteLength(target) == 1 ==> target < 256 && LeadingWord(target, 1) == target * 0x1_0000
    ensures ByteLength(target) == 2 ==> 256 <= target < 0x1_0000 && LeadingWord(target, 2) == target * 256
    ensures ByteLength(target) == 3 ==> LeadingWord(target, 3) == target
  {
    ByteLengthBounds(target);
    var size := ByteLength(target);
    assert Shl8(1, 0) == 1 && Shl8(1, 1) == 256 && Shl8(1, 2) == 0x1_0000 && Shl8(1, 3) == WORD_SPAN;
    if size <= 3 {
      assert Shl8(target, 0) == target && Shl8(target, 1) == 256 * target;
      assert Shl8(target, 2) == 256 * Shl8(target, 1);
      assert target == 0 ==> Shl8(target, 3) == 0;
    } else {
      var k := size - 3;
      ShlShl(1, 2, k);
      ShlShl(1, 3, k);
      ShrFloor(0x1_0000, target, k);
      ShrFloor(WORD_SPAN, target, k);
    }
  }

  lemma {:induction false} ShiftIsPower(x: nat, k: nat)
    ensures Shl8(x, k) == x * Pow256(k) && Shr8(x, k) == x / Pow256(k)
  {
    if k > 0 {
      ShiftIsPower(x, k - 1);
      ShiftIsPower(x / 256, k - 1);
      PowerStep(x, Pow256(k - 1));
    }
  }

  function Pow256(k: nat): (p: nat)
    ensures p > 0
  {
    if k == 0 then 1 else 256 * Pow256(k - 1)
  }

  lemma PowerStep(x: nat, p: nat)
    requires p > 0
    ensures 256 * (x * p) == x * (256 * p) && x / 256 / p == x / (256 * p)
  {
    DivideTwice(x, 256, p);
  }

  /** The target of a code: its 23-bit mantissa, times or divided by 256 for each byte the size is off three. */
  lemma TargetOfCode(nbits: nat)
    ensures var size, word := nbits / 0x100_0000, nbits % 0x80_0000;
            && (size >= 3 ==> CompactToTarget(nbits) == word * Pow256(size - 3))
            && (size <= 3 ==> CompactToTarget(nbits) == word / Pow256(3 - size))
  {
    var size, word := nbits / WORD_SPAN, nbits % SIGN_BIT;
    if size >= 3 { ShiftIsPower(word, size - 3); }
    if size <= 3 { ShiftIsPower(word, 3 - size); }
  }

  /**
   A code `TargetToCompact` can produce, described by its two fields alone: zero, or a
   word whose top bit is clear and whose next bit is kept by the normalisation.
   */
  predicate Canonical(nbits: nat) {
    nbits == 0 || Fields(nbits / WORD_SPAN, nbits % WORD_SPAN)
  }

  predicate Fields(size: nat, word: nat) {
    size >= 1 && 0x8000 <= word < SIGN_BIT &&
    (size == 1 ==> word % 0x1_0000 == 0) &&
    (size == 2 ==> word % 256 == 0)
  }

  /** Three bytes of headroom, so that codes of every size are one shift of their word. */
  ghost function Scaled(t: nat): nat { Shl8(t, 3) }

  lemma ScaledIs(t: nat)
    ensures Scaled(t) == WORD_SPAN * t
  {
    assert Shl8(t, 1) == 256 * t;
    assert Shl8(t, 2) == 256 * Shl8(t, 1);
  }

  /** What encoding a non-zero target keeps: the leading word of `t`, normalised. */
  lemma EncodeFields(t: nat) returns (size: nat, word: nat)
    requires t > 0
    ensures TargetToCompact(t) == word + size * WORD_SPAN
    ensures Fields(size, word)
    ensures Shr8(Scaled(t), size) == word
  {
    hide ByteLength, Shl8, Shr8, Scaled;
    size := ByteLength(t);
    word := LeadingWord(t, size);
    LeadingWordRange(t);
    LeadingWordIsShift(t, size);
    TopBit(word);
    if word / SIGN_BIT % 2 == 1 {
      ShrOneMore(Scaled(t), size);
      size, word := size + 1, word / 256;
    }
  }

  lemma LeadingWordIsShift(t: nat, size: nat)
    ensures LeadingWord(t, size) == Shr8(Scaled(t), size)
  {
    if size <= 3 {
      ShlShl(t, 3 - size, size);
      ShrUndoesShl(Shl8(t, 3 - size), size);
    } else {
      ShrAfterShl(t, 3, size - 3);
    }
  }

  lemma {:induction false} ShrAfterShl(t: nat, j: nat, k: nat)
    ensures Shr8(Shl8(t, j), j + k) == Shr8(t, k)
  {
    if j > 0 { ShrAfterShl(t, j - 1, k); }
  }

  lemma {:induction false} ShrOneMore(x: nat, k: nat)
    ensures Shr8(x, k + 1) == Shr8(x, k) / 256
  {
    if k > 0 { ShrOneMore(x / 256, k - 1); }
  }

  lemma ShrUndoesShl(x: nat, k: nat)
    ensures Shr8(Shl8(x, k), k) == x
  {
    ShlOrder(x + 1, x, k);
    ShrOfShl(x, Shl8(x, k), k);
  }

  lemma CodeFields(size: nat, word: nat)
    requires word < SIGN_BIT
    ensures (word + size * WORD_SPAN) / WORD_SPAN == size
    ensures (word + size * WORD_SPAN) % WORD_SPAN == (word + size * WORD_SPAN) % SIGN_BIT == word
  {}

  lemma SmallShifts(word: nat)
    ensures Shl8(word, 0) == Shr8(word, 0) == word
    ensures Shl8(word, 1) == 256 * word && Shl8(word, 2) == 256 * Shl8(word, 1)
    ensures Shr8(word, 1) == word / 256 && Shr8(word, 2) == Shr8(word / 256, 1) == word / 0x1_0000
  {}

  /** Decoding a canonical code loses nothing: the target is exactly its shifted word. */
  lemma DecodeFields(size: nat, word: nat)
    requires Fields(size, word)
    ensures Scaled(CompactToTarget(word + size * WORD_SPAN)) == Shl8(word, size)
  {
    CodeFields(size, word);
    if size > 3 {
      ShlShl(word, size - 3, 3);
    } else {
      var t := Shr8(word, 3 - size);
      ScaledIs(t);
      SmallShifts(word);
    }
  }

  /** Of two scaled targets, the larger has the larger normalised size. */
  lemma SizesOrdered(x: nat, y: nat, j: nat, k: nat)
    requires x <= y
    requires 0x8000 <= Shr8(x, j) && Shr8(y, k) < SIGN_BIT
    ensures j <= k
  {
    if j > k { LargerShiftKeepsLess(x, y, j, k); }
  }

  lemma LargerShiftKeepsLess(x: nat, y: nat, j: nat, k: nat)
    requires x <= y && k < j && 0x8000 <= Shr8(x, j)
    ensures SIGN_BIT <= Shr8(y, k)
  {
    ShrFloor(0x8000, x, j);
    ShrFloor(SIGN_BIT, y, k);
    assert Shl8(0x8000, 1) == SIGN_BIT;
    ShlShl(0x8000, 1, j - 1);
    ShlGrows(SIGN_BIT, k, j - 1);
  }

  lemma {:induction false} ShlGrows(x: nat, j: nat, k: nat)
    requires j <= k
    ensures Shl8(x, j) <= Shl8(x, k)
  {
    if j < k { ShlGrows(x, j, k - 1); }
  }

  /**
   A round trip truncates, by less than one part in 2^15: the decoded target never
   exceeds the original, and the loss is at most the decoded target over 32768.
   */
  lemma EncodeTruncates(t: nat)
    ensures var d := CompactToTarget(TargetToCompact(t));
            d <= t && (t - d) * 0x8000 <= d
  {
    if t > 0 {
      var size, word := EncodeFields(t);
      DecodeFields(size, word);
      TruncationLoss(Scaled(t), word, size);
      ScaledIs(t);
      ScaledIs(CompactToTarget(TargetToCompact(t)));
    } else {
      EncodeZero();
    }
  }

  lemma EncodeZero()
    ensures TargetToCompact(0) == 0 && CompactToTarget(0) == 0
  {
    var t: nat := 0;
    LeadingWordRange(t);
    ShlZero(3);
    assert TargetToCompact(t) == 0;
    ShrZero(3);
    assert CompactToTarget(t) == 0;
  }

  lemma {:induction false} ShrZero(k: nat)
    ensures Shr8(0, k) == 0
  {
    if k > 0 { ShrZero(k - 1); }
  }

  /** A mantissa of at least 2^15 keeps the loss below one part in 2^15. */
  lemma TruncationLoss(t: nat, m: nat, k: nat)
    requires m >= 0x8000
    requires Shr8(t, k) == m
    ensures Shl8(m, k) <= t && (t - Shl8(m, k)) * 0x8000 <= Shl8(m, k)
  {
    ShrBounds(t, k);
    ShlAdds(m, 1, k);
    ShlOrder(0x8000, m, k);
    ShlScales(0x8000, 1, k);
    assert 0x8000 * 1 == 0x8000;
  }

  /** A larger target never gets a smaller code. */
  lemma EncodeMonotone(t: nat, u: nat)
    requires t <= u
    ensures TargetToCompact(t) <= TargetToCompact(u)
  {
    if t == 0 {
      EncodeZero();
    } else {
      var j, v := EncodeFields(t);
      var k, w := EncodeFields(u);
      ShlOrder(t, u, 3);
      SizesOrdered(Scaled(t), Scaled(u), j, k);
      if j == k {
        ShrFloor(v, Scaled(t), j);
        ShrFloor(v, Scaled(u), j);
      }
    }
  }

  lemma EncodeIsCanonical(t: nat)
    ensures Canonical(TargetToCompact(t))
  {
    if t == 0 {
      EncodeZero();
    } else {
      var size, word := EncodeFields(t);
      assert (word + size * WORD_SPAN) / WORD_SPAN == size;
    }
  }

  /** Decoding and encoding again is the identity on exactly the canonical codes. */
  lemma CanonicalExactly(nbits: nat)
    ensures TargetToCompact(CompactToTarget(nbits)) == nbits <==> Canonical(nbits)
  {
    EncodeIsCanonical(CompactToTarget(nbits));
    if Canonical(nbits) {
      if nbits == 0 {
        EncodeZero();
      } else {
        var size, word := nbits / WORD_SPAN, nbits % WORD_SPAN;
        assert nbits == word + size * WORD_SPAN;
        CanonicalRoundTrip(size, word);
      }
    }
  }

  /** A normalised word has one size, so encoding finds the fields it came from. */
  lemma CanonicalRoundTrip(size: nat, word: nat)
    requires Fields(size, word)
    ensures TargetToCompact(CompactToTarget(word + size * WORD_SPAN)) == word + size * WORD_SPAN
  {
    var t := CompactToTarget(word + size * WORD_SPAN);
    DecodeFields(size, word);
    ShrUndoesShl(word, size);
    ScaledIs(t);
    ShlOrder(1, word, size);
    ShlOneGrows(0, size);
    var size', word' := EncodeFields(t);
    SizesOrdered(Scaled(t), Scaled(t), size, size');
    SizesOrdered(Scaled(t), Scaled(t), size', size);
  }

  /** One round trip reaches a fixed point: encode, decode, encode is encode. */
  lemma EncodeSettles(t: nat)
    ensures TargetToCompact(CompactToTarget(TargetToCompact(t))) == TargetToCompact(t)
  {
    EncodeIsCanonical(t);
    CanonicalExactly(TargetToCompact(t));
  }
}
