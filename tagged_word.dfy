/**
 * A 64-bit `uintptr_t` word that carries a pointer with a mark in bit 0.
 *
 * Both copies of MarkableReference and the tag helpers of LazyList steal
 * bit 0 of an aligned pointer for a boolean mark. The bitwise operators
 * the source applies to such a word are written out here on naturals:
 * `w & 0x1`, `w & ~1`, `w | b`, `w ^ b`, `w & b` for a bool `b` promoted to
 * 0 or 1, and `w & 0x7` for the alignment test.
 */
module TaggedWord {

  const UINTPTR_MAX: int := 0xFFFF_FFFF_FFFF_FFFF

  /** An unsigned machine word (`uintptr_t`). */
  type Word = x: int | 0 <= x <= UINTPTR_MAX

  /** Bit 0 of the word: `w & 0x1`; set exactly when the word is not twice its half. */
  predicate IsMarked(w: Word): (b: bool)
    ensures b <==> w != 2 * (w / 2)
  {
    w % 2 == 1
  }

  /**
   * `(w & 0x7) == 0`: the pointer is at least 8-byte aligned (null is), that
   * is, bits 0, 1 and 2 are all clear.
   */
  predicate Aligned(w: Word): (b: bool)
    ensures b <==> !IsMarked(w) && !IsMarked(w / 2) && !IsMarked(w / 4)
  {
    w % 8 == 0
  }

  /** `w & ~1`: the word with bit 0 cleared and every other bit kept. */
  function Unmarked(w: Word): (r: Word)
    ensures !IsMarked(r)
    ensures r == w || r + 1 == w
  {
    w - w % 2
  }

  /** `w | b`: bit 0 becomes `IsMarked(w) || b`, the other bits are kept. */
  function WithMark(w: Word, b: bool): (r: Word)
    ensures IsMarked(r) == (IsMarked(w) || b)
    ensures Unmarked(r) == Unmarked(w)
  {
    if b && w % 2 == 0 then w + 1 else w
  }

  /** `w ^ b`: bit 0 is flipped when `b`, the other bits are kept. */
  function Flip(w: Word, b: bool): (r: Word)
    ensures IsMarked(r) == (IsMarked(w) != b)
    ensures Unmarked(r) == Unmarked(w)
  {
    if !b then w else if w % 2 == 1 then w - 1 else w + 1
  }

  /** `w & b`: every bit but bit 0 is dropped, and bit 0 too unless `b`. */
  function Mask(w: Word, b: bool): (r: Word)
    ensures r <= 1
    ensures r == 1 <==> b && IsMarked(w)
  {
    if b then w % 2 else 0
  }

  /** Decoding a word: the pointer part and the mark, as `get(mark)` returns them. */
  function Decode(w: Word): (r: (Word, bool))
    ensures !IsMarked(r.0) && WithMark(r.0, r.1) == w
  {
    (Flip(w, IsMarked(w)), IsMarked(w))
  }

  /** Packing a pointer whose bit 0 is clear with a mark and decoding gives both back. */
  lemma PackDecode(p: Word, m: bool)
    requires !IsMarked(p)
    ensures Decode(WithMark(p, m)) == (p, m)
  {
  }

  /** Decoding and packing again gives the word back. */
  lemma DecodePack(w: Word)
    ensures WithMark(Decode(w).0, Decode(w).1) == w
  {
  }

  /** Decoding with `w ^ (w & 1)` clears bit 0, the same as `w & ~1`. */
  lemma FlipOwnMarkClears(w: Word)
    ensures Flip(w, IsMarked(w)) == Unmarked(w)
  {
  }

  /** An 8-aligned pointer has bit 0 clear, so it can carry the mark. */
  lemma AlignedIsUnmarked(p: Word)
    requires Aligned(p)
    ensures !IsMarked(p)
  {
  }

  /**
   * `mark(expected_ref, new_mark)`: a compare-and-swap whose expected word is
   * `expected_ref | (word & 0x1)` and whose new word is `expected_ref | new_mark`.
   * Returns whether it succeeded and the word afterwards.
   */
  function MarkStep(w: Word, expectedRef: Word, newMark: bool): (r: (bool, Word))
    ensures !r.0 ==> r.1 == w
    ensures r.0 ==> Unmarked(r.1) == Unmarked(w) == Unmarked(expectedRef) && IsMarked(r.1) == (IsMarked(expectedRef) || newMark)
  {
    var expected := WithMark(expectedRef, IsMarked(w));
    if w == expected then (true, WithMark(expectedRef, newMark)) else (false, w)
  }

  /**
   * `compareAndSet(expected_ref, new_ref, expected_mark, new_mark)`: succeeds
   * exactly when the word is `expected_ref | expected_mark`, and then stores
   * `new_ref | new_mark`.
   */
  function CompareAndSetStep(w: Word, expectedRef: Word, newRef: Word, expectedMark: bool, newMark: bool): (r: (bool, Word))
    ensures !r.0 ==> r.1 == w
    ensures r.0 ==> Unmarked(w) == Unmarked(expectedRef) && IsMarked(w) == (IsMarked(expectedRef) || expectedMark)
    ensures r.0 ==> Unmarked(r.1) == Unmarked(newRef) && IsMarked(r.1) == (IsMarked(newRef) || newMark)
  {
    if w == WithMark(expectedRef, expectedMark) then (true, WithMark(newRef, newMark)) else (false, w)
  }

  /**
   * For a pointer with bit 0 clear, `mark` succeeds exactly when the stored
   * pointer is the expected one; it then keeps the pointer and replaces only
   * the mark, and on failure nothing changes.
   */
  lemma MarkStepMeaning(w: Word, expectedRef: Word, newMark: bool)
    requires !IsMarked(expectedRef)
    ensures MarkStep(w, expectedRef, newMark).0 <==> Decode(w).0 == expectedRef
    ensures MarkStep(w, expectedRef, newMark).0 ==> Decode(MarkStep(w, expectedRef, newMark).1) == (Decode(w).0, newMark)
    ensures !MarkStep(w, expectedRef, newMark).0 ==> MarkStep(w, expectedRef, newMark).1 == w
  {
    DecodePack(w);
  }

  /**
   * For pointers with bit 0 clear, `compareAndSet` succeeds exactly when the
   * word decodes to the expected pair; it then decodes to the new pair, and on
   * failure nothing changes.
   */
  lemma CompareAndSetStepMeaning(w: Word, expectedRef: Word, newRef: Word, expectedMark: bool, newMark: bool)
    requires !IsMarked(expectedRef) && !IsMarked(newRef)
    ensures CompareAndSetStep(w, expectedRef, newRef, expectedMark, newMark).0 <==> Decode(w) == (expectedRef, expectedMark)
    ensures CompareAndSetStep(w, expectedRef, newRef, expectedMark, newMark).0 ==>
              Decode(CompareAndSetStep(w, expectedRef, newRef, expectedMark, newMark).1) == (newRef, newMark)
    ensures !CompareAndSetStep(w, expectedRef, newRef, expectedMark, newMark).0 ==>
              CompareAndSetStep(w, expectedRef, newRef, expectedMark, newMark).1 == w
  {
    DecodePack(w);
  }
}
