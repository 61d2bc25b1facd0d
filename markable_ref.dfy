/**
 * `MarkableReference<T>` of markable_ref/markable_ref.hpp: one atomic
 * `uintptr_t` word holding an 8-aligned pointer and a boolean mark in bit 0,
 * after Java's AtomicMarkableReference. This copy checks alignment in `set`,
 * and its constructor goes through `set`.
 *
 * Pointers are words; the pointed-to object is not modelled, so
 * `operator*` hands back the same address as `operator->`.
 */
module MarkableRef {
  import opened TaggedWord

  /** How `set` ends: the word is stored, or `std::invalid_argument` is thrown. */
  datatype Outcome = Stored | InvalidArgument

  /** How the constructor ends: a new object, or `std::invalid_argument`. */
  datatype Creation = Constructed(m: MarkableReference) | Threw

  class MarkableReference {
    /** `m_reference`: the pointer with the mark in bit 0. */
    var word: Word

    /**
     * The constructor `MarkableReference(ref, init_mark)`: runs `set`, so a
     * pointer that is not 8-aligned makes it throw; null is accepted.
     */
    static method Create(ref: Word, initMark: bool) returns (r: Creation)
      ensures r.Threw? <==> !Aligned(ref)
      ensures r.Constructed? ==> fresh(r.m) && r.m.Get() == (ref, initMark)
    {
      var m := new MarkableReference;
      var o := m.Set(ref, initMark);
      if o == InvalidArgument {
        return Threw;
      }
      return Constructed(m);
    }

    /** `is_marked()`: bit 0, which is set exactly when clearing it changes the word. */
    function IsMarked(): (b: bool)
      reads this
      ensures b <==> Unmarked(word) != word
    {
      word % 2 == 1
    }

    /**
     * `reference()` (and `operator->`, `operator*`): the word with bit 0
     * cleared, whatever the mark; adding the mark back gives the word.
     */
    function Reference(): (p: Word)
      reads this
      ensures !TaggedWord.IsMarked(p) && WithMark(p, TaggedWord.IsMarked(word)) == word
    {
      Unmarked(word)
    }

    /**
     * `get(mark)`: decodes with `word ^ (word & 1)`, which gives the same
     * pointer as `reference()` and the same mark as `is_marked()`.
     */
    function Get(): (r: (Word, bool))
      reads this
      ensures r == (Reference(), IsMarked())
    {
      var mark := TaggedWord.IsMarked(word);
      FlipOwnMarkClears(word);
      (Flip(word, mark), mark)
    }

    /**
     * `std::atomic::compare_exchange_strong`, run alone: stores `desired`
     * exactly when the word is `expected`.
     */
    method CompareExchange(expected: Word, desired: Word) returns (ok: bool)
      modifies this
      ensures ok <==> old(word) == expected
      ensures word == if ok then desired else old(word)
    {
      ok := word == expected;
      if ok {
        word := desired;
      }
    }

    /**
     * `set(ref, mark)`: throws and leaves the word alone when any of the low
     * three bits of `ref` is set; otherwise stores `ref | mark`, which `get`
     * decodes back to `(ref, mark)`.
     */
    method Set(ref: Word, mark: bool) returns (o: Outcome)
      modifies this
      ensures o == InvalidArgument <==> !Aligned(ref)
      ensures o == InvalidArgument ==> word == old(word)
      ensures o == Stored ==> Get() == (ref, mark)
    {
      if ref % 8 != 0 {
        return InvalidArgument;
      }
      AlignedIsUnmarked(ref);
      word := WithMark(ref, mark);
      PackDecode(ref, mark);
      return Stored;
    }

    /**
     * `mark(expected_ref, new_mark)`: a compare-and-swap from
     * `expected_ref | (word & 1)` to `expected_ref | new_mark`. For a pointer
     * with bit 0 clear it succeeds exactly when the stored pointer is
     * `expected_ref`, and then only the mark changes.
     */
    method Mark(expectedRef: Word, newMark: bool) returns (ok: bool)
      modifies this
      ensures (ok, word) == MarkStep(old(word), expectedRef, newMark)
      ensures !TaggedWord.IsMarked(expectedRef) ==> (ok <==> old(Reference()) == expectedRef)
      ensures ok && !TaggedWord.IsMarked(expectedRef) ==> Get() == (expectedRef, newMark)
      ensures !ok ==> word == old(word)
    {
      var expected := WithMark(expectedRef, TaggedWord.IsMarked(word));
      var newValue := WithMark(expectedRef, newMark);
      if !TaggedWord.IsMarked(expectedRef) {
        MarkStepMeaning(word, expectedRef, newMark);
        PackDecode(expectedRef, newMark);
      }
      ok := CompareExchange(expected, newValue);
    }

    /**
     * `compareAndSet(expected_ref, new_ref, expected_mark, new_mark)`:
     * succeeds exactly when the word is `expected_ref | expected_mark`, and
     * then holds `new_ref | new_mark`; on failure nothing changes.
     */
    method CompareAndSet(expectedRef: Word, newRef: Word, expectedMark: bool, newMark: bool) returns (ok: bool)
      modifies this
      ensures (ok, word) == CompareAndSetStep(old(word), expectedRef, newRef, expectedMark, newMark)
      ensures !TaggedWord.IsMarked(expectedRef) ==> (ok <==> old(Get()) == (expectedRef, expectedMark))
      ensures ok && !TaggedWord.IsMarked(newRef) ==> Get() == (newRef, newMark)
      ensures !ok ==> word == old(word)
    {
      var expectedValue := WithMark(expectedRef, expectedMark);
      var newValue := WithMark(newRef, newMark);
      if !TaggedWord.IsMarked(expectedRef) && !TaggedWord.IsMarked(newRef) {
        CompareAndSetStepMeaning(word, expectedRef, newRef, expectedMark, newMark);
      }
      DecodePack(word);
      ok := CompareExchange(expectedValue, newValue);
      if ok && !TaggedWord.IsMarked(newRef) {
        PackDecode(newRef, newMark);
      }
    }
  }

  /**
   * The sequence of calls in tests/markable_ref/main.cpp, for two 8-aligned
   * pointers `t` and `s` from `new int`: constructing from null, `set(t,
   * false)`, `mark(t, true)` succeeding, `compareAndSet(s, s, false, true)`
   * failing and `compareAndSet(t, s, true, false)` succeeding. Returns the
   * program's exit status, which is always 0.
   */
  method SetMarkSwapScenario(t: Word, s: Word) returns (status: int)
    requires Aligned(t) && Aligned(s)
    ensures status == 0
  {
    var c := MarkableReference.Create(0, false);
    var intRef := c.m;
    var o := intRef.Set(t, false);
    if o == InvalidArgument {
      return 1;
    }
    var ok := intRef.Mark(t, true);
    if !ok {
      return 1;
    }
    ok := intRef.CompareAndSet(s, s, false, true);
    if ok {
      return 1;
    }
    ok := intRef.CompareAndSet(t, s, true, false);
    if !ok {
      return 1;
    }
    return 0;
  }
}
