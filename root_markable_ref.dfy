/**
 * The second copy of `MarkableReference<T>`, markable_ref.hpp at the top of
 * the repository. It checks alignment only in its constructor, which then
 * sets the mark with `|= 0x1`; `get`, `mark` and `compareAndSet` read and
 * write the word as the other copy does, `operator->` clears bit 0 with
 * `word ^ (word & 1)`, and `set` stores `ref & mark`.
 *
 * Pointers are words; the pointed-to object is not modelled.
 */
module RootMarkableRef {
  import opened TaggedWord

  /** How the constructor ends: a new object, or `std::invalid_argument`. */
  datatype Creation = Constructed(m: MarkableReference) | Threw

  class MarkableReference {
    /** `m_reference`: the pointer with the mark in bit 0. */
    var word: Word

    /**
     * The constructor `MarkableReference(ref, init_mark)`: the word starts
     * as `ref`; a pointer with any of its low three bits set makes it throw,
     * otherwise `init_mark` sets bit 0.
     */
    static method Create(ref: Word, initMark: bool) returns (r: Creation)
      ensures r.Threw? <==> !Aligned(ref)
      ensures r.Constructed? ==> fresh(r.m) && r.m.Get() == (ref, initMark)
    {
      var m := new MarkableReference;
      m.word := ref;
      if m.word % 8 != 0 {
        return Threw;
      }
      AlignedIsUnmarked(ref);
      if initMark {
        m.word := WithMark(m.word, true);
      }
      PackDecode(ref, initMark);
      return Constructed(m);
    }

    /**
     * `operator->`: `word ^ (word & 1)`, the word with bit 0 cleared;
     * adding the mark back gives the word.
     */
    function Arrow(): (p: Word)
      reads this
      ensures !TaggedWord.IsMarked(p) && WithMark(p, TaggedWord.IsMarked(word)) == word
    {
      FlipOwnMarkClears(word);
      Flip(word, TaggedWord.IsMarked(word))
    }

    /**
     * `get(mark)`: the pointer `operator->` gives, and the mark that
     * together with it makes up the word.
     */
    function Get(): (r: (Word, bool))
      reads this
      ensures r.0 == Arrow() && WithMark(r.0, r.1) == word
    {
      var mark := TaggedWord.IsMarked(word);
      (Flip(word, mark), mark)
    }

    /**
     * `std::atomic::compare_exchange_strong`, run alone: stores `desired`
     * exactly when the word is `expected`.
     */
    method CompareExchange(expected: Word, desired: Word) returns (ok: bool)
      modifies this
      ensures ok <==> old(word) == expected
      ensures word == if ok then desired else old(word)
    {
      ok := word == expected;
      if ok {
        word := desired;
      }
    }

    /**
     * `mark(expected_ref, new_mark)`: for a pointer with bit 0 clear,
     * succeeds exactly when the stored pointer is `expected_ref`, and then
     * keeps the pointer and replaces only the mark.
     */
    method Mark(expectedRef: Word, newMark: bool) returns (ok: bool)
      modifies this
      ensures (ok, word) == MarkStep(old(word), expectedRef, newMark)
      ensures !TaggedWord.IsMarked(expectedRef) ==> (ok <==> old(Arrow()) == expectedRef)
      ensures ok && !TaggedWord.IsMarked(expectedRef) ==> Get() == (expectedRef, newMark)
      ensures !ok ==> word == old(word)
    {
      var expected := WithMark(expectedRef, TaggedWord.IsMarked(word));
      var newValue := WithMark(expectedRef, newMark);
      if !TaggedWord.IsMarked(expectedRef) {
        MarkStepMeaning(word, expectedRef, newMark);
        PackDecode(expectedRef, newMark);
      }
      ok := CompareExchange(expected, newValue);
    }

    /**
     * `compareAndSet(expected_ref, new_ref, expected_mark, new_mark)`:
     * succeeds exactly when the word is `expected_ref | expected_mark`, and
     * then holds `new_ref | new_mark`; on failure nothing changes.
     */
    method CompareAndSet(expectedRef: Word, newRef: Word, expectedMark: bool, newMark: bool) returns (ok: bool)
      modifies this
      ensures (ok, word) == CompareAndSetStep(old(word), expectedRef, newRef, expectedMark, newMark)
      ensures !TaggedWord.IsMarked(expectedRef) ==> (ok <==> old(Get()) == (expectedRef, expectedMark))
      ensures ok && !TaggedWord.IsMarked(newRef) ==> Get() == (newRef, newMark)
      ensures !ok ==> word == old(word)
    {
      var expectedValue := WithMark(expectedRef, expectedMark);
      var newValue := WithMark(newRef, newMark);
      if !TaggedWord.IsMarked(expectedRef) && !TaggedWord.IsMarked(newRef) {
        CompareAndSetStepMeaning(word, expectedRef, newRef, expectedMark, newMark);
      }
      DecodePack(word);
      ok := CompareExchange(expectedValue, newValue);
      if ok && !TaggedWord.IsMarked(newRef) {
        PackDecode(newRef, newMark);
      }
    }

    /**
     * `set(ref, mark)` as written: stores `ref & mark`, which keeps at most
     * bit 0 of `ref`. For every 8-aligned pointer the word becomes null and
     * unmarked, whatever `mark` is.
     */
    method Set(ref: Word, mark: bool)
      modifies this
      ensures word <= 1 && (word == 1 <==> mark && TaggedWord.IsMarked(ref))
      ensures Aligned(ref) ==> Get() == (0, false)
    {
      word := Mask(ref, mark);
    }

    /**
     * `set(ref, mark)` as its callers need it: stores `ref | mark`, so that
     * `get` gives back `(ref, mark)` for a pointer with bit 0 clear, as the
     * constructor and the other copy do.
     */
    method SetIntended(ref: Word, mark: bool)
      modifies this
      ensures !TaggedWord.IsMarked(ref) ==> Get() == (ref, mark)
      ensures Arrow() == Unmarked(ref)
    {
      word := WithMark(ref, mark);
      DecodePack(word);
      if !TaggedWord.IsMarked(ref) {
        PackDecode(ref, mark);
      }
    }
  }

  /**
   * The pointer 8 stored with the mark by `set` as written reads back as null
   * and unmarked, while the intended `8 | 1` reads back as `(8, true)`.
   */
  lemma SetAsWrittenLosesPointer()
    ensures Decode(Mask(8, true)) == (0, false)
    ensures Decode(WithMark(8, true)) == (8, true)
  {
  }

  /**
   * The calls of markable_test.cpp, for the 8-aligned addresses of the two
   * `test_type` objects: building from `&tmp + 1` throws, `mark(&tmp,
   * true)`, `compareAndSet(&tmp, &tmp_other, true, true)` and
   * `mark(&tmp_other, false)` all succeed. Returns whether the exception
   * was caught, whether "Swap failed" is reported, and the four pointers
   * `operator->` yields for the four lines printed.
   */
  method MarkSwapScenario(tmp: Word, tmpOther: Word) returns (caught: bool, swapFailed: bool, seen: seq<Word>)
    requires Aligned(tmp) && Aligned(tmpOther)
    ensures caught && !swapFailed
    ensures seen == [tmp, tmp, tmpOther, tmpOther]
  {
    var c := MarkableReference.Create(tmp, false);
    var testRef := c.m;
    var e := MarkableReference.Create(tmp + 1, false);
    caught := e.Threw?;
    seen := [testRef.Arrow()];
    var ok := testRef.Mark(tmp, true);
    seen := seen + [testRef.Arrow()];
    ok := testRef.CompareAndSet(tmp, tmpOther, true, true);
    swapFailed := !ok;
    seen := seen + [testRef.Arrow()];
    ok := testRef.Mark(tmpOther, false);
    seen := seen + [testRef.Arrow()];
  }
}
