/** Sizes as machine words.

    The allocator adds and rounds sizes modulo the number of words, and looks at what is left of a
    block as a signed word.  What follows says for every size when this is what unbounded numbers
    would give.
  */
module HeapWords {
  import opened Bits
  import opened Heap

  /** Round up a size to a multiple of `min`, in words of which there are `w`. */
  function RoundWord(size: nat, min: nat, w: nat): nat
    requires min > 0 && w > 0
  {
    var x := (size + min - 1) % w;
    DivNonnegative(x, min);
    Nonnegative(x / min, min);
    x / min * min
  }

  lemma {:induction false} Nonnegative(a: nat, b: nat)
    ensures a * b >= 0
  {
  }

  /** A number is not negative when it is read as a signed word. */
  predicate NotNegative(v: int, w: nat)
    requires w > 0
  {
    v % w < w / 2
  }

  /** Rounding up gives what it should, or zero if it wraps. */
  lemma {:induction false} RoundWordExactly(size: nat, min: nat, w: nat)
    requires 0 < min <= w && size < w
    ensures RoundWord(size, min, w) == if size + min - 1 < w then RoundUp(size, min) else 0
  {
    var x := size + min - 1;
    if x < w {
      DivModUnique(x, 0, w, x);
    } else {
      DivModUnique(x, 1, w, x - w);
      DivModUnique(x - w, 0, min, x - w);
    }
  }

  lemma {:induction false} SignedExactly(v: int, w: nat)
    requires w > 0 && w % 2 == 0 && -2 * w <= v < w
    ensures NotNegative(v, w) <==> 0 <= v < w / 2 || 0 - w <= v < 0 - w / 2 || v < 0 - w - w / 2
  {
    assert w == 2 * (w / 2);
    if v >= 0 {
      DivModUnique(v, 0, w, v);
    } else if v >= 0 - w {
      DivModUnique(v, -1, w, v + w);
    } else {
      DivModUnique(v, -2, w, v + 2 * w);
    }
  }

  /** Taking `actual` bytes out of `room` looks possible exactly if it is, or if the size is larger by more
      than half the address space. */
  lemma {:induction false} RoomTestExactly(room: nat, actual: nat, w: nat)
    requires w % 2 == 0 && room < w / 2 && actual < w
    ensures NotNegative(room - actual, w) <==> actual <= room || actual > room + w / 2
  {
    SignedExactly(room - actual, w);
  }

  /** What is left of a block of `s` bytes after `pre` have been skipped and `actual` taken is judged
      right. */
  ghost predicate Judged(s: nat, pre: nat, actual: nat, w: nat)
    requires w > 0
  {
    NotNegative(s - pre - actual, w) <==> s - pre - actual >= 0
  }

  /** All blocks below half the address space are judged right, where fewer than `m` bytes are skipped,
      exactly if the size is at most half the address space, less what may be skipped. */
  lemma {:induction false} TestExactly(actual: nat, m: nat, min: nat, w: nat)
    requires w % 2 == 0 && 0 < min < w / 2 && 0 < m <= w && actual < w
    ensures (forall s: nat, pre: nat :: min <= s < w / 2 && pre < m ==> Judged(s, pre, actual, w))
            <==> actual + m <= w / 2 + min + 1
  {
    assert w == 2 * (w / 2);
    if actual + m <= w / 2 + min + 1 {
      forall s: nat, pre: nat | min <= s < w / 2 && pre < m ensures Judged(s, pre, actual, w) {
        JudgedRight(s, pre, actual, m, min, w);
      }
    } else {
      var t := actual - w / 2 - 1;
      var s, pre := if t >= min then t else min, if t >= min then 0 else min - t;
      SignedExactly(s - pre - actual, w);
      assert s - pre - actual == -(w / 2) - 1;
      assert !Judged(s, pre, actual, w);
    }
  }

  lemma {:induction false} JudgedRight(s: nat, pre: nat, actual: nat, m: nat, min: nat, w: nat)
    requires w % 2 == 0 && min <= s < w / 2 && pre < m <= w && actual < w && actual + m <= w / 2 + min + 1
    ensures Judged(s, pre, actual, w)
  {
    SignedExactly(s - pre - actual, w);
  }

  // ----- Sizes with a header

  /** The size of an allocation with its header of one word. */
  function Total(size: nat, word: nat, w: nat): (t: nat)
    requires w > 0
    ensures t < w
  {
    WordRemainder(size + word, w);
    (size + word) % w
  }

  /** The size without the header. */
  function Plain(total: nat, word: nat, w: nat): (s: nat)
    requires w > 0
    ensures s < w
  {
    WordRemainder(total - word, w);
    (total - word) % w
  }

  lemma {:induction false} WordRemainder(x: int, w: nat)
    requires w > 0
    ensures 0 <= x % w < w
  {
  }

  lemma {:induction false} TotalIs(size: nat, word: nat, w: nat)
    requires size < w && word <= w
    ensures Total(size, word, w) == if size + word < w then size + word else size + word - w
  {
    if size + word < w {
      DivModUnique(size + word, 0, w, size + word);
    } else {
      DivModUnique(size + word, 1, w, size + word - w);
    }
  }

  lemma {:induction false} PlainIs(total: nat, word: nat, w: nat)
    requires total < w && word <= w
    ensures Plain(total, word, w) == if total >= word then total - word else total - word + w
  {
    if total >= word {
      DivModUnique(total - word, 0, w, total - word);
    } else {
      DivModUnique(total - word, -1, w, total - word + w);
    }
  }

  /** A block holds its header and data exactly if neither adding the header nor rounding up wraps. */
  lemma {:induction false} HoldsExactly(size: nat, word: nat, min: nat, w: nat)
    requires 0 < word <= min < w && size < w
    ensures size + word <= RoundWord(Total(size, word, w), min, w) <==> size + word + min - 1 < w
  {
    hide RoundUp;
    TotalIs(size, word, w);
    var t := Total(size, word, w);
    RoundWordExactly(t, min, w);
  }

  lemma {:induction false} OneUnit(size: nat, min: nat)
    requires 0 < size <= min
    ensures RoundUp(size, min) == min
  {
    DivModUnique(size + min - 1, 1, min, size - 1);
  }

  /** How much is copied when an allocation is moved: as much of the old data as is wanted. */
  function Copied(oldTotal: nat, size: nat, word: nat, w: nat): nat
    requires w > 0
  {
    Min(Plain(oldTotal, word, w), size)
  }

  /** Copying leaves the old or the new block. */
  predicate Overruns(oldTotal: nat, size: nat, word: nat, min: nat, w: nat)
    requires w > 0 && min > 0
  {
    var n := Copied(oldTotal, size, word, w) + word;
    n > RoundUp(oldTotal, min) || n > RoundUp(Total(size, word, w), min)
  }

  /** Moving an allocation stays inside both blocks, unless adding the header to the new size wraps and
      the old allocation is larger than one unit, or the old size was such a one and more than a unit
      is wanted. */
  lemma {:induction false} OverrunExactly(oldTotal: nat, size: nat, word: nat, min: nat, w: nat)
    requires 0 < word <= min && 2 * min <= w && 0 < oldTotal && 2 * oldTotal <= w && size < w
    requires Total(size, word, w) > 0
    ensures Overruns(oldTotal, size, word, min, w)
            <==> if oldTotal < word then size + word > min else size + word >= w && oldTotal > min
  {
    hide RoundUp;
    TotalIs(size, word, w);
    PlainIs(oldTotal, word, w);
    if size + word >= w {
      OneUnit(Total(size, word, w), min);
    }
    if oldTotal < word {
      OneUnit(oldTotal, min);
    }
  }

  /** The largest size gets a block of one unit, and moving an allocation of more than a unit there leaves
      that block. */
  lemma {:induction false} LargestSize(word: nat, min: nat, w: nat, oldTotal: nat)
    requires 1 < word <= min && 2 * min <= w
    ensures Total(w - 1, word, w) == word - 1 && RoundWord(word - 1, min, w) == min
    ensures min < oldTotal && 2 * oldTotal <= w ==> Overruns(oldTotal, w - 1, word, min, w)
  {
    hide Overruns;
    TotalIs(w - 1, word, w);
    RoundWordExactly(word - 1, min, w);
    OneUnit(word - 1, min);
    if min < oldTotal && 2 * oldTotal <= w {
      OverrunExactly(oldTotal, w - 1, word, min, w);
    }
  }

  /** Moving an ordinary allocation copies as much of its data as is wanted. */
  lemma {:induction false} CopiedIs(oldTotal: nat, size: nat, word: nat, w: nat)
    requires word <= oldTotal < w
    ensures Copied(oldTotal, size, word, w) == Min(oldTotal - word, size)
  {
    PlainIs(oldTotal, word, w);
  }
}
