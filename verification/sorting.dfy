/**
 Ordering the letters of a word into its canonical key. The source sorts
 with `std::sort`, which promises only its result: a permutation of the
 input in non-decreasing order. `Sort` is one such permutation, and
 `SortedUnique` shows there is no other, so any sorting algorithm yields
 the same key.
 */
module Sorting {

  /** Characters in non-decreasing code-point order. */
  predicate Sorted(s: string) {
    forall i, j :: 0 <= i < j < |s| ==> s[i] <= s[j]
  }

  /** Places `c` in front of the first character of `s` that is not smaller than it. */
  function InsertSorted(c: char, s: string): string {
    if s == [] || c <= s[0] then [c] + s else [s[0]] + InsertSorted(c, s[1..])
  }

  /** A character no larger than any character of a sorted word can be put in front of it. */
  lemma SortedCons(x: char, t: string)
    requires Sorted(t)
    requires forall j :: 0 <= j < |t| ==> x <= t[j]
    ensures Sorted([x] + t)
  {
    var r := [x] + t;
    forall i, j | 0 <= i < j < |r|
      ensures r[i] <= r[j]
    {
      assert r[j] == t[j - 1];
      if i > 0 {
        assert r[i] == t[i - 1];
      }
    }
  }

  /** A lower bound of `c` and of every character of `s` bounds every character of `InsertSorted(c, s)`. */
  lemma {:induction false} InsertSortedBound(x: char, c: char, s: string)
    requires x <= c
    requires forall k :: 0 <= k < |s| ==> x <= s[k]
    ensures forall j :: 0 <= j < |InsertSorted(c, s)| ==> x <= InsertSorted(c, s)[j]
  {
    if s != [] && !(c <= s[0]) {
      InsertSortedBound(x, c, s[1..]);
      var tail := InsertSorted(c, s[1..]);
      assert InsertSorted(c, s) == [s[0]] + tail;
    }
  }

  /** Placing a character into a word adds just that character. */
  lemma {:induction false} InsertSortedPermutes(c: char, s: string)
    ensures multiset(InsertSorted(c, s)) == multiset(s) + multiset{c}
  {
    if s != [] && !(c <= s[0]) {
      InsertSortedPermutes(c, s[1..]);
      var tail := InsertSorted(c, s[1..]);
      calc {
        multiset(InsertSorted(c, s));
        { assert InsertSorted(c, s) == [s[0]] + tail; }
        multiset{s[0]} + multiset(tail);
        multiset{s[0]} + multiset(s[1..]) + multiset{c};
        { assert s == [s[0]] + s[1..]; }
        multiset(s) + multiset{c};
      }
    }
  }

  /** Placing a character into a sorted word keeps it sorted and adds just that character. */
  lemma {:induction false} InsertSortedSpec(c: char, s: string)
    requires Sorted(s)
    ensures Sorted(InsertSorted(c, s))
    ensures multiset(InsertSorted(c, s)) == multiset(s) + multiset{c}
  {
    InsertSortedPermutes(c, s);
    if s == [] || c <= s[0] {
      SortedCons(c, s);
    } else {
      var tail := InsertSorted(c, s[1..]);
      InsertSortedSpec(c, s[1..]);
      InsertSortedBound(s[0], c, s[1..]);
      SortedCons(s[0], tail);
    }
  }

  /** The canonical ordering of `s`, by insertion: the sorted permutation that `std::sort` produces. */
  function Sort(s: string): string {
    if s == [] then [] else InsertSorted(s[0], Sort(s[1..]))
  }

  /** A word's letters are those of its tail plus its first character. */
  lemma HeadTail(s: string)
    requires s != []
    ensures multiset(s) == multiset(s[1..]) + multiset{s[0]}
  {
    assert s == [s[0]] + s[1..];
  }

  /** `Sort` yields a sorted permutation of its input. */
  lemma {:induction false} SortSpec(s: string)
    ensures Sorted(Sort(s))
    ensures multiset(Sort(s)) == multiset(s)
    ensures |Sort(s)| == |s|
  {
    if s != [] {
      SortSpec(s[1..]);
      InsertSortedSpec(s[0], Sort(s[1..]));
      HeadTail(s);
    }
    assert |Sort(s)| == |multiset(Sort(s))|;
  }

  /** The first character of a sorted word is a least element of its multiset. */
  lemma SortedHeadIsLeast(s: string, c: char)
    requires Sorted(s) && c in multiset(s)
    ensures s[0] <= c
  {
    assert c in s;
  }

  /** Two non-empty sorted words with the same letters start with the same character. */
  lemma SortedSameHead(a: string, b: string)
    requires Sorted(a) && Sorted(b) && a != []
    requires multiset(a) == multiset(b)
    ensures b != [] && a[0] == b[0]
  {
    assert a[0] in multiset(b);
    assert b != [];
    SortedHeadIsLeast(a, b[0]);
    SortedHeadIsLeast(b, a[0]);
  }

  /** Dropping the first character of a word drops one copy of it from the word's letters. */
  lemma DropHead(a: string)
    requires a != []
    ensures multiset(a[1..]) == multiset(a) - multiset{a[0]}
  {
    assert a == [a[0]] + a[1..];
  }

  /** Two sorted words with the same letters are the same word. */
  lemma {:induction false} SortedUnique(a: string, b: string)
    requires Sorted(a) && Sorted(b)
    requires multiset(a) == multiset(b)
    ensures a == b
  {
    if a != [] {
      SortedSameHead(a, b);
      DropHead(a);
      DropHead(b);
      SortedUnique(a[1..], b[1..]);
      assert a == [a[0]] + a[1..] && b == [b[0]] + b[1..];
    } else {
      assert |b| == |multiset(b)| == 0;
    }
  }

  /** Sorting decides letter-for-letter rearrangement: two words sort alike iff they hold the same letters. */
  lemma SortEqualIffPermutation(a: string, b: string)
    ensures Sort(a) == Sort(b) <==> multiset(a) == multiset(b)
  {
    SortSpec(a);
    SortSpec(b);
    if multiset(a) == multiset(b) {
      SortedUnique(Sort(a), Sort(b));
    }
  }
}
