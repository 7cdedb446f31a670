/**
 Normalisation of words: only alphabetic characters are kept, and they are
 lower-cased. Characters follow the ASCII "C" locale: `IsAlpha` and `ToLower`
 are the classification and case mapping of `isalpha` and `tolower` there.
 */
module Normalization {

  /** `isalpha` in the C locale: an ASCII letter. */
  predicate IsAlpha(c: char) {
    ('A' <= c <= 'Z') || ('a' <= c <= 'z')
  }

  /** An ASCII lower-case letter. */
  predicate IsLower(c: char) {
    'a' <= c <= 'z'
  }

  /** `tolower` in the C locale: upper-case ASCII letters map to lower case, all else is unchanged. */
  function ToLower(c: char): (r: char)
    ensures IsAlpha(c) ==> IsLower(r)
    ensures !IsAlpha(c) ==> r == c
    ensures IsLower(c) ==> r == c
    ensures 'A' <= c <= 'Z' ==> r as int == c as int + ('a' as int - 'A' as int)
  {
    if 'A' <= c <= 'Z' then (c as int - 'A' as int + 'a' as int) as char else c
  }

  /** What normalisation makes of a single character. */
  function Kept(c: char): string {
    if IsAlpha(c) then [ToLower(c)] else []
  }

  /**
   The normalised form of `s`: its alphabetic characters, lower-cased, in
   their original order. Defined on the last character, the way the
   rewriting loop of `RemoveNonLetters` consumes its input.
   */
  function Normalize(s: string): string {
    if s == [] then [] else Normalize(s[..|s| - 1]) + Kept(s[|s| - 1])
  }

  /** The normal form is no longer than the input and holds only lower-case letters. */
  lemma {:induction false} NormalizeSpec(s: string)
    ensures |Normalize(s)| <= |s|
    ensures forall i :: 0 <= i < |Normalize(s)| ==> IsLower(Normalize(s)[i])
  {
    if s != [] {
      NormalizeSpec(s[..|s| - 1]);
    }
  }

  /** Normalisation distributes over concatenation. Together with `Kept` this fixes it: one character at a time, in order. */
  lemma {:induction false} NormalizeAppend(s: string, t: string)
    ensures Normalize(s + t) == Normalize(s) + Normalize(t)
  {
    if t == [] {
      assert s + t == s;
    } else {
      var t' := t[..|t| - 1];
      assert (s + t)[..|s + t| - 1] == s + t';
      NormalizeAppend(s, t');
    }
  }

  /** Normalising a word extended by one character extends its normal form by what that character becomes. */
  lemma NormalizeSnoc(p: string, c: char)
    ensures Normalize(p + [c]) == Normalize(p) + Kept(c)
  {
    assert (p + [c])[..|p|] == p;
  }

  /** A word of lower-case letters is its own normal form. */
  lemma {:induction false} NormalizeLowerIsIdentity(s: string)
    requires forall i :: 0 <= i < |s| ==> IsLower(s[i])
    ensures Normalize(s) == s
  {
    if s != [] {
      NormalizeLowerIsIdentity(s[..|s| - 1]);
      assert s == s[..|s| - 1] + [s[|s| - 1]];
    }
  }

  /** Normalising twice is normalising once. */
  lemma NormalizeIdempotent(s: string)
    ensures Normalize(Normalize(s)) == Normalize(s)
  {
    NormalizeSpec(s);
    NormalizeLowerIsIdentity(Normalize(s));
  }

  /** Normalisation keeps exactly the alphabetic characters: a character of the input survives iff it is a letter. */
  lemma {:induction false} NormalizeLength(s: string)
    ensures |Normalize(s)| == |set i | 0 <= i < |s| && IsAlpha(s[i])|
  {
    if s != [] {
      var n := |s| - 1;
      var p := s[..n];
      NormalizeLength(p);
      var before := set i | 0 <= i < |p| && IsAlpha(p[i]);
      var all := set i | 0 <= i < |s| && IsAlpha(s[i]);
      if IsAlpha(s[n]) {
        assert all == before + {n};
      } else {
        assert all == before;
      }
    }
  }

  /**
   One iteration of the rewriting loop, on the array contents `a`: the
   character at `from` is written, lower-cased, to `to` when it is a letter.
   The loop invariant of `RemoveNonLetters` survives the step.
   */
  lemma RewriteStep(a: string, orig: string, to: nat, from: nat)
    requires to <= from < |a| == |orig|
    requires a[..to] == Normalize(orig[..from]) && a[from..] == orig[from..]
    ensures IsAlpha(a[from]) ==>
      a[to := ToLower(a[from])][..to + 1] == Normalize(orig[..from + 1]) &&
      a[to := ToLower(a[from])][from + 1..] == orig[from + 1..]
    ensures !IsAlpha(a[from]) ==>
      a[..to] == Normalize(orig[..from + 1]) && a[from + 1..] == orig[from + 1..]
  {
    var c := a[from];
    assert orig[from] == c by {
      assert a[from..][0] == orig[from..][0];
    }
    assert orig[..from + 1] == orig[..from] + [c];
    NormalizeSnoc(orig[..from], c);
    assert a[from + 1..] == a[from..][1..];
    assert orig[from + 1..] == orig[from..][1..];
    if IsAlpha(c) {
      var b := a[to := ToLower(c)];
      assert b[..to + 1] == a[..to] + [ToLower(c)];
      assert b[from + 1..] == a[from + 1..];
    }
  }

  /**
   `removeNonLetters`: rewrites the characters of `s` in place, moving each
   letter, lower-cased, down to the write position `to`, and returns the
   new length (the source then erases everything from `to` on).
   */
  method RemoveNonLetters(s: array<char>) returns (len: nat)
    modifies s
    ensures len <= s.Length
    ensures s[..len] == Normalize(old(s[..]))
  {
    ghost var orig := s[..];
    var to := 0;
    var from := 0;
    while from < s.Length
      invariant to <= from <= s.Length == |orig|
      invariant s[..to] == Normalize(orig[..from])
      invariant s[from..] == orig[from..]
    {
      var c := s[from];
      ghost var a := s[..];
      RewriteStep(a, orig, to, from);
      if IsAlpha(c) {
        s[to] := ToLower(c);
        assert s[..] == a[to := ToLower(c)];
        to := to + 1;
      }
      from := from + 1;
    }
    assert orig[..s.Length] == orig;
    len := to;
  }
}
