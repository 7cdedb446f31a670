/**
 Bucket choice: `hashFunc` weighs the character at 0-based position i by
 i + 1, sums, and reduces the sum modulo the number of buckets.
 The accumulator is a mathematical integer here; `AccumulatorFitsInt32`
 bounds the keys for which the source's 32-bit `int` agrees with it.
 */
module Hashing {
  import opened Normalization

  /** Number of buckets in the table. */
  const TABLE_SIZE: nat := 50000

  /** Largest value of a 32-bit signed `int`. */
  const INT_MAX: int := 0x7FFF_FFFF

  /** The accumulated `total` of `hashFunc` before the modulo: the sum of (i + 1) * s[i]. */
  function WeightedSum(s: string): (total: int)
    ensures total >= 0
  {
    if s == [] then 0 else WeightedSum(s[..|s| - 1]) + |s| * (s[|s| - 1] as int)
  }

  /** The bucket `hashFunc` picks for `s`. */
  function Hash(s: string): (h: nat)
    ensures h < TABLE_SIZE
  {
    WeightedSum(s) % TABLE_SIZE
  }

  /** `hashFunc`: the weighted sum accumulated in a loop, reduced to a bucket index. */
  method HashFunc(name: string) returns (key: nat)
    ensures key < TABLE_SIZE
    ensures key == Hash(name)
  {
    var total := 0;
    var i := 0;
    while i < |name|
      invariant 0 <= i <= |name|
      invariant total == WeightedSum(name[..i])
    {
      total := total + (i + 1) * (name[i] as int);
      i := i + 1;
      assert name[..i][..i - 1] == name[..i - 1];
    }
    assert name[..|name|] == name;
    key := total % TABLE_SIZE;
  }

  /** For a word of lower-case letters ('z' is 122) the weighted sum is at most 122 * n(n+1)/2. */
  lemma {:induction false} WeightedSumBound(s: string)
    requires forall i :: 0 <= i < |s| ==> IsLower(s[i])
    ensures WeightedSum(s) <= 61 * |s| * (|s| + 1)
  {
    if s != [] {
      var n := |s|;
      var c := s[n - 1] as int;
      WeightedSumBound(s[..n - 1]);
      MulMonotone(n, c, n, 122);
      assert 61 * (n - 1) * n + n * 122 == 61 * n * (n + 1);
    }
  }

  /** Prefix sums of a word never exceed its whole weighted sum. */
  lemma {:induction false} WeightedSumMonotone(s: string, k: nat)
    requires k <= |s|
    ensures WeightedSum(s[..k]) <= WeightedSum(s)
  {
    if k < |s| {
      WeightedSumMonotone(s[..|s| - 1], k);
      assert s[..|s| - 1][..k] == s[..k];
    } else {
      assert s[..k] == s;
    }
  }

  /** Multiplication of naturals is monotone in both factors. */
  lemma MulMonotone(a: nat, b: nat, c: nat, d: nat)
    requires a <= c && b <= d
    ensures a * b <= c * d
  {
    assert a * b <= c * b by {
      assert c * b - a * b == (c - a) * b;
    }
    assert c * b <= c * d by {
      assert c * d - c * b == c * (d - b);
    }
  }

  /**
   For a key of at most 5000 lower-case letters, every intermediate `total`
   of `hashFunc` fits in a 32-bit signed `int`, so the source computes the
   same bucket as `Hash`.
   */
  lemma AccumulatorFitsInt32(s: string, k: nat)
    requires forall i :: 0 <= i < |s| ==> IsLower(s[i])
    requires |s| <= 5000 && k <= |s|
    ensures 0 <= WeightedSum(s[..k]) <= INT_MAX
  {
    WeightedSumMonotone(s, k);
    WeightedSumBound(s);
    var n := |s|;
    MulMonotone(n, n + 1, 5000, 5001);
    assert 61 * n * (n + 1) == 61 * (n * (n + 1));
  }
}
