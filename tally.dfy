/** The counting idiom the pages share: `rows.reduce((acc, row) => {
    acc[k] = (acc[k] || 0) + 1; return acc }, {})` over a key read from each
    row, then `acc[k] || 0` to read a count back. A row whose key is `None`
    is one the reduce skips. */
module Tally {
  import opened Text

  /** Number of elements whose key is `k`; counted from the end, as a left fold sees them. */
  function Count<T>(xs: seq<T>, key: T -> Option<string>, k: string): (n: nat)
    ensures n <= |xs|
  {
    if |xs| == 0 then 0
    else Count(xs[..|xs| - 1], key, k) + (if key(xs[|xs| - 1]) == Some(k) then 1 else 0)
  }

  /** `counts[k] || 0`. */
  function OrZero(counts: map<string, int>, k: string): int
  {
    if k in counts && counts[k] != 0 then counts[k] else 0
  }

  /** The reduce: a record updated in place, one element at a time. */
  method CountBy<T>(xs: seq<T>, key: T -> Option<string>) returns (counts: map<string, int>)
    ensures forall k :: OrZero(counts, k) == Count(xs, key, k)
    ensures forall k :: k in counts ==> counts[k] >= 1
  {
    counts := map[];
    var i := 0;
    while i < |xs|
      invariant 0 <= i <= |xs|
      invariant forall k :: k in counts ==> counts[k] == Count(xs[..i], key, k) && counts[k] >= 1
      invariant forall k :: k !in counts ==> Count(xs[..i], key, k) == 0
    {
      assert xs[..i + 1][..i] == xs[..i];
      var k := key(xs[i]);
      if k.Some? {
        counts := counts[k.value := OrZero(counts, k.value) + 1];
      }
      i := i + 1;
    }
    assert xs[..|xs|] == xs;
  }

  lemma {:induction false} CountAppend<T>(a: seq<T>, b: seq<T>, key: T -> Option<string>, k: string)
    ensures Count(a + b, key, k) == Count(a, key, k) + Count(b, key, k)
    decreases |b|
  {
    if |b| == 0 {
      assert a + b == a;
    } else {
      assert (a + b)[..|a + b| - 1] == a + b[..|b| - 1];
      CountAppend(a, b[..|b| - 1], key, k);
    }
  }

  predicate Distinct(ks: seq<string>)
  {
    forall i, j :: 0 <= i < j < |ks| ==> ks[i] != ks[j]
  }

  /** Sum of the counts of the keys `ks`, in order. */
  function SumCounts<T>(ks: seq<string>, xs: seq<T>, key: T -> Option<string>): nat
  {
    if |ks| == 0 then 0 else Count(xs, key, ks[0]) + SumCounts(ks[1..], xs, key)
  }

  /** Number of elements that land on none of the keys `ks` (no key, or a key not listed). */
  function Unlisted<T>(xs: seq<T>, key: T -> Option<string>, ks: seq<string>): nat
  {
    if |xs| == 0 then 0
    else
      var k := key(xs[|xs| - 1]);
      Unlisted(xs[..|xs| - 1], key, ks) + (if k.None? || k.value !in ks then 1 else 0)
  }

  /** How many of the keys `ks` equal `k`. */
  function Hits(ks: seq<string>, k: Option<string>): nat
  {
    if |ks| == 0 then 0 else (if k == Some(ks[0]) then 1 else 0) + Hits(ks[1..], k)
  }

  lemma {:induction false} HitsDistinct(ks: seq<string>, k: Option<string>)
    requires Distinct(ks)
    ensures Hits(ks, k) == if k.Some? && k.value in ks then 1 else 0
    decreases |ks|
  {
    if |ks| > 0 {
      HitsDistinct(ks[1..], k);
      if k == Some(ks[0]) {
        assert k.value !in ks[1..] by {
          forall j | 0 <= j < |ks[1..]| ensures ks[1..][j] != ks[0] {
            assert ks[1..][j] == ks[j + 1];
          }
        }
      } else {
        assert k.Some? && k.value in ks ==> k.value in ks[1..] by {
          if k.Some? && k.value in ks {
            var j :| 0 <= j < |ks| && ks[j] == k.value;
            assert j > 0 && ks[1..][j - 1] == ks[j];
          }
        }
      }
    }
  }

  lemma {:induction false} SumCountsStep<T>(ks: seq<string>, xs: seq<T>, key: T -> Option<string>)
    requires |xs| > 0
    ensures SumCounts(ks, xs, key) == SumCounts(ks, xs[..|xs| - 1], key) + Hits(ks, key(xs[|xs| - 1]))
    decreases |ks|
  {
    if |ks| > 0 {
      SumCountsStep(ks[1..], xs, key);
    }
  }

  lemma {:induction false} SumCountsOfNothing<T>(ks: seq<string>, xs: seq<T>, key: T -> Option<string>)
    requires |xs| == 0
    ensures SumCounts(ks, xs, key) == 0
    decreases |ks|
  {
    if |ks| > 0 {
      SumCountsOfNothing(ks[1..], xs, key);
    }
  }

  /** Over distinct keys, every element is counted under exactly one key or is unlisted:
      the counts never add up to more than there are elements. */
  lemma {:induction false} CountsPartition<T>(ks: seq<string>, xs: seq<T>, key: T -> Option<string>)
    requires Distinct(ks)
    ensures SumCounts(ks, xs, key) + Unlisted(xs, key, ks) == |xs|
    decreases |xs|
  {
    if |xs| > 0 {
      var init, k := xs[..|xs| - 1], key(xs[|xs| - 1]);
      CountsPartition(ks, init, key);
      SumCountsStep(ks, xs, key);
      HitsDistinct(ks, k);
      assert Unlisted(xs, key, ks) == Unlisted(init, key, ks) + (if k.None? || k.value !in ks then 1 else 0);
    } else {
      SumCountsOfNothing(ks, xs, key);
    }
  }
}
