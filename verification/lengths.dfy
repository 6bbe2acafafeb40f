/**
 Protein lengths as `convert` uses them: the length index produced from the
 FASTA file, the lengths a protein group's ids resolve to, the group's
 length (the largest resolved one, else a fallback), and the fallback
 "average length", a mean rounded the way `Math.round` rounds.

 The index is a Java `Map<String, Integer>`. It is modelled as its entries
 in iteration order with distinct keys, so that "the mean of every entry"
 counts two proteins of equal length twice, as `lengths.values()` does.
 */
module Lengths {
  import opened Wrappers

  /** No two entries share a protein id. */
  predicate DistinctKeys(entries: seq<(string, nat)>) {
    forall i, j :: 0 <= i < j < |entries| ==> entries[i].0 != entries[j].0
  }

  /** Protein id to length in residues, as `SequenceService.sequencesLength` returns it. */
  type LengthIndex = entries: seq<(string, nat)> | DistinctKeys(entries) witness []

  /** `lengths.get(id)`: the length recorded for `id`, or `null`. */
  function Lookup(index: seq<(string, nat)>, id: string): (r: Option<nat>)
    ensures r.None? <==> forall k :: 0 <= k < |index| ==> index[k].0 != id
    ensures r.Some? ==> exists k :: 0 <= k < |index| && index[k] == (id, r.value)
  {
    if index == [] then None
    else if index[0].0 == id then Some(index[0].1)
    else Lookup(index[1..], id)
  }

  /** In an index with distinct keys every entry is what a lookup of its key returns. */
  lemma {:induction false} LookupEntry(index: LengthIndex, k: nat)
    requires k < |index|
    ensures Lookup(index, index[k].0) == Some(index[k].1)
  {
    if k > 0 {
      assert index[0].0 != index[k].0;
      var rest: LengthIndex := index[1..];
      assert rest[k - 1] == index[k];
      LookupEntry(rest, k - 1);
    }
  }

  /**
   The lengths `ids` resolve to, in order, one per resolving id (so an id
   listed twice contributes twice); ids missing from the index are dropped.
   */
  function Resolved(ids: seq<string>, index: seq<(string, nat)>): (r: seq<nat>)
    ensures |r| <= |ids|
    decreases |ids|
  {
    if ids == [] then []
    else
      var rest := Resolved(ids[1..], index);
      match Lookup(index, ids[0])
      case Some(n) => [n] + rest
      case None => rest
  }

  /** Nothing resolves exactly when no id is in the index. */
  lemma {:induction false} ResolvedEmpty(ids: seq<string>, index: seq<(string, nat)>)
    ensures Resolved(ids, index) == [] <==> forall i :: 0 <= i < |ids| ==> Lookup(index, ids[i]).None?
    decreases |ids|
  {
    if ids != [] {
      var tail := ids[1..];
      ResolvedEmpty(tail, index);
      assert forall i :: 1 <= i < |ids| ==> tail[i - 1] == ids[i];
    }
  }

  /** Every resolved length is what one of the ids looks up to. */
  lemma {:induction false} ResolvedSound(ids: seq<string>, index: seq<(string, nat)>)
    ensures forall k :: 0 <= k < |Resolved(ids, index)| ==>
              exists i :: 0 <= i < |ids| && Lookup(index, ids[i]) == Some(Resolved(ids, index)[k])
    decreases |ids|
  {
    if ids != [] {
      var tail := ids[1..];
      var rest := Resolved(tail, index);
      ResolvedSound(tail, index);
      var r := Resolved(ids, index);
      match Lookup(index, ids[0])
      case Some(n) =>
        assert r == [n] + rest;
        forall k | 0 <= k < |r|
          ensures exists i :: 0 <= i < |ids| && Lookup(index, ids[i]) == Some(r[k])
        {
          if k == 0 {
            assert Lookup(index, ids[0]) == Some(r[k]);
          } else {
            assert r[k] == rest[k - 1];
            var i :| 0 <= i < |tail| && Lookup(index, tail[i]) == Some(rest[k - 1]);
            assert ids[i + 1] == tail[i];
          }
        }
      case None =>
        assert r == rest;
        forall k | 0 <= k < |r|
          ensures exists i :: 0 <= i < |ids| && Lookup(index, ids[i]) == Some(r[k])
        {
          var i :| 0 <= i < |tail| && Lookup(index, tail[i]) == Some(rest[k]);
          assert ids[i + 1] == tail[i];
        }
    } else {
      assert |Resolved(ids, index)| == 0;
    }
  }

  /** Every id in the index contributes its length. */
  lemma {:induction false} ResolvedComplete(ids: seq<string>, index: seq<(string, nat)>)
    ensures forall i :: 0 <= i < |ids| && Lookup(index, ids[i]).Some? ==>
              Lookup(index, ids[i]).value in Resolved(ids, index)
    decreases |ids|
  {
    if ids != [] {
      var tail := ids[1..];
      ResolvedComplete(tail, index);
      assert forall i :: 1 <= i < |ids| ==> tail[i - 1] == ids[i];
    }
  }

  /** Resolving two runs of ids one after the other resolves their concatenation. */
  lemma {:induction false} ResolvedConcat(a: seq<string>, b: seq<string>, index: seq<(string, nat)>)
    ensures Resolved(a + b, index) == Resolved(a, index) + Resolved(b, index)
    decreases |a|
  {
    if a == [] {
      assert a + b == b;
    } else {
      assert (a + b)[1..] == a[1..] + b;
      ResolvedConcat(a[1..], b, index);
    }
  }

  /** The largest element of a non-empty sequence (`IntStream.max`). */
  function Max(s: seq<nat>): (r: nat)
    requires |s| > 0
    ensures r in s
    ensures forall k :: 0 <= k < |s| ==> s[k] <= r
    decreases |s|
  {
    if |s| == 1 then s[0]
    else
      var m := Max(s[1..]);
      assert forall k :: 1 <= k < |s| ==> s[1..][k - 1] == s[k];
      if s[0] >= m then s[0] else m
  }

  function Sum(s: seq<nat>): nat
    decreases |s|
  {
    if s == [] then 0 else s[0] + Sum(s[1..])
  }

  /** The exact arithmetic mean of a non-empty sequence. */
  function Mean(s: seq<nat>): real
    requires |s| > 0
  {
    Sum(s) as real / |s| as real
  }

  /** `Math.round(double)`: the nearest integer, halves rounded up. */
  function JavaRound(x: real): int {
    (x + 0.5).Floor
  }

  /**
   `(int) Math.round(IntStream.average().orElse(0))` on lengths, computed
   exactly: the mean rounded to the nearest integer with halves rounded up,
   and `0` for no lengths.
   */
  function RoundedMean(s: seq<nat>): (r: nat)
    ensures |s| == 0 ==> r == 0
    ensures |s| > 0 ==> 2 * |s| * r <= 2 * Sum(s) + |s| < 2 * |s| * (r + 1)
  {
    if |s| == 0 then 0 else (2 * Sum(s) + |s|) / (2 * |s|)
  }

  /** Multiplying both sides of an inequality by a positive number preserves it, both ways. */
  lemma MulMono(a: real, b: real, c: real)
    requires c > 0.0
    ensures a < b <==> a * c < b * c
    ensures a <= b <==> a * c <= b * c
  {
    if a < b { assert (b - a) * c > 0.0; }
    if a * c < b * c { assert (b - a) * c > 0.0; }
    if a <= b { assert (b - a) * c >= 0.0; }
    if a * c <= b * c { assert (b - a) * c >= 0.0; }
  }

  /** Converting a product of integers to a real multiplies the converted factors. */
  lemma CastMul(a: int, b: int)
    ensures (a * b) as real == a as real * b as real
  {
  }

  /** Bounds on a product by a positive number are bounds on the quotient. */
  lemma QuotientBounds(lo: real, b: real, hi: real, n: real)
    requires n > 0.0
    requires lo * n <= b < hi * n
    ensures lo <= b / n < hi
  {
    var q := b / n;
    assert q * n == b;
    MulMono(lo, q, n);
    MulMono(q, hi, n);
  }

  lemma FloorOf(x: real, r: int)
    requires r as real <= x < r as real + 1.0
    ensures x.Floor == r
  {
  }

  /** `(sum / n + 1/2).Floor` is the `r` the integer bounds pin down. */
  lemma RoundOfQuotient(sum: nat, n: nat, r: int)
    requires n > 0
    requires 2 * n * r <= 2 * sum + n < 2 * n * (r + 1)
    ensures JavaRound(sum as real / n as real) == r
  {
    // (r - 1/2) * n <= sum < (r + 1/2) * n, first in integers, then in reals
    assert n * (2 * r - 1) <= 2 * sum < n * (2 * r + 1);
    CastMul(n, 2 * r - 1);
    CastMul(n, 2 * r + 1);
    var nr, rr, sr := n as real, r as real, sum as real;
    assert nr * (2.0 * rr - 1.0) <= 2.0 * sr < nr * (2.0 * rr + 1.0);
    assert (rr - 0.5) * nr <= sr < (rr + 0.5) * nr;
    QuotientBounds(rr - 0.5, sr, rr + 0.5, nr);
    FloorOf(sr / nr + 0.5, r);
  }

  /** The integer rounding agrees with `Math.round` applied to the exact mean. */
  lemma RoundedMeanIsJavaRound(s: seq<nat>)
    requires |s| > 0
    ensures RoundedMean(s) == JavaRound(Mean(s))
  {
    RoundOfQuotient(Sum(s), |s|, RoundedMean(s));
  }

  /** A rounded quotient pinned down by its bounds is zero exactly when twice the numerator is below the denominator. */
  lemma RoundedQuotientZero(sum: nat, n: nat, r: nat)
    requires n > 0
    requires 2 * n * r <= 2 * sum + n < 2 * n * (r + 1)
    ensures r == 0 <==> 2 * sum < n
  {
    if r >= 1 {
      assert 2 * n * r == 2 * n + 2 * n * (r - 1);
      assert 2 * n * (r - 1) >= 0;
    }
  }

  /** The rounded mean is zero exactly when twice the sum is below the count. */
  lemma RoundedMeanZero(s: seq<nat>)
    requires |s| > 0
    ensures RoundedMean(s) == 0 <==> 2 * Sum(s) < |s|
  {
    RoundedQuotientZero(Sum(s), |s|, RoundedMean(s));
  }

  /** A quotient of naturals is below one half exactly when twice the numerator is below the denominator. */
  lemma QuotientBelowHalf(sum: nat, n: nat)
    requires n > 0
    ensures sum as real / n as real < 0.5 <==> 2 * sum < n
  {
    var nr, sr := n as real, sum as real;
    var q := sr / nr;
    assert q * nr == sr;
    MulMono(q, 0.5, nr);
    assert q < 0.5 <==> sr < 0.5 * nr;
    assert sr < 0.5 * nr <==> 2 * sum < n;
  }

  /** The rounded mean is zero exactly when the mean is below one half. */
  lemma MeanBelowHalf(s: seq<nat>)
    requires |s| > 0
    ensures RoundedMean(s) == 0 <==> Mean(s) < 0.5
  {
    RoundedMeanZero(s);
    QuotientBelowHalf(Sum(s), |s|);
  }

  /** Every length recorded in the index, one per entry, in iteration order (`lengths.values()`). */
  function Values(index: seq<(string, nat)>): (r: seq<nat>)
    ensures |r| == |index|
    ensures forall k :: 0 <= k < |index| ==> r[k] == index[k].1
  {
    seq(|index|, k requires 0 <= k < |index| => index[k].1)
  }

  /**
   `averageLength`: `0` without a FASTA file; otherwise the rounded mean of
   the lengths the given protein ids resolve to, replaced by the rounded
   mean of the whole index only when it is `0`.
   */
  function AverageLength(fasta: Option<LengthIndex>, ids: seq<string>): (r: nat)
    ensures fasta.None? ==> r == 0
    ensures fasta.Some? && Resolved(ids, fasta.value) == [] ==> r == RoundedMean(Values(fasta.value))
  {
    match fasta
    case None => 0
    case Some(index) =>
      var fromIds := RoundedMean(Resolved(ids, index));
      if fromIds == 0 then RoundedMean(Values(index)) else fromIds
  }

  /**
   The fallback length in terms of exact means: with a FASTA file, the
   rounded mean of the ids' resolved lengths when that mean is at least one
   half, and otherwise the rounded mean of every entry of the index (`0`
   for an empty index).
   */
  lemma AverageLengthStages(fasta: Option<LengthIndex>, ids: seq<string>)
    ensures fasta.None? ==> AverageLength(fasta, ids) == 0
    ensures fasta.Some? ==>
              var resolved := Resolved(ids, fasta.value);
              var all := Values(fasta.value);
              if |resolved| > 0 && Mean(resolved) >= 0.5 then
                AverageLength(fasta, ids) == JavaRound(Mean(resolved))
              else
                AverageLength(fasta, ids) == (if |all| == 0 then 0 else JavaRound(Mean(all)))
  {
    if fasta.Some? {
      var resolved := Resolved(ids, fasta.value);
      var all := Values(fasta.value);
      if |resolved| > 0 {
        RoundedMeanIsJavaRound(resolved);
        MeanBelowHalf(resolved);
      }
      if |all| > 0 {
        RoundedMeanIsJavaRound(all);
      }
    }
  }

  /**
   The length `convert` reports for a group with protein ids `ids`: the
   largest length any of them resolves to, or `average` when none resolves.
   */
  function GroupLength(ids: seq<string>, index: seq<(string, nat)>, average: nat): (r: nat)
    ensures (exists i :: 0 <= i < |ids| && Lookup(index, ids[i]).Some?) ==>
              && (exists i :: 0 <= i < |ids| && Lookup(index, ids[i]) == Some(r))
              && (forall i :: 0 <= i < |ids| && Lookup(index, ids[i]).Some? ==> Lookup(index, ids[i]).value <= r)
    ensures (forall i :: 0 <= i < |ids| ==> Lookup(index, ids[i]).None?) ==> r == average
  {
    var resolved := Resolved(ids, index);
    ResolvedEmpty(ids, index);
    ResolvedSound(ids, index);
    ResolvedComplete(ids, index);
    if resolved == [] then average else Max(resolved)
  }
}
