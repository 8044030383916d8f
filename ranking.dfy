/** The ranking step: `sort_values(by='Cited by', ascending=False)`. */
module Ranking {
  import opened Records

  /** The sort key. A missing count sorts after every present one (`na_position='last'`). */
  function CiteKey(r: Record): int
  {
    match r.citedBy
    case Some(n) => n
    case None => -1
  }

  /** `a` may stand before `b` in a descending ranking. */
  predicate RankedBefore(a: Record, b: Record)
  {
    CiteKey(a) >= CiteKey(b)
  }

  /** Citation counts never increase from first row to last. */
  ghost predicate Descending(s: seq<Record>)
  {
    forall i, j :: 0 <= i < j < |s| ==> RankedBefore(s[i], s[j])
  }

  /** Places `x` into a ranking before the first row it is not ranked below. */
  function Insert(x: Record, s: seq<Record>): (r: seq<Record>)
    requires Descending(s)
    ensures multiset(r) == multiset(s) + multiset{x}
    ensures Descending(r)
  {
    if s == [] || CiteKey(x) >= CiteKey(s[0]) then [x] + s
    else
      var tail := Insert(x, s[1..]);
      assert s == [s[0]] + s[1..];
      assert forall y :: y in multiset(tail) ==> RankedBefore(s[0], y) by {
        forall y | y in multiset(tail) ensures RankedBefore(s[0], y) {
          if y != x {
            assert y in s[1..];
          }
        }
      }
      assert forall k :: 0 <= k < |tail| ==> tail[k] in multiset(tail);
      [s[0]] + tail
  }

  /** The ranked table: the same rows, most cited first. The order among rows with equal
      counts is one possible choice and nothing below depends on it. */
  function RankByCitations(rows: seq<Record>): (ranked: seq<Record>)
    ensures multiset(ranked) == multiset(rows)
    ensures Descending(ranked)
  {
    if rows == [] then []
    else
      assert rows == [rows[0]] + rows[1..];
      Insert(rows[0], RankByCitations(rows[1..]))
  }

  lemma DescendingTail(a: seq<Record>)
    requires Descending(a) && a != []
    ensures Descending(a[1..])
  {
  }

  /** Deleting one row from a ranking leaves a ranking. */
  lemma DescendingWithout(b: seq<Record>, k: nat)
    requires Descending(b) && k < |b|
    ensures Descending(b[..k] + b[k + 1..])
  {
  }

  /** The first row of a ranking has the largest count. */
  lemma HeadIsMaximal(a: seq<Record>, r: Record)
    requires Descending(a) && r in multiset(a)
    ensures a != [] && CiteKey(r) <= CiteKey(a[0])
  {
  }

  /** Removing row `k` of a ranking whose count equals the first count shifts the counts
      before `k` by one place without changing them. */
  lemma CountsAfterRemoval(b: seq<Record>, k: nat)
    requires Descending(b) && k < |b| && CiteKey(b[0]) == CiteKey(b[k])
    ensures forall i :: 1 <= i < |b| ==> CiteKey(b[i]) == CiteKey((b[..k] + b[k + 1..])[i - 1])
  {
  }

  lemma RemoveOne(b: seq<Record>, k: nat)
    requires k < |b|
    ensures multiset(b[..k] + b[k + 1..]) == multiset(b) - multiset{b[k]}
  {
    assert b == b[..k] + [b[k]] + b[k + 1..];
  }

  /** Where the first row of `a` sits in another ranking `b` of the same rows, and what is
      left of both once it is taken out. */
  lemma {:induction false} MatchHead(a: seq<Record>, b: seq<Record>) returns (k: nat)
    requires multiset(a) == multiset(b) && a != []
    requires Descending(a) && Descending(b)
    ensures k < |b| && CiteKey(a[0]) == CiteKey(b[0])
    ensures multiset(a[1..]) == multiset(b[..k] + b[k + 1..])
    ensures Descending(a[1..]) && Descending(b[..k] + b[k + 1..])
    ensures forall i :: 1 <= i < |b| ==> CiteKey(b[i]) == CiteKey((b[..k] + b[k + 1..])[i - 1])
  {
    assert a[0] in multiset(b);
    k :| 0 <= k < |b| && b[k] == a[0];
    HeadIsMaximal(b, a[0]);
    HeadIsMaximal(a, b[0]);
    CountsAfterRemoval(b, k);
    RemoveOne(b, k);
    assert a == [a[0]] + a[1..];
    assert multiset(a[1..]) == multiset(a) - multiset{a[0]};
    DescendingWithout(b, k);
    DescendingTail(a);
  }

  /** Ties are the only freedom a ranking has: any two descending orderings of the same rows
      list the same citation count at every position. */
  lemma {:induction false} RankingsAgreeOnCounts(a: seq<Record>, b: seq<Record>)
    requires multiset(a) == multiset(b)
    requires Descending(a) && Descending(b)
    ensures |a| == |b|
    ensures forall i :: 0 <= i < |a| ==> CiteKey(a[i]) == CiteKey(b[i])
    decreases |a|
  {
    assert |a| == |multiset(a)| == |multiset(b)| == |b|;
    if a != [] {
      var k := MatchHead(a, b);
      RankingsAgreeOnCounts(a[1..], b[..k] + b[k + 1..]);
      AgreeFromTails(a, b, k);
    }
  }

  lemma AgreeFromTails(a: seq<Record>, b: seq<Record>, k: nat)
    requires |a| == |b| && k < |b| && a != []
    requires CiteKey(a[0]) == CiteKey(b[0])
    requires forall i :: 0 <= i < |a| - 1 ==> CiteKey(a[1..][i]) == CiteKey((b[..k] + b[k + 1..])[i])
    requires forall i :: 1 <= i < |b| ==> CiteKey(b[i]) == CiteKey((b[..k] + b[k + 1..])[i - 1])
    ensures forall i :: 0 <= i < |a| ==> CiteKey(a[i]) == CiteKey(b[i])
  {
    forall i | 1 <= i < |a| ensures CiteKey(a[i]) == CiteKey(b[i]) {
      assert a[i] == a[1..][i - 1];
    }
  }
}
