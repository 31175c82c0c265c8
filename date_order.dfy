/**
 * Chronological order of metric records.  Dates are `YYYY-MM-DD` strings and
 * the evaluator orders them with `localeCompare`; for strings of that fixed
 * shape this is character-by-character order, which `LexLe` models.  The
 * evaluator sorts a copy of the history newest first (services/dataService.ts:133);
 * `SortNewestFirst` is that sort, as a stable insertion sort.
 */
module DateOrder {
  import opened Types

  /** `a` is equal to `b` or sorts before it, character by character. */
  predicate LexLe(a: string, b: string)
    decreases |a|
  {
    |a| == 0 || (|b| > 0 && (a[0] < b[0] || (a[0] == b[0] && LexLe(a[1..], b[1..]))))
  }

  lemma {:induction false} LexLeReflexive(a: string)
    ensures LexLe(a, a)
    decreases |a|
  {
    if |a| > 0 {
      LexLeReflexive(a[1..]);
    }
  }

  lemma {:induction false} LexLeTotal(a: string, b: string)
    ensures LexLe(a, b) || LexLe(b, a)
    decreases |a|
  {
    if |a| > 0 && |b| > 0 && a[0] == b[0] {
      LexLeTotal(a[1..], b[1..]);
    }
  }

  lemma {:induction false} LexLeAntisymmetric(a: string, b: string)
    requires LexLe(a, b) && LexLe(b, a)
    ensures a == b
    decreases |a|
  {
    if |a| > 0 {
      assert a[0] == b[0];
      LexLeAntisymmetric(a[1..], b[1..]);
      assert a == [a[0]] + a[1..] && b == [b[0]] + b[1..];
    }
  }

  lemma {:induction false} LexLeTransitive(a: string, b: string, c: string)
    requires LexLe(a, b) && LexLe(b, c)
    ensures LexLe(a, c)
    decreases |a|
  {
    if |a| > 0 && a[0] == b[0] && b[0] == c[0] {
      LexLeTransitive(a[1..], b[1..], c[1..]);
    }
  }

  /** Every record is dated on or after every record that follows it. */
  ghost predicate NewestFirst(s: seq<DailyMetric>) {
    forall i, j :: 0 <= i < j < |s| ==> LexLe(s[j].date, s[i].date)
  }

  /** No two records share a date (what the store keyed by date guarantees). */
  ghost predicate DistinctDates(s: seq<DailyMetric>) {
    forall i, j :: 0 <= i < j < |s| ==> s[i].date != s[j].date
  }

  /**
   * Inserts `m` into a list sorted newest first, in front of the first record
   * dated on or before it, so that of two records with the same date the one
   * inserted last stays in front.
   */
  function Insert(m: DailyMetric, s: seq<DailyMetric>): (r: seq<DailyMetric>)
    ensures multiset(r) == multiset(s) + multiset{m}
    ensures NewestFirst(s) ==> NewestFirst(r)
  {
    if s == [] then [m]
    else if LexLe(s[0].date, m.date) then
      InsertInFrontSorted(m, s);
      [m] + s
    else
      var t := Insert(m, s[1..]);
      assert s == [s[0]] + s[1..];
      InsertBehindSorted(m, s, t);
      [s[0]] + t
  }

  lemma InsertInFrontSorted(m: DailyMetric, s: seq<DailyMetric>)
    requires s != [] && LexLe(s[0].date, m.date)
    ensures NewestFirst(s) ==> NewestFirst([m] + s)
  {
    if NewestFirst(s) {
      forall j | 0 < j < |s| ensures LexLe(s[j].date, m.date) {
        LexLeTransitive(s[j].date, s[0].date, m.date);
      }
    }
  }

  lemma InsertBehindSorted(m: DailyMetric, s: seq<DailyMetric>, t: seq<DailyMetric>)
    requires s != [] && !LexLe(s[0].date, m.date)
    requires multiset(t) == multiset(s[1..]) + multiset{m}
    requires NewestFirst(s[1..]) ==> NewestFirst(t)
    ensures NewestFirst(s) ==> NewestFirst([s[0]] + t)
  {
    if NewestFirst(s) {
      NewestFirstTail(s);
      LexLeTotal(s[0].date, m.date);
      forall k | 0 <= k < |t| ensures LexLe(t[k].date, s[0].date) {
        assert t[k] in multiset(t);
        if t[k] != m {
          assert t[k] in multiset(s[1..]);
          var j :| 0 <= j < |s[1..]| && s[1..][j] == t[k];
          assert s[j + 1] == t[k];
        }
      }
    }
  }

  /** The history sorted newest first: a permutation of it in date order. */
  function SortNewestFirst(s: seq<DailyMetric>): (r: seq<DailyMetric>)
    ensures multiset(r) == multiset(s)
    ensures NewestFirst(r)
  {
    if s == [] then []
    else
      assert s == [s[0]] + s[1..];
      Insert(s[0], SortNewestFirst(s[1..]))
  }

  /** A history with distinct dates holds each record at most once. */
  lemma {:induction false} DistinctDatesCountsOnce(s: seq<DailyMetric>, x: DailyMetric)
    requires DistinctDates(s)
    ensures multiset(s)[x] <= 1
    decreases |s|
  {
    if s != [] {
      assert s == [s[0]] + s[1..];
      DistinctDatesTail(s);
      DistinctDatesCountsOnce(s[1..], x);
    }
  }

  /** A record that stands at two positions is counted twice. */
  lemma CountedTwice(r: seq<DailyMetric>, i: int, j: int)
    requires 0 <= i < j < |r| && r[i] == r[j]
    ensures multiset(r)[r[i]] >= 2
  {
    assert r == r[..j] + r[j..];
    assert r[i] == r[..j][i] && r[j] == r[j..][0];
    assert multiset(r) == multiset(r[..j]) + multiset(r[j..]);
  }

  /** Rearranging a history whose dates are distinct keeps them distinct. */
  lemma DistinctDatesPermutation(s: seq<DailyMetric>, r: seq<DailyMetric>)
    requires multiset(s) == multiset(r)
    requires DistinctDates(s)
    ensures DistinctDates(r)
  {
    forall i, j | 0 <= i < j < |r| ensures r[i].date != r[j].date {
      if r[i] == r[j] {
        CountedTwice(r, i, j);
        DistinctDatesCountsOnce(s, r[i]);
      } else {
        assert r[i] in multiset(s) && r[j] in multiset(s);
        var p :| 0 <= p < |s| && s[p] == r[i];
        var q :| 0 <= q < |s| && s[q] == r[j];
        assert p != q;
      }
    }
  }

  /**
   * Two newest-first lists holding the same records, with distinct dates, are
   * the same list: the sorted order is determined by the records alone.
   */
  lemma {:induction false} NewestFirstUnique(a: seq<DailyMetric>, b: seq<DailyMetric>)
    requires NewestFirst(a) && NewestFirst(b)
    requires DistinctDates(a)
    requires multiset(a) == multiset(b)
    ensures a == b
    decreases |a|
  {
    assert |a| == |multiset(a)| == |b|;
    if a != [] {
      NewestFirstSameHead(a, b);
      assert a == [a[0]] + a[1..] && b == [b[0]] + b[1..];
      assert multiset(a[1..]) == multiset(a) - multiset{a[0]};
      assert multiset(b[1..]) == multiset(b) - multiset{b[0]};
      NewestFirstTail(a);
      NewestFirstTail(b);
      DistinctDatesTail(a);
      NewestFirstUnique(a[1..], b[1..]);
    }
  }

  /** The newest record of two such lists is the same record. */
  lemma NewestFirstSameHead(a: seq<DailyMetric>, b: seq<DailyMetric>)
    requires NewestFirst(a) && NewestFirst(b)
    requires DistinctDates(a)
    requires multiset(a) == multiset(b)
    requires a != [] && b != []
    ensures a[0] == b[0]
  {
    assert a[0] in multiset(b) && b[0] in multiset(a);
    var j :| 0 <= j < |b| && b[j] == a[0];
    var i :| 0 <= i < |a| && a[i] == b[0];
    assert LexLe(a[0].date, b[0].date) by {
      if j > 0 { assert LexLe(b[j].date, b[0].date); } else { LexLeReflexive(a[0].date); }
    }
    assert LexLe(b[0].date, a[0].date) by {
      if i > 0 { assert LexLe(a[i].date, a[0].date); } else { LexLeReflexive(a[0].date); }
    }
    LexLeAntisymmetric(a[0].date, b[0].date);
    assert i == 0;
  }

  lemma NewestFirstTail(s: seq<DailyMetric>)
    requires NewestFirst(s) && s != []
    ensures NewestFirst(s[1..])
  {
    forall i, j | 0 <= i < j < |s| - 1 ensures LexLe(s[1..][j].date, s[1..][i].date) {
      assert s[1..][i] == s[i + 1] && s[1..][j] == s[j + 1];
    }
  }

  lemma DistinctDatesTail(s: seq<DailyMetric>)
    requires DistinctDates(s) && s != []
    ensures DistinctDates(s[1..])
  {
    forall i, j | 0 <= i < j < |s| - 1 ensures s[1..][i].date != s[1..][j].date {
      assert s[1..][i] == s[i + 1] && s[1..][j] == s[j + 1];
    }
  }

  /**
   * For a history with distinct dates the sorted result does not depend on the
   * order in which the records were supplied.
   */
  lemma SortOrderIndependent(a: seq<DailyMetric>, b: seq<DailyMetric>)
    requires multiset(a) == multiset(b)
    requires DistinctDates(a)
    ensures SortNewestFirst(a) == SortNewestFirst(b)
  {
    DistinctDatesPermutation(a, SortNewestFirst(a));
    NewestFirstUnique(SortNewestFirst(a), SortNewestFirst(b));
  }
}
