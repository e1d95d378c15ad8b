/**
 The leaderboard (`getLeaderboard`): the score table's entries sorted by
 non-increasing score with a stable sort, so players with equal scores keep
 the table's order. The sort is written as an insertion sort; any stable
 sort yields the same list (see `StableSortUnique`).
 */
module Ranking {
  import opened Scores

  /** The comparator `(a, b) => b.score - a.score` never reports a later
      entry as belonging before an earlier one. */
  predicate SortedDesc(s: seq<Entry>)
  {
    forall i, j :: 0 <= i < j < |s| ==> s[i].score >= s[j].score
  }

  /** The entries with score `score`, in their order in `s`. */
  function WithScore(s: seq<Entry>, score: int): seq<Entry>
  {
    if s == [] then []
    else (if s[0].score == score then [s[0]] else []) + WithScore(s[1..], score)
  }

  /** `WithScore` keeps exactly the entries of `s` with that score. */
  lemma {:induction false} WithScoreIs(s: seq<Entry>, score: int)
    ensures |WithScore(s, score)| <= |s|
    ensures forall x :: x in WithScore(s, score) <==> x in s && x.score == score
  {
    if s != [] {
      WithScoreIs(s[1..], score);
      assert s == [s[0]] + s[1..];
    }
  }

  lemma WithScoreCons(x: Entry, s: seq<Entry>, score: int)
    ensures WithScore([x] + s, score) == (if x.score == score then [x] else []) + WithScore(s, score)
  {
    assert ([x] + s)[1..] == s;
  }

  lemma SortedCons(x: Entry, s: seq<Entry>)
    requires SortedDesc(s)
    requires forall y :: y in multiset(s) ==> y.score <= x.score
    ensures SortedDesc([x] + s)
  {
    forall j | 0 <= j < |s| ensures s[j].score <= x.score {
      assert s[j] in multiset(s);
    }
  }

  /** Inserts `e` into a sorted list ahead of every entry with a score no
      higher than its own. */
  function Insert(e: Entry, s: seq<Entry>): (r: seq<Entry>)
    requires SortedDesc(s)
    ensures SortedDesc(r)
    ensures multiset(r) == multiset(s) + multiset{e}
    ensures forall score :: WithScore(r, score) == (if e.score == score then [e] else []) + WithScore(s, score)
  {
    if s == [] || e.score >= s[0].score then
      InsertFront(e, s);
      [e] + s
    else
      var rest := Insert(e, s[1..]);
      InsertStep(e, s, rest);
      [s[0]] + rest
  }

  lemma InsertFront(e: Entry, s: seq<Entry>)
    requires SortedDesc(s) && (s == [] || e.score >= s[0].score)
    ensures SortedDesc([e] + s)
    ensures forall score :: WithScore([e] + s, score) == (if e.score == score then [e] else []) + WithScore(s, score)
  {
    if s != [] {
      TailBelowHead(s);
      assert s == [s[0]] + s[1..];
    }
    SortedCons(e, s);
    forall score ensures WithScore([e] + s, score) == (if e.score == score then [e] else []) + WithScore(s, score) {
      WithScoreCons(e, s, score);
    }
  }

  lemma InsertStep(e: Entry, s: seq<Entry>, rest: seq<Entry>)
    requires s != [] && e.score < s[0].score && SortedDesc(s)
    requires SortedDesc(rest)
    requires multiset(rest) == multiset(s[1..]) + multiset{e}
    requires forall score :: WithScore(rest, score) == (if e.score == score then [e] else []) + WithScore(s[1..], score)
    ensures SortedDesc([s[0]] + rest)
    ensures multiset([s[0]] + rest) == multiset(s) + multiset{e}
    ensures forall score :: WithScore([s[0]] + rest, score) == (if e.score == score then [e] else []) + WithScore(s, score)
  {
    assert s == [s[0]] + s[1..];
    InsertSorted(e, s, rest);
    forall score ensures WithScore([s[0]] + rest, score) == (if e.score == score then [e] else []) + WithScore(s, score) {
      InsertWithScore(e, s, rest, score);
    }
  }

  lemma InsertSorted(e: Entry, s: seq<Entry>, rest: seq<Entry>)
    requires s != [] && e.score < s[0].score && SortedDesc(s)
    requires SortedDesc(rest)
    requires multiset(rest) == multiset(s[1..]) + multiset{e}
    ensures SortedDesc([s[0]] + rest)
  {
    TailBelowHead(s);
    SortedCons(s[0], rest);
  }

  lemma InsertWithScore(e: Entry, s: seq<Entry>, rest: seq<Entry>, score: int)
    requires s != [] && e.score < s[0].score
    requires WithScore(rest, score) == (if e.score == score then [e] else []) + WithScore(s[1..], score)
    ensures WithScore([s[0]] + rest, score) == (if e.score == score then [e] else []) + WithScore(s, score)
  {
    WithScoreCons(s[0], rest, score);
    WithScoreCons(s[0], s[1..], score);
    assert s == [s[0]] + s[1..];
    if score == s[0].score {
      assert e.score != score;
    }
  }

  lemma TailBelowHead(s: seq<Entry>)
    requires s != [] && SortedDesc(s)
    ensures forall y :: y in multiset(s[1..]) ==> y.score <= s[0].score
  {
    forall y | y in multiset(s[1..]) ensures y.score <= s[0].score {
      var j :| 0 <= j < |s[1..]| && s[1..][j] == y;
      assert s[j + 1] == y;
    }
  }

  /** `getLeaderboard`: the table's entries by non-increasing score, ties
      in table order. */
  function Leaderboard(t: Table): (r: seq<Entry>)
    ensures SortedDesc(r)
    decreases |t|
  {
    if t == [] then [] else Insert(t[0], Leaderboard(t[1..]))
  }

  /** The leaderboard is a permutation of the table that keeps the table's
      order among equal scores. */
  lemma LeaderboardPermutes(t: Table)
    ensures multiset(Leaderboard(t)) == multiset(t)
    ensures forall score :: WithScore(Leaderboard(t), score) == WithScore(t, score)
  {
    LeaderboardMultiset(t);
    forall score ensures WithScore(Leaderboard(t), score) == WithScore(t, score) {
      LeaderboardWithScore(t, score);
    }
  }

  lemma {:induction false} LeaderboardMultiset(t: Table)
    ensures multiset(Leaderboard(t)) == multiset(t)
    decreases |t|
  {
    if t != [] {
      LeaderboardMultiset(t[1..]);
      assert t == [t[0]] + t[1..];
    }
  }

  lemma {:induction false} LeaderboardWithScore(t: Table, score: int)
    ensures WithScore(Leaderboard(t), score) == WithScore(t, score)
    decreases |t|
  {
    if t != [] {
      LeaderboardWithScore(t[1..], score);
      WithScoreCons(t[0], t[1..], score);
      assert t == [t[0]] + t[1..];
    }
  }

  /** In a sorted list the first entry holds the highest score. */
  lemma HeadIsMax(s: seq<Entry>, score: int)
    requires SortedDesc(s) && s != []
    requires WithScore(s, score) != []
    ensures score <= s[0].score
  {
    var x := WithScore(s, score)[0];
    WithScoreIs(s, score);
    assert x in WithScore(s, score);
    var j :| 0 <= j < |s| && s[j] == x;
  }

  /** Two sorted lists that hold, for every score, the same entries in the
      same order are the same list: sortedness and stability determine the
      leaderboard. */
  lemma {:induction false} StableSortUnique(a: seq<Entry>, b: seq<Entry>)
    requires SortedDesc(a) && SortedDesc(b)
    requires forall score :: WithScore(a, score) == WithScore(b, score)
    ensures a == b
    decreases |a|
  {
    if a != [] {
      NonEmptyWithScore(a, b);
    } else if b != [] {
      NonEmptyWithScore(b, a);
    }
    if a != [] {
      SameHead(a, b);
      forall score ensures WithScore(a[1..], score) == WithScore(b[1..], score) {
        TailWithScore(a, score);
        TailWithScore(b, score);
      }
      StableSortUnique(a[1..], b[1..]);
      assert a == [a[0]] + a[1..] && b == [b[0]] + b[1..];
    }
  }

  lemma NonEmptyWithScore(a: seq<Entry>, b: seq<Entry>)
    requires a != []
    requires WithScore(a, a[0].score) == WithScore(b, a[0].score)
    ensures b != []
  {
    WithScoreCons(a[0], a[1..], a[0].score);
    assert a == [a[0]] + a[1..];
  }

  /** Sorted lists with the same entries per score start alike. */
  lemma SameHead(a: seq<Entry>, b: seq<Entry>)
    requires SortedDesc(a) && SortedDesc(b) && a != [] && b != []
    requires WithScore(a, a[0].score) == WithScore(b, a[0].score)
    requires WithScore(a, b[0].score) == WithScore(b, b[0].score)
    ensures a[0] == b[0]
  {
    var m, n := a[0].score, b[0].score;
    var wa, wb := WithScore(a, m), WithScore(b, n);
    assert wa == [a[0]] + WithScore(a[1..], m) by {
      WithScoreCons(a[0], a[1..], m);
      assert a == [a[0]] + a[1..];
    }
    assert wb == [b[0]] + WithScore(b[1..], n) by {
      WithScoreCons(b[0], b[1..], n);
      assert b == [b[0]] + b[1..];
    }
    HeadIsMax(b, m);
    HeadIsMax(a, n);
    assert m == n;
    assert wa[0] == a[0] && wb[0] == b[0];
  }

  lemma TailWithScore(a: seq<Entry>, score: int)
    requires a != []
    ensures WithScore(a[1..], score) == WithScore(a, score)[(if a[0].score == score then 1 else 0)..]
  {
    WithScoreCons(a[0], a[1..], score);
    assert a == [a[0]] + a[1..];
  }

  /** Any ordering of the table by non-increasing score that keeps equal
      scores in table order is the leaderboard. */
  lemma LeaderboardIsTheStableOrder(t: Table, s: seq<Entry>)
    requires SortedDesc(s)
    requires forall score :: WithScore(s, score) == WithScore(t, score)
    ensures s == Leaderboard(t)
  {
    LeaderboardPermutes(t);
    StableSortUnique(s, Leaderboard(t));
  }

  /** Ranking an already ranked list changes nothing. */
  lemma LeaderboardIdempotent(t: Table)
    ensures Leaderboard(Leaderboard(t)) == Leaderboard(t)
  {
    LeaderboardPermutes(t);
    LeaderboardPermutes(Leaderboard(t));
    StableSortUnique(Leaderboard(Leaderboard(t)), Leaderboard(t));
  }

  /** Every player on the table appears on the leaderboard with its score,
      and nothing else does. */
  lemma LeaderboardEntries(t: Table, e: Entry)
    ensures e in Leaderboard(t) <==> e in t
  {
    LeaderboardPermutes(t);
    assert e in multiset(Leaderboard(t)) <==> e in multiset(t);
  }
}
