/** Ordering of classification entries by score, as both handlers do it with
    `response.sort((a, b) => b.score - a.score)`. `Array.prototype.sort` is
    stable, so with this comparator it orders entries by descending score and
    keeps entries of equal score in their original order. */
module Ranking {

  /** One entry of a classification reply: the JSON object `{ label, score }`
      (`label` is a reserved word in Dafny, hence `name`). Scores are only
      compared, so they are modelled as reals under their usual total order. */
  datatype Scored = Scored(name: string, score: real)

  /** Scores never increase from left to right. */
  predicate Descending(s: seq<Scored>) {
    forall i, j :: 0 <= i < j < |s| ==> s[i].score >= s[j].score
  }

  /** The entries of `s` whose score is `v`, in their order in `s`. A sort is
      stable exactly when it leaves every such subsequence as it was. */
  function WithScore(s: seq<Scored>, v: real): (r: seq<Scored>)
    ensures |r| <= |s|
  {
    if s == [] then []
    else (if s[0].score == v then [s[0]] else []) + WithScore(s[1..], v)
  }

  /** `s` holds an entry of maximal score at `i`, and every earlier entry has a
      strictly smaller score: `i` is where the earliest maximum sits. */
  predicate IsEarliestMax(s: seq<Scored>, i: int) {
    && 0 <= i < |s|
    && (forall j :: 0 <= j < |s| ==> s[j].score <= s[i].score)
    && (forall j :: 0 <= j < i ==> s[j].score < s[i].score)
  }

  /** The index of the earliest entry of maximal score. */
  function EarliestMaxIndex(s: seq<Scored>): (i: nat)
    requires |s| > 0
    ensures IsEarliestMax(s, i)
  {
    if |s| == 1 then 0
    else
      var k := EarliestMaxIndex(s[1..]);
      if s[0].score >= s[k + 1].score then 0 else k + 1
  }

  /** Places `x` in front of the first entry whose score is not above its own:
      after every entry that outranks it, before every entry it ties with. */
  function Insert(x: Scored, l: seq<Scored>): (r: seq<Scored>)
    ensures |r| == |l| + 1
  {
    if l == [] || x.score >= l[0].score then [x] + l
    else [l[0]] + Insert(x, l[1..])
  }

  lemma {:induction false} InsertAddsEntry(x: Scored, l: seq<Scored>)
    ensures multiset(Insert(x, l)) == multiset(l) + multiset{x}
  {
    if l != [] && x.score < l[0].score {
      InsertAddsEntry(x, l[1..]);
      assert l == [l[0]] + l[1..];
    }
  }

  /** No entry of `s` scores above `b`. */
  predicate AllAtMost(s: seq<Scored>, b: real) {
    forall k :: 0 <= k < |s| ==> s[k].score <= b
  }

  lemma {:induction false} InsertKeepsBound(x: Scored, l: seq<Scored>, b: real)
    requires AllAtMost(l, b) && x.score <= b
    ensures AllAtMost(Insert(x, l), b)
  {
    if l != [] && x.score < l[0].score {
      InsertKeepsBound(x, l[1..], b);
      var r := Insert(x, l);
      assert r == [l[0]] + Insert(x, l[1..]);
      forall k | 0 < k < |r| ensures r[k].score <= b {
        assert r[k] == Insert(x, l[1..])[k - 1];
      }
    }
  }

  lemma {:induction false} InsertKeepsDescending(x: Scored, l: seq<Scored>)
    requires Descending(l)
    ensures Descending(Insert(x, l))
  {
    if l != [] && x.score < l[0].score {
      var t := Insert(x, l[1..]);
      InsertKeepsDescending(x, l[1..]);
      InsertKeepsBound(x, l[1..], l[0].score);
      var r := [l[0]] + t;
      assert Insert(x, l) == r;
      forall i, j | 0 <= i < j < |r| ensures r[i].score >= r[j].score {
        assert r[j] == t[j - 1];
        if i > 0 {
          assert r[i] == t[i - 1];
        }
      }
    }
  }

  /** `s.sort((a, b) => b.score - a.score)`: a stable insertion sort that
      inserts each entry in front of the already sorted later entries. */
  function SortByScoreDesc(s: seq<Scored>): (r: seq<Scored>)
    ensures |r| == |s|
  {
    if s == [] then [] else Insert(s[0], SortByScoreDesc(s[1..]))
  }

  /** The sort rearranges the entries and drops or adds none. */
  lemma {:induction false} SortIsPermutation(s: seq<Scored>)
    ensures multiset(SortByScoreDesc(s)) == multiset(s)
  {
    if s != [] {
      SortIsPermutation(s[1..]);
      InsertAddsEntry(s[0], SortByScoreDesc(s[1..]));
      assert s == [s[0]] + s[1..];
    }
  }

  /** The sort orders entries by descending score. */
  lemma {:induction false} SortIsDescending(s: seq<Scored>)
    ensures Descending(SortByScoreDesc(s))
  {
    if s != [] {
      SortIsDescending(s[1..]);
      InsertKeepsDescending(s[0], SortByScoreDesc(s[1..]));
    }
  }

  lemma WithScoreCons(x: Scored, l: seq<Scored>, v: real)
    ensures WithScore([x] + l, v) == (if x.score == v then [x] else []) + WithScore(l, v)
  {
    assert ([x] + l)[1..] == l;
  }

  lemma {:induction false} WithScoreOfInsert(x: Scored, l: seq<Scored>, v: real)
    ensures WithScore(Insert(x, l), v) == WithScore([x] + l, v)
  {
    if l != [] && x.score < l[0].score {
      var y, rest := l[0], l[1..];
      var t := Insert(x, rest);
      assert l == [y] + rest;
      assert Insert(x, l) == [y] + t;
      WithScoreOfInsert(x, rest, v);
      WithScoreCons(y, t, v);
      WithScoreCons(x, rest, v);
      WithScoreCons(x, l, v);
      WithScoreCons(y, rest, v);
      if x.score == v {
        assert WithScore(Insert(x, l), v) == [x] + WithScore(rest, v);
      } else if y.score == v {
        assert WithScore(Insert(x, l), v) == [y] + WithScore(rest, v);
      } else {
        assert WithScore(Insert(x, l), v) == WithScore(rest, v);
      }
    }
  }

  /** The sort is stable: entries of equal score keep their relative order. */
  lemma {:induction false} SortIsStable(s: seq<Scored>, v: real)
    ensures WithScore(SortByScoreDesc(s), v) == WithScore(s, v)
  {
    if s != [] {
      SortIsStable(s[1..], v);
      WithScoreOfInsert(s[0], SortByScoreDesc(s[1..]), v);
      assert ([s[0]] + SortByScoreDesc(s[1..]))[1..] == SortByScoreDesc(s[1..]);
    }
  }

  lemma {:induction false} WithScoreAbsent(s: seq<Scored>, v: real)
    requires forall k :: 0 <= k < |s| ==> s[k].score != v
    ensures WithScore(s, v) == []
  {
    if s != [] {
      WithScoreAbsent(s[1..], v);
    }
  }

  /** Two descending sequences that agree on the entries of every score are
      the same sequence. */
  lemma {:induction false} DescendingDeterminedByScores(r: seq<Scored>, t: seq<Scored>)
    requires Descending(r) && Descending(t)
    requires forall v :: WithScore(r, v) == WithScore(t, v)
    ensures r == t
  {
    if r == [] && t != [] {
      assert false;
    } else if r != [] && t == [] {
      assert r == [r[0]] + r[1..];
      WithScoreCons(r[0], r[1..], r[0].score);
      assert false;
    } else if r != [] {
      var m, n := r[0].score, t[0].score;
      if m > n {
        WithScoreAbsent(t, m);
        assert false;
      } else if n > m {
        WithScoreAbsent(r, n);
        assert false;
      }
      assert r == [r[0]] + r[1..];
      assert t == [t[0]] + t[1..];
      WithScoreCons(r[0], r[1..], m);
      WithScoreCons(t[0], t[1..], m);
      assert WithScore(r, m)[0] == r[0];
      assert WithScore(t, m)[0] == t[0];
      assert r[0] == t[0];
      forall v ensures WithScore(r[1..], v) == WithScore(t[1..], v) {
        var h := if m == v then [r[0]] else [];
        WithScoreCons(r[0], r[1..], v);
        WithScoreCons(t[0], t[1..], v);
        assert WithScore(r, v) == WithScore(t, v);
        assert h + WithScore(r[1..], v) == h + WithScore(t[1..], v);
        assert WithScore(r[1..], v) == (h + WithScore(r[1..], v))[|h|..];
        assert WithScore(t[1..], v) == (h + WithScore(t[1..], v))[|h|..];
      }
      DescendingDeterminedByScores(r[1..], t[1..]);
    }
  }

  /** The sort is the only result a stable descending sort may give: any
      descending arrangement of `s` that keeps entries of equal score in
      their original order is `SortByScoreDesc(s)`. */
  lemma SortIsUnique(s: seq<Scored>, r: seq<Scored>)
    requires Descending(r)
    requires forall v :: WithScore(r, v) == WithScore(s, v)
    ensures r == SortByScoreDesc(s)
  {
    forall v ensures WithScore(r, v) == WithScore(SortByScoreDesc(s), v) {
      SortIsStable(s, v);
    }
    SortIsDescending(s);
    DescendingDeterminedByScores(r, SortByScoreDesc(s));
  }

  /** The first entry after sorting is the earliest entry of maximal score. */
  lemma {:induction false} HeadIsEarliestMax(s: seq<Scored>, i: int)
    requires IsEarliestMax(s, i)
    ensures SortByScoreDesc(s)[0] == s[i]
  {
    var rest := s[1..];
    if i == 0 {
      if rest != [] {
        var m := EarliestMaxIndex(rest);
        HeadIsEarliestMax(rest, m);
        assert SortByScoreDesc(rest)[0] == s[m + 1];
      }
    } else {
      assert IsEarliestMax(rest, i - 1);
      HeadIsEarliestMax(rest, i - 1);
    }
  }
}
