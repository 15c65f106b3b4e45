/** `text.split(/[.,;\s]+/)`: the summary text cut at every maximal run of
    full stops, commas, semicolons and `\s` white space.  As in ECMAScript's
    `String.prototype.split` with a regular expression that never matches the
    empty string, a delimiter run at the start or the end leaves an empty
    first or last piece, and the empty string splits into `[""]`. */
module Tokens {
  import Js

  predicate IsDelimiter(c: char) {
    c == '.' || c == ',' || c == ';' || Js.IsWhiteSpace(c)
  }

  predicate NoDelimiter(t: string) {
    forall k :: 0 <= k < |t| ==> !IsDelimiter(t[k])
  }

  predicate AllDelimiters(d: string) {
    forall k :: 0 <= k < |d| ==> IsDelimiter(d[k])
  }

  /** Length of the longest prefix of `s` that holds no delimiter. */
  function WordLength(s: string): (n: nat)
    ensures n <= |s|
    ensures n < |s| ==> IsDelimiter(s[n])
  {
    if s == [] || IsDelimiter(s[0]) then 0 else WordLength(s[1..]) + 1
  }

  /** Length of the longest prefix of `s` made of delimiters only. */
  function RunLength(s: string): (n: nat)
    ensures n <= |s|
    ensures n < |s| ==> !IsDelimiter(s[n])
    ensures s != [] && IsDelimiter(s[0]) ==> n > 0
  {
    if s == [] || !IsDelimiter(s[0]) then 0 else RunLength(s[1..]) + 1
  }

  /** `WordLength(s)` is where the first delimiter of `s` sits: the prefix
      before `n` is free of delimiters exactly for `n <= WordLength(s)`. */
  lemma {:induction false} WordLengthIsFirstDelimiter(s: string, n: nat)
    requires n <= |s|
    ensures NoDelimiter(s[..n]) <==> n <= WordLength(s)
  {
    if s != [] && !IsDelimiter(s[0]) && n > 0 {
      WordLengthIsFirstDelimiter(s[1..], n - 1);
      assert s[..n] == [s[0]] + s[1..][..n - 1];
    }
    if s != [] && IsDelimiter(s[0]) && n > 0 {
      assert s[..n][0] == s[0];
    }
  }

  /** `RunLength(s)` is where the first non-delimiter of `s` sits: the prefix
      before `n` is made of delimiters exactly for `n <= RunLength(s)`. */
  lemma {:induction false} RunLengthIsFirstNonDelimiter(s: string, n: nat)
    requires n <= |s|
    ensures AllDelimiters(s[..n]) <==> n <= RunLength(s)
  {
    if s != [] && IsDelimiter(s[0]) && n > 0 {
      RunLengthIsFirstNonDelimiter(s[1..], n - 1);
      assert s[..n] == [s[0]] + s[1..][..n - 1];
    }
    if s != [] && !IsDelimiter(s[0]) && n > 0 {
      assert s[..n][0] == s[0];
    }
  }

  /** Where the text after the first delimiter run starts. */
  function NextStart(s: string): (e: nat)
    requires WordLength(s) < |s|
    ensures WordLength(s) < e <= |s|
  {
    WordLength(s) + RunLength(s[WordLength(s)..])
  }

  /** The pieces `split` returns. */
  function Split(s: string): (r: seq<string>)
    ensures |r| >= 1
    decreases |s|
  {
    if WordLength(s) == |s| then [s]
    else [s[..WordLength(s)]] + Split(s[NextStart(s)..])
  }

  /** The delimiter runs `split` cuts out, one between each two pieces. */
  function Separators(s: string): (r: seq<string>)
    decreases |s|
  {
    if WordLength(s) == |s| then []
    else [s[WordLength(s)..NextStart(s)]] + Separators(s[NextStart(s)..])
  }

  /** Pieces and separators laid back end to end:
      `ts[0] + ds[0] + ts[1] + ... + ds[n-1] + ts[n]`. */
  function Join(ts: seq<string>, ds: seq<string>): string
    requires |ts| == |ds| + 1
  {
    if ds == [] then ts[0] else ts[0] + ds[0] + Join(ts[1..], ds[1..])
  }

  predicate PiecesFree(ts: seq<string>) {
    forall i :: 0 <= i < |ts| ==> NoDelimiter(ts[i])
  }

  predicate RunsNonEmpty(ds: seq<string>) {
    forall i :: 0 <= i < |ds| ==> ds[i] != [] && AllDelimiters(ds[i])
  }

  predicate InteriorNonEmpty(ts: seq<string>) {
    forall i :: 0 < i < |ts| - 1 ==> ts[i] != []
  }

  /** The pieces and the runs between them decompose `s` into maximal runs:
      every piece is free of delimiters, every run is a non-empty sequence of
      delimiters, every piece other than the first and the last is non-empty
      (so no run could be extended), and laying them back together gives
      `s` again. */
  predicate IsMaximalSplit(s: string, ts: seq<string>, ds: seq<string>) {
    && |ts| == |ds| + 1
    && PiecesFree(ts)
    && RunsNonEmpty(ds)
    && InteriorNonEmpty(ts)
    && Join(ts, ds) == s
  }

  /** A maximal split of `rest` extends by one piece and one run in front. */
  lemma MaximalSplitCons(s: string, t: string, d: string, rest: string, ts: seq<string>, ds: seq<string>)
    requires IsMaximalSplit(rest, ts, ds)
    requires NoDelimiter(t) && d != [] && AllDelimiters(d)
    requires |ts| > 1 ==> ts[0] != []
    requires s == t + d + rest
    ensures IsMaximalSplit(s, [t] + ts, [d] + ds)
  {
    var ts', ds' := [t] + ts, [d] + ds;
    assert ts'[1..] == ts && ds'[1..] == ds;
    assert PiecesFree(ts') by {
      forall i | 0 <= i < |ts'| ensures NoDelimiter(ts'[i]) {
        if i > 0 { assert ts'[i] == ts[i - 1]; }
      }
    }
    assert InteriorNonEmpty(ts') by {
      forall i | 0 < i < |ts'| - 1 ensures ts'[i] != [] {
        assert ts'[i] == ts[i - 1];
      }
    }
  }

  /** Dropping the first piece and run of a maximal split of `s` leaves a
      maximal split of what follows them. */
  lemma MaximalSplitTail(s: string, ts: seq<string>, ds: seq<string>)
    requires IsMaximalSplit(s, ts, ds) && ds != []
    ensures s == ts[0] + ds[0] + Join(ts[1..], ds[1..])
    ensures IsMaximalSplit(Join(ts[1..], ds[1..]), ts[1..], ds[1..])
    ensures |ts| > 2 ==> ts[1] != []
  {
    assert InteriorNonEmpty(ts[1..]) by {
      forall i | 0 < i < |ts[1..]| - 1 ensures ts[1..][i] != [] {
        assert ts[1..][i] == ts[i + 1];
      }
    }
    assert RunsNonEmpty(ds[1..]) by {
      forall i | 0 <= i < |ds[1..]| ensures ds[1..][i] != [] && AllDelimiters(ds[1..][i]) {
        assert ds[1..][i] == ds[i + 1];
      }
    }
  }

  lemma CutInThree(s: string, i: nat, j: nat)
    requires i <= j <= |s|
    ensures s == s[..i] + s[i..j] + s[j..]
  {
  }

  /** One step of the split: the first word, the first run, and the split
      of what follows. */
  lemma SplitStep(s: string)
    requires WordLength(s) < |s|
    ensures Split(s) == [s[..WordLength(s)]] + Split(s[NextStart(s)..])
    ensures Separators(s) == [s[WordLength(s)..NextStart(s)]] + Separators(s[NextStart(s)..])
  {
  }

  lemma SliceOfSuffix(s: string, i: nat, n: nat)
    requires i + n <= |s|
    ensures s[i..][..n] == s[i..i + n]
  {
  }

  /** The run after the first word is a non-empty run of delimiters. */
  lemma StepRun(s: string)
    requires WordLength(s) < |s|
    ensures s[WordLength(s)..NextStart(s)] != [] && AllDelimiters(s[WordLength(s)..NextStart(s)])
  {
    var w := WordLength(s);
    var after := s[w..];
    var d := RunLength(after);
    assert after[0] == s[w];
    RunLengthIsFirstNonDelimiter(after, d);
    assert AllDelimiters(after[..d]);
    assert NextStart(s) == w + d;
    SliceOfSuffix(s, w, d);
    assert s[w..NextStart(s)] == after[..d];
  }

  /** The text after the first run does not start with a delimiter. */
  lemma StepNext(s: string)
    requires WordLength(s) < |s|
    ensures NextStart(s) < |s| ==> !IsDelimiter(s[NextStart(s)])
  {
    var w := WordLength(s);
    var after := s[w..];
    var d := RunLength(after);
    if w + d < |s| {
      assert s[w + d] == after[d];
    }
  }

  /** The first word, the first run and what follows them: the word is
      delimiter-free, the run is a non-empty run of delimiters, and what
      follows does not start with a delimiter. */
  lemma StepParts(s: string)
    requires WordLength(s) < |s|
    ensures NoDelimiter(s[..WordLength(s)])
    ensures s[WordLength(s)..NextStart(s)] != [] && AllDelimiters(s[WordLength(s)..NextStart(s)])
    ensures NextStart(s) < |s| ==> !IsDelimiter(s[NextStart(s)])
  {
    WordLengthIsFirstDelimiter(s, WordLength(s));
    StepRun(s);
    StepNext(s);
  }

  /** The second piece is non-empty when a third one follows it. */
  lemma NextPieceNonEmpty(s: string)
    requires WordLength(s) < |s|
    requires |Split(s[NextStart(s)..])| > 1
    ensures Split(s[NextStart(s)..])[0] != []
  {
    StepParts(s);
    var rest := s[NextStart(s)..];
    assert rest[0] == s[NextStart(s)];
  }

  /** `Split` and `Separators` decompose `s` into maximal delimiter runs. */
  lemma {:induction false} SplitIsMaximal(s: string)
    ensures IsMaximalSplit(s, Split(s), Separators(s))
    decreases |s|
  {
    var w := WordLength(s);
    if w == |s| {
      WordLengthIsFirstDelimiter(s, w);
      assert s[..w] == s;
    } else {
      var e := NextStart(s);
      var rest := s[e..];
      SplitStep(s);
      StepParts(s);
      SplitIsMaximal(rest);
      if |Split(rest)| > 1 {
        NextPieceNonEmpty(s);
      }
      CutInThree(s, w, e);
      MaximalSplitCons(s, s[..w], s[w..e], rest, Split(rest), Separators(rest));
    }
  }

  /** A delimiter-free piece followed by a delimiter is the first word. */
  lemma WordOfCut(s: string, t: string, d: string, rest: string)
    requires s == t + d + rest && NoDelimiter(t) && d != [] && AllDelimiters(d)
    ensures WordLength(s) == |t|
  {
    var w := |t|;
    assert s[..w] == t;
    WordLengthIsFirstDelimiter(s, w);
    assert s[w] == d[0];
    WordLengthIsFirstDelimiter(s, w + 1);
    assert s[..w + 1][w] == s[w];
  }

  /** A delimiter run followed by the end or by a non-delimiter is the
      first run. */
  lemma RunOfCut(after: string, d: string, rest: string)
    requires after == d + rest && AllDelimiters(d)
    requires rest != [] ==> !IsDelimiter(rest[0])
    ensures RunLength(after) == |d|
  {
    var n := |d|;
    assert after[..n] == d;
    RunLengthIsFirstNonDelimiter(after, n);
    if rest != [] {
      assert after[n] == rest[0];
      RunLengthIsFirstNonDelimiter(after, n + 1);
      assert after[..n + 1][n] == after[n];
    }
  }

  /** A non-empty text cut maximally with a non-empty first piece (or a
      single piece) starts with a non-delimiter. */
  lemma CutStartsWithWord(s: string, ts: seq<string>, ds: seq<string>)
    requires IsMaximalSplit(s, ts, ds) && s != []
    requires |ts| > 1 ==> ts[0] != []
    ensures !IsDelimiter(s[0])
  {
    if ds == [] {
      assert s == ts[0];
    } else {
      assert s == ts[0] + ds[0] + Join(ts[1..], ds[1..]);
      assert s[0] == ts[0][0];
    }
  }

  /** The first piece and run of a maximal split are the first word and the
      first delimiter run of `s`. */
  lemma MaximalSplitHead(s: string, ts: seq<string>, ds: seq<string>)
    requires IsMaximalSplit(s, ts, ds) && ds != []
    ensures WordLength(s) == |ts[0]|
    ensures var w := |ts[0]|; RunLength(s[w..]) == |ds[0]|
  {
    MaximalSplitTail(s, ts, ds);
    var rest := Join(ts[1..], ds[1..]);
    WordOfCut(s, ts[0], ds[0], rest);
    if rest != [] {
      CutStartsWithWord(rest, ts[1..], ds[1..]);
    }
    HeadPartsOfJoin(s, ts[0], ds[0], rest);
    assert s[|ts[0]|..] == ds[0] + rest;
    RunOfCut(s[|ts[0]|..], ds[0], rest);
  }

  lemma HeadPartsOfJoin(s: string, t: string, d: string, rest: string)
    requires s == t + d + rest
    ensures s[..|t|] == t && s[|t|..|t| + |d|] == d && s[|t| + |d|..] == rest
  {
  }

  /** One step of the uniqueness proof: when `s` starts with its longest
      delimiter-free prefix `ts[0]` and then its longest delimiter run
      `ds[0]`, and the rest of the cut is the split of the rest of `s`, the
      whole cut is the split of `s`. */
  lemma UniqueStep(s: string, ts: seq<string>, ds: seq<string>)
    requires |ts| == |ds| + 1 && ds != [] && ds[0] != []
    requires s == ts[0] + ds[0] + Join(ts[1..], ds[1..])
    requires WordLength(s) == |ts[0]| && RunLength(s[|ts[0]|..]) == |ds[0]|
    requires ts[1..] == Split(Join(ts[1..], ds[1..]))
    requires ds[1..] == Separators(Join(ts[1..], ds[1..]))
    ensures ts == Split(s) && ds == Separators(s)
  {
    HeadPartsOfJoin(s, ts[0], ds[0], Join(ts[1..], ds[1..]));
    SplitStep(s);
    HeadAndTail(ts);
    HeadAndTail(ds);
  }

  lemma HeadAndTail<T>(xs: seq<T>)
    requires xs != []
    ensures xs == [xs[0]] + xs[1..]
  {
  }

  /** The decomposition into maximal runs is unique, so `Split` is exactly
      what any cut of `s` at maximal delimiter runs gives. */
  lemma {:induction false} MaximalSplitIsUnique(s: string, ts: seq<string>, ds: seq<string>)
    requires IsMaximalSplit(s, ts, ds)
    ensures ts == Split(s) && ds == Separators(s)
    decreases |s|
  {
    if ds == [] {
      assert s == ts[0];
      WordLengthIsFirstDelimiter(s, |s|);
      assert s[..|s|] == s;
    } else {
      MaximalSplitTail(s, ts, ds);
      MaximalSplitHead(s, ts, ds);
      MaximalSplitIsUnique(Join(ts[1..], ds[1..]), ts[1..], ds[1..]);
      UniqueStep(s, ts, ds);
    }
  }

  /** `t` sits in `s` as a substring starting at `p`, with a delimiter or
      the edge of `s` on either side. */
  predicate DelimitedAt(s: string, t: string, p: nat) {
    && p + |t| <= |s|
    && s[p..p + |t|] == t
    && (p == 0 || IsDelimiter(s[p - 1]))
    && (p + |t| == |s| || IsDelimiter(s[p + |t|]))
  }

  /** Where piece `i` starts in `Join(ts, ds)`. */
  function JoinOffset(ts: seq<string>, ds: seq<string>, i: nat): nat
    requires |ts| == |ds| + 1 && i < |ts|
  {
    if i == 0 then 0 else |ts[0]| + |ds[0]| + JoinOffset(ts[1..], ds[1..], i - 1)
  }

  /** Text placed behind a delimiter keeps a delimited substring delimited. */
  lemma DelimitedShift(s: string, e: nat, t: string, q: nat)
    requires 0 < e <= |s| && IsDelimiter(s[e - 1])
    requires DelimitedAt(s[e..], t, q)
    ensures DelimitedAt(s, t, e + q)
  {
    var rest := s[e..];
    assert s[e + q..e + q + |t|] == rest[q..q + |t|];
    if q > 0 {
      assert s[e + q - 1] == rest[q - 1];
    }
    if q + |t| < |rest| {
      assert s[e + q + |t|] == rest[q + |t|];
    }
  }

  /** A piece followed by a non-empty delimiter run starts the text
      delimited. */
  lemma FirstPieceIsDelimited(s: string, t: string, d: string, rest: string)
    requires s == t + d + rest && d != [] && AllDelimiters(d)
    ensures DelimitedAt(s, t, 0)
  {
    assert s[..|t|] == t;
    assert s[|t|] == d[0];
  }

  lemma RunsNonEmptyTail(ds: seq<string>)
    requires ds != [] && RunsNonEmpty(ds)
    ensures RunsNonEmpty(ds[1..])
  {
    forall k | 0 <= k < |ds[1..]| ensures ds[1..][k] != [] && AllDelimiters(ds[1..][k]) {
      assert ds[1..][k] == ds[k + 1];
    }
  }

  /** A piece delimited in the text after a piece and a non-empty delimiter
      run is delimited in the whole text, further on by their length. */
  lemma ShiftPastRun(s: string, t: string, d: string, rest: string, u: string, q: nat)
    requires s == t + d + rest && d != [] && AllDelimiters(d)
    requires DelimitedAt(rest, u, q)
    ensures DelimitedAt(s, u, |t| + |d| + q)
  {
    var e := |t| + |d|;
    HeadPartsOfJoin(s, t, d, rest);
    assert s[e - 1] == d[|d| - 1];
    DelimitedShift(s, e, u, q);
  }

  /** Between non-empty delimiter runs, every piece is delimited in the text
      the pieces and runs make up. */
  lemma {:induction false} JoinPieceIsDelimited(ts: seq<string>, ds: seq<string>, i: nat)
    requires |ts| == |ds| + 1 && RunsNonEmpty(ds) && i < |ts|
    ensures DelimitedAt(Join(ts, ds), ts[i], JoinOffset(ts, ds, i))
  {
    var s := Join(ts, ds);
    if ds == [] {
      assert s == ts[0];
    } else {
      var rest := Join(ts[1..], ds[1..]);
      assert s == ts[0] + ds[0] + rest;
      if i == 0 {
        FirstPieceIsDelimited(s, ts[0], ds[0], rest);
      } else {
        RunsNonEmptyTail(ds);
        JoinPieceIsDelimited(ts[1..], ds[1..], i - 1);
        assert ts[1..][i - 1] == ts[i];
        ShiftPastRun(s, ts[0], ds[0], rest, ts[i], JoinOffset(ts[1..], ds[1..], i - 1));
      }
    }
  }

  /** Where piece `i` of `Split(s)` starts in `s`. */
  function PieceOffset(s: string, i: nat): nat
    requires i < |Split(s)|
  {
    SplitIsMaximal(s);
    JoinOffset(Split(s), Separators(s), i)
  }

  /** Every piece of `Split(s)` is a substring of `s` with a delimiter or the
      edge of `s` on either side. */
  lemma PieceIsDelimited(s: string, i: nat)
    requires i < |Split(s)|
    ensures DelimitedAt(s, Split(s)[i], PieceOffset(s, i))
  {
    SplitIsMaximal(s);
    JoinPieceIsDelimited(Split(s), Separators(s), i);
  }
}
