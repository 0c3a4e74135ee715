/** What the dictionary content selector guarantees: exact scores, completeness, and the greedy coverage bound. */
module DictProperties {
  import opened Base
  import opened Sums
  import opened DictContent

  /** How often the dmers of a set occur in the samples, all counted together and without wrap-around. */
  ghost function TrueWeight(samples: seq<Bytes>, S: set<nat>): nat {
    SumOver(k => Frequency(samples, |samples|, k), S)
  }

  /** A window whose true weight a uint32 holds. */
  ghost predicate WeightFits(samples: seq<Bytes>, win: Bytes) {
    TrueWeight(samples, Dmers(win)) < TWO32
  }

  /** Every candidate window's true weight is a uint32: what the selector needs of its samples. */
  ghost predicate AllWeightsFit(samples: seq<Bytes>, segLen: nat) {
    forall j, start :: IsStart(samples, segLen, j, start) ==> WeightFits(samples, WindowAt(samples, segLen, j, start))
  }

  /** A simple case: fewer than 2^32 dmer positions. */
  predicate Countable(samples: seq<Bytes>) {
    TotalPositions(samples, |samples|) < TWO32
  }

  // ---------------------------------------------------------------- no score wraps around

  lemma {:induction false} IndicatorSum(d: nat, S: set<nat>)
    ensures SumOver(k => if k == d then 1 else 0, S) <= 1
    decreases S
  {
    var f: nat -> nat := k => if k == d then 1 else 0;
    if S != {} {
      var x :| x in S;
      SumRemove(f, S, x);
      if x == d {
        SumNothing(f, S - {x});
      } else {
        IndicatorSum(d, S - {x});
      }
    }
  }

  lemma {:induction false} SumNothing(f: nat -> nat, S: set<nat>)
    requires forall k :: k in S ==> f(k) == 0
    ensures SumOver(f, S) == 0
    decreases S
  {
    if S != {} {
      var x :| x in S;
      SumRemove(f, S, x);
      SumNothing(f, S - {x});
    }
  }

  lemma {:induction false} OccurrencesSum(s: Bytes, n: nat, S: set<nat>)
    requires n <= Positions(s)
    ensures SumOver(k => Occurrences(s, n, k), S) <= n
    decreases n
  {
    var f: nat -> nat := k => Occurrences(s, n, k);
    if n == 0 {
      SumNothing(f, S);
    } else {
      var d := Dmer(s, n - 1);
      var h: nat -> nat := k => if k == d then 1 else 0;
      OccurrencesSum(s, n - 1, S);
      IndicatorSum(d, S);
      SumPointwise(f, k => Occurrences(s, n - 1, k), h, S);
    }
  }

  lemma {:induction false} FrequencySum(samples: seq<Bytes>, j: nat, S: set<nat>)
    requires j <= |samples|
    ensures SumOver(k => Frequency(samples, j, k), S) <= TotalPositions(samples, j)
    decreases j
  {
    var f: nat -> nat := k => Frequency(samples, j, k);
    if j == 0 {
      SumNothing(f, S);
    } else {
      var s := samples[j - 1];
      FrequencySum(samples, j - 1, S);
      OccurrencesSum(s, Positions(s), S);
      SumPointwise(f, k => Frequency(samples, j - 1, k), k => Occurrences(s, Positions(s), k), S);
    }
  }

  lemma ModuloAtMost(x: nat)
    ensures x % TWO32 <= x
  {
  }

  /** With fewer than 2^32 positions every window fits, whatever the segment length. */
  lemma CountableFits(samples: seq<Bytes>, segLen: nat)
    requires Countable(samples)
    ensures AllWeightsFit(samples, segLen)
  {
    hide Frequency, TotalPositions, Dmers, WindowAt;
    forall j, start | IsStart(samples, segLen, j, start)
      ensures WeightFits(samples, WindowAt(samples, segLen, j, start))
    {
      FrequencySum(samples, |samples|, Dmers(WindowAt(samples, segLen, j, start)));
    }
  }

  /** A dmer of a window that fits is counted exactly, not only modulo 2^32. */
  lemma CountFits(samples: seq<Bytes>, freq: Counts, win: Bytes, k: nat)
    requires IsCount(samples, freq) && WeightFits(samples, win) && k in Dmers(win)
    ensures Get(freq, k) == Frequency(samples, |samples|, k)
  {
    hide Frequency, Dmers;
    var f: nat -> nat := x => Frequency(samples, |samples|, x);
    SumRemove(f, Dmers(win), k);
    assert f(k) < TWO32;
  }

  /** Wrapped counts weigh no more than true ones. */
  lemma WeightAtMostTrue(samples: seq<Bytes>, freq: Counts, S: set<nat>)
    requires IsCount(samples, freq)
    ensures Weight(freq, S) <= TrueWeight(samples, S)
  {
    hide Frequency, SumOver;
    forall k
      ensures Get(freq, k) <= Frequency(samples, |samples|, k)
    {
      ModuloAtMost(Frequency(samples, |samples|, k));
    }
    SumMonotone(k => Get(freq, k), k => Frequency(samples, |samples|, k), S);
  }

  /** When every window fits, every count is exact. */
  lemma CountsAreExact(samples: seq<Bytes>, freq: Counts, segLen: nat, k: nat)
    requires segLen >= DMER_LEN && IsCount(samples, freq) && AllWeightsFit(samples, segLen)
    ensures Get(freq, k) == Frequency(samples, |samples|, k)
  {
    hide Frequency, Dmers, WeightFits;
    if Frequency(samples, |samples|, k) > 0 {
      var j, i := SomePosition(samples, |samples|, k);
      var start := PositionHasWindow(samples, segLen, j, i);
      CountFits(samples, freq, WindowAt(samples, segLen, j, start), k);
    }
  }

  /** What is counted stands somewhere. */
  lemma {:induction false} SomePosition(samples: seq<Bytes>, m: nat, k: nat) returns (j: nat, i: nat)
    requires m <= |samples| && Frequency(samples, m, k) > 0
    ensures j < m && i < Positions(samples[j]) && Dmer(samples[j], i) == k
  {
    if Occurrences(samples[m - 1], Positions(samples[m - 1]), k) > 0 {
      j := m - 1;
      i := SomeOccurrence(samples[j], Positions(samples[j]), k);
    } else {
      j, i := SomePosition(samples, m - 1, k);
    }
  }

  lemma {:induction false} SomeOccurrence(s: Bytes, n: nat, k: nat) returns (i: nat)
    requires n <= Positions(s) && Occurrences(s, n, k) > 0
    ensures i < n && Dmer(s, i) == k
  {
    if Dmer(s, n - 1) == k {
      i := n - 1;
    } else {
      i := SomeOccurrence(s, n - 1, k);
    }
  }

  /** The code's first scores are the true weights of all windows if and only if every window fits. */
  lemma FirstScoresAreTrue(samples: seq<Bytes>, freq: Counts, segLen: nat)
    requires segLen >= DMER_LEN && IsCount(samples, freq)
    ensures (forall j, start :: IsStart(samples, segLen, j, start) ==>
               var win := WindowAt(samples, segLen, j, start); Score(freq, win) == TrueWeight(samples, Dmers(win)))
            <==> AllWeightsFit(samples, segLen)
  {
    hide Frequency, Dmers, WindowAt, IsCount, Weight, TrueWeight;
    if AllWeightsFit(samples, segLen) {
      forall j, start | IsStart(samples, segLen, j, start)
        ensures var win := WindowAt(samples, segLen, j, start); Score(freq, win) == TrueWeight(samples, Dmers(win))
      {
        WeightIsTrue(samples, freq, segLen, Dmers(WindowAt(samples, segLen, j, start)));
      }
    } else {
      var j, start :| IsStart(samples, segLen, j, start) && !WeightFits(samples, WindowAt(samples, segLen, j, start));
      assert Score(freq, WindowAt(samples, segLen, j, start)) < TWO32;
    }
  }

  lemma WeightIsTrue(samples: seq<Bytes>, freq: Counts, segLen: nat, S: set<nat>)
    requires segLen >= DMER_LEN && IsCount(samples, freq) && AllWeightsFit(samples, segLen)
    ensures Weight(freq, S) == TrueWeight(samples, S)
  {
    hide Frequency, IsCount, AllWeightsFit, SumOver;
    var f: nat -> nat := k => Get(freq, k);
    var g: nat -> nat := k => Frequency(samples, |samples|, k);
    forall k
      ensures f(k) == g(k)
    {
      CountsAreExact(samples, freq, segLen, k);
    }
    SumMonotone(f, g, S);
    SumMonotone(g, f, S);
  }

  // ---------------------------------------------------------------- what retiring does

  /** The dmers of all picks. */
  ghost function Covered(picks: seq<Bytes>): set<nat> {
    if picks == [] then {} else Covered(picks[..|picks| - 1]) + Dmers(picks[|picks| - 1])
  }

  lemma {:induction false} GetAfter(freq: Counts, picks: seq<Bytes>, k: nat)
    ensures Get(FreqAfter(freq, picks), k) == if k in Covered(picks) then 0 else Get(freq, k)
  {
    if picks != [] {
      GetAfter(freq, picks[..|picks| - 1], k);
    }
  }

  /** After some picks, a set weighs what its uncovered part weighed at first. */
  lemma WeightAfter(freq: Counts, picks: seq<Bytes>, S: set<nat>)
    ensures Weight(FreqAfter(freq, picks), S) == Weight(freq, S - Covered(picks))
  {
    hide FreqAfter;
    var now := FreqAfter(freq, picks);
    var f: nat -> nat := k => Get(now, k);
    var g: nat -> nat := k => Get(freq, k);
    var C := Covered(picks);
    forall k
      ensures f(k) == if k in C then 0 else g(k)
    {
      GetAfter(freq, picks, k);
    }
    assert S == (S - C) + (S * C);
    SumDisjoint(f, S - C, S * C);
    SumNothing(f, S * C);
    SumMonotone(f, g, S - C);
    SumMonotone(g, f, S - C);
  }

  /** The score of a window that fits is the original weight of its distinct dmers not yet covered. */
  lemma ScoresAreExact(samples: seq<Bytes>, freq: Counts, picks: seq<Bytes>, win: Bytes)
    requires IsCount(samples, freq) && WeightFits(samples, win)
    ensures Score(FreqAfter(freq, picks), win) == Weight(freq, Dmers(win) - Covered(picks))
  {
    hide FreqAfter, Covered, Dmers, IsCount, Get, SumOver;
    var S, T := Dmers(win), Dmers(win) - Covered(picks);
    WeightAfter(freq, picks, S);
    WeightAtMostTrue(samples, freq, S);
    SumUnion(k => Get(freq, k), T, S);
    assert T + S == S;
  }

  // ---------------------------------------------------------------- completeness

  predicate StandsAt(w: Bytes, c: Bytes, p: nat) {
    p + |w| <= |c| && c[p..p + |w|] == w
  }

  /** w occurs in c. */
  ghost predicate OccursIn(w: Bytes, c: Bytes) {
    exists p: nat :: StandsAt(w, c, p)
  }

  lemma OccursPrepended(w: Bytes, a: Bytes, c: Bytes)
    requires OccursIn(w, c)
    ensures OccursIn(w, a + c)
  {
    var p: nat :| StandsAt(w, c, p);
    assert (a + c)[|a| + p..|a| + p + |w|] == w;
    assert StandsAt(w, a + c, |a| + p);
  }

  lemma OccursAppended(w: Bytes, a: Bytes, c: Bytes)
    requires OccursIn(w, a)
    ensures OccursIn(w, a + c)
  {
    var p: nat :| StandsAt(w, a, p);
    assert (a + c)[p..p + |w|] == w;
    assert StandsAt(w, a + c, p);
  }

  /** While there is room left, every covered dmer is the value of a string in the content. */
  lemma {:induction false} CoveredIsContained(picks: seq<Bytes>, target: nat, w: Bytes)
    requires |w| == DMER_LEN && LittleEndian(w) in Covered(picks)
    requires |ContentAfter(picks, target)| < target
    ensures OccursIn(w, ContentAfter(picks, target))
  {
    hide LittleEndian, Dmers;
    var rest, seg := picks[..|picks| - 1], picks[|picks| - 1];
    var c := ContentAfter(rest, target);
    assert ContentAfter(picks, target) == seg + c;
    if LittleEndian(w) in Dmers(seg) {
      DmerOccurs(seg, w);
      OccursAppended(w, seg, c);
    } else {
      CoveredIsContained(rest, target, w);
      OccursPrepended(w, seg, c);
    }
  }

  lemma DmerOccurs(seg: Bytes, w: Bytes)
    requires |w| == DMER_LEN && LittleEndian(w) in Dmers(seg)
    ensures OccursIn(w, seg)
  {
    var i :| 0 <= i < Positions(seg) && Dmer(seg, i) == LittleEndian(w);
    LittleEndianInjective(w, seg[i..i + DMER_LEN]);
    assert StandsAt(w, seg, i);
  }

  /** Every dmer position of a sample lies in some candidate window. */
  lemma PositionHasWindow(samples: seq<Bytes>, segLen: nat, j: nat, i: nat) returns (start: nat)
    requires segLen >= DMER_LEN && j < |samples| && i < Positions(samples[j])
    ensures IsStart(samples, segLen, j, start)
    ensures Dmer(samples[j], i) in Dmers(WindowAt(samples, segLen, j, start))
  {
    var s := samples[j];
    var w := WindowLen(s, segLen);
    start := if i + w <= |s| then i else |s| - w;
    hide LittleEndian;
    DmerShift(s, start, w, i - start);
    assert Dmer(WindowAt(samples, segLen, j, start), i - start) == Dmer(s, i);
  }

  /** When nothing scores any more, every dmer of every sample has been covered. */
  lemma NothingLeftMeansCovered(samples: seq<Bytes>, freq: Counts, segLen: nat, picks: seq<Bytes>, j: nat, i: nat)
    requires segLen >= DMER_LEN && IsCount(samples, freq) && AllWeightsFit(samples, segLen)
    requires IsBest(samples, FreqAfter(freq, picks), segLen, [], 0)
    requires j < |samples| && i < Positions(samples[j])
    ensures Dmer(samples[j], i) in Covered(picks)
  {
    hide FreqAfter, Dmers, LittleEndian, WeightFits;
    var start := PositionHasWindow(samples, segLen, j, i);
    var win := WindowAt(samples, segLen, j, start);
    assert Before(j, start, |samples|, 0);
    assert Score(FreqAfter(freq, picks), win) == 0;
    ScoresAreExact(samples, freq, picks, win);
    var d := Dmer(samples[j], i);
    CountsAreExact(samples, freq, segLen, d);
    OccursInSamples(samples, |samples|, j, i);
    if d !in Covered(picks) {
      SumZero(k => Get(freq, k), Dmers(win) - Covered(picks), d);
      assert false;
    }
  }

  /**
   Completeness: if the content returned is shorter than the target, then every eight-byte
   substring of every sample occurs in it.
   */
  lemma SelectionIsComplete(samples: seq<Bytes>, freq: Counts, segLen: nat, targetSize: int, picks: seq<Bytes>,
                            j: nat, i: nat)
    requires segLen >= DMER_LEN && AllWeightsFit(samples, segLen)
    requires IsSelection(samples, freq, segLen, targetSize, picks)
    requires |ContentAfter(picks, Room(targetSize))| < targetSize
    requires j < |samples| && i < Positions(samples[j])
    ensures OccursIn(samples[j][i..i + DMER_LEN], ContentAfter(picks, Room(targetSize)))
  {
    hide IsGreedy, IsBest, FreqAfter;
    NothingLeftMeansCovered(samples, freq, segLen, picks, j, i);
    CoveredIsContained(picks, Room(targetSize), samples[j][i..i + DMER_LEN]);
  }

  // ---------------------------------------------------------------- the selection is determined

  lemma CountIsUnique(samples: seq<Bytes>, f: Counts, g: Counts)
    requires IsCount(samples, f) && IsCount(samples, g)
    ensures f == g
  {
    hide Frequency;
    assert forall k :: k in f <==> k in g;
    assert forall k :: k in f ==> f[k] == Get(f, k) == Get(g, k) == g[k];
  }

  lemma {:induction false} GreedyPrefix(samples: seq<Bytes>, freq: Counts, segLen: nat, target: nat,
                                        picks: seq<Bytes>, n: nat)
    requires IsGreedy(samples, freq, segLen, target, picks) && n <= |picks|
    ensures IsGreedy(samples, freq, segLen, target, picks[..n])
    decreases |picks|
  {
    hide IsPick, FreqAfter, ContentAfter;
    if n == |picks| {
      assert picks[..n] == picks;
    } else {
      GreedyPrefix(samples, freq, segLen, target, picks[..|picks| - 1], n);
      assert picks[..|picks| - 1][..n] == picks[..n];
    }
  }

  lemma {:induction false} GreedyUnique(samples: seq<Bytes>, freq: Counts, segLen: nat, target: nat, a: seq<Bytes>,
                                        b: seq<Bytes>)
    requires IsGreedy(samples, freq, segLen, target, a) && IsGreedy(samples, freq, segLen, target, b) && |a| == |b|
    ensures a == b
  {
    hide IsBest, FreqAfter, ContentAfter;
    if a != [] {
      var rest := a[..|a| - 1];
      GreedyUnique(samples, freq, segLen, target, rest, b[..|b| - 1]);
      var x: nat :| x > 0 && IsBest(samples, FreqAfter(freq, rest), segLen, a[|a| - 1], x);
      var y: nat :| y > 0 && IsBest(samples, FreqAfter(freq, rest), segLen, b[|b| - 1], y);
      BestIsUnique(samples, FreqAfter(freq, rest), segLen, a[|a| - 1], x, b[|b| - 1], y);
      assert a == rest + [a[|a| - 1]] && b == b[..|b| - 1] + [b[|b| - 1]];
    }
  }

  /** Where the loop goes on, it could not have ended. */
  lemma FinalIsLast(samples: seq<Bytes>, freq: Counts, segLen: nat, target: nat, a: seq<Bytes>, b: seq<Bytes>)
    requires IsGreedy(samples, freq, segLen, target, b)
    requires |a| < |b| && a == b[..|a|]
    ensures !IsFinal(samples, freq, segLen, target, a)
  {
    hide IsBest, FreqAfter;
    var n := |a|;
    GreedyPrefix(samples, freq, segLen, target, b, n + 1);
    var c := b[..n + 1];
    assert c[..n] == a;
    var x: nat :| x > 0 && IsBest(samples, FreqAfter(freq, a), segLen, c[n], x);
    if IsBest(samples, FreqAfter(freq, a), segLen, [], 0) {
      BestIsUnique(samples, FreqAfter(freq, a), segLen, c[n], x, [], 0);
    }
  }

  /** The samples, the segment length and the target size determine every pick, and so the content. */
  lemma SelectionIsUnique(samples: seq<Bytes>, segLen: nat, targetSize: int, f: Counts, a: seq<Bytes>, g: Counts,
                          b: seq<Bytes>)
    requires IsSelection(samples, f, segLen, targetSize, a) && IsSelection(samples, g, segLen, targetSize, b)
    ensures f == g && a == b
  {
    hide IsCount, IsGreedy, IsFinal;
    CountIsUnique(samples, f, g);
    var target := Room(targetSize);
    if |a| <= |b| {
      GreedyPrefix(samples, f, segLen, target, b, |a|);
      GreedyUnique(samples, f, segLen, target, a, b[..|a|]);
      if |a| < |b| {
        FinalIsLast(samples, f, segLen, target, a, b);
      }
      assert b[..|b|] == b;
    } else {
      GreedyPrefix(samples, f, segLen, target, a, |b|);
      GreedyUnique(samples, f, segLen, target, b, a[..|b|]);
      FinalIsLast(samples, f, segLen, target, b, a);
    }
  }

  /** The selector's result is a function of its arguments. */
  lemma ContentIsUnique(samples: seq<Bytes>, segLen: nat, targetSize: int, c: Bytes, d: Bytes)
    requires IsContent(samples, segLen, targetSize, c) && IsContent(samples, segLen, targetSize, d)
    ensures c == d
  {
    hide IsSelection;
    var f: Counts, a: seq<Bytes> :| IsSelection(samples, f, segLen, targetSize, a) &&
        c == ContentAfter(a, Room(targetSize));
    var g: Counts, b: seq<Bytes> :| IsSelection(samples, g, segLen, targetSize, b) &&
        d == ContentAfter(b, Room(targetSize));
    SelectionIsUnique(samples, segLen, targetSize, f, a, g, b);
  }

  /** With segments of seven bytes, which hold no dmer, nothing is ever selected. */
  lemma SevenSelectsNothing(samples: seq<Bytes>, targetSize: int, content: Bytes)
    requires IsContent(samples, LEAST_SEG_LEN, targetSize, content)
    ensures content == []
  {
    hide IsBest, IsCount, IsFinal, FreqAfter;
    var freq: Counts, picks: seq<Bytes> :|
      && IsSelection(samples, freq, LEAST_SEG_LEN, targetSize, picks)
      && content == ContentAfter(picks, Room(targetSize));
    if picks != [] {
      var rest, seg := picks[..|picks| - 1], picks[|picks| - 1];
      var score :| score > 0 && IsBest(samples, FreqAfter(freq, rest), LEAST_SEG_LEN, seg, score);
      BestIsLong(samples, FreqAfter(freq, rest), LEAST_SEG_LEN, seg, score);
    }
  }

  // ---------------------------------------------------------------- where the picks stand

  /** A pick is put before the earlier ones; when it does not fit, its front is kept, up to the target. */
  lemma PickIsPrepended(picks: seq<Bytes>, target: nat)
    requires picks != []
    ensures var rest, seg := picks[..|picks| - 1], picks[|picks| - 1];
            var c, all := ContentAfter(rest, target), ContentAfter(picks, target);
            && |all| == Min(|seg| + |c|, target) && |c| <= |all| <= |seg| + |c|
            && all == seg[..|all| - |c|] + c
  {
    var rest, seg := picks[..|picks| - 1], picks[|picks| - 1];
    assert seg[..|seg|] == seg;
  }

  /** Between two samples of equal worth the first is taken. */
  lemma TieGoesToTheFirst(a: Bytes, b: Bytes)
    requires |a| == 8 && |b| == 8 && a != b
    ensures IsContent([a, b], 8, 8, a)
  {
    var x, y := LittleEndian(a), LittleEndian(b);
    var samples, picks: seq<Bytes> := [a, b], [a];
    var freq: Counts := map[x := 1, y := 1];
    if x == y {
      LittleEndianInjective(a, b);
    }
    TwoCounts(a, b);
    TwoScores(a, b, freq);
    hide LittleEndian, IsCount, Score, WindowAt;
    assert IsEarliest(samples, freq, 8, 0, 0, 1) && Before(0, 0, 2, 0);
    assert IsBest(samples, freq, 8, a, 1);
    assert picks[..0] == [];
    assert IsGreedy(samples, freq, 8, 8, []);
    assert FreqAfter(freq, []) == freq;
    assert IsPick(samples, freq, 8, a);
    assert ContentAfter([], 8) == [];
    assert ContentAfter(picks, 8) == a;
    assert IsGreedy(samples, freq, 8, 8, picks);
    assert IsSelection(samples, freq, 8, 8, picks);
  }

  lemma TwoCounts(a: Bytes, b: Bytes)
    requires |a| == 8 && |b| == 8 && LittleEndian(a) != LittleEndian(b)
    ensures IsCount([a, b], map[LittleEndian(a) := 1, LittleEndian(b) := 1])
  {
    hide LittleEndian, Frequency, Occurrences;
    forall k
      ensures Frequency([a, b], 2, k) == if k == LittleEndian(a) || k == LittleEndian(b) then 1 else 0
    {
      TwoFrequencies(a, b, k);
    }
  }

  lemma TwoFrequencies(a: Bytes, b: Bytes, k: nat)
    requires |a| == 8 && |b| == 8 && LittleEndian(a) != LittleEndian(b)
    ensures Frequency([a, b], 2, k) == if k == LittleEndian(a) || k == LittleEndian(b) then 1 else 0
  {
    hide LittleEndian, Occurrences, Dmer;
    OneDmer(a);
    OneDmer(b);
    var samples := [a, b];
    assert Frequency(samples, 0, k) == 0;
    assert Frequency(samples, 1, k) == Frequency(samples, 0, k) + Occurrences(samples[0], Positions(samples[0]), k);
    assert Frequency(samples, 2, k) == Frequency(samples, 1, k) + Occurrences(samples[1], Positions(samples[1]), k);
  }

  lemma OneDmer(a: Bytes)
    requires |a| == 8
    ensures Positions(a) == 1 && Dmer(a, 0) == LittleEndian(a) && Dmers(a) == {LittleEndian(a)}
    ensures forall k :: Occurrences(a, 1, k) == if k == LittleEndian(a) then 1 else 0
  {
    hide LittleEndian;
    assert a[0..8] == a;
    forall k
      ensures Occurrences(a, 1, k) == if k == LittleEndian(a) then 1 else 0
    {
      assert Occurrences(a, 0, k) == 0;
    }
  }

  lemma TwoScores(a: Bytes, b: Bytes, freq: Counts)
    requires |a| == 8 && |b| == 8 && LittleEndian(a) != LittleEndian(b)
    requires freq == map[LittleEndian(a) := 1, LittleEndian(b) := 1]
    ensures IsStart([a, b], 8, 0, 0) && WindowAt([a, b], 8, 0, 0) == a && Score(freq, a) == 1
    ensures forall i, s :: IsStart([a, b], 8, i, s) ==> s == 0 && Score(freq, WindowAt([a, b], 8, i, s)) == 1
  {
    hide LittleEndian;
    ScoreOfOne(freq, a);
    ScoreOfOne(freq, b);
    assert a[0..8] == a && b[0..8] == b;
  }

  lemma ScoreOfOne(freq: Counts, a: Bytes)
    requires |a| == 8 && Get(freq, LittleEndian(a)) == 1
    ensures Score(freq, a) == 1
  {
    hide LittleEndian, Dmers;
    OneDmer(a);
    var f: nat -> nat := k => Get(freq, k);
    SumRemove(f, {LittleEndian(a)}, LittleEndian(a));
    assert {LittleEndian(a)} - {LittleEndian(a)} == {};
  }

  // ---------------------------------------------------------------- what the content is made of

  function Pieces(picks: seq<Bytes>, target: nat): seq<Bytes> {
    if picks == [] then [] else
      var rest := picks[..|picks| - 1];
      [Trimmed(picks[|picks| - 1], target - |ContentAfter(rest, target)|)] + Pieces(rest, target)
  }

  /** A non-empty substring of some sample. */
  ghost predicate IsFromSample(samples: seq<Bytes>, piece: Bytes) {
    piece != [] && exists j :: 0 <= j < |samples| && OccursIn(piece, samples[j])
  }

  /** At most the target size, and a concatenation of non-empty substrings of samples. */
  lemma {:induction false} ContentIsFromSamples(samples: seq<Bytes>, freq: Counts, segLen: nat, target: nat,
                                                picks: seq<Bytes>)
    requires segLen >= DMER_LEN && IsGreedy(samples, freq, segLen, target, picks)
    ensures |ContentAfter(picks, target)| <= target && ContentAfter(picks, target) == Concat(Pieces(picks, target))
    ensures forall p :: p in Pieces(picks, target) ==> IsFromSample(samples, p)
  {
    hide IsPick, FreqAfter, IsFromSample;
    if picks != [] {
      var rest, seg := picks[..|picks| - 1], picks[|picks| - 1];
      ContentIsFromSamples(samples, freq, segLen, target, rest);
      var piece := Trimmed(seg, target - |ContentAfter(rest, target)|);
      PickIsFromSample(samples, FreqAfter(freq, rest), segLen, seg, piece);
      assert Pieces(picks, target)[1..] == Pieces(rest, target);
    }
  }

  lemma PickIsFromSample(samples: seq<Bytes>, freq: Counts, segLen: nat, seg: Bytes, piece: Bytes)
    requires segLen >= DMER_LEN && IsPick(samples, freq, segLen, seg) && piece <= seg
    ensures |seg| >= DMER_LEN && (piece != [] ==> IsFromSample(samples, piece))
  {
    hide IsBest, Score;
    var score :| score > 0 && IsBest(samples, freq, segLen, seg, score);
    BestIsLong(samples, freq, segLen, seg, score);
    var j: nat, start: nat :| IsStart(samples, segLen, j, start) && seg == WindowAt(samples, segLen, j, start);
    assert samples[j][start..start + |piece|] == seg[..|piece|] == piece;
    assert StandsAt(piece, samples[j], start);
  }

  // ---------------------------------------------------------------- greedy coverage

  function Pow(b: int, e: nat): int {
    if e == 0 then 1 else b * Pow(b, e - 1)
  }

  lemma {:induction false} PowNonNegative(b: nat, e: nat)
    ensures Pow(b, e) >= 0
  {
    if e > 0 {
      PowNonNegative(b, e - 1);
    }
  }

  /** The sum of the scores that the picks had when they were picked. */
  ghost function ScoreSum(freq: Counts, picks: seq<Bytes>): nat {
    if picks == [] then 0 else
      var rest := picks[..|picks| - 1];
      ScoreSum(freq, rest) + Score(FreqAfter(freq, rest), picks[|picks| - 1])
  }

  /** The scores of the picks add up to the original weight of all the distinct dmers they hold. */
  lemma {:induction false} ScoresSumToCoverage(samples: seq<Bytes>, freq: Counts, picks: seq<Bytes>)
    requires IsCount(samples, freq) && forall p :: p in picks ==> WeightFits(samples, p)
    ensures ScoreSum(freq, picks) == Weight(freq, Covered(picks))
  {
    hide Score, FreqAfter, Dmers;
    if picks != [] {
      var rest, seg := picks[..|picks| - 1], picks[|picks| - 1];
      ScoresSumToCoverage(samples, freq, rest);
      ScoresAreExact(samples, freq, rest, seg);
      SumUnion(k => Get(freq, k), Covered(rest), Dmers(seg));
    }
  }

  /** Candidate windows: any strings that bestSegment could have chosen. */
  ghost predicate AreCandidates(samples: seq<Bytes>, segLen: nat, wins: seq<Bytes>) {
    forall w :: w in wins ==> IsCandidate(samples, segLen, w)
  }

  ghost predicate IsCandidate(samples: seq<Bytes>, segLen: nat, win: Bytes) {
    exists j, start :: IsStart(samples, segLen, j, start) && win == WindowAt(samples, segLen, j, start)
  }

  lemma CandidateFits(samples: seq<Bytes>, segLen: nat, win: Bytes)
    requires AllWeightsFit(samples, segLen) && IsCandidate(samples, segLen, win)
    ensures WeightFits(samples, win)
  {
    hide WeightFits;
  }

  /** A pick is a candidate window. */
  lemma PickIsCandidate(samples: seq<Bytes>, freq: Counts, segLen: nat, seg: Bytes)
    requires segLen >= DMER_LEN && IsPick(samples, freq, segLen, seg)
    ensures IsCandidate(samples, segLen, seg)
  {
    hide Score;
    var score :| score > 0 && IsBest(samples, freq, segLen, seg, score);
    BestIsLong(samples, freq, segLen, seg, score);
  }

  /** What any candidate windows would add to the coverage is at most their number times the best score. */
  lemma {:induction false} ResidualBound(freq: Counts, C: set<nat>, wins: seq<Bytes>, best: nat)
    requires forall w :: w in wins ==> Weight(freq, Dmers(w) - C) <= best
    ensures Weight(freq, Covered(wins) - C) <= |wins| * best
  {
    hide Dmers, Get;
    var f: nat -> nat := k => Get(freq, k);
    if wins == [] {
      assert Covered(wins) - C == {};
      SumNothing(f, {});
    } else {
      var rest, w := wins[..|wins| - 1], wins[|wins| - 1];
      ResidualBound(freq, C, rest, best);
      assert Covered(wins) - C == (Covered(rest) - C) + (Dmers(w) - C);
      SumUnion(f, Covered(rest) - C, Dmers(w) - C);
      assert w in wins;
      Multiply(|rest|, best);
    }
  }

  lemma Multiply(n: nat, b: nat)
    ensures (n + 1) * b == n * b + b
  {
  }

  /** One pick closes at least the k-th part of the gap to what k windows cover. */
  lemma PickClosesGap(samples: seq<Bytes>, freq: Counts, segLen: nat, picks: seq<Bytes>, seg: Bytes, wins: seq<Bytes>)
    requires segLen >= DMER_LEN && IsCount(samples, freq) && AllWeightsFit(samples, segLen)
    requires IsPick(samples, FreqAfter(freq, picks), segLen, seg) && AreCandidates(samples, segLen, wins)
    ensures Weight(freq, Covered(wins)) - Weight(freq, Covered(picks)) <= |wins| * Score(FreqAfter(freq, picks), seg)
  {
    hide IsBest, Score, FreqAfter, Dmers, Covered;
    var score :| score > 0 && IsBest(samples, FreqAfter(freq, picks), segLen, seg, score);
    BestIsLong(samples, FreqAfter(freq, picks), segLen, seg, score);
    var C := Covered(picks);
    forall w | w in wins
      ensures Weight(freq, Dmers(w) - C) <= score
    {
      assert IsCandidate(samples, segLen, w);
      CandidateFits(samples, segLen, w);
      ScoresAreExact(samples, freq, picks, w);
    }
    ResidualBound(freq, C, wins, score);
    var f: nat -> nat := k => Get(freq, k);
    SumUnion(f, C, Covered(wins));
    SumUnion(f, Covered(wins), C);
    assert C + Covered(wins) == Covered(wins) + C;
  }

  lemma MulMonotone(p: nat, a: int, b: int)
    requires a <= b
    ensures p * a <= p * b
  {
  }

  lemma Distribute(k: int, a: int, b: int)
    ensures k * (a - b) == k * a - k * b
    ensures (k - 1) * a == k * a - a
  {
  }

  lemma Exchange(a: int, b: int, c: int)
    ensures a * b * c == b * (a * c)
  {
    assert a * b * c == b * a * c;
    AssocMul(b, a, c);
  }

  lemma AssocMul(a: int, b: int, c: int)
    ensures a * b * c == a * (b * c)
  {
  }

  lemma GapArithmetic(k: nat, p: nat, q: nat, gap: int, score: nat, w: nat)
    requires k > 0 && p * gap <= q * w && gap <= k * score
    ensures k * p * (gap - score) <= (k - 1) * q * w
  {
    Distribute(k, gap, score);
    assert k * (gap - score) <= (k - 1) * gap;
    MulMonotone(p, k * (gap - score), (k - 1) * gap);
    Exchange(k, p, gap - score);
    MulMonotone(k - 1, p * gap, q * w);
    Exchange(p, k - 1, gap);
    AssocMul(k - 1, q, w);
    AssocMul(p, k - 1, gap);
  }

  /**
   Greedy coverage: let W be the original weight of the dmers of any k candidate windows, and C
   that of the dmers of the first t picks. Then k^t * (W - C) <= (k-1)^t * W.
   */
  lemma {:induction false} GreedyCoverage(samples: seq<Bytes>, freq: Counts, segLen: nat, target: nat,
                                          picks: seq<Bytes>, wins: seq<Bytes>)
    requires segLen >= DMER_LEN && IsCount(samples, freq) && AllWeightsFit(samples, segLen)
    requires IsGreedy(samples, freq, segLen, target, picks) && AreCandidates(samples, segLen, wins) && |wins| > 0
    ensures Pow(|wins|, |picks|) * (Weight(freq, Covered(wins)) - Weight(freq, Covered(picks)))
         <= Pow(|wins| - 1, |picks|) * Weight(freq, Covered(wins))
  {
    hide IsBest, Score, FreqAfter, Dmers, IsCount, Weight;
    var W, k := Weight(freq, Covered(wins)), |wins|;
    if picks == [] {
      CoverageOfNothing(freq);
    } else {
      var rest, seg := picks[..|picks| - 1], picks[|picks| - 1];
      GreedyCoverage(samples, freq, segLen, target, rest, wins);
      PickClosesGap(samples, freq, segLen, rest, seg, wins);
      PickIsCandidate(samples, FreqAfter(freq, rest), segLen, seg);
      CandidateFits(samples, segLen, seg);
      CoverageStep(samples, freq, rest, seg);
      var p, q := Pow(k, |rest|), Pow(k - 1, |rest|);
      PowNonNegative(k, |rest|);
      PowNonNegative(k - 1, |rest|);
      GapArithmetic(k, p, q, W - Weight(freq, Covered(rest)), Score(FreqAfter(freq, rest), seg), W);
    }
  }

  lemma CoverageOfNothing(freq: Counts)
    ensures Weight(freq, Covered([])) == 0
  {
    SumNothing(k => Get(freq, k), {});
  }

  lemma CoverageStep(samples: seq<Bytes>, freq: Counts, rest: seq<Bytes>, seg: Bytes)
    requires IsCount(samples, freq) && WeightFits(samples, seg)
    ensures Weight(freq, Covered(rest) + Dmers(seg)) == Weight(freq, Covered(rest)) + Score(FreqAfter(freq, rest), seg)
  {
    hide Score, FreqAfter, Dmers, Covered;
    ScoresAreExact(samples, freq, rest, seg);
    SumUnion(k => Get(freq, k), Covered(rest), Dmers(seg));
  }

  // ---------------------------------------------------------------- why the bound on positions is needed

  /** One sample of 2^32 + 7 zero bytes: its only dmer occurs 2^32 times, which the counter takes for 0. */
  function Zeros(n: nat): (s: Bytes)
    ensures |s| == n && forall i :: 0 <= i < n ==> s[i] == 0
  {
    seq(n, i => 0)
  }

  lemma {:induction false} ZeroDmer(b: Bytes)
    requires forall i :: 0 <= i < |b| ==> b[i] == 0
    ensures LittleEndian(b) == 0
  {
    if b != [] {
      ZeroDmer(b[1..]);
    }
  }

  lemma {:induction false} ZeroOccurrences(s: Bytes, n: nat, k: nat)
    requires n <= Positions(s) && forall i :: 0 <= i < |s| ==> s[i] == 0
    ensures Occurrences(s, n, k) == if k == 0 then n else 0
  {
    if n > 0 {
      ZeroDmer(s[n - 1..n - 1 + DMER_LEN]);
      ZeroOccurrences(s, n - 1, k);
    }
  }

  /** With exactly 2^32 positions the selector can take every dmer for retired, and returns nothing at all. */
  lemma WrapLosesEverything(segLen: nat, targetSize: int)
    requires segLen >= DMER_LEN && targetSize > 0
    ensures var samples := [Zeros(TWO32 + 7)];
            && TotalPositions(samples, 1) == TWO32
            && IsSelection(samples, map[0 := 0], segLen, targetSize, [])
            && ContentAfter([], Room(targetSize)) == []
            && !OccursIn(samples[0][0..DMER_LEN], [])
  {
    hide Score, Zeros;
    var s := Zeros(TWO32 + 7);
    var samples := [s];
    var freq: Counts := map[0 := 0];
    assert Positions(s) == TWO32;
    assert TotalPositions(samples, 1) == TotalPositions(samples, 0) + Positions(samples[0]);
    forall k
      ensures Frequency(samples, 1, k) == if k == 0 then TWO32 else 0
    {
      ZeroOccurrences(s, TWO32, k);
      assert Frequency(samples, 0, k) == 0;
      assert Frequency(samples, 1, k) == Frequency(samples, 0, k) + Occurrences(samples[0], Positions(samples[0]), k);
    }
    assert IsCount(samples, freq);
    forall i, a | IsStart(samples, segLen, i, a)
      ensures Score(freq, WindowAt(samples, segLen, i, a)) == 0
    {
      ZeroCounts(freq, WindowAt(samples, segLen, i, a));
    }
    assert IsBest(samples, freq, segLen, [], 0);
  }

  /** Every eight-byte substring of s occurs in c. */
  ghost predicate HoldsDmersOf(c: Bytes, s: Bytes) {
    forall w :: |w| == 8 && OccursIn(w, s) ==> OccursIn(w, c)
  }

  /** Whatever the target size, content that falls short of it holds every dmer of every sample. */
  ghost predicate AlwaysComplete(samples: seq<Bytes>, segLen: nat) {
    forall targetSize, content, s :: IsContent(samples, segLen, targetSize, content) && s in samples ==>
      |content| == Room(targetSize) || HoldsDmersOf(content, s)
  }

  /** The bound on positions is exact: completeness holds for all samples of at most n positions iff n is below 2^32. */
  lemma CompletenessThreshold(segLen: nat, n: nat)
    requires segLen >= DMER_LEN
    ensures (forall samples :: TotalPositions(samples, |samples|) <= n ==> AlwaysComplete(samples, segLen)) <==>
            n < TWO32
  {
    hide IsSelection, TotalPositions, ContentAfter, OccursIn;
    if n < TWO32 {
      forall samples | TotalPositions(samples, |samples|) <= n
        ensures AlwaysComplete(samples, segLen)
      {
        CompleteBelow(samples, segLen);
      }
    } else {
      var samples := [Zeros(TWO32 + 7)];
      WrapLosesEverything(segLen, 1);
      var freq: Counts, picks: seq<Bytes> := map[0 := 0], [];
      assert IsSelection(samples, freq, segLen, 1, picks) && samples[0] in samples;
      assert IsContent(samples, segLen, 1, []);
      var w := samples[0][0..DMER_LEN];
      assert StandsAt(w, samples[0], 0);
      OccursAt(w, samples[0], 0);
      assert !HoldsDmersOf([], samples[0]);
      assert TotalPositions(samples, |samples|) <= n;
    }
  }

  lemma OccursAt(w: Bytes, c: Bytes, p: nat)
    requires StandsAt(w, c, p)
    ensures OccursIn(w, c)
  {
  }

  lemma CompleteBelow(samples: seq<Bytes>, segLen: nat)
    requires segLen >= DMER_LEN && Countable(samples)
    ensures AlwaysComplete(samples, segLen)
  {
    hide IsSelection, TotalPositions, ContentAfter, AllWeightsFit;
    CountableFits(samples, segLen);
    forall targetSize, content, s | IsContent(samples, segLen, targetSize, content) && s in samples
      ensures |content| == Room(targetSize) || HoldsDmersOf(content, s)
    {
      var freq: Counts, picks: seq<Bytes> :| IsSelection(samples, freq, segLen, targetSize, picks) &&
          content == ContentAfter(picks, Room(targetSize));
      if |content| < targetSize {
        var j: nat :| j < |samples| && samples[j] == s;
        forall w | |w| == DMER_LEN && OccursIn(w, s)
          ensures OccursIn(w, content)
        {
          var p: nat :| StandsAt(w, s, p);
          SelectionIsComplete(samples, freq, segLen, targetSize, picks, j, p);
        }
      }
    }
  }

  lemma ZeroCounts(freq: Counts, win: Bytes)
    requires forall k :: Get(freq, k) == 0
    ensures Score(freq, win) == 0
  {
    WeightOfNothing(freq, Dmers(win));
  }
}
