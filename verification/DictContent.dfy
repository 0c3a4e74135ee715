/**
 Choosing dictionary content from samples: score fixed-length windows by the combined frequency of
 the distinct eight-byte substrings ("dmers") they contain, pick the best, retire its dmers, repeat.
 All counts and scores are uint32.
 */
module DictContent {
  import opened Base
  import opened Sums

  const DMER_LEN := 8
  // From this segment length on, no window reaches before its sample.
  const LEAST_SEG_LEN := 7

  // ---------------------------------------------------------------- dmers

  function LittleEndian(b: Bytes): nat {
    if b == [] then 0 else b[0] + 0x100 * LittleEndian(b[1..])
  }

  /** The number of dmer positions of a sample. */
  function Positions(s: Bytes): nat {
    if |s| >= DMER_LEN then |s| - DMER_LEN + 1 else 0
  }

  /** `binary.LittleEndian.Uint64(s[i:])`. */
  function Dmer(s: Bytes, i: nat): nat
    requires i < Positions(s)
  {
    LittleEndian(s[i..i + DMER_LEN])
  }

  /** No two strings of one length share their little-endian value: dmers are exact, not hashed. */
  lemma {:induction false} LittleEndianInjective(a: Bytes, b: Bytes)
    requires |a| == |b| && LittleEndian(a) == LittleEndian(b)
    ensures a == b
  {
    if a != [] {
      LittleEndianInjective(a[1..], b[1..]);
      assert a == [a[0]] + a[1..] && b == [b[0]] + b[1..];
    }
  }

  /** The distinct dmers at positions from a up to b. */
  function DmersIn(s: Bytes, a: nat, b: nat): set<nat>
    requires b <= Positions(s)
  {
    set i | a <= i < b :: Dmer(s, i)
  }

  /** The distinct dmers of a string. */
  function Dmers(s: Bytes): set<nat> {
    DmersIn(s, 0, Positions(s))
  }

  /** The dmers at positions from a up to b, with multiplicity. */
  function Bag(s: Bytes, a: nat, b: nat): multiset<nat>
    requires a <= b <= Positions(s)
  {
    if a == b then multiset{} else Bag(s, a, b - 1) + multiset{Dmer(s, b - 1)}
  }

  lemma {:induction false} BagHolds(s: Bytes, a: nat, b: nat, k: nat)
    requires a <= b <= Positions(s)
    ensures k in Bag(s, a, b) <==> k in DmersIn(s, a, b)
  {
    if a < b {
      BagHolds(s, a, b - 1, k);
      assert DmersIn(s, a, b) == DmersIn(s, a, b - 1) + {Dmer(s, b - 1)};
    }
  }

  lemma {:induction false} BagFront(s: Bytes, a: nat, b: nat)
    requires a < b <= Positions(s)
    ensures Bag(s, a, b) == multiset{Dmer(s, a)} + Bag(s, a + 1, b)
  {
    hide Dmer, Bag;
    BagStep(s, a, b);
    if a + 1 < b {
      BagFront(s, a, b - 1);
      BagStep(s, a + 1, b);
      BagAssoc(multiset{Dmer(s, a)}, Bag(s, a + 1, b - 1), multiset{Dmer(s, b - 1)});
    } else {
      NoBag(s, a);
      NoBag(s, b);
    }
  }

  lemma BagStep(s: Bytes, a: nat, b: nat)
    requires a < b <= Positions(s)
    ensures Bag(s, a, b) == Bag(s, a, b - 1) + multiset{Dmer(s, b - 1)}
  {
  }

  lemma NoBag(s: Bytes, a: nat)
    requires a <= Positions(s)
    ensures Bag(s, a, a) == multiset{}
  {
  }

  lemma BagAssoc(a: multiset<nat>, b: multiset<nat>, c: multiset<nat>)
    ensures (a + b) + c == a + (b + c)
  {
  }

  lemma DmerShift(s: Bytes, start: nat, w: nat, i: nat)
    requires start + w <= |s| && i < Positions(s[start..start + w])
    ensures Dmer(s[start..start + w], i) == Dmer(s, start + i)
  {
    var l, r := s[start..start + w][i..i + DMER_LEN], s[start + i..start + i + DMER_LEN];
    assert |l| == |r| && forall j :: 0 <= j < DMER_LEN ==> l[j] == r[j];
    assert l == r;
  }

  /** The dmers of a window are those of the sample at the same places. */
  lemma WindowDmers(s: Bytes, start: nat, w: nat)
    requires LEAST_SEG_LEN <= w && DMER_LEN <= |s| && start + w <= |s|
    ensures Dmers(s[start..start + w]) == DmersIn(s, start, start + w - DMER_LEN + 1)
  {
    var win := s[start..start + w];
    forall k
      ensures k in Dmers(win) <==> k in DmersIn(s, start, start + w - DMER_LEN + 1)
    {
      if k in DmersIn(s, start, start + w - DMER_LEN + 1) {
        var i :| start <= i < start + w - DMER_LEN + 1 && Dmer(s, i) == k;
        DmerShift(s, start, w, i - start);
      }
      if k in Dmers(win) {
        var i :| 0 <= i < Positions(win) && Dmer(win, i) == k;
        DmerShift(s, start, w, i);
      }
    }
  }

  // ---------------------------------------------------------------- frequencies and scores

  type Counts = map<nat, uint32>

  /** A Go map lookup: a missing key yields 0. */
  function Get(m: Counts, k: nat): nat {
    if k in m then m[k] else 0
  }

  /** How often k occurs among the first n dmers of s. */
  function Occurrences(s: Bytes, n: nat, k: nat): nat
    requires n <= Positions(s)
  {
    if n == 0 then 0 else Occurrences(s, n - 1, k) + if Dmer(s, n - 1) == k then 1 else 0
  }

  /** How often k occurs in the first j samples. */
  function Frequency(samples: seq<Bytes>, j: nat, k: nat): nat
    requires j <= |samples|
  {
    if j == 0 then 0 else Frequency(samples, j - 1, k) + Occurrences(samples[j - 1], Positions(samples[j - 1]), k)
  }

  function TotalPositions(samples: seq<Bytes>, j: nat): nat
    requires j <= |samples|
  {
    if j == 0 then 0 else TotalPositions(samples, j - 1) + Positions(samples[j - 1])
  }

  /** The counts of the first j samples, modulo 2^32, with a key for every dmer. */
  ghost predicate CountsUpto(samples: seq<Bytes>, j: nat, freq: Counts)
    requires j <= |samples|
  {
    && (forall k :: Get(freq, k) == Frequency(samples, j, k) % TWO32)
    && (forall k :: k in freq <==> Frequency(samples, j, k) > 0)
  }

  /** What the counting loop leaves. */
  ghost predicate IsCount(samples: seq<Bytes>, freq: Counts) {
    CountsUpto(samples, |samples|, freq)
  }

  /** The weight of a set of dmers. */
  ghost function Weight(freq: Counts, S: set<nat>): nat {
    SumOver(k => Get(freq, k), S)
  }

  /** A window's score as the code holds it. */
  ghost function Score(freq: Counts, win: Bytes): nat {
    Weight(freq, Dmers(win)) % TWO32
  }

  function WindowLen(s: Bytes, segLen: nat): nat {
    if segLen > |s| then |s| else segLen
  }

  /** Sample j has a candidate window at this start. */
  predicate IsStart(samples: seq<Bytes>, segLen: nat, j: nat, start: nat) {
    && j < |samples| && |samples[j]| >= DMER_LEN
    && start + WindowLen(samples[j], segLen) <= |samples[j]|
  }

  function WindowAt(samples: seq<Bytes>, segLen: nat, j: nat, start: nat): Bytes
    requires IsStart(samples, segLen, j, start)
  {
    samples[j][start..start + WindowLen(samples[j], segLen)]
  }

  predicate Before(j: nat, start: nat, j': nat, start': nat) {
    j < j' || (j == j' && start < start')
  }

  /** The window at (j, start) is the earliest of maximal score. */
  ghost predicate IsEarliest(samples: seq<Bytes>, freq: Counts, segLen: nat, j: nat, start: nat, score: nat) {
    && IsStart(samples, segLen, j, start) && Score(freq, WindowAt(samples, segLen, j, start)) == score
    && forall i, a :: IsStart(samples, segLen, i, a) && Before(i, a, j, start) ==>
        Score(freq, WindowAt(samples, segLen, i, a)) < score
  }

  /**
   Among the windows before (j, start): nothing scores more than `score`, and `seg` is the first
   to score it; when every score is 0, `seg` is empty.
   */
  ghost predicate BestBefore(samples: seq<Bytes>, freq: Counts, segLen: nat, j: nat, start: nat, seg: Bytes,
                             score: nat) {
    && (forall i, a :: IsStart(samples, segLen, i, a) && Before(i, a, j, start) ==>
        Score(freq, WindowAt(samples, segLen, i, a)) <= score)
    && (score == 0 ==> seg == [])
    && (score > 0 ==> exists i, a :: Before(i, a, j, start) && IsEarliest(samples, freq, segLen, i, a, score)
                                     && seg == WindowAt(samples, segLen, i, a))
  }

  /** What one call of bestSegment must return. */
  ghost predicate IsBest(samples: seq<Bytes>, freq: Counts, segLen: nat, seg: Bytes, score: nat) {
    BestBefore(samples, freq, segLen, |samples|, 0, seg, score)
  }

  /** The result of bestSegment is determined. */
  lemma BestIsUnique(samples: seq<Bytes>, freq: Counts, segLen: nat, seg: Bytes, score: nat, seg': Bytes, score': nat)
    requires IsBest(samples, freq, segLen, seg, score) && IsBest(samples, freq, segLen, seg', score')
    ensures seg == seg' && score == score'
  {
    hide Score, WindowAt;
    if score > 0 && score' > 0 {
      var i, a :| IsEarliest(samples, freq, segLen, i, a, score) && Before(i, a, |samples|, 0) &&
          seg == WindowAt(samples, segLen, i, a);
      var i', a' :| IsEarliest(samples, freq, segLen, i', a', score') && Before(i', a', |samples|, 0) &&
          seg' == WindowAt(samples, segLen, i', a');
      assert !Before(i, a, i', a') && !Before(i', a', i, a);
    }
  }

  // ---------------------------------------------------------------- the sliding window

  /** A Go map lookup: a missing key yields 0. */
  function Count(active: map<nat, int>, k: nat): int {
    if k in active then active[k] else 0
  }

  /** The active map holds the window's dmers with their multiplicity, and the score is their weight. */
  ghost predicate Tracks(freq: Counts, active: map<nat, int>, score: nat, bag: multiset<nat>) {
    && (forall k :: Count(active, k) == bag[k])
    && score == Weight(freq, Support(bag)) % TWO32
  }

  ghost function Support(bag: multiset<nat>): set<nat> {
    set k | k in bag
  }

  lemma SubModulo(w: nat, f: uint32)
    ensures ((w + f) % TWO32 - f) % TWO32 == w % TWO32
  {
    var q := (w + f) / TWO32;
    assert w == q * TWO32 + ((w + f) % TWO32 - f);
  }

  lemma SupportWith(bag: multiset<nat>, k: nat)
    ensures Support(bag + multiset{k}) == Support(bag) + {k}
    ensures k in bag ==> Support(bag + multiset{k}) == Support(bag)
  {
  }

  lemma EnterScore(freq: Counts, bag: multiset<nat>, k: nat)
    ensures var w := Weight(freq, Support(bag)) % TWO32;
            Weight(freq, Support(bag + multiset{k})) % TWO32 == if k in bag then w else (w + Get(freq, k)) % TWO32
  {
    hide SumOver, Get, Support;
    SupportWith(bag, k);
    if k !in bag {
      NotInSupport(bag, k);
      SumAdd(x => Get(freq, x), Support(bag), k);
      AddModulo32(Weight(freq, Support(bag)), Get(freq, k));
    }
  }

  lemma NotInSupport(bag: multiset<nat>, k: nat)
    ensures k in Support(bag) <==> k in bag
  {
  }

  lemma LeaveScore(freq: Counts, bag: multiset<nat>, k: nat)
    requires k in bag
    ensures var w := Weight(freq, Support(bag)) % TWO32;
            Weight(freq, Support(bag - multiset{k})) % TWO32 == if bag[k] > 1 then w else (w - Get(freq, k)) % TWO32
  {
    hide SumOver, Get, Support;
    var rest := bag - multiset{k};
    assert rest + multiset{k} == bag;
    SupportWith(rest, k);
    if bag[k] == 1 {
      NotInSupport(rest, k);
      SumAdd(x => Get(freq, x), Support(rest), k);
      WithinUint32(freq, k);
      SubModulo(Weight(freq, Support(rest)), Get(freq, k));
    }
  }

  lemma WithinUint32(freq: Counts, k: nat)
    ensures Get(freq, k) < TWO32
  {
  }

  /**
   A dmer enters the window: it adds to the score only if it was not there. In a window too short for
   any dmer it only settles what the same dmer owes from leaving.
   */
  method Enter(freq: Counts, active: map<nat, int>, score: uint32, k: nat, ghost bag: multiset<nat>)
    returns (active': map<nat, int>, score': uint32)
    ensures Tracks(freq, active, score, bag) ==> Tracks(freq, active', score', bag + multiset{k})
    ensures Count(active, k) == -1 ==> active' == active[k := 0] && score' == score
  {
    hide Weight, Support, Get;
    var n := Count(active, k);
    score' := score;
    EnterScore(freq, bag, k);
    if n == 0 {
      score' := (score + Get(freq, k)) % TWO32;
    }
    active' := active[k := n + 1];
  }

  /** A dmer leaves the window: its weight goes when its last occurrence does. */
  method Leave(freq: Counts, active: map<nat, int>, score: uint32, k: nat, ghost bag: multiset<nat>)
    returns (active': map<nat, int>, score': uint32)
    requires Tracks(freq, active, score, bag)
    ensures k in bag ==> Tracks(freq, active', score', bag - multiset{k})
    ensures k !in bag ==> active' == active[k := -1] && score' == score
  {
    hide Weight, Support, Get;
    assert Count(active, k) == bag[k];
    active' := active[k := Count(active, k) - 1];
    score' := score;
    if k in bag {
      LeaveScore(freq, bag, k);
    }
    if active'[k] == 0 {
      score' := (score - Get(freq, k)) % TWO32;
    }
  }

  /** Scoring the window whose dmers are tracked. */
  lemma TrackedScore(freq: Counts, active: map<nat, int>, score: nat, s: Bytes, start: nat, w: nat)
    requires LEAST_SEG_LEN <= w && DMER_LEN <= |s| && start + w <= |s|
    requires Tracks(freq, active, score, Bag(s, start, start + w - DMER_LEN + 1))
    ensures score == Score(freq, s[start..start + w])
  {
    hide Weight, Bag, Dmers, DmersIn, Support, Count;
    WindowDmers(s, start, w);
    BagSupport(s, start, start + w - DMER_LEN + 1);
  }

  lemma BagSupport(s: Bytes, a: nat, b: nat)
    requires a <= b <= Positions(s)
    ensures Support(Bag(s, a, b)) == DmersIn(s, a, b)
  {
    hide Bag, DmersIn;
    forall k
      ensures k in Support(Bag(s, a, b)) <==> k in DmersIn(s, a, b)
    {
      BagHolds(s, a, b, k);
    }
  }

  /** `if score > bestScore`: one more window is taken into account. */
  lemma BestStep(samples: seq<Bytes>, freq: Counts, segLen: nat, j: nat, start: nat, seg: Bytes, score: nat)
    requires BestBefore(samples, freq, segLen, j, start, seg, score) && IsStart(samples, segLen, j, start)
    ensures var win := WindowAt(samples, segLen, j, start);
            if Score(freq, win) > score then BestBefore(samples, freq, segLen, j, start + 1, win, Score(freq, win))
            else BestBefore(samples, freq, segLen, j, start + 1, seg, score)
  {
    hide Score, WindowAt;
    var win := WindowAt(samples, segLen, j, start);
    if Score(freq, win) > score {
      assert IsEarliest(samples, freq, segLen, j, start, Score(freq, win));
      assert Before(j, start, j, start + 1);
    } else if score > 0 {
      var i, a :| IsEarliest(samples, freq, segLen, i, a, score) && Before(i, a, j, start) &&
          seg == WindowAt(samples, segLen, i, a);
      assert Before(i, a, j, start + 1);
    }
  }

  /** A sample without further windows is finished. */
  lemma BestNextSample(samples: seq<Bytes>, freq: Counts, segLen: nat, j: nat, start: nat, seg: Bytes, score: nat)
    requires BestBefore(samples, freq, segLen, j, start, seg, score)
    requires forall a :: start <= a ==> !IsStart(samples, segLen, j, a)
    ensures BestBefore(samples, freq, segLen, j + 1, 0, seg, score)
  {
    hide Score, WindowAt;
    if score > 0 {
      var i, a :| IsEarliest(samples, freq, segLen, i, a, score) && Before(i, a, j, start) &&
          seg == WindowAt(samples, segLen, i, a);
      assert Before(i, a, j + 1, 0);
    }
  }

  /** Some sample is long enough to hold a dmer. */
  predicate HasDmers(samples: seq<Bytes>) {
    exists j :: 0 <= j < |samples| && |samples[j]| >= DMER_LEN
  }

  /**
   `bestSegment`. With segments shorter than seven bytes, negative lengths included, the first slide over
   any sample reaches before it, which is a panic.
   */
  method BestSegment(samples: seq<Bytes>, freq: Counts, segLen: int)
    returns (best: Bytes, bestScore: uint32, err: Option<Error>)
    ensures segLen >= LEAST_SEG_LEN ==> err.None? && IsBest(samples, freq, segLen, best, bestScore)
    ensures segLen < LEAST_SEG_LEN ==> (err.Some? <==> HasDmers(samples)) && bestScore == 0
  {
    hide BestBefore;
    best, bestScore, err := [], 0, None;
    NothingBest(samples, freq, segLen);
    for j := 0 to |samples|
      invariant err.None?
      invariant segLen >= LEAST_SEG_LEN ==> BestBefore(samples, freq, segLen, j, 0, best, bestScore)
      invariant segLen < LEAST_SEG_LEN ==> bestScore == 0 && forall i :: 0 <= i < j ==> |samples[i]| < DMER_LEN
    {
      var s := samples[j];
      if |s| < DMER_LEN {
        if segLen >= LEAST_SEG_LEN {
          BestNextSample(samples, freq, segLen, j, 0, best, bestScore);
        }
        continue;
      }
      if segLen < LEAST_SEG_LEN {
        // The first slide takes the dmer at the end of the window from here.
        return best, bestScore, Some(BadLength(1 + segLen - DMER_LEN));
      }
      best, bestScore := ScanSample(samples, freq, segLen, j, best, bestScore);
    }
  }

  lemma NothingBest(samples: seq<Bytes>, freq: Counts, segLen: int)
    ensures segLen >= 0 ==> BestBefore(samples, freq, segLen, 0, 0, [], 0)
  {
  }

  method ScanSample(samples: seq<Bytes>, freq: Counts, segLen: nat, j: nat, seg: Bytes, segScore: uint32)
    returns (best: Bytes, bestScore: uint32)
    requires segLen >= LEAST_SEG_LEN && j < |samples| && |samples[j]| >= DMER_LEN
    requires BestBefore(samples, freq, segLen, j, 0, seg, segScore)
    ensures BestBefore(samples, freq, segLen, j + 1, 0, best, bestScore)
  {
    hide BestBefore, Score, Tracks, Bag, Weight;
    best, bestScore := seg, segScore;
    var s := samples[j];
    var w := if segLen > |s| then |s| else segLen;
    var active: map<nat, int>, score: uint32 := ScoreFirst(freq, s, w);
    TrackedScore(freq, active, score, s, 0, w);
    BestStep(samples, freq, segLen, j, 0, best, bestScore);
    if score > bestScore {
      bestScore, best := score, s[0..w];
    }
    var start := 1;
    while start + w <= |s|
      invariant 1 <= start && start + w <= |s| + 1
      invariant Tracks(freq, active, score, Bag(s, start - 1, start + w - DMER_LEN))
      invariant BestBefore(samples, freq, segLen, j, start, best, bestScore)
    {
      active, score := Slide(freq, active, score, s, start, w);
      TrackedScore(freq, active, score, s, start, w);
      BestStep(samples, freq, segLen, j, start, best, bestScore);
      if score > bestScore {
        bestScore, best := score, s[start..start + w];
      }
      start := start + 1;
    }
    BestNextSample(samples, freq, segLen, j, start, best, bestScore);
  }

  method ScoreFirst(freq: Counts, s: Bytes, w: nat) returns (active: map<nat, int>, score: uint32)
    requires LEAST_SEG_LEN <= w <= |s| && DMER_LEN <= |s|
    ensures Tracks(freq, active, score, Bag(s, 0, w - DMER_LEN + 1))
  {
    active, score := map[], 0;
    assert Support(multiset{}) == {};
    for i := 0 to w - DMER_LEN + 1
      invariant Tracks(freq, active, score, Bag(s, 0, i))
    {
      active, score := Enter(freq, active, score, Dmer(s, i), Bag(s, 0, i));
    }
  }

  /** One step of the window: the dmer before it leaves, the one at its end enters. */
  method Slide(freq: Counts, active: map<nat, int>, score: uint32, s: Bytes, start: nat, w: nat)
    returns (active': map<nat, int>, score': uint32)
    requires LEAST_SEG_LEN <= w && DMER_LEN <= |s| && 1 <= start && start + w <= |s|
    requires Tracks(freq, active, score, Bag(s, start - 1, start + w - DMER_LEN))
    ensures Tracks(freq, active', score', Bag(s, start, start + w - DMER_LEN + 1))
  {
    hide Tracks, Bag, LittleEndian, Count;
    var gone, come := Dmer(s, start - 1), Dmer(s, start + w - DMER_LEN);
    ghost var bag := Bag(s, start - 1, start + w - DMER_LEN);
    if w == LEAST_SEG_LEN {
      NoBag(s, start - 1);
      NoBag(s, start);
    } else {
      BagFront(s, start - 1, start + w - DMER_LEN);
      BagStep(s, start, start + w - DMER_LEN + 1);
    }
    active', score' := Leave(freq, active, score, gone, bag);
    ghost var rest := bag - multiset{gone};
    assert w > LEAST_SEG_LEN ==> rest == Bag(s, start, start + w - DMER_LEN);
    SettleDebt(freq, active, score, gone);
    active', score' := Enter(freq, active', score', come, rest);
  }

  /** Going below zero and back leaves an empty window empty. */
  lemma SettleDebt(freq: Counts, active: map<nat, int>, score: nat, k: nat)
    ensures Count(active[k := -1], k) == -1
    ensures Tracks(freq, active, score, multiset{}) ==> Tracks(freq, active[k := -1][k := 0], score, multiset{})
  {
    hide Weight;
  }

  // ---------------------------------------------------------------- the greedy loop

  /** Retire the dmers of a pick. */
  ghost function Retired(freq: Counts, seg: Bytes): Counts {
    map k | k in freq.Keys + Dmers(seg) :: if k in Dmers(seg) then 0 else freq[k]
  }

  ghost function FreqAfter(freq: Counts, picks: seq<Bytes>): Counts {
    if picks == [] then freq else Retired(FreqAfter(freq, picks[..|picks| - 1]), picks[|picks| - 1])
  }

  function Trimmed(seg: Bytes, room: int): Bytes
    requires room >= 0
  {
    if |seg| > room then seg[..room] else seg
  }

  /** The content after these picks, the first one at the tail. */
  function ContentAfter(picks: seq<Bytes>, target: nat): (c: Bytes)
    ensures |c| <= target
  {
    if picks == [] then [] else
      var c := ContentAfter(picks[..|picks| - 1], target);
      Trimmed(picks[|picks| - 1], target - |c|) + c
  }

  /** Each pick was the best window left, with a non-zero score, while there was room. */
  ghost predicate IsGreedy(samples: seq<Bytes>, freq: Counts, segLen: nat, target: nat, picks: seq<Bytes>) {
    picks == [] ||
    (var rest := picks[..|picks| - 1];
     && IsGreedy(samples, freq, segLen, target, rest)
     && |ContentAfter(rest, target)| < target
     && IsPick(samples, FreqAfter(freq, rest), segLen, picks[|picks| - 1]))
  }

  ghost predicate IsPick(samples: seq<Bytes>, freq: Counts, segLen: nat, seg: Bytes) {
    exists score :: score > 0 && IsBest(samples, freq, segLen, seg, score)
  }

  /** The loop ends when there is no room or nothing left of value. */
  ghost predicate IsFinal(samples: seq<Bytes>, freq: Counts, segLen: nat, target: nat, picks: seq<Bytes>) {
    |ContentAfter(picks, target)| == target || IsBest(samples, FreqAfter(freq, picks), segLen, [], 0)
  }

  function Room(targetSize: int): nat {
    if targetSize < 0 then 0 else targetSize
  }

  /** A complete run of the selector. */
  ghost predicate IsSelection(samples: seq<Bytes>, freq: Counts, segLen: nat, targetSize: int, picks: seq<Bytes>) {
    && IsCount(samples, freq)
    && IsGreedy(samples, freq, segLen, Room(targetSize), picks)
    && IsFinal(samples, freq, segLen, Room(targetSize), picks)
  }

  /** The content that some complete run of the selector yields. */
  ghost predicate IsContent(samples: seq<Bytes>, segLen: nat, targetSize: int, content: Bytes) {
    exists freq, picks :: IsSelection(samples, freq, segLen, targetSize, picks) &&
        content == ContentAfter(picks, Room(targetSize))
  }

  method CountDmers(samples: seq<Bytes>) returns (freq: Counts)
    ensures IsCount(samples, freq)
  {
    freq := map[];
    for j := 0 to |samples|
      invariant CountsUpto(samples, j, freq)
    {
      freq := CountSample(samples, j, freq);
    }
  }

  /** In the middle of sample j: the samples before it, and its own first i dmers. */
  ghost predicate CountsWithin(samples: seq<Bytes>, j: nat, i: nat, freq: Counts)
    requires j < |samples| && i <= Positions(samples[j])
  {
    forall k :: CountedOnce(freq, k, Frequency(samples, j, k) + Occurrences(samples[j], i, k))
  }

  predicate CountedOnce(freq: Counts, k: nat, n: nat) {
    Get(freq, k) == n % TWO32 && (k in freq <==> n > 0)
  }

  method CountSample(samples: seq<Bytes>, j: nat, before: Counts) returns (freq: Counts)
    requires j < |samples| && CountsUpto(samples, j, before)
    ensures CountsUpto(samples, j + 1, freq)
  {
    hide CountsWithin, CountsUpto, Get, LittleEndian;
    var s := samples[j];
    freq := before;
    CountsEnter(samples, j, before);
    for i := 0 to Positions(s)
      invariant CountsWithin(samples, j, i, freq)
    {
      CountsStep(samples, j, i, freq);
      var d := Dmer(s, i);
      freq := freq[d := (Get(freq, d) + 1) % TWO32];
    }
    CountsLeave(samples, j, freq);
  }

  lemma CountsEnter(samples: seq<Bytes>, j: nat, freq: Counts)
    requires j < |samples| && CountsUpto(samples, j, freq)
    ensures CountsWithin(samples, j, 0, freq)
  {
    hide Frequency, Get;
  }

  lemma CountsStep(samples: seq<Bytes>, j: nat, i: nat, freq: Counts)
    requires j < |samples| && i < Positions(samples[j]) && CountsWithin(samples, j, i, freq)
    ensures var d := Dmer(samples[j], i); CountsWithin(samples, j, i + 1, freq[d := (Get(freq, d) + 1) % TWO32])
  {
    hide Frequency, Dmer, CountedOnce;
    var d := Dmer(samples[j], i);
    forall k
      ensures CountedOnce(freq[d := (Get(freq, d) + 1) % TWO32], k,
                          Frequency(samples, j, k) + Occurrences(samples[j], i + 1, k))
    {
      var n := Frequency(samples, j, k) + Occurrences(samples[j], i, k);
      assert CountedOnce(freq, k, n);
      CountOneMore(freq, d, k, n);
    }
  }

  lemma CountOneMore(freq: Counts, d: nat, k: nat, n: nat)
    requires CountedOnce(freq, k, n)
    ensures CountedOnce(freq[d := (Get(freq, d) + 1) % TWO32], k, if d == k then n + 1 else n)
  {
    AddModulo32(n, 1);
  }

  lemma CountsLeave(samples: seq<Bytes>, j: nat, freq: Counts)
    requires j < |samples| && CountsWithin(samples, j, Positions(samples[j]), freq)
    ensures CountsUpto(samples, j + 1, freq)
  {
    hide Occurrences, Get;
    forall k
      ensures Get(freq, k) == Frequency(samples, j + 1, k) % TWO32 && (k in freq <==> Frequency(samples, j + 1, k) > 0)
    {
      assert CountedOnce(freq, k, Frequency(samples, j, k) + Occurrences(samples[j], Positions(samples[j]), k));
    }
  }

  method Retire(freq: Counts, seg: Bytes) returns (after: Counts)
    ensures after == Retired(freq, seg)
  {
    after := freq;
    for i := 0 to Positions(seg)
      invariant after.Keys == freq.Keys + DmersIn(seg, 0, i)
      invariant forall k :: k in after ==> after[k] == if k in DmersIn(seg, 0, i) then 0 else freq[k]
    {
      assert DmersIn(seg, 0, i + 1) == DmersIn(seg, 0, i) + {Dmer(seg, i)};
      after := after[Dmer(seg, i) := 0];
    }
  }

  /** `selectDictContent`. */
  method SelectDictContent(samples: seq<Bytes>, targetSize: int, segLen: int)
    returns (content: Bytes, err: Option<Error>)
    ensures segLen >= LEAST_SEG_LEN ==> err.None? && IsContent(samples, segLen, targetSize, content)
    ensures segLen < LEAST_SEG_LEN ==> (err.Some? <==> targetSize > 0 && HasDmers(samples)) && content == []
  {
    hide IsBest, IsCount, Retired;
    var counts := CountDmers(samples);
    content, err := [], None;
    ghost var freq, picks: seq<Bytes> := counts, [];
    DmersAreCounted(samples, counts);
    if |counts| == 0 {
      if segLen >= LEAST_SEG_LEN {
        NothingToCount(samples, counts, segLen);
        assert IsSelection(samples, freq, segLen, targetSize, picks);
      }
      return;
    }
    while |content| < targetSize
      invariant err.None? && |content| <= Room(targetSize) && content == ContentAfter(picks, Room(targetSize))
      invariant counts == FreqAfter(freq, picks)
      invariant segLen < LEAST_SEG_LEN ==> content == []
      invariant segLen >= LEAST_SEG_LEN ==> IsGreedy(samples, freq, segLen, Room(targetSize), picks)
      decreases targetSize - |content|
    {
      var seg, score;
      seg, score, err := BestSegment(samples, counts, segLen);
      if err.Some? {
        return;
      }
      if score == 0 {
        if segLen >= LEAST_SEG_LEN {
          BestOfZero(samples, counts, segLen, seg);
          assert IsSelection(samples, freq, segLen, targetSize, picks);
        }
        return;
      }
      BestIsLong(samples, counts, segLen, seg, score);
      ghost var more := picks + [seg];
      assert more[..|more| - 1] == picks;
      counts := Retire(counts, seg);
      var room := targetSize - |content|;
      if |seg| > room {
        seg := seg[..room];
      }
      content := seg + content;
      picks := more;
    }
    if segLen >= LEAST_SEG_LEN {
      assert IsSelection(samples, freq, segLen, targetSize, picks);
    }
  }

  lemma {:induction false} OccursInSample(s: Bytes, n: nat, i: nat)
    requires i < n <= Positions(s)
    ensures Occurrences(s, n, Dmer(s, i)) > 0
  {
    if i < n - 1 {
      OccursInSample(s, n - 1, i);
    }
  }

  lemma {:induction false} OccursInSamples(samples: seq<Bytes>, m: nat, j: nat, i: nat)
    requires j < m <= |samples| && i < Positions(samples[j])
    ensures Frequency(samples, m, Dmer(samples[j], i)) > 0
  {
    if j < m - 1 {
      OccursInSamples(samples, m - 1, j, i);
    } else {
      OccursInSample(samples[j], Positions(samples[j]), i);
    }
  }

  lemma DmersAreCounted(samples: seq<Bytes>, freq: Counts)
    requires IsCount(samples, freq)
    ensures HasDmers(samples) ==> |freq| > 0
  {
    hide Frequency, Dmer;
    if j: nat :| j < |samples| && |samples[j]| >= DMER_LEN {
      OccursInSamples(samples, |samples|, j, 0);
      assert Dmer(samples[j], 0) in freq;
    }
  }

  lemma NothingToCount(samples: seq<Bytes>, freq: Counts, segLen: nat)
    requires IsCount(samples, freq) && |freq| == 0
    ensures IsBest(samples, freq, segLen, [], 0)
  {
    hide WindowAt;
    forall i, a | IsStart(samples, segLen, i, a)
      ensures Score(freq, WindowAt(samples, segLen, i, a)) == 0
    {
      WeightOfNothing(freq, Dmers(WindowAt(samples, segLen, i, a)));
    }
  }

  lemma {:induction false} WeightOfNothing(freq: Counts, S: set<nat>)
    requires forall k :: k in S ==> Get(freq, k) == 0
    ensures Weight(freq, S) == 0
    decreases S
  {
    if S != {} {
      var x :| x in S;
      SumRemove(k => Get(freq, k), S, x);
      WeightOfNothing(freq, S - {x});
    }
  }

  lemma BestOfZero(samples: seq<Bytes>, freq: Counts, segLen: nat, seg: Bytes)
    requires IsBest(samples, freq, segLen, seg, 0)
    ensures seg == []
  {
  }

  /** A best window with a non-zero score holds a dmer, and comes from a sample. */
  lemma BestIsLong(samples: seq<Bytes>, freq: Counts, segLen: nat, seg: Bytes, score: nat)
    requires score > 0 && IsBest(samples, freq, segLen, seg, score)
    ensures |seg| >= DMER_LEN && Score(freq, seg) == score
    ensures exists j, start :: IsStart(samples, segLen, j, start) && seg == WindowAt(samples, segLen, j, start)
    ensures forall i, a :: IsStart(samples, segLen, i, a) ==> Score(freq, WindowAt(samples, segLen, i, a)) <= score
  {
    hide Score;
    if |seg| < DMER_LEN {
      ScoreOfShort(freq, seg);
    }
  }

  /** A window without room for a dmer scores nothing. */
  lemma ScoreOfShort(freq: Counts, win: Bytes)
    requires |win| < DMER_LEN
    ensures Score(freq, win) == 0
  {
    WeightOfNothing(freq, Dmers(win));
  }
}
