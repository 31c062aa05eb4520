/** What `CheapSoundFile.getWords` computes, stated independently of its
    loops: the silence runs of a window of frame gains, and the gaps
    between them whose running gain sum passes a threshold ("words").

    Gains are a sequence `g`; the window is `[s, e)`; `m` is the minimum
    silence length in frames. The list of silences is flat, as in the
    source: the sentinel pair `s, s`, then `first, last` for each recorded
    run, then the sentinel pair `e, e`. */
module Segmentation {
  import opened JavaInt

  /** `SILENCE_GAIN`: a frame whose gain is below it starts a silence run,
      and a run goes on while the gain is not above it. */
  const SilenceGain: int := 2

  /** `SILENCE_DURAION_MS`: the shortest silence, in milliseconds. */
  const SilenceDurationMs: int := 100

  /** Frame `f` lies in a stretch of frames of gain at most `SilenceGain`
      that begins, at or after the window start `s`, with a frame of gain
      below `SilenceGain`: the frames a silence scan started at `s` covers. */
  ghost predicate Active(g: seq<int32>, s: int, f: int)
    decreases f - s
  {
    0 <= s <= f < |g| && g[f] as int <= SilenceGain &&
    (g[f] as int < SilenceGain || (s < f && Active(g, s, f - 1)))
  }

  /** Frame `a` begins a silence run: its gain is below `SilenceGain` and it
      does not continue a run begun earlier in the window. */
  ghost predicate RunStart(g: seq<int32>, s: int, a: int)
  {
    0 <= s <= a < |g| && g[a] as int < SilenceGain && (a == s || !Active(g, s, a - 1))
  }

  /** `[a, b]` is a silence run of the window `[s, e)` long enough to be
      recorded: it begins a run, all its gains are at most `SilenceGain`, it
      cannot be extended (it ends at the window end or before a louder
      frame), and it has more than `m` frames. */
  ghost predicate IsSilence(g: seq<int32>, s: int, e: int, m: int, a: int, b: int)
  {
    s <= a <= b < e <= |g| && RunStart(g, s, a) &&
    (forall t :: a <= t <= b ==> g[t] as int <= SilenceGain) &&
    (b + 1 == e || g[b + 1] as int > SilenceGain) &&
    b - a + 1 > m
  }

  /** Position of run `r` in a flat silence list (after the leading
      sentinel pair). */
  function RunFirst(sil: seq<int>, r: int): int
    requires 0 <= r && 2 * r + 2 < |sil|
  {
    sil[2 * r + 2]
  }

  function RunLast(sil: seq<int>, r: int): int
    requires 0 <= r && 2 * r + 3 < |sil|
  {
    sil[2 * r + 3]
  }

  /** The number of runs of a complete list (both sentinel pairs present). */
  function RunCount(sil: seq<int>): int
  {
    (|sil| - 4) / 2
  }

  ghost predicate Recorded(sil: seq<int>, n: int, a: int, b: int)
    requires 2 * n + 2 <= |sil|
  {
    exists r :: 0 <= r < n && RunFirst(sil, r) == a && RunLast(sil, r) == b
  }

  /** The first `n` runs of `sil` are silences of the window. */
  ghost predicate RunsSound(g: seq<int32>, s: int, e: int, m: int, sil: seq<int>, n: int)
  {
    2 * n + 2 <= |sil| &&
    forall r :: 0 <= r < n ==> IsSilence(g, s, e, m, RunFirst(sil, r), RunLast(sil, r))
  }

  /** The first `n` runs of `sil` are in increasing order and disjoint. */
  ghost predicate RunsOrdered(sil: seq<int>, n: int)
  {
    2 * n + 2 <= |sil| &&
    forall r1, r2 :: 0 <= r1 < r2 < n ==> RunLast(sil, r1) < RunFirst(sil, r2)
  }

  /** Specification of the first phase of `getWords`: the sentinels, and
      exactly the silences of the window, in order. */
  ghost predicate SilenceList(g: seq<int32>, s: int, e: int, m: int, sil: seq<int>)
  {
    |sil| >= 4 && |sil| % 2 == 0 &&
    sil[0] == s && sil[1] == s && sil[|sil| - 2] == e && sil[|sil| - 1] == e &&
    RunsSound(g, s, e, m, sil, RunCount(sil)) &&
    RunsOrdered(sil, RunCount(sil)) &&
    forall a, b :: IsSilence(g, s, e, m, a, b) ==> Recorded(sil, RunCount(sil), a, b)
  }

  /** Gap `k` runs from the end of the `k`-th boundary (the start sentinel or
      the last frame of a run) to the start of the next one (the first frame
      of a run or the end sentinel). */
  function GapCount(sil: seq<int>): int
  {
    |sil| / 2 - 1
  }

  function GapStart(sil: seq<int>, k: int): int
    requires 0 <= k && 2 * k + 1 < |sil|
  {
    sil[2 * k + 1]
  }

  function GapEnd(sil: seq<int>, k: int): int
    requires 0 <= k && 2 * k + 2 < |sil|
  {
    sil[2 * k + 2]
  }

  /** Sum of the gains of frames `[a, b)`. */
  function Sum(g: seq<int32>, a: int, b: int): int
    requires 0 <= a <= b <= |g|
    decreases b - a
  {
    if a == b then 0 else Sum(g, a, b - 1) + g[b - 1] as int
  }

  /** Sum of the gains of frames `[a, l]`. */
  function PrefixSum(g: seq<int32>, a: int, l: int): int
    requires 0 <= a <= l < |g|
  {
    Sum(g, a, l + 1)
  }

  /** Some running sum from the start of the gap `[a, b)` exceeds `t`. */
  ghost predicate Crosses(g: seq<int32>, a: int, b: int, t: int)
  {
    0 <= a && b <= |g| && exists l :: a <= l < b && PrefixSum(g, a, l) > t
  }

  /** No running sum started inside the window `[s, e)` leaves the range of
      Java's `int`. */
  ghost predicate SumsFit(g: seq<int32>, s: int, e: int)
  {
    0 <= s && e <= |g| &&
    forall a, l :: s <= a <= l < e ==> InInt32(PrefixSum(g, a, l))
  }

  /** Every gap that holds frames lies inside the gains. */
  ghost predicate GapsInBounds(g: seq<int32>, sil: seq<int>)
  {
    forall k :: 0 <= k < GapCount(sil) && GapStart(sil, k) < GapEnd(sil, k) ==>
      0 <= GapStart(sil, k) && GapEnd(sil, k) <= |g|
  }

  /** Specification of the second phase of `getWords`: for each of the first
      `n` gaps in order, the whole gap as a pair if its running sum exceeds
      the threshold `t`, nothing otherwise. */
  ghost function WordsOf(g: seq<int32>, sil: seq<int>, t: int, n: int): seq<int>
    requires 0 <= n <= GapCount(sil)
  {
    if n == 0 then []
    else
      WordsOf(g, sil, t, n - 1) +
      (if Crosses(g, GapStart(sil, n - 1), GapEnd(sil, n - 1), t)
       then [GapStart(sil, n - 1), GapEnd(sil, n - 1)] else [])
  }

  /** Pair `p` of a flat word list. */
  function WordStart(w: seq<int>, p: int): int
    requires 0 <= p && 2 * p < |w|
  {
    w[2 * p]
  }

  function WordEnd(w: seq<int>, p: int): int
    requires 0 <= p && 2 * p + 1 < |w|
  {
    w[2 * p + 1]
  }

  /** Gap `k`, one of the first `n`, is emitted: its running sum crosses `t`. */
  ghost predicate EmittedGap(g: seq<int32>, sil: seq<int>, t: int, n: int, a: int, b: int)
    requires n <= GapCount(sil)
  {
    exists k :: 0 <= k < n && GapStart(sil, k) == a && GapEnd(sil, k) == b && Crosses(g, a, b, t)
  }

  // The state of the silence scan at frame `i`, and how one step keeps it.

  /** A stretch of frames of gain at most `SilenceGain` that begins with a
      frame below it is covered by the scan. */
  lemma {:induction false} ActiveStretch(g: seq<int32>, s: int, i: int, f: int)
    requires 0 <= s <= i <= f < |g|
    requires g[i] as int < SilenceGain
    requires forall t :: i <= t <= f ==> g[t] as int <= SilenceGain
    ensures Active(g, s, f)
    decreases f - i
  {
    if f > i {
      ActiveStretch(g, s, i, f - 1);
    }
  }

  /** The scan has looked at the frames before `i`: the `n` runs it has
      recorded are the silences beginning before `i`, in order; and unless
      `i` is the window start, frame `i` does not continue a run. */
  ghost predicate ScanState(g: seq<int32>, s: int, e: int, m: int, sil: seq<int>, n: int, i: int)
  {
    0 <= n && |sil| == 2 * n + 2 && sil[0] == s && sil[1] == s &&
    RunsSound(g, s, e, m, sil, n) && RunsOrdered(sil, n) &&
    (forall r :: 0 <= r < n ==> RunLast(sil, r) < i) &&
    (forall a, b :: IsSilence(g, s, e, m, a, b) && a < i ==> Recorded(sil, n, a, b)) &&
    (s < i < e <= |g| ==> !Active(g, s, i - 1) || g[i] as int > SilenceGain)
  }

  lemma ScanStart(g: seq<int32>, s: int, e: int, m: int)
    ensures ScanState(g, s, e, m, [s, s], 0, s)
  {
  }

  /** A silence that starts at `i`, where the scan found the run `[i, j)`,
      ends at `j - 1`. */
  lemma RunEnd(g: seq<int32>, s: int, e: int, m: int, i: int, j: int, b: int)
    requires 0 <= i <= j <= e <= |g|
    requires forall t :: i <= t < j ==> g[t] as int <= SilenceGain
    requires j == e || g[j] as int > SilenceGain
    requires IsSilence(g, s, e, m, i, b)
    ensures b == j - 1
  {
  }

  /** The only silence that can start inside the run `[i, j)` the scan
      found at `i` is `[i, j - 1]`, and only when it is longer than `m`. */
  lemma SilencesOfRun(g: seq<int32>, s: int, e: int, m: int, i: int, j: int)
    requires 0 <= s <= i < |g| && e <= |g|
    requires g[i] as int < SilenceGain
    requires i <= j && (j == i || j <= e) && (j >= e || g[j] as int > SilenceGain)
    requires forall t :: i <= t < j ==> g[t] as int <= SilenceGain
    ensures forall a, b :: IsSilence(g, s, e, m, a, b) && i <= a < j ==> a == i && b == j - 1 && j - i > m
  {
    forall a, b | IsSilence(g, s, e, m, a, b) && i <= a < j
      ensures a == i && b == j - 1 && j - i > m
    {
      if a > i {
        ActiveStretch(g, s, i, a - 1);
        assert false;
      }
      RunEnd(g, s, e, m, i, j, b);
    }
  }

  /** Appending a run to a list of `n` runs keeps the runs already there. */
  lemma AppendRun(sil: seq<int>, n: int, a: int, b: int)
    requires 0 <= n && |sil| == 2 * n + 2
    ensures RunFirst(sil + [a, b], n) == a && RunLast(sil + [a, b], n) == b
    ensures forall r :: 0 <= r < n ==>
      RunFirst(sil + [a, b], r) == RunFirst(sil, r) && RunLast(sil + [a, b], r) == RunLast(sil, r)
    ensures forall a', b' :: Recorded(sil, n, a', b') ==> Recorded(sil + [a, b], n + 1, a', b')
  {
    var sil' := sil + [a, b];
    forall a', b' | Recorded(sil, n, a', b')
      ensures Recorded(sil', n + 1, a', b')
    {
      var r :| 0 <= r < n && RunFirst(sil, r) == a' && RunLast(sil, r) == b';
      assert RunFirst(sil', r) == a' && RunLast(sil', r) == b';
    }
  }

  /** One step of the scan at a frame below `SilenceGain`, when the run
      `[i, j)` is longer than `m`: it is recorded and the scan resumes at
      `j`. */
  lemma ScanRunRecorded(g: seq<int32>, s: int, e: int, m: int, sil: seq<int>, n: int, i: int, j: int)
    requires ScanState(g, s, e, m, sil, n, i)
    requires 0 <= s <= i < |g| && e <= |g| && (i == s || i < e)
    requires g[i] as int < SilenceGain
    requires i <= j && (j == i || j <= e) && (j >= e || g[j] as int > SilenceGain)
    requires forall t :: i <= t < j ==> g[t] as int <= SilenceGain
    requires 0 <= m < j - i
    ensures ScanState(g, s, e, m, sil + [i, j - 1], n + 1, j)
  {
    SilencesOfRun(g, s, e, m, i, j);
    AppendRun(sil, n, i, j - 1);
    assert IsSilence(g, s, e, m, i, j - 1);
    assert Recorded(sil + [i, j - 1], n + 1, i, j - 1);
  }

  /** One step of the scan at a frame below `SilenceGain`, when the run
      `[i, j)` is `m` frames or shorter: nothing is recorded and the scan
      resumes at `j`. */
  lemma ScanRunDropped(g: seq<int32>, s: int, e: int, m: int, sil: seq<int>, n: int, i: int, j: int)
    requires ScanState(g, s, e, m, sil, n, i)
    requires 0 <= s <= i < |g| && e <= |g| && (i == s || i < e)
    requires g[i] as int < SilenceGain
    requires i <= j && (j == i || j <= e) && (j >= e || g[j] as int > SilenceGain)
    requires forall t :: i <= t < j ==> g[t] as int <= SilenceGain
    requires j - i <= m
    ensures ScanState(g, s, e, m, sil, n, j)
  {
    SilencesOfRun(g, s, e, m, i, j);
  }

  /** One step of the scan at a frame of gain `SilenceGain` or more: no
      silence starts there. */
  lemma ScanSkip(g: seq<int32>, s: int, e: int, m: int, sil: seq<int>, n: int, i: int)
    requires ScanState(g, s, e, m, sil, n, i)
    requires 0 <= s <= i < |g| && (i == s || i < e)
    requires g[i] as int >= SilenceGain
    ensures ScanState(g, s, e, m, sil, n, i + 1)
  {
  }

  /** When the scan has passed the window end, adding the end sentinel pair
      gives the silence list. */
  lemma ScanDone(g: seq<int32>, s: int, e: int, m: int, sil: seq<int>, n: int, i: int)
    requires ScanState(g, s, e, m, sil, n, i)
    requires i >= e
    ensures SilenceList(g, s, e, m, sil + [e, e])
  {
    var sil' := sil + [e, e];
    assert RunCount(sil') == n;
    assert forall r :: 0 <= r < n ==> RunFirst(sil', r) == RunFirst(sil, r) && RunLast(sil', r) == RunLast(sil, r);
    forall a, b | IsSilence(g, s, e, m, a, b)
      ensures Recorded(sil', n, a, b)
    {
      var r :| 0 <= r < n && RunFirst(sil, r) == a && RunLast(sil, r) == b;
      assert RunFirst(sil', r) == a && RunLast(sil', r) == b;
    }
  }

  /** Every gap of a silence list lies in the window. */
  lemma SilenceListGaps(g: seq<int32>, s: int, e: int, m: int, sil: seq<int>)
    requires SilenceList(g, s, e, m, sil)
    requires 0 <= s && e <= |g|
    ensures forall k :: 0 <= k < GapCount(sil) ==> s <= GapStart(sil, k) && GapEnd(sil, k) <= e
    ensures GapsInBounds(g, sil)
  {
    var n := RunCount(sil);
    forall k | 0 <= k < GapCount(sil)
      ensures s <= GapStart(sil, k) && GapEnd(sil, k) <= e
    {
      if k > 0 {
        assert GapStart(sil, k) == RunLast(sil, k - 1);
        assert IsSilence(g, s, e, m, RunFirst(sil, k - 1), RunLast(sil, k - 1));
      }
      if k < n {
        assert GapEnd(sil, k) == RunFirst(sil, k);
        assert IsSilence(g, s, e, m, RunFirst(sil, k), RunLast(sil, k));
      } else {
        assert GapEnd(sil, k) == sil[|sil| - 2];
      }
    }
  }
}
