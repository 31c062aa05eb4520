/** Properties of the silence list and the word list that `getWords`
    computes, proved from their specifications. */
module SegmentationProperties {
  import opened JavaInt
  import opened Segmentation

  /** The pair `a, b` occurs in the flat word list `w`. */
  ghost predicate Emits(w: seq<int>, a: int, b: int)
  {
    exists p :: 0 <= p < |w| / 2 && WordStart(w, p) == a && WordEnd(w, p) == b
  }

  /** Gaps follow one another: each ends no later than any later one starts. */
  ghost predicate GapsOrdered(sil: seq<int>)
  {
    forall k1, k2 :: 0 <= k1 < k2 < GapCount(sil) ==> GapEnd(sil, k1) <= GapStart(sil, k2)
  }

  lemma CrossesNonEmpty(g: seq<int32>, a: int, b: int, t: int)
    requires Crosses(g, a, b, t)
    ensures 0 <= a < b <= |g|
  {
  }

  /** The word list holds whole pairs, at most one per gap. */
  lemma {:induction false} WordsArePairs(g: seq<int32>, sil: seq<int>, t: int, n: int)
    requires 0 <= n <= GapCount(sil)
    ensures |WordsOf(g, sil, t, n)| % 2 == 0
    ensures |WordsOf(g, sil, t, n)| / 2 <= n
  {
    if n > 0 {
      WordsArePairs(g, sil, t, n - 1);
    }
  }

  /** Considering one more gap keeps the pairs found so far and appends
      that gap when it crosses the threshold. */
  lemma WordsStep(g: seq<int32>, sil: seq<int>, t: int, n: int)
    requires 0 < n <= GapCount(sil)
    ensures var w0, w := WordsOf(g, sil, t, n - 1), WordsOf(g, sil, t, n);
      |w0| / 2 <= |w| / 2 &&
      (forall p :: 0 <= p < |w0| / 2 ==> WordStart(w, p) == WordStart(w0, p) && WordEnd(w, p) == WordEnd(w0, p)) &&
      (Crosses(g, GapStart(sil, n - 1), GapEnd(sil, n - 1), t) ==>
        |w| / 2 == |w0| / 2 + 1 &&
        WordStart(w, |w0| / 2) == GapStart(sil, n - 1) && WordEnd(w, |w0| / 2) == GapEnd(sil, n - 1)) &&
      (!Crosses(g, GapStart(sil, n - 1), GapEnd(sil, n - 1), t) ==> w == w0)
  {
    WordsArePairs(g, sil, t, n - 1);
  }

  /** Every pair of the word list is a gap whose running sum crosses the
      threshold. */
  lemma {:induction false} WordsAreCrossingGaps(g: seq<int32>, sil: seq<int>, t: int, n: int)
    requires 0 <= n <= GapCount(sil)
    ensures forall p :: 0 <= p < |WordsOf(g, sil, t, n)| / 2 ==>
      EmittedGap(g, sil, t, n, WordStart(WordsOf(g, sil, t, n), p), WordEnd(WordsOf(g, sil, t, n), p))
  {
    if n > 0 {
      WordsAreCrossingGaps(g, sil, t, n - 1);
      WordsStep(g, sil, t, n);
      var w0, w := WordsOf(g, sil, t, n - 1), WordsOf(g, sil, t, n);
      forall p | 0 <= p < |w| / 2
        ensures EmittedGap(g, sil, t, n, WordStart(w, p), WordEnd(w, p))
      {
        if p < |w0| / 2 {
          var k :| 0 <= k < n - 1 && GapStart(sil, k) == WordStart(w0, p) && GapEnd(sil, k) == WordEnd(w0, p) &&
            Crosses(g, GapStart(sil, k), GapEnd(sil, k), t);
        }
      }
    }
  }

  /** Every gap whose running sum crosses the threshold is a pair of the
      word list. */
  lemma {:induction false} CrossingGapsAreWords(g: seq<int32>, sil: seq<int>, t: int, n: int)
    requires 0 <= n <= GapCount(sil)
    ensures forall k :: 0 <= k < n && Crosses(g, GapStart(sil, k), GapEnd(sil, k), t) ==>
      Emits(WordsOf(g, sil, t, n), GapStart(sil, k), GapEnd(sil, k))
  {
    if n > 0 {
      CrossingGapsAreWords(g, sil, t, n - 1);
      WordsStep(g, sil, t, n);
      var w0, w := WordsOf(g, sil, t, n - 1), WordsOf(g, sil, t, n);
      forall k | 0 <= k < n && Crosses(g, GapStart(sil, k), GapEnd(sil, k), t)
        ensures Emits(w, GapStart(sil, k), GapEnd(sil, k))
      {
        if k < n - 1 {
          var p :| 0 <= p < |w0| / 2 && WordStart(w0, p) == GapStart(sil, k) && WordEnd(w0, p) == GapEnd(sil, k);
          assert WordStart(w, p) == GapStart(sil, k) && WordEnd(w, p) == GapEnd(sil, k);
        } else {
          var p := |w0| / 2;
          assert WordStart(w, p) == GapStart(sil, k) && WordEnd(w, p) == GapEnd(sil, k);
        }
      }
    }
  }

  /** The pairs emitted for the gaps before gap `n` end no later than it
      starts. */
  lemma PairsBeforeGap(g: seq<int32>, sil: seq<int>, t: int, n: int)
    requires 0 <= n < GapCount(sil)
    requires GapsOrdered(sil)
    ensures forall p :: 0 <= p < |WordsOf(g, sil, t, n)| / 2 ==>
      WordEnd(WordsOf(g, sil, t, n), p) <= GapStart(sil, n)
  {
    var w0 := WordsOf(g, sil, t, n);
    WordsAreCrossingGaps(g, sil, t, n);
    forall p | 0 <= p < |w0| / 2
      ensures WordEnd(w0, p) <= GapStart(sil, n)
    {
      var k :| 0 <= k < n && GapStart(sil, k) == WordStart(w0, p) && GapEnd(sil, k) == WordEnd(w0, p) &&
        Crosses(g, GapStart(sil, k), GapEnd(sil, k), t);
      assert GapEnd(sil, k) <= GapStart(sil, n);
    }
  }

  /** Word pairs are non-empty ranges in increasing order when the gaps are. */
  lemma {:induction false} WordsAreOrdered(g: seq<int32>, sil: seq<int>, t: int, n: int)
    requires 0 <= n <= GapCount(sil)
    requires GapsOrdered(sil)
    ensures forall p :: 0 <= p < |WordsOf(g, sil, t, n)| / 2 ==>
      WordStart(WordsOf(g, sil, t, n), p) < WordEnd(WordsOf(g, sil, t, n), p)
    ensures forall p, q :: 0 <= p < q < |WordsOf(g, sil, t, n)| / 2 ==>
      WordEnd(WordsOf(g, sil, t, n), p) <= WordStart(WordsOf(g, sil, t, n), q)
  {
    if n > 0 {
      WordsAreOrdered(g, sil, t, n - 1);
      var w0, w := WordsOf(g, sil, t, n - 1), WordsOf(g, sil, t, n);
      var a, b := GapStart(sil, n - 1), GapEnd(sil, n - 1);
      WordsStep(g, sil, t, n);
      if Crosses(g, a, b, t) {
        PairsBeforeGap(g, sil, t, n - 1);
        CrossesNonEmpty(g, a, b, t);
      }
    }
  }

  /** The gaps of a silence list are in order. */
  lemma SilenceListGapsOrdered(g: seq<int32>, s: int, e: int, m: int, sil: seq<int>)
    requires SilenceList(g, s, e, m, sil)
    ensures GapsOrdered(sil)
  {
    var n := RunCount(sil);
    forall k1, k2 | 0 <= k1 < k2 < GapCount(sil)
      ensures GapEnd(sil, k1) <= GapStart(sil, k2)
    {
      assert GapEnd(sil, k1) == RunFirst(sil, k1);
      assert GapStart(sil, k2) == RunLast(sil, k2 - 1);
      assert IsSilence(g, s, e, m, RunFirst(sil, k1), RunLast(sil, k1));
      if k1 < k2 - 1 {
        assert IsSilence(g, s, e, m, RunFirst(sil, k2 - 1), RunLast(sil, k2 - 1));
      }
    }
  }

  /** What `getWords` returns, given its two specifications: whole pairs,
      each a gap of the window between consecutive silence boundaries
      (sentinels included) whose running gain sum exceeds the threshold,
      every such gap, non-empty, in increasing order, and at most one more
      pair than there are silence runs. */
  lemma WordsOfSilenceList(g: seq<int32>, s: int, e: int, m: int, sil: seq<int>, t: int)
    requires SilenceList(g, s, e, m, sil)
    requires 0 <= s && e <= |g|
    ensures var w := WordsOf(g, sil, t, GapCount(sil));
      |w| % 2 == 0 && |w| / 2 <= RunCount(sil) + 1 &&
      (forall p :: 0 <= p < |w| / 2 ==>
        s <= WordStart(w, p) < WordEnd(w, p) <= e &&
        EmittedGap(g, sil, t, GapCount(sil), WordStart(w, p), WordEnd(w, p))) &&
      (forall p, q :: 0 <= p < q < |w| / 2 ==> WordEnd(w, p) <= WordStart(w, q)) &&
      (forall k :: 0 <= k < GapCount(sil) && Crosses(g, GapStart(sil, k), GapEnd(sil, k), t) ==>
        Emits(w, GapStart(sil, k), GapEnd(sil, k)))
  {
    var n := GapCount(sil);
    var w := WordsOf(g, sil, t, n);
    SilenceListGaps(g, s, e, m, sil);
    SilenceListGapsOrdered(g, s, e, m, sil);
    WordsArePairs(g, sil, t, n);
    WordsAreCrossingGaps(g, sil, t, n);
    CrossingGapsAreWords(g, sil, t, n);
    WordsAreOrdered(g, sil, t, n);
    forall p | 0 <= p < |w| / 2
      ensures s <= WordStart(w, p) && WordEnd(w, p) <= e
    {
      var k :| 0 <= k < n && GapStart(sil, k) == WordStart(w, p) && GapEnd(sil, k) == WordEnd(w, p) &&
        Crosses(g, GapStart(sil, k), GapEnd(sil, k), t);
    }
  }

  /** Two silence lists of the same window agree on their first `r` runs:
      both hold the same runs, in increasing order. */
  lemma {:induction false} RunsAgree(g: seq<int32>, s: int, e: int, m: int, sil1: seq<int>, sil2: seq<int>, r: int, p: int)
    requires SilenceList(g, s, e, m, sil1) && SilenceList(g, s, e, m, sil2)
    requires 0 <= r <= RunCount(sil1) && r <= RunCount(sil2)
    ensures 0 <= p < r ==> RunFirst(sil1, p) == RunFirst(sil2, p) && RunLast(sil1, p) == RunLast(sil2, p)
    decreases r
  {
    if 0 <= p < r - 1 {
      RunsAgree(g, s, e, m, sil1, sil2, r - 1, p);
    } else if 0 <= p == r - 1 {
      var a, b := RunFirst(sil1, p), RunLast(sil1, p);
      var c, d := RunFirst(sil2, p), RunLast(sil2, p);
      assert IsSilence(g, s, e, m, a, b);
      assert IsSilence(g, s, e, m, c, d);
      assert Recorded(sil2, RunCount(sil2), a, b);
      assert Recorded(sil1, RunCount(sil1), c, d);
      var r2 :| 0 <= r2 < RunCount(sil2) && RunFirst(sil2, r2) == a && RunLast(sil2, r2) == b;
      var r1 :| 0 <= r1 < RunCount(sil1) && RunFirst(sil1, r1) == c && RunLast(sil1, r1) == d;
      RunsAgree(g, s, e, m, sil1, sil2, r - 1, r2);
      RunsAgree(g, s, e, m, sil1, sil2, r - 1, r1);
      SameIndex(sil1, sil2, RunCount(sil1), RunCount(sil2), p, r1, r2);
    }
  }

  /** In two ordered run lists that agree before index `p`, the run at `p`
      of the first list can only occur at `p` in the second. */
  lemma SameIndex(sil1: seq<int>, sil2: seq<int>, n1: int, n2: int, p: int, r1: int, r2: int)
    requires RunsOrdered(sil1, n1) && RunsOrdered(sil2, n2)
    requires 0 <= p < n1 && p < n2 && 0 <= r1 < n1 && 0 <= r2 < n2
    requires RunFirst(sil1, p) <= RunLast(sil1, p) && RunFirst(sil2, p) <= RunLast(sil2, p)
    requires RunFirst(sil2, r2) == RunFirst(sil1, p) && RunLast(sil2, r2) == RunLast(sil1, p)
    requires RunFirst(sil1, r1) == RunFirst(sil2, p) && RunLast(sil1, r1) == RunLast(sil2, p)
    requires r2 < p ==> RunFirst(sil1, r2) == RunFirst(sil2, r2) && RunLast(sil1, r2) == RunLast(sil2, r2)
    requires r1 < p ==> RunFirst(sil1, r1) == RunFirst(sil2, r1) && RunLast(sil1, r1) == RunLast(sil2, r1)
    ensures r2 == p
  {
    assert r2 >= p;
    assert r1 >= p;
  }

  /** A silence list has no more runs than another list of the same
      window. */
  lemma RunCountAtMost(g: seq<int32>, s: int, e: int, m: int, sil1: seq<int>, sil2: seq<int>)
    requires SilenceList(g, s, e, m, sil1) && SilenceList(g, s, e, m, sil2)
    ensures RunCount(sil1) <= RunCount(sil2)
  {
    var n1, n2 := RunCount(sil1), RunCount(sil2);
    if n1 > n2 {
      var a, b := RunFirst(sil1, n2), RunLast(sil1, n2);
      assert IsSilence(g, s, e, m, a, b);
      assert Recorded(sil2, n2, a, b);
      var r2 :| 0 <= r2 < n2 && RunFirst(sil2, r2) == a && RunLast(sil2, r2) == b;
      RunsAgree(g, s, e, m, sil1, sil2, n2, r2);
      assert false;
    }
  }

  /** The silence list of a window is unique, so the first phase of
      `getWords` is deterministic. */
  lemma SilenceListUnique(g: seq<int32>, s: int, e: int, m: int, sil1: seq<int>, sil2: seq<int>)
    requires SilenceList(g, s, e, m, sil1) && SilenceList(g, s, e, m, sil2)
    ensures sil1 == sil2
  {
    RunCountAtMost(g, s, e, m, sil1, sil2);
    RunCountAtMost(g, s, e, m, sil2, sil1);
    var n := RunCount(sil1);
    assert |sil1| == |sil2|;
    forall i | 0 <= i < |sil1|
      ensures sil1[i] == sil2[i]
    {
      if 2 <= i < |sil1| - 2 {
        var r := (i - 2) / 2;
        RunsAgree(g, s, e, m, sil1, sil2, n, r);
        assert i == 2 * r + 2 || i == 2 * r + 3;
      }
    }
  }

  /** Idempotence of `getWords`: the words of a window do not depend on
      anything but the gains, the window, `m` and the threshold. */
  lemma WordsDeterministic(g: seq<int32>, s: int, e: int, m: int, sil1: seq<int>, sil2: seq<int>, t: int)
    requires SilenceList(g, s, e, m, sil1) && SilenceList(g, s, e, m, sil2)
    ensures WordsOf(g, sil1, t, GapCount(sil1)) == WordsOf(g, sil2, t, GapCount(sil2))
  {
    SilenceListUnique(g, s, e, m, sil1, sil2);
  }

  /** The first run of a non-empty silence list is a run of the window. */
  lemma FirstRunInWindow(g: seq<int32>, s: int, e: int, m: int, sil: seq<int>)
    requires SilenceList(g, s, e, m, sil)
    ensures RunCount(sil) > 0 ==>
      s <= RunFirst(sil, 0) < e <= |g| && g[RunFirst(sil, 0)] as int < SilenceGain
  {
    if RunCount(sil) > 0 {
      assert IsSilence(g, s, e, m, RunFirst(sil, 0), RunLast(sil, 0));
    }
  }

  /** An empty window (no frames, or a negative count) has no silence runs
      and no words. */
  lemma EmptyWindow(g: seq<int32>, s: int, e: int, m: int, sil: seq<int>, t: int)
    requires SilenceList(g, s, e, m, sil)
    requires e <= s
    ensures RunCount(sil) == 0
    ensures WordsOf(g, sil, t, GapCount(sil)) == []
  {
    FirstRunInWindow(g, s, e, m, sil);
    assert GapCount(sil) == 1;
    assert GapStart(sil, 0) == s && GapEnd(sil, 0) == e;
    assert WordsOf(g, sil, t, 0) == [];
  }

  /** A window whose every gain is below `SilenceGain` and which is longer
      than `m` frames is one silence run, and yields no word. */
  lemma AllSilentWindow(g: seq<int32>, s: int, e: int, m: int, sil: seq<int>, t: int)
    requires 0 <= s && e <= |g| && 0 <= m < e - s && t >= SilenceGain
    requires forall f :: s <= f < e ==> g[f] as int < SilenceGain
    requires SilenceList(g, s, e, m, sil)
    ensures sil == [s, s, s, e - 1, e, e]
    ensures WordsOf(g, sil, t, GapCount(sil)) == []
  {
    forall f | s <= f < e
      ensures Active(g, s, f)
    {
      ActiveStretch(g, s, s, f);
    }
    assert IsSilence(g, s, e, m, s, e - 1);
    var n := RunCount(sil);
    forall r | 0 <= r < n
      ensures RunFirst(sil, r) == s && RunLast(sil, r) == e - 1
    {
      assert IsSilence(g, s, e, m, RunFirst(sil, r), RunLast(sil, r));
    }
    assert Recorded(sil, n, s, e - 1);
    assert n >= 1;
    assert RunFirst(sil, n - 1) == s && RunLast(sil, 0) == e - 1;
    assert n == 1;
    assert |sil| == 6;
    assert sil[2] == RunFirst(sil, 0) && sil[3] == RunLast(sil, 0);
    assert sil == [s, s, s, e - 1, e, e];
    assert GapStart(sil, 0) == s && GapEnd(sil, 0) == s;
    assert GapStart(sil, 1) == e - 1 && GapEnd(sil, 1) == e;
    assert !Crosses(g, e - 1, e, t) by {
      assert Sum(g, e - 1, e - 1) == 0;
      assert PrefixSum(g, e - 1, e - 1) == g[e - 1] as int;
    }
    assert WordsOf(g, sil, t, 1) == [];
  }

  /** A window with no gain below `SilenceGain` has no silence run; it is a
      single gap, emitted whole when its running sum crosses the threshold. */
  lemma AllLoudWindow(g: seq<int32>, s: int, e: int, m: int, sil: seq<int>, t: int)
    requires 0 <= s && e <= |g|
    requires forall f :: s <= f < e ==> g[f] as int >= SilenceGain
    requires SilenceList(g, s, e, m, sil)
    ensures sil == [s, s, e, e]
    ensures WordsOf(g, sil, t, GapCount(sil)) == if Crosses(g, s, e, t) then [s, e] else []
  {
    FirstRunInWindow(g, s, e, m, sil);
    assert RunCount(sil) == 0;
    assert sil == [s, s, e, e];
    assert GapStart(sil, 0) == s && GapEnd(sil, 0) == e;
    assert WordsOf(g, sil, t, 0) == [];
  }

  /** A run of frames below `SilenceGain` between louder frames (or the
      window ends) is recorded exactly when it is longer than `m` frames. */
  lemma IsolatedRun(g: seq<int32>, s: int, e: int, m: int, a: int, b: int)
    requires 0 <= s <= a <= b < e <= |g|
    requires forall f :: a <= f <= b ==> g[f] as int < SilenceGain
    requires a == s || g[a - 1] as int > SilenceGain
    requires b + 1 == e || g[b + 1] as int > SilenceGain
    ensures IsSilence(g, s, e, m, a, b) <==> b - a + 1 > m
  {
  }

  /** With 8000 samples per second and 160 samples per frame a silence
      must last more than 5 frames: a run of 6 quiet frames is recorded and
      a run of 5 is not. */
  lemma BoundaryExample()
    ensures Div(Div(SilenceDurationMs * 8000, 160), 1000) == 5
    ensures !IsSilence([5, 5, 1, 1, 1, 1, 1, 5, 5], 0, 9, 5, 2, 6)
    ensures IsSilence([5, 5, 1, 1, 1, 1, 1, 1, 5], 0, 9, 5, 2, 7)
  {
    var five: seq<int32> := [5, 5, 1, 1, 1, 1, 1, 5, 5];
    var six: seq<int32> := [5, 5, 1, 1, 1, 1, 1, 1, 5];
    IsolatedRun(five, 0, 9, 5, 2, 6);
    IsolatedRun(six, 0, 9, 5, 2, 7);
  }
}
