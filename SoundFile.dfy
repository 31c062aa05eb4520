/** `CheapSoundFile`: the frame table a format back-end fills in, and the
    analyses the base class computes over its gains. */
module SoundFile {
  import opened JavaInt
  import opened Segmentation
  import opened SegmentationProperties

  /** Without overflow and for positive operands, the two truncating
      divisions of `minSilence` give the whole number of frames of
      `samplesPerFrame` samples in `x / 1000` samples. */
  lemma WholeFrames(x: int, samplesPerFrame: int)
    requires samplesPerFrame != 0
    ensures InInt32(x) && x >= 0 && samplesPerFrame > 0 ==>
      Div(Wrap32(Div(Wrap32(x) as int, samplesPerFrame)) as int, 1000) == x / (1000 * samplesPerFrame)
  {
    if InInt32(x) && x >= 0 && samplesPerFrame > 0 {
      NestedQuotient(x, samplesPerFrame, 1000);
      assert samplesPerFrame * 1000 == 1000 * samplesPerFrame;
    }
  }

  /** The frame table of one scanned file. The base class's accessors are
      stubs that the format back-ends override; here the values they would
      return are given when the object is made. `gains` is `null` when the
      back-end provides no gains (as the base class's `getFrameGains`). */
  class CheapSoundFile {
    const gains: array?<int32>
    const sampleRate: int32
    const samplesPerFrame: int32

    constructor (gains: array?<int32>, sampleRate: int32, samplesPerFrame: int32)
      ensures this.gains == gains
      ensures this.sampleRate == sampleRate && this.samplesPerFrame == samplesPerFrame
    {
      this.gains := gains;
      this.sampleRate := sampleRate;
      this.samplesPerFrame := samplesPerFrame;
    }

    /** `minSilence`: the number of frames in `SILENCE_DURAION_MS`
        milliseconds, `(100 * sampleRate / samplesPerFrame) / 1000` in Java's
        wrapping, truncating `int` arithmetic. It is small enough that the
        word threshold `minSilence * SILENCE_GAIN * 5` cannot overflow. */
    function MinSilence(): (m: int)
      requires samplesPerFrame != 0
      ensures Abs(m) * 1000 <= 0x8000_0000
      ensures InInt32(SilenceDurationMs * sampleRate as int) && sampleRate >= 0 && samplesPerFrame > 0 ==>
        m == (SilenceDurationMs * sampleRate as int) / (1000 * samplesPerFrame as int)
    {
      var x := SilenceDurationMs * sampleRate as int;
      WholeFrames(x, samplesPerFrame as int);
      Div(Wrap32(Div(Wrap32(x) as int, samplesPerFrame as int)) as int, 1000)
    }

    /** `getMaxGain`: the largest gain of frames `[startFrame, endFrame)`,
        where `endFrame` is the 32-bit sum `startFrame + numFrames`;
        `Integer.MIN_VALUE` for an empty range, and 0 when there are no
        gains. */
    method GetMaxGain(startFrame: int32, numFrames: int32) returns (r: int32)
      requires gains != null && startFrame < Wrap32(startFrame as int + numFrames as int) ==>
        0 <= startFrame && Wrap32(startFrame as int + numFrames as int) as int <= gains.Length
      ensures gains == null ==> r == 0
      ensures gains != null && Wrap32(startFrame as int + numFrames as int) <= startFrame ==> r == MinValue
      ensures gains != null && startFrame < Wrap32(startFrame as int + numFrames as int) ==>
        r in gains[startFrame..Wrap32(startFrame as int + numFrames as int)] &&
        forall i :: startFrame <= i < Wrap32(startFrame as int + numFrames as int) ==> gains[i] <= r
    {
      if gains == null {
        return 0;
      }
      r := MinValue;
      var endFrame := Wrap32(startFrame as int + numFrames as int);
      var i := startFrame;
      while i < endFrame
        invariant startFrame <= i
        invariant endFrame <= startFrame ==> i == startFrame
        invariant startFrame < endFrame ==> i <= endFrame
        invariant i == startFrame ==> r == MinValue
        invariant startFrame < endFrame && i > startFrame ==> r in gains[startFrame..i]
        invariant startFrame < endFrame ==> forall k :: startFrame <= k < i ==> gains[k] <= r
      {
        r := if r < gains[i] then gains[i] else r;
        i := i + 1;
      }
    }

    /** The first phase of `getWords`: scan the window `[startFrame,
        endFrame)` for silence runs and list them between the two sentinel
        pairs. The source's loop is a do-while, so the frame `startFrame` is
        examined even when the window is empty. */
    method FindSilences(startFrame: int, endFrame: int, minSilence: int) returns (silences: seq<int>)
      requires gains != null
      requires 0 <= startFrame < gains.Length && endFrame <= gains.Length
      requires minSilence > 0
      ensures SilenceList(gains[..], startFrame, endFrame, minSilence, silences)
    {
      ghost var g := gains[..];
      var i := startFrame;
      silences := [startFrame, startFrame];
      ghost var n := 0;
      ScanStart(g, startFrame, endFrame, minSilence);
      while true
        invariant startFrame <= i < gains.Length && (i == startFrame || i < endFrame)
        invariant ScanState(g, startFrame, endFrame, minSilence, silences, n, i)
        decreases if i < endFrame then endFrame - i else 0
      {
        if gains[i] as int < SilenceGain {
          var j := i;
          while j < endFrame && gains[j] as int <= SilenceGain
            invariant i <= j && (j == i || j <= endFrame)
            invariant forall t :: i <= t < j ==> g[t] as int <= SilenceGain
          {
            j := j + 1;
          }
          if j - i > minSilence {
            ScanRunRecorded(g, startFrame, endFrame, minSilence, silences, n, i, j);
            silences := silences + [i, j - 1];
            n := n + 1;
          } else {
            ScanRunDropped(g, startFrame, endFrame, minSilence, silences, n, i, j);
          }
          i := j;
        } else {
          ScanSkip(g, startFrame, endFrame, minSilence, silences, n, i);
          i := i + 1;
        }
        if i >= endFrame {
          break;
        }
      }
      ScanDone(g, startFrame, endFrame, minSilence, silences, n, i);
      silences := silences + [endFrame, endFrame];
    }

    /** The second phase of `getWords`: walk each gap between consecutive
        boundaries of `silences`, summing its gains, and emit the whole gap
        as soon as the sum exceeds `threshold`. The list always holds both
        sentinel pairs, so the source's do-while runs its body at least once,
        as this loop does. */
    method FindWords(silences: seq<int>, threshold: int) returns (words: seq<int>)
      requires gains != null
      requires |silences| >= 4 && |silences| % 2 == 0
      requires GapsInBounds(gains[..], silences)
      ensures words == WordsOf(gains[..], silences, threshold, GapCount(silences))
    {
      ghost var g := gains[..];
      words := [];
      var count := |silences| - 1;
      var k := 1;
      while k < count
        invariant 1 <= k <= count + 1 && k % 2 == 1
        invariant words == WordsOf(g, silences, threshold, k / 2)
      {
        ghost var gap := k / 2;
        assert GapStart(silences, gap) == silences[k] && GapEnd(silences, gap) == silences[k + 1];
        var end := silences[k + 1];
        var sum := 0;
        var l := silences[k];
        ghost var start := l;
        while l < end
          invariant start < end ==> start <= l <= end && sum == Sum(g, start, l)
          invariant start < end ==> forall l' :: start <= l' < l ==> PrefixSum(g, start, l') <= threshold
          invariant start >= end ==> l == start
          invariant words == WordsOf(g, silences, threshold, gap)
        {
          sum := sum + gains[l] as int;
          if sum > threshold {
            assert PrefixSum(g, start, l) > threshold;
            words := words + [silences[k], end];
            break;
          }
          l := l + 1;
        }
        k := k + 2;
      }
    }

    /** `getWords`: the gaps between the silences of the window
        `[startFrame, endFrame)`, `endFrame` being the 32-bit sum
        `startFrame + numFrames`, whose running gain sum exceeds
        `minSilence * SILENCE_GAIN * 5`, as a flat list of start, end pairs.
        The ghost result `silences` is the list of the first phase. The
        requirements are the source's exceptions: no gains, a frame outside
        the gains, a zero divisor and a negative list capacity. */
    method GetWords(startFrame: int32, numFrames: int32) returns (words: seq<int>, ghost silences: seq<int>)
      requires gains != null
      requires 0 <= startFrame as int < gains.Length
      requires Wrap32(startFrame as int + numFrames as int) as int <= gains.Length
      requires samplesPerFrame != 0 && MinSilence() > 0
      requires Wrap32(Div(Wrap32(2 * numFrames as int) as int, MinSilence()) + 4) >= 0
      requires SumsFit(gains[..], startFrame as int, Wrap32(startFrame as int + numFrames as int) as int)
      ensures SilenceList(gains[..], startFrame as int, Wrap32(startFrame as int + numFrames as int) as int,
        MinSilence(), silences)
      ensures words == WordsOf(gains[..], silences, MinSilence() * SilenceGain * 5, GapCount(silences))
      ensures numFrames <= 0 ==> words == []
    {
      var minSilence := MinSilence();
      var endFrame := Wrap32(startFrame as int + numFrames as int) as int;
      var sil := FindSilences(startFrame as int, endFrame, minSilence);
      SilenceListGaps(gains[..], startFrame as int, endFrame, minSilence, sil);
      words := FindWords(sil, minSilence * SilenceGain * 5);
      silences := sil;
      if numFrames <= 0 {
        EmptyWindow(gains[..], startFrame as int, endFrame, minSilence, sil, minSilence * SilenceGain * 5);
      }
    }
  }
}
