/** voice/vad.c: voice activity detection by frame energy, with a calibrated noise floor. */
module Vad {
  import opened Bytes

  const FRAME_MS: nat := 20
  const NOISE_CAP: nat := 32
  const CALIBRATE_MS: nat := 300
  const SKIP_MS: nat := 300
  const MIN_SPEECH_MS: nat := 200
  const MAX_SPEECH_MS: nat := 15000
  const LEAD_IN_MS: nat := 5000
  const START_CAP: int := 8000
  const END_CAP: int := 4000
  const LEAST_BASE: int := 20

  datatype Phase = WaitStart | Speech | Done

  // ---- the median of the calibration frames ----

  predicate Ascending(s: seq<int>) {
    forall i, j :: 0 <= i < j < |s| ==> s[i] <= s[j]
  }

  function CountAtMost(s: seq<int>, b: int): (n: nat)
    ensures n <= |s|
  {
    if s == [] then 0 else (if s[0] <= b then 1 else 0) + CountAtMost(s[1..], b)
  }

  lemma {:induction false} CountSplit(s: seq<int>, t: seq<int>, b: int)
    ensures CountAtMost(s + t, b) == CountAtMost(s, b) + CountAtMost(t, b)
    decreases |s|
  {
    if s == [] {
      assert s + t == t;
    } else {
      assert (s + t)[1..] == s[1..] + t;
      CountSplit(s[1..], t, b);
    }
  }

  lemma {:induction false} CountAll(s: seq<int>, b: int)
    ensures (forall i :: 0 <= i < |s| ==> s[i] <= b) ==> CountAtMost(s, b) == |s|
    ensures (forall i :: 0 <= i < |s| ==> s[i] > b) ==> CountAtMost(s, b) == 0
    decreases |s|
  {
    if s != [] {
      CountAll(s[1..], b);
    }
  }

  /** The k-th smallest is at most b exactly when more than k values are. */
  lemma RankExact(s: seq<int>, k: nat, b: int)
    requires Ascending(s) && k < |s|
    ensures s[k] <= b <==> CountAtMost(s, b) >= k + 1
  {
    if s[k] <= b {
      RankLow(s, k, b);
    } else {
      RankHigh(s, k, b);
    }
  }

  lemma RankLow(s: seq<int>, k: nat, b: int)
    requires Ascending(s) && k < |s| && s[k] <= b
    ensures CountAtMost(s, b) >= k + 1
  {
    hide CountAtMost;
    var t, u := s[..k + 1], s[k + 1..];
    assert s == t + u;
    assert forall i :: 0 <= i < |t| ==> t[i] <= b by {
      forall i | 0 <= i < |t| ensures t[i] <= b {
        assert t[i] == s[i] && (i < k ==> s[i] <= s[k]);
      }
    }
    CountSplit(t, u, b);
    CountAll(t, b);
  }

  lemma RankHigh(s: seq<int>, k: nat, b: int)
    requires Ascending(s) && k < |s| && s[k] > b
    ensures CountAtMost(s, b) <= k
  {
    hide CountAtMost;
    var t, u := s[..k], s[k..];
    assert s == t + u;
    assert forall i :: 0 <= i < |u| ==> u[i] > b by {
      forall i | 0 <= i < |u| ensures u[i] > b {
        assert u[i] == s[k + i] && (i > 0 ==> s[k] <= s[k + i]);
      }
    }
    CountSplit(t, u, b);
    CountAll(u, b);
  }

  /** What moving the value at k down to i does. */
  function Moved(s: seq<int>, i: nat, k: nat): (r: seq<int>)
    requires i <= k < |s|
    ensures |r| == |s|
  {
    s[..i] + [s[k]] + s[i..k] + s[k + 1..]
  }

  lemma MovedAt(s: seq<int>, i: nat, k: nat, t: seq<int>)
    requires i <= k < |s| == |t| && t[i] == s[k]
    requires forall m :: 0 <= m < i ==> t[m] == s[m]
    requires forall m :: i + 1 <= m <= k ==> t[m] == s[m - 1]
    requires forall m :: k < m < |t| ==> t[m] == s[m]
    ensures t == Moved(s, i, k)
  {
  }

  lemma MovedCount(s: seq<int>, i: nat, k: nat, b: int)
    requires i <= k < |s|
    ensures CountAtMost(Moved(s, i, k), b) == CountAtMost(s, b)
  {
    hide CountAtMost;
    var p, x, q, r := s[..i], [s[k]], s[i..k], s[k + 1..];
    assert s == p + (q + (x + r));
    assert Moved(s, i, k) == p + (x + (q + r));
    CountSplit(p, q + (x + r), b);
    CountSplit(q, x + r, b);
    CountSplit(x, r, b);
    CountSplit(p, x + (q + r), b);
    CountSplit(x, q + r, b);
    CountSplit(q, r, b);
  }

  lemma MovedAscending(s: seq<int>, i: nat, k: nat)
    requires i <= k < |s| && Ascending(s[..k])
    requires forall j :: i <= j < k ==> s[j] > s[k]
    requires i == 0 || s[i - 1] <= s[k]
    ensures Ascending(Moved(s, i, k)[..k + 1])
  {
    var m := Moved(s, i, k);
    var t := m[..k + 1];
    assert forall j :: 0 <= j < i ==> t[j] == s[..k][j];
    assert t[i] == s[k];
    assert forall j :: i < j <= k ==> t[j] == s[..k][j - 1];
    assert forall j :: 0 <= j < i ==> s[..k][j] <= s[..k][i - 1];
  }

  lemma Placed(s: seq<int>, i: nat, k: nat, t: seq<int>)
    requires i <= k < |s| == |t| && t[i] == s[k] && Ascending(s[..k])
    requires forall m :: 0 <= m < i ==> t[m] == s[m]
    requires forall m :: i + 1 <= m <= k ==> t[m] == s[m - 1]
    requires forall m :: k < m < |t| ==> t[m] == s[m]
    requires forall j :: i <= j < k ==> s[j] > s[k]
    requires i == 0 || s[i - 1] <= s[k]
    ensures Ascending(t[..k + 1]) && t[k + 1..] == s[k + 1..]
    ensures forall b :: CountAtMost(t, b) == CountAtMost(s, b)
  {
    hide CountAtMost, Ascending;
    MovedAt(s, i, k, t);
    MovedAscending(s, i, k);
    forall b ensures CountAtMost(t, b) == CountAtMost(s, b) {
      MovedCount(s, i, k, b);
    }
  }

  /** One round of the insertion sort: shift the larger values up and put the value in. */
  method Insert(a: array<int>, k: nat)
    requires k < a.Length && Ascending(a[..k])
    modifies a
    ensures Ascending(a[..k + 1])
    ensures forall b :: CountAtMost(a[..], b) == CountAtMost(old(a[..]), b)
    ensures a[k + 1..] == old(a[k + 1..])
  {
    hide CountAtMost, Ascending;
    ghost var s := a[..];
    assert s[..k] == a[..k];
    var key := a[k];
    var j := k - 1;
    while j >= 0 && a[j] > key
      invariant -1 <= j < k
      invariant forall m :: 0 <= m <= j ==> a[m] == s[m]
      invariant forall m :: j + 2 <= m <= k ==> a[m] == s[m - 1]
      invariant forall m :: k < m < a.Length ==> a[m] == s[m]
      invariant forall m :: j < m < k ==> s[m] > key
    {
      a[j + 1] := a[j];
      j := j - 1;
    }
    a[j + 1] := key;
    Placed(s, j + 1, k, a[..]);
    assert a[..k + 1] == a[..][..k + 1];
    assert a[k + 1..] == a[..][k + 1..];
    assert s[k + 1..] == old(a[k + 1..]);
  }

  /** Sort the first n values in place. */
  method SortPrefix(a: array<int>, n: nat)
    requires n <= a.Length
    modifies a
    ensures Ascending(a[..n])
    ensures forall b :: CountAtMost(a[..n], b) == CountAtMost(old(a[..n]), b)
  {
    ghost var s := a[..];
    var k := 1;
    while k < n
      invariant 1 <= k && (n >= 1 ==> k <= n)
      invariant n >= 1 ==> Ascending(a[..k])
      invariant forall b :: CountAtMost(a[..], b) == CountAtMost(s, b)
      invariant a[n..] == s[n..]
    {
      ghost var before := a[..];
      Insert(a, k);
      assert a[n..] == a[k + 1..][n - k - 1..];
      assert before[n..] == before[k + 1..][n - k - 1..];
      k := k + 1;
    }
    forall b ensures CountAtMost(a[..n], b) == CountAtMost(s[..n], b) {
      assert a[..] == a[..n] + a[n..] && s == s[..n] + s[n..];
      CountSplit(a[..n], a[n..], b);
      CountSplit(s[..n], s[n..], b);
    }
  }

  /** Sort the recorded frames and take the middle one. */
  method Median(a: array<int>, n: nat) returns (m: int)
    requires 0 < n <= a.Length
    modifies a
    ensures forall b :: m <= b <==> CountAtMost(old(a[..n]), b) >= n / 2 + 1
  {
    ghost var frames := a[..n];
    SortPrefix(a, n);
    m := a[n / 2];
    ghost var sorted := a[..n];
    assert m == sorted[n / 2];
    forall b ensures m <= b <==> CountAtMost(frames, b) >= n / 2 + 1 {
      RankExact(sorted, n / 2, b);
      assert CountAtMost(sorted, b) == CountAtMost(frames, b);
    }
  }

  // ---- the thresholds ----

  /** base is the noise floor that calibration on these frames gives. */
  ghost predicate IsBaseline(base: int, frames: seq<int>) {
    && base >= LEAST_BASE
    && forall b :: b >= LEAST_BASE ==> (base <= b <==> CountAtMost(frames, b) >= |frames| / 2 + 1)
  }

  lemma MedianIsBaseline(m: int, frames: seq<int>)
    requires forall b :: m <= b <==> CountAtMost(frames, b) >= |frames| / 2 + 1
    ensures IsBaseline(if m < LEAST_BASE then LEAST_BASE else m, frames)
  {
  }

  /** The start threshold is three, the end threshold one and a half noise floors, up to their caps. */
  predicate Thresholds(base: int, start: int, end: int) {
    && start == Min(3 * base, START_CAP)
    && end == Min(15 * base / 10, END_CAP)
  }

  method CappedThresholds(base: int) returns (start: int, end: int)
    ensures Thresholds(base, start, end)
  {
    start := base * 3;
    end := base * 15 / 10;
    if start > START_CAP { start := START_CAP; }
    if end > END_CAP { end := END_CAP; }
  }

  /** If more than half of the frames are quiet, the floor is quiet, whatever the others are. */
  lemma BaselineIsRobust(base: int, frames: seq<int>, b: int)
    requires IsBaseline(base, frames) && b >= LEAST_BASE && 2 * CountAtMost(frames, b) > |frames|
    ensures base <= b
  {
  }

  lemma Hysteresis(base: int, start: int, end: int)
    requires base >= LEAST_BASE && Thresholds(base, start, end)
    ensures 0 < end && 2 * end <= start <= START_CAP
  {
  }

  // ---- the detector ----

  /** The last `run` frames are all below the end threshold. */
  ghost predicate QuietTail(heard: seq<int>, run: nat, end: int) {
    run <= |heard| && forall i :: |heard| - run <= i < |heard| ==> heard[i] < end
  }

  /** How long the frames have been quiet once one more is heard. */
  function NextRun(run: nat, rms: int, end: int): nat {
    if rms < end then run + 1 else 0
  }

  /** Where one more frame leads while someone is speaking: `heard` are all frames of the segment, this one included. */
  function AfterSpeech(heard: nat, run: nat, silenceMs: nat): Phase {
    if run > 0 && run * FRAME_MS >= silenceMs && (heard - run) * FRAME_MS < MIN_SPEECH_MS then WaitStart
    else if (run > 0 && run * FRAME_MS >= silenceMs) || heard * FRAME_MS >= MAX_SPEECH_MS then Done
    else Speech
  }

  class Detector {
    const silenceMs: nat
    const adaptive: bool
    const noise: array<int>
    var skipMs: nat
    var calibrateMs: nat
    var noiseN: nat
    var waitFrames: nat
    var baseline: int
    var startRms: int
    var endRms: int
    var phase: Phase
    var speechFrames: nat
    var silenceFrames: nat
    ghost var recorded: seq<int>    // the frames calibration has seen
    ghost var heard: seq<int>       // the frames of the current speech segment

    ghost predicate Calibrating()
      reads this, noise
    {
      && adaptive && phase == WaitStart
      && calibrateMs == CALIBRATE_MS && skipMs <= SKIP_MS
      && noiseN == |recorded| == waitFrames < CALIBRATE_MS / FRAME_MS
      && noiseN <= noise.Length && noise[..noiseN] == recorded
    }

    ghost predicate Calibrated()
      reads this
    {
      && calibrateMs == 0 && skipMs == 0
      && (adaptive ==>
            && |recorded| == CALIBRATE_MS / FRAME_MS
            && IsBaseline(baseline, recorded) && Thresholds(baseline, startRms, endRms))
    }

    /** What holds in every reachable SPEECH state. */
    ghost predicate Speaking()
      reads this
    {
      && speechFrames == |heard| && silenceFrames < speechFrames
      && heard[0] >= startRms
      && QuietTail(heard, silenceFrames, endRms)
      && silenceFrames * FRAME_MS < silenceMs && speechFrames * FRAME_MS < MAX_SPEECH_MS
    }

    ghost predicate Valid()
      reads this, noise
    {
      && noise.Length == NOISE_CAP && silenceMs > 0
      && (if calibrateMs > 0 then Calibrating() else Calibrated())
      && (phase == Speech ==> Speaking())
    }

    /** vad_init: no start threshold means adaptive, no silence time means 800 ms. */
    constructor (start: int, silence: nat)
      ensures Valid() && fresh(noise) && phase == WaitStart
      ensures silenceMs == if silence == 0 then 800 else silence
      ensures adaptive <==> start <= 0
      ensures start > 0 ==> startRms == start && endRms == start * 6 / 10
    {
      silenceMs := if silence != 0 then silence else 800;
      adaptive := start <= 0;
      noise := new int[NOISE_CAP](_ => 0);
      noiseN, waitFrames, baseline, phase, speechFrames, silenceFrames := 0, 0, 0, WaitStart, 0, 0;
      recorded, heard := [], [];
      if start > 0 {
        startRms, endRms, calibrateMs, skipMs := start, start * 6 / 10, 0, 0;
      } else {
        startRms, endRms, calibrateMs, skipMs := 0, 0, CALIBRATE_MS, SKIP_MS;
      }
    }

    /** One calibration frame; the last one sets the thresholds. */
    method Calibrate(rms: int)
      requires Valid() && calibrateMs > 0 && skipMs == 0
      modifies this, noise
      ensures Valid() && phase == WaitStart && recorded == old(recorded) + [rms]
      ensures calibrateMs == 0 <==> |recorded| == CALIBRATE_MS / FRAME_MS
      ensures waitFrames == if calibrateMs == 0 then 0 else |recorded|
    {
      hide CountAtMost, IsBaseline, Thresholds, Speaking;
      recorded := recorded + [rms];
      if noiseN < noise.Length {
        noise[noiseN] := rms;
        noiseN := noiseN + 1;
      }
      waitFrames := waitFrames + 1;
      assert noise[..noiseN] == recorded;
      if waitFrames * FRAME_MS >= calibrateMs {
        var base := 300;
        if noiseN > 0 { base := Median(noise, noiseN); }
        MedianIsBaseline(base, recorded);
        if base < LEAST_BASE { base := LEAST_BASE; }
        baseline := base;
        startRms, endRms := CappedThresholds(base);
        calibrateMs := 0;
        waitFrames := 0;
      }
    }

    /** A frame while nobody speaks. */
    method Await(rms: int)
      requires Valid() && calibrateMs == 0 && phase == WaitStart
      modifies this`phase, this`waitFrames, this`speechFrames, this`silenceFrames, this`heard
      ensures Valid() && waitFrames == old(waitFrames) + 1
      ensures phase == if rms >= startRms then Speech
                    else if waitFrames * FRAME_MS >= LEAD_IN_MS then Done else WaitStart
      ensures phase == Speech ==> heard == [rms] && silenceFrames == 0
    {
      waitFrames := waitFrames + 1;
      if rms >= startRms {
        phase := Speech;
        speechFrames := 1;
        silenceFrames := 0;
        heard := [rms];
      } else if waitFrames * FRAME_MS >= LEAD_IN_MS {
        phase := Done;
      }
    }

    /** A frame while someone speaks. */
    method Listen(rms: int)
      requires Valid() && phase == Speech
      modifies this`phase, this`speechFrames, this`silenceFrames, this`heard
      ensures Valid() && heard == old(heard) + [rms]
      ensures phase == AfterSpeech(|heard|, NextRun(old(silenceFrames), rms, endRms), silenceMs)
      ensures QuietTail(heard, NextRun(old(silenceFrames), rms, endRms), endRms)
      ensures phase == Speech ==> silenceFrames == NextRun(old(silenceFrames), rms, endRms)
      ensures var quiet := rms < endRms && (old(silenceFrames) + 1) * 20 >= silenceMs;
              var voiced := (|heard| - (old(silenceFrames) + 1)) * 20;
              phase == if quiet && voiced >= 200 then Done
                       else if quiet then WaitStart
                       else if |heard| * 20 >= 15000 then Done
                       else Speech
    {
      hide IsBaseline, CountAtMost, Thresholds;
      heard := heard + [rms];
      speechFrames := speechFrames + 1;
      if rms < endRms {
        silenceFrames := silenceFrames + 1;
        if silenceFrames * FRAME_MS >= silenceMs {
          var voicedMs := (speechFrames - silenceFrames) * FRAME_MS;
          if voicedMs >= MIN_SPEECH_MS {
            phase := Done;
          } else {
            phase := WaitStart;
            speechFrames := 0;
            silenceFrames := 0;
          }
        }
      } else {
        silenceFrames := 0;
      }
      if speechFrames * FRAME_MS >= MAX_SPEECH_MS {
        phase := Done;
      }
    }

    /** vad_process on a frame with this energy: it is dropped, recorded for calibration, or judged. A segment ends
        only after the full silence time without a break behind enough speech, or at the length limit. */
    method Process(rms: int) returns (r: Phase)
      requires Valid()
      modifies this, noise
      ensures Valid() && r == phase
      ensures old(phase) == Done ==> phase == Done
      ensures old(phase) != Done && old(skipMs) > 0 ==>
                && phase == WaitStart && recorded == old(recorded) && waitFrames == old(waitFrames)
                && skipMs == if old(skipMs) > FRAME_MS then old(skipMs) - FRAME_MS else 0
      ensures old(skipMs) == 0 < old(calibrateMs) ==> phase == WaitStart && recorded == old(recorded) + [rms]
      ensures old(skipMs) == old(calibrateMs) == 0 ==>
                recorded == old(recorded) && startRms == old(startRms) && endRms == old(endRms)
      ensures old(skipMs) == old(calibrateMs) == 0 && old(phase) == WaitStart ==>
                && waitFrames == old(waitFrames) + 1
                && phase == if rms >= startRms then Speech
                            else if waitFrames * FRAME_MS >= LEAD_IN_MS then Done else WaitStart
      ensures old(phase) == Speech ==>
                phase == AfterSpeech(|heard|, NextRun(old(silenceFrames), rms, endRms), silenceMs)
      ensures old(phase) == Speech ==>
                var quiet := rms < endRms && (old(silenceFrames) + 1) * 20 >= silenceMs;
                var voiced := (|heard| - (old(silenceFrames) + 1)) * 20;
                phase == if quiet && voiced >= 200 then Done
                         else if quiet then WaitStart
                         else if |heard| * 20 >= 15000 then Done
                         else Speech
      ensures old(phase) == Speech && phase == Done ==>
                && heard == old(heard) + [rms]
                && (|heard| * FRAME_MS >= MAX_SPEECH_MS ||
                    exists run: nat :: QuietTail(heard, run, endRms) && run * FRAME_MS >= silenceMs
                                  && (|heard| - run) * FRAME_MS >= MIN_SPEECH_MS)
      ensures old(phase) == WaitStart && phase == Speech ==> rms >= startRms && heard == [rms]
    {
      if phase == Done { return Done; }
      if skipMs > 0 {
        skipMs := if skipMs > FRAME_MS then skipMs - FRAME_MS else 0;
        return phase;
      }
      if calibrateMs > 0 {
        Calibrate(rms);
        return phase;
      }
      match phase {
        case WaitStart => Await(rms);
        case Speech => Listen(rms);
        case Done =>
      }
      return phase;
    }
  }

  /** In every reachable state: calibration takes at most half as much energy to go on as to start, and silence never
      fills a segment. */
  lemma ReachableStates(d: Detector)
    requires d.Valid()
    ensures d.phase == Speech ==> d.silenceFrames < d.speechFrames
    ensures d.adaptive && d.calibrateMs == 0 ==> 0 < d.endRms && 2 * d.endRms <= d.startRms <= START_CAP
    ensures forall b :: d.adaptive && d.calibrateMs == 0 && b >= LEAST_BASE ==>
              (d.baseline <= b <==> CountAtMost(d.recorded, b) >= 8)
    ensures d.adaptive && d.calibrateMs == 0 ==>
              && |d.recorded| == 15 && d.baseline >= 20
              && d.startRms == (if d.baseline * 3 > 8000 then 8000 else d.baseline * 3)
              && d.endRms == (if d.baseline * 15 / 10 > 4000 then 4000 else d.baseline * 15 / 10)
  {
    if d.adaptive && d.calibrateMs == 0 {
      Hysteresis(d.baseline, d.startRms, d.endRms);
    }
  }
}
