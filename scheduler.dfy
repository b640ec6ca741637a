/**
  * Frame management of `ArduboyBase`: the frame rate, the frame counter and
  * the start times that decide when the next frame may begin.  The clock
  * (`millis()`) is the parameter `now`; `idle()` only sleeps and is left out.
  * Each call is a step from the fields' values before it to their values
  * after it.
  */
module Scheduler {
  import opened CInt

  /** The frame-management fields of ArduboyBase. */
  datatype Frames = Frames(
    frameRate: u8,
    eachFrameMillis: int,
    frameCount: int,
    lastFrameStart: int,
    nextFrameStart: int,
    lastFrameDurationMs: int,
    postRender: bool)

  /** The frame length always comes from the current, nonzero frame rate. */
  predicate Valid(s: Frames) {
    s.frameRate > 0 && s.eachFrameMillis == 1000 / s.frameRate
  }

  /** `setFrameRate(rate)`: the frame length is 1000 / rate milliseconds, rounded down. */
  function SetFrameRate(s: Frames, rate: u8): (r: Frames)
    requires rate > 0
    ensures Valid(r) && r.frameRate == rate
    ensures r.eachFrameMillis * rate <= 1000 < (r.eachFrameMillis + 1) * rate
    ensures r.eachFrameMillis >= 3
    ensures r == s.(frameRate := r.frameRate, eachFrameMillis := r.eachFrameMillis)
  {
    s.(frameRate := rate, eachFrameMillis := 1000 / rate)
  }

  /**
    * The constructor: 60 frames per second, no frames counted, the first
    * frame due at time 0 and nothing to finalise.  The remaining fields are
    * zero, as for a statically allocated object.
    */
  function Initial(): (r: Frames)
    ensures Valid(r) && r.frameRate == 60 && r.eachFrameMillis == 16
    ensures r.frameCount == 0 && r.nextFrameStart == 0 && !r.postRender
  {
    SetFrameRate(Frames(0, 0, 0, 0, 0, 0, false), 60)
  }

  /** The post-render step shared by newFrame and nextFrame: a pending frame is counted and timed. */
  function Finalise(s: Frames, now: int): Frames {
    if s.postRender
    then s.(lastFrameDurationMs := now - s.lastFrameStart, frameCount := s.frameCount + 1, postRender := false)
    else s
  }

  /**
    * `newFrame()` at time `now`: the new fields and whether a frame starts.
    * A frame starts once `now` reaches `nextFrameStart`; the following one
    * is then due one frame length after the previous frame's start, or at
    * once if that is already past.
    */
  function NewFrameStep(s: Frames, now: int): (Frames, bool) {
    var f := Finalise(s, now);
    if now < f.nextFrameStart then (f, false)
    else
      var next := f.lastFrameStart + f.eachFrameMillis;
      var next' := if next < now then now else next;
      (f.(nextFrameStart := next', lastFrameStart := now, postRender := true), true)
  }

  /** `nextFrame()` (deprecated): the same, except that the next frame is due one frame length after `now`. */
  function NextFrameStep(s: Frames, now: int): (Frames, bool) {
    var f := Finalise(s, now);
    if now < f.nextFrameStart then (f, false)
    else (f.(nextFrameStart := now + f.eachFrameMillis, lastFrameStart := now, postRender := true), true)
  }

  /** `cpuLoad()`: the last frame's duration as a percentage of the frame length, truncated. */
  function CpuLoad(s: Frames): (r: int)
    requires Valid(s)
    ensures 0 <= s.lastFrameDurationMs ==> r * s.eachFrameMillis <= s.lastFrameDurationMs * 100 < (r + 1) * s.eachFrameMillis
  {
    CDiv(s.lastFrameDurationMs * 100, s.eachFrameMillis)
  }

  /** `everyXFrames(frames)`: the frame count is a multiple of `frames`. */
  predicate EveryXFrames(s: Frames, frames: u8)
    requires frames > 0
  {
    s.frameCount % frames == 0
  }

  // ---------------------------------------------------------------------
  // newFrame

  /**
    * A pending frame is finalised exactly once per call: the count goes up
    * by one and the duration is measured from the frame's start; with
    * nothing pending, neither changes.
    */
  lemma NewFrameFinalises(s: Frames, now: int)
    ensures var r := NewFrameStep(s, now).0;
            r.frameCount == s.frameCount + (if s.postRender then 1 else 0) &&
            r.lastFrameDurationMs == (if s.postRender then now - s.lastFrameStart else s.lastFrameDurationMs)
  {
  }

  /** Before `nextFrameStart` the call answers false and leaves both start times as they were. */
  lemma NewFrameWaits(s: Frames, now: int)
    requires now < s.nextFrameStart
    ensures var (r, ok) := NewFrameStep(s, now);
            !ok && !r.postRender && r.nextFrameStart == s.nextFrameStart && r.lastFrameStart == s.lastFrameStart
  {
  }

  /**
    * From `nextFrameStart` on the call answers true, starts the frame at
    * `now` and schedules the next one at the later of the previous start
    * plus one frame length and `now`.
    */
  lemma NewFrameStarts(s: Frames, now: int)
    requires s.nextFrameStart <= now
    ensures var (r, ok) := NewFrameStep(s, now);
            ok && r.postRender && r.lastFrameStart == now &&
            r.nextFrameStart == Max(s.lastFrameStart + s.eachFrameMillis, now)
  {
  }

  /**
    * No catching up: a frame never schedules its successor in the past,
    * and, for a start time not ahead of the clock, never more than one
    * frame length ahead.
    */
  lemma NoCatchUp(s: Frames, now: int)
    requires Valid(s)
    ensures var (r, ok) := NewFrameStep(s, now);
            ok ==> now <= r.nextFrameStart && (s.lastFrameStart <= now ==> r.nextFrameStart <= now + s.eachFrameMillis)
  {
  }

  /** Every step keeps the frame length tied to the frame rate. */
  lemma NewFrameValid(s: Frames, now: int)
    requires Valid(s)
    ensures Valid(NewFrameStep(s, now).0) && Valid(NextFrameStep(s, now).0)
    ensures NewFrameStep(s, now).0.eachFrameMillis == s.eachFrameMillis
  {
  }

  /**
    * The spacing newFrame does guarantee: of three frames started by
    * consecutive calls, the third starts at least one frame length after
    * the first.
    */
  lemma NewFrameSpacing(s: Frames, t1: int, t2: int, t3: int)
    requires NewFrameStep(s, t1).1
    requires NewFrameStep(NewFrameStep(s, t1).0, t2).1
    requires NewFrameStep(NewFrameStep(NewFrameStep(s, t1).0, t2).0, t3).1
    ensures t3 >= t1 + s.eachFrameMillis
  {
    var s1 := NewFrameStep(s, t1).0;
    var s2 := NewFrameStep(s1, t2).0;
    NewFrameStarts(Finalise(s1, t2), t2);
    assert s2.nextFrameStart >= s1.lastFrameStart + s1.eachFrameMillis;
  }

  /**
    * Two frames one millisecond apart: after a frame that started exactly
    * on time (one frame length after its predecessor), the next frame is
    * already due, because its due time is computed from the predecessor's
    * start.
    */
  lemma NewFramePairs()
    ensures var s := Initial().(lastFrameStart := 0, nextFrameStart := 16);
            var (s1, ok1) := NewFrameStep(s, 16);
            var (s2, ok2) := NewFrameStep(s1, 17);
            ok1 && ok2 && s1.nextFrameStart == 16 && s2.nextFrameStart == 32
  {
  }

  /**
    * newFrame called at each of `times` in turn: the final fields and the
    * times at which frames started.  With `fixed`, each call is the
    * corrected step below instead of the one the source takes.
    */
  function NewFrames(s: Frames, times: seq<int>, fixed: bool): (Frames, seq<int>)
    decreases |times|
  {
    if times == [] then (s, [])
    else
      var (f, ok) := if fixed then NewFrameStepFixed(s, times[0]) else NewFrameStep(s, times[0]);
      var (r, starts) := NewFrames(f, times[1..], fixed);
      (r, if ok then [times[0]] + starts else starts)
  }

  /** A run of calls split in two: the second part starts from the first part's fields. */
  lemma {:induction false} NewFramesSplit(s: Frames, xs: seq<int>, ys: seq<int>, fixed: bool)
    ensures NewFrames(s, xs + ys, fixed).0 == NewFrames(NewFrames(s, xs, fixed).0, ys, fixed).0
    ensures NewFrames(s, xs + ys, fixed).1 == NewFrames(s, xs, fixed).1 + NewFrames(NewFrames(s, xs, fixed).0, ys, fixed).1
    decreases |xs|
  {
    if xs != [] {
      assert (xs + ys)[0] == xs[0] && (xs + ys)[1..] == xs[1..] + ys;
      var f := if fixed then NewFrameStepFixed(s, xs[0]).0 else NewFrameStep(s, xs[0]).0;
      NewFramesSplit(f, xs[1..], ys, fixed);
    } else {
      assert xs + ys == ys;
    }
  }

  /**
    * Calls every 10 ms at 60 frames per second start five frames within
    * 50 ms, where four frame lengths are 64 ms: after a late start the
    * next frame is due one frame length after that late start's
    * predecessor, so late frames come in quick succession.
    */
  lemma NewFrameBurst()
    ensures var starts := NewFrames(Initial(), [0, 10, 20, 30, 40, 50], false).1;
            starts == [0, 20, 30, 40, 50] && starts[4] < starts[0] + 4 * Initial().eachFrameMillis
  {
  }

  /**
    * The corrected step: the next frame is due one frame length after the
    * due time of the frame that starts, or at once if that is already past.
    */
  function NewFrameStepFixed(s: Frames, now: int): (r: (Frames, bool))
    ensures r.1 <==> Finalise(s, now).nextFrameStart <= now
    ensures r.1 ==> r.0.lastFrameStart == now && r.0.postRender &&
                    r.0.nextFrameStart == Max(s.nextFrameStart + s.eachFrameMillis, now)
    ensures !r.1 ==> r.0 == Finalise(s, now)
  {
    var f := Finalise(s, now);
    if now < f.nextFrameStart then (f, false)
    else
      var next := f.nextFrameStart + f.eachFrameMillis;
      (f.(nextFrameStart := if next < now then now else next, lastFrameStart := now, postRender := true), true)
  }

  /**
    * Under the corrected step the k-th frame started by a run of calls
    * starts at least k frame lengths after the first due time, and the due
    * time moves on by at least one frame length per started frame.
    */
  lemma {:induction false} FixedFramesSpaced(s: Frames, times: seq<int>)
    ensures var (r, starts) := NewFrames(s, times, true);
            r.eachFrameMillis == s.eachFrameMillis &&
            r.nextFrameStart >= s.nextFrameStart + |starts| * s.eachFrameMillis &&
            forall k :: 0 <= k < |starts| ==> starts[k] >= s.nextFrameStart + k * s.eachFrameMillis
    decreases |times|
  {
    if times != [] {
      var (f, ok) := NewFrameStepFixed(s, times[0]);
      var (r, rest) := NewFrames(f, times[1..], true);
      FixedFramesSpaced(f, times[1..]);
      var e := s.eachFrameMillis;
      if ok {
        var starts := [times[0]] + rest;
        assert f.nextFrameStart >= s.nextFrameStart + e;
        assert r.nextFrameStart >= s.nextFrameStart + |starts| * e by {
          assert |starts| * e == |rest| * e + e;
        }
        forall k | 0 <= k < |starts|
          ensures starts[k] >= s.nextFrameStart + k * e
        {
          if k > 0 {
            assert starts[k] == rest[k - 1];
            assert k * e == (k - 1) * e + e;
          }
        }
      }
    }
  }

  /** The corrected step still does not catch up: a frame due by `now` schedules its successor within one frame length of `now`. */
  lemma FixedNoCatchUp(s: Frames, now: int)
    requires Valid(s) && s.nextFrameStart <= now
    ensures var (r, ok) := NewFrameStepFixed(s, now);
            ok && now <= r.nextFrameStart <= now + s.eachFrameMillis
  {
  }

  /** The same calls as in NewFrameBurst, under the corrected step: frames start at 0, 20, 40 and 50. */
  lemma FixedNoBurst()
    ensures NewFrames(Initial(), [0, 10, 20, 30, 40, 50], true).1 == [0, 20, 40, 50]
  {
    var s2 := NewFrames(Initial(), [0, 10], true);
    assert s2.1 == [0] && s2.0.nextFrameStart == 16 && s2.0.lastFrameStart == 0;
    assert NewFrames(s2.0, [20, 30, 40, 50], true).1 == [20, 40, 50];
    NewFramesSplit(Initial(), [0, 10], [20, 30, 40, 50], true);
  }

  // ---------------------------------------------------------------------
  // nextFrame

  /** nextFrame waits like newFrame, and once due it schedules the next frame exactly one frame length ahead. */
  lemma NextFrameSchedule(s: Frames, now: int)
    ensures var (r, ok) := NextFrameStep(s, now);
            (ok <==> s.nextFrameStart <= now) &&
            (ok ==> r.lastFrameStart == now && r.nextFrameStart == now + s.eachFrameMillis && r.postRender) &&
            (!ok ==> r.lastFrameStart == s.lastFrameStart && r.nextFrameStart == s.nextFrameStart) &&
            r.frameCount == s.frameCount + (if s.postRender then 1 else 0)
  {
  }

  /** Two frames started by consecutive nextFrame calls are at least one frame length apart. */
  lemma NextFrameSpacing(s: Frames, t1: int, t2: int)
    requires NextFrameStep(s, t1).1
    requires NextFrameStep(NextFrameStep(s, t1).0, t2).1
    ensures t2 >= t1 + s.eachFrameMillis
  {
    NextFrameSchedule(s, t1);
  }

  /**
    * A call that answers false leaves the due time alone, so the spacing
    * also holds across any number of waiting calls in between.
    */
  lemma {:induction false} WaitingKeepsSchedule(s: Frames, times: seq<int>)
    requires forall k :: 0 <= k < |times| ==> times[k] < s.nextFrameStart
    ensures var r := NextFrames(s, times);
            r.nextFrameStart == s.nextFrameStart && r.lastFrameStart == s.lastFrameStart &&
            r.eachFrameMillis == s.eachFrameMillis && (times != [] ==> !r.postRender)
    decreases |times|
  {
    if times != [] {
      var f := NextFrameStep(s, times[0]).0;
      NextFrameSchedule(s, times[0]);
      WaitingKeepsSchedule(f, times[1..]);
    }
  }

  /** nextFrame called at each of `times` in turn. */
  function NextFrames(s: Frames, times: seq<int>): Frames
    decreases |times|
  {
    if times == [] then s else NextFrames(NextFrameStep(s, times[0]).0, times[1..])
  }

  // ---------------------------------------------------------------------
  // cpuLoad and everyXFrames

  /** A frame that took exactly its allotted time is a load of 100; a shorter one, less. */
  lemma CpuLoadScale(s: Frames)
    requires Valid(s) && 0 <= s.lastFrameDurationMs
    ensures s.lastFrameDurationMs == s.eachFrameMillis ==> CpuLoad(s) == 100
    ensures s.lastFrameDurationMs < s.eachFrameMillis ==> CpuLoad(s) < 100
    ensures 0 <= CpuLoad(s)
  {
    var r, d, e := CpuLoad(s), s.lastFrameDurationMs, s.eachFrameMillis;
    MulNonneg(d, 100);
    if r < 0 {
      MulMono(r + 1, 0, e);
    }
    if d < e && r >= 100 {
      MulMono(100, r, e);
    }
    if d == e {
      if r < 100 {
        MulMono(r + 1, 100, e);
      } else if r > 100 {
        MulMono(101, r, e);
      }
    }
  }

  /** everyXFrames(frames) holds on every frames-th count, and everyXFrames(1) always. */
  lemma EveryXFramesPeriodic(s: Frames, frames: u8)
    requires frames > 0
    ensures EveryXFrames(s, frames) <==> EveryXFrames(s.(frameCount := s.frameCount + frames), frames)
    ensures EveryXFrames(s, 1)
  {
    var c := s.frameCount;
    ModUnique(c + frames, frames, c / frames + 1, c % frames);
    ModUnique(c, 1, c, 0);
  }
}
