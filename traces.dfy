/** Repeated calls of `listen`: a finite sequence of readings, each with the
    clock value at which it was taken, run from a given state. The lemmas
    here relate several calls: the latch lets one edge through per run of tap
    blocks, the error count counts failed reads, and a submission pushes the
    clock back far enough that the next forwarded tap starts a new dwell. */
module Traces {
  import opened Dwell
  import opened TapDetection

  /** One call of `listen`: what was read and when. */
  datatype Tick = Tick(reading: Reading, now: real)

  /** What each of the calls passes on, in order. */
  function Outcomes(s: Controller, ticks: seq<Tick>): (os: seq<Outcome>)
    ensures |os| == |ticks|
    decreases |ticks|
  {
    if ticks == [] then []
    else
      var st := Step(s, ticks[0].reading, ticks[0].now);
      [st.outcome] + Outcomes(st.state, ticks[1..])
  }

  /** The state after all the calls. */
  function After(s: Controller, ticks: seq<Tick>): Controller
    decreases |ticks|
  {
    if ticks == [] then s
    else After(Step(s, ticks[0].reading, ticks[0].now).state, ticks[1..])
  }

  function Failures(ticks: seq<Tick>): nat
    decreases |ticks|
  {
    if ticks == [] then 0
    else (if ticks[0].reading.ReadError? then 1 else 0) + Failures(ticks[1..])
  }

  function TapCount(os: seq<Outcome>): nat
    decreases |os|
  {
    if os == [] then 0
    else (if os[0].Tapped? then 1 else 0) + TapCount(os[1..])
  }

  function IdleCount(os: seq<Outcome>): nat
    decreases |os|
  {
    if os == [] then 0
    else (if os[0].Idle? then 1 else 0) + IdleCount(os[1..])
  }

  predicate IsSubmission(o: Outcome) {
    o.Tapped? && o.action != Initial
  }

  /** The clock strictly advances from one call to the next. */
  predicate Increasing(ticks: seq<Tick>) {
    forall a, b :: 0 <= a < b < |ticks| ==> ticks[a].now < ticks[b].now
  }

  /** The k-th outcome is one step from the state the earlier ticks left,
      and its kind is fixed by the k-th reading alone: a failed read, a
      quiet block, or a tap block (forwarded or cooling down). */
  lemma {:induction false} OutcomeAt(s: Controller, ticks: seq<Tick>, k: nat)
    requires k < |ticks|
    ensures Outcomes(s, ticks)[k] == Step(After(s, ticks[..k]), ticks[k].reading, ticks[k].now).outcome
    ensures Outcomes(s, ticks)[k] == ReadFailed <==> ticks[k].reading.ReadError?
    ensures Outcomes(s, ticks)[k].Idle? <==> ticks[k].reading.Block? && !IsTapBlock(ticks[k].reading)
    ensures Outcomes(s, ticks)[k].Tapped? || Outcomes(s, ticks)[k] == CoolingDown <==> IsTapBlock(ticks[k].reading)
    decreases |ticks|
  {
    if k > 0 {
      var st := Step(s, ticks[0].reading, ticks[0].now).state;
      OutcomeAt(st, ticks[1..], k - 1);
      assert ticks[..k][0] == ticks[0];
      assert ticks[..k][1..] == ticks[1..][..k - 1];
      assert ticks[1..][k - 1] == ticks[k];
    }
  }

  /** The error count grows by exactly the number of failed reads. */
  lemma {:induction false} ErrorCountCountsFailures(s: Controller, ticks: seq<Tick>)
    ensures After(s, ticks).errorCount == s.errorCount + Failures(ticks)
    decreases |ticks|
  {
    if ticks != [] {
      ErrorCountCountsFailures(Step(s, ticks[0].reading, ticks[0].now).state, ticks[1..]);
    }
  }

  /** Every forwarded tap but the first needs a below-threshold block before
      it: at most one edge per run of tap blocks. */
  lemma {:induction false} TapsBoundedByQuietBlocks(s: Controller, ticks: seq<Tick>)
    ensures TapCount(Outcomes(s, ticks)) <= IdleCount(Outcomes(s, ticks)) + (if s.hasCooledDown then 1 else 0)
    decreases |ticks|
  {
    if ticks != [] {
      var st := Step(s, ticks[0].reading, ticks[0].now);
      TapsBoundedByQuietBlocks(st.state, ticks[1..]);
      var os := Outcomes(s, ticks);
      assert os[1..] == Outcomes(st.state, ticks[1..]);
    }
  }

  /** With the latch up, the first tap block of the run is forwarded,
      whatever read errors and quiet blocks come before it. */
  lemma {:induction false} LatchUpFirstTapFires(s: Controller, ticks: seq<Tick>, j: nat)
    requires s.hasCooledDown
    requires j < |ticks| && IsTapBlock(ticks[j].reading)
    requires forall k :: 0 <= k < j ==> !IsTapBlock(ticks[k].reading)
    ensures Outcomes(s, ticks)[j].Tapped?
    decreases |ticks|
  {
    var st := Step(s, ticks[0].reading, ticks[0].now);
    var os := Outcomes(s, ticks);
    if j > 0 {
      assert !IsTapBlock(ticks[0].reading);
      assert st.state.hasCooledDown;
      assert os[1..] == Outcomes(st.state, ticks[1..]);
      forall k | 0 <= k < j - 1 ensures !IsTapBlock(ticks[1..][k].reading) {
        assert ticks[1..][k] == ticks[k + 1];
      }
      LatchUpFirstTapFires(st.state, ticks[1..], j - 1);
      assert os[j] == Outcomes(st.state, ticks[1..])[j - 1];
    }
  }

  /** After a below-threshold block the next tap block fires an edge again,
      even with read errors or further quiet blocks in between. */
  lemma {:induction false} QuietBlockRearmsNextEdge(s: Controller, ticks: seq<Tick>, i: nat, j: nat)
    requires i < j < |ticks|
    requires Outcomes(s, ticks)[i].Idle?
    requires IsTapBlock(ticks[j].reading)
    requires forall k :: i < k < j ==> !IsTapBlock(ticks[k].reading)
    ensures Outcomes(s, ticks)[j].Tapped?
    decreases |ticks|
  {
    var st := Step(s, ticks[0].reading, ticks[0].now);
    var os := Outcomes(s, ticks);
    assert os[1..] == Outcomes(st.state, ticks[1..]);
    assert os[j] == Outcomes(st.state, ticks[1..])[j - 1];
    if i == 0 {
      assert st.state.hasCooledDown;
      forall k | 0 <= k < j - 1 ensures !IsTapBlock(ticks[1..][k].reading) {
        assert ticks[1..][k] == ticks[k + 1];
      }
      LatchUpFirstTapFires(st.state, ticks[1..], j - 1);
    } else {
      assert os[i] == Outcomes(st.state, ticks[1..])[i - 1];
      forall k | i - 1 < k < j - 1 ensures !IsTapBlock(ticks[1..][k].reading) {
        assert ticks[1..][k] == ticks[k + 1];
      }
      QuietBlockRearmsNextEdge(st.state, ticks[1..], i - 1, j - 1);
    }
  }

  /** With the latch down, nothing is forwarded as a tap before a
      below-threshold block has been read. */
  lemma {:induction false} LatchHeldUntilQuiet(s: Controller, ticks: seq<Tick>, j: nat)
    requires !s.hasCooledDown
    requires j < |ticks| && Outcomes(s, ticks)[j].Tapped?
    ensures exists k :: 0 <= k < j && Outcomes(s, ticks)[k].Idle?
    decreases |ticks|
  {
    var st := Step(s, ticks[0].reading, ticks[0].now);
    var os := Outcomes(s, ticks);
    if !os[0].Idle? {
      assert j > 0;
      assert os[1..] == Outcomes(st.state, ticks[1..]);
      LatchHeldUntilQuiet(st.state, ticks[1..], j - 1);
      var k :| 0 <= k < j - 1 && Outcomes(st.state, ticks[1..])[k].Idle?;
      assert os[k + 1].Idle?;
    }
  }

  /** Between any two forwarded taps there is a below-threshold block. */
  lemma {:induction false} EdgesSeparatedByQuietBlock(s: Controller, ticks: seq<Tick>, i: nat, j: nat)
    requires i < j < |ticks|
    requires Outcomes(s, ticks)[i].Tapped? && Outcomes(s, ticks)[j].Tapped?
    ensures exists k :: i < k < j && Outcomes(s, ticks)[k].Idle?
    decreases |ticks|
  {
    var st := Step(s, ticks[0].reading, ticks[0].now);
    var os := Outcomes(s, ticks);
    assert os[1..] == Outcomes(st.state, ticks[1..]);
    if i == 0 {
      LatchHeldUntilQuiet(st.state, ticks[1..], j - 1);
      var k :| 0 <= k < j - 1 && Outcomes(st.state, ticks[1..])[k].Idle?;
      assert os[k + 1].Idle?;
    } else {
      EdgesSeparatedByQuietBlock(st.state, ticks[1..], i - 1, j - 1);
      var k :| i - 1 < k < j - 1 && Outcomes(st.state, ticks[1..])[k].Idle?;
      assert os[k + 1].Idle?;
    }
  }

  /** A run without forwarded taps never moves last_tap. */
  lemma {:induction false} QuietRunKeepsClock(s: Controller, ticks: seq<Tick>)
    requires forall k :: 0 <= k < |ticks| ==> !Outcomes(s, ticks)[k].Tapped?
    ensures After(s, ticks).lastTap == s.lastTap
    decreases |ticks|
  {
    if ticks != [] {
      var st := Step(s, ticks[0].reading, ticks[0].now);
      var os := Outcomes(s, ticks);
      assert !os[0].Tapped?;
      assert os[1..] == Outcomes(st.state, ticks[1..]);
      forall k | 0 <= k < |ticks| - 1 ensures !Outcomes(st.state, ticks[1..])[k].Tapped? {
        assert os[k + 1] == Outcomes(st.state, ticks[1..])[k];
      }
      QuietRunKeepsClock(st.state, ticks[1..]);
    }
  }

  /** Input that never rises above the threshold forwards no tap. */
  lemma {:induction false} QuietInputNeverTaps(s: Controller, ticks: seq<Tick>)
    requires forall k :: 0 <= k < |ticks| ==> !IsTapBlock(ticks[k].reading)
    ensures forall k :: 0 <= k < |ticks| ==> !Outcomes(s, ticks)[k].Tapped?
    ensures After(s, ticks).lastTap == s.lastTap
    decreases |ticks|
  {
    if ticks != [] {
      var st := Step(s, ticks[0].reading, ticks[0].now);
      var os := Outcomes(s, ticks);
      assert os[1..] == Outcomes(st.state, ticks[1..]);
      QuietInputNeverTaps(st.state, ticks[1..]);
      forall k | 0 <= k < |ticks| ensures !os[k].Tapped? {
        if k > 0 { assert os[k] == Outcomes(st.state, ticks[1..])[k - 1]; }
      }
    }
  }

  /** When every reading comes more than SELECT seconds after last_tap, the
      first forwarded tap starts a dwell, so any submission is preceded by
      an initial tap. */
  lemma {:induction false} SubmissionNeedsInitialTap(s: Controller, ticks: seq<Tick>, j: nat)
    requires forall k :: 0 <= k < |ticks| ==> ticks[k].now > s.lastTap + SelectThreshold
    requires j < |ticks| && IsSubmission(Outcomes(s, ticks)[j])
    ensures exists k :: 0 <= k < j && Outcomes(s, ticks)[k] == Tapped(Initial)
    decreases |ticks|
  {
    var st := Step(s, ticks[0].reading, ticks[0].now);
    var os := Outcomes(s, ticks);
    assert ticks[0].now > s.lastTap + SelectThreshold;
    if !os[0].Tapped? {
      assert j > 0;
      assert st.state.lastTap == s.lastTap;
      assert os[1..] == Outcomes(st.state, ticks[1..]);
      forall k | 0 <= k < |ticks| - 1 ensures ticks[1..][k].now > st.state.lastTap + SelectThreshold {
        assert ticks[1..][k] == ticks[k + 1];
      }
      SubmissionNeedsInitialTap(st.state, ticks[1..], j - 1);
      var k :| 0 <= k < j - 1 && Outcomes(st.state, ticks[1..])[k] == Tapped(Initial);
      assert os[k + 1] == Tapped(Initial);
    } else {
      assert os[0] == Tapped(Initial);
    }
  }

  /** A call that submits leaves last_tap SELECT seconds before its clock. */
  lemma SubmissionPushesClockBack(s: Controller, r: Reading, now: real)
    requires IsSubmission(Step(s, r, now).outcome)
    ensures Step(s, r, now).state.lastTap == now - SelectThreshold
  {
  }

  /** The ticks after the first of an advancing run are an advancing run,
      all strictly later than the first. */
  lemma IncreasingTail(ticks: seq<Tick>)
    requires Increasing(ticks) && |ticks| > 0
    ensures Increasing(ticks[1..])
    ensures forall k :: 0 <= k < |ticks| - 1 ==> ticks[1..][k].now > ticks[0].now
  {
    forall a, b | 0 <= a < b < |ticks| - 1 ensures ticks[1..][a].now < ticks[1..][b].now {
      assert ticks[1..][a] == ticks[a + 1] && ticks[1..][b] == ticks[b + 1];
    }
    forall k | 0 <= k < |ticks| - 1 ensures ticks[1..][k].now > ticks[0].now {
      assert ticks[1..][k] == ticks[k + 1];
    }
  }

  /** A submission at the first tick of an advancing run is followed by an
      initial tap before any further submission. */
  lemma {:induction false} FirstSubmissionThenInitialTap(s: Controller, ticks: seq<Tick>, j: nat)
    requires Increasing(ticks)
    requires 0 < j < |ticks|
    requires IsSubmission(Outcomes(s, ticks)[0]) && IsSubmission(Outcomes(s, ticks)[j])
    ensures exists k :: 0 < k < j && Outcomes(s, ticks)[k] == Tapped(Initial)
  {
    var st := Step(s, ticks[0].reading, ticks[0].now);
    var os := Outcomes(s, ticks);
    assert os[0] == st.outcome;
    assert os[1..] == Outcomes(st.state, ticks[1..]);
    SubmissionPushesClockBack(s, ticks[0].reading, ticks[0].now);
    IncreasingTail(ticks);
    SubmissionNeedsInitialTap(st.state, ticks[1..], j - 1);
    var k :| 0 <= k < j - 1 && Outcomes(st.state, ticks[1..])[k] == Tapped(Initial);
    assert os[k + 1] == Tapped(Initial);
  }

  /** Between two submissions on an advancing clock there is always an
      initial tap: one NEXT or SELECT per completed dwell. */
  lemma {:induction false} SubmissionsSeparated(s: Controller, ticks: seq<Tick>, i: nat, j: nat)
    requires Increasing(ticks)
    requires i < j < |ticks|
    requires IsSubmission(Outcomes(s, ticks)[i]) && IsSubmission(Outcomes(s, ticks)[j])
    ensures exists k :: i < k < j && Outcomes(s, ticks)[k] == Tapped(Initial)
    decreases |ticks|
  {
    if i == 0 {
      FirstSubmissionThenInitialTap(s, ticks, j);
    } else {
      var st := Step(s, ticks[0].reading, ticks[0].now);
      var os := Outcomes(s, ticks);
      var rest := Outcomes(st.state, ticks[1..]);
      assert os[1..] == rest;
      assert os[i] == rest[i - 1] && os[j] == rest[j - 1];
      IncreasingTail(ticks);
      SubmissionsSeparated(st.state, ticks[1..], i - 1, j - 1);
      var k :| i - 1 < k < j - 1 && rest[k] == Tapped(Initial);
      assert os[1..][k] == rest[k];
      assert os[k + 1] == Tapped(Initial);
      assert i < k + 1 < j;
    }
  }

  /** From the freshly constructed objects, on a clock that does not go back
      before construction, the first forwarded tap is an initial tap. */
  lemma {:induction false} FreshStartBeginsWithInitialTap(created: real, ticks: seq<Tick>, j: nat)
    requires forall k :: 0 <= k < |ticks| ==> ticks[k].now >= created
    requires j < |ticks| && IsSubmission(Outcomes(Fresh(created), ticks)[j])
    ensures exists k :: 0 <= k < j && Outcomes(Fresh(created), ticks)[k] == Tapped(Initial)
  {
    SubmissionNeedsInitialTap(Fresh(created), ticks, j);
  }

  /** On a clock that steps back, two submissions can follow each other with
      no initial tap between them: NEXT at 1.0, a quiet block, then SELECT
      at 0.2, which is 1.2 seconds after the pushed-back last tap. */
  lemma ClockStepBackSubmitsTwice()
    ensures Outcomes(Controller(true, 0, 0.0),
                     [Tick(Block(0.9), 1.0), Tick(Block(0.0), 1.05), Tick(Block(0.9), 0.2)])
         == [Tapped(Next), Idle(WaitingForInput), Tapped(Select)]
  {
  }

  /** Running one more tick extends the outcomes by that tick's outcome. */
  lemma {:induction false} AppendTick(s: Controller, ticks: seq<Tick>, t: Tick)
    ensures Outcomes(s, ticks + [t]) == Outcomes(s, ticks) + [Step(After(s, ticks), t.reading, t.now).outcome]
    ensures After(s, ticks + [t]) == Step(After(s, ticks), t.reading, t.now).state
    decreases |ticks|
  {
    if ticks == [] {
      assert ticks + [t] == [t];
      assert [t][1..] == [];
    } else {
      var st := Step(s, ticks[0].reading, ticks[0].now).state;
      assert (ticks + [t])[0] == ticks[0];
      assert (ticks + [t])[1..] == ticks[1..] + [t];
      AppendTick(st, ticks[1..], t);
    }
  }

  /** A finite prefix of the main loop: `listen` once per tick, in order.
      The objects end in the state `After` gives, and the calls forward
      what `Outcomes` gives. */
  method ListenAll(detector: TapDetector, ticks: seq<Tick>) returns (os: seq<Outcome>)
    modifies detector, detector.communicator
    ensures os == Outcomes(old(detector.State()), ticks)
    ensures detector.State() == After(old(detector.State()), ticks)
  {
    ghost var s0 := detector.State();
    os := [];
    var i := 0;
    while i < |ticks|
      invariant 0 <= i <= |ticks|
      invariant os == Outcomes(s0, ticks[..i])
      invariant detector.State() == After(s0, ticks[..i])
    {
      var o := detector.Listen(ticks[i].reading, ticks[i].now);
      AppendTick(s0, ticks[..i], ticks[i]);
      assert ticks[..i + 1] == ticks[..i] + [ticks[i]];
      os := os + [o];
      i := i + 1;
    }
    assert ticks[..|ticks|] == ticks;
  }
}
