/** The tap detector: one amplitude reading per audio block, a strict
    threshold, and the cooldown latch that forwards only the first
    above-threshold block of each run to the Communicator. The amplitude of a
    block is an abstract input; a failed read is its own kind of reading. */
module TapDetection {
  import opened Dwell

  /** An amplitude strictly above this is a tap block. */
  const TapThreshold: real := 0.20

  /** What one read of the input stream gives. */
  datatype Reading = ReadError | Block(amplitude: real)

  predicate IsTapBlock(r: Reading) {
    r.Block? && r.amplitude > TapThreshold
  }

  /** What one call of `listen` passes on to the Communicator, if anything. */
  datatype Outcome =
    | ReadFailed           // read error: the Communicator is not called
    | CoolingDown          // tap block with the latch down: not forwarded
    | Tapped(action: Action)
    | Idle(cue: Cue)

  /** The whole mutable state: the detector's two fields and last_tap. */
  datatype Controller = Controller(hasCooledDown: bool, errorCount: nat, lastTap: real)

  /** The state right after both objects are constructed at time `created`. */
  function Fresh(created: real): Controller {
    Controller(true, 0, created - StartOffset)
  }

  datatype Stepped = Stepped(state: Controller, outcome: Outcome)

  /** One call of `listen` with the reading `r` taken at time `now`. */
  function Step(s: Controller, r: Reading, now: real): Stepped {
    match r
    case ReadError => Stepped(s.(errorCount := s.errorCount + 1), ReadFailed)
    case Block(amplitude) =>
      if amplitude > TapThreshold then
        if s.hasCooledDown then
          var t := OnTap(s.lastTap, now);
          Stepped(Controller(false, s.errorCount, t.lastTap), Tapped(t.action))
        else
          Stepped(s.(hasCooledDown := false), CoolingDown)
      else
        Stepped(s.(hasCooledDown := true), Idle(CueAt(s.lastTap, now)))
  }

  /** A tap block is forwarded exactly when the latch is up, and leaves the
      latch down; the error count never moves. */
  lemma TapBlockLowersLatch(s: Controller, r: Reading, now: real)
    requires IsTapBlock(r)
    ensures !Step(s, r, now).state.hasCooledDown
    ensures Step(s, r, now).outcome.Tapped? <==> s.hasCooledDown
    ensures Step(s, r, now).outcome.Tapped? ==>
      Step(s, r, now).outcome.action == OnTap(s.lastTap, now).action &&
      Step(s, r, now).state.lastTap == OnTap(s.lastTap, now).lastTap
    ensures !s.hasCooledDown ==> Step(s, r, now).state == s && Step(s, r, now).outcome == CoolingDown
    ensures Step(s, r, now).state.errorCount == s.errorCount
  {
  }

  /** A below-threshold block raises the latch, forwards the no-tap
      notification and leaves last_tap alone; the next tap block then
      fires an edge again. */
  lemma QuietBlockRaisesLatch(s: Controller, amplitude: real, now: real, next: real, later: real)
    requires amplitude <= TapThreshold
    requires next > TapThreshold
    ensures Step(s, Block(amplitude), now).state == s.(hasCooledDown := true)
    ensures Step(s, Block(amplitude), now).outcome == Idle(CueAt(s.lastTap, now))
    ensures Step(Step(s, Block(amplitude), now).state, Block(next), later).outcome.Tapped?
  {
  }

  /** The threshold test is strict: an amplitude equal to it is no tap. */
  lemma ThresholdIsStrict(s: Controller, now: real)
    ensures !IsTapBlock(Block(TapThreshold))
    ensures Step(s, Block(TapThreshold), now).outcome.Idle?
  {
  }

  /** A read error only increases the error count by one. */
  lemma ReadErrorOnlyCounts(s: Controller, now: real)
    ensures Step(s, ReadError, now).state == s.(errorCount := s.errorCount + 1)
    ensures Step(s, ReadError, now).outcome == ReadFailed
  {
  }

  /** The TapDetector object, holding the Communicator it forwards to. */
  class TapDetector {
    var errorCount: nat
    var hasCooledDown: bool
    const communicator: Communicator

    constructor (communicator: Communicator)
      ensures this.communicator == communicator
      ensures errorCount == 0 && hasCooledDown
    {
      this.communicator := communicator;
      errorCount := 0;
      hasCooledDown := true;
    }

    /** The detector's fields together with the Communicator's last_tap. */
    ghost function State(): Controller
      reads this, communicator
    {
      Controller(hasCooledDown, errorCount, communicator.lastTap)
    }

    /** A tap block: forward it only when the latch is up, then lower it. */
    method TapDetected(now: real) returns (outcome: Outcome)
      modifies this, communicator
      ensures !hasCooledDown && errorCount == old(errorCount)
      ensures old(hasCooledDown) ==>
        outcome.Tapped? && TapResult(outcome.action, communicator.lastTap) == OnTap(old(communicator.lastTap), now)
      ensures !old(hasCooledDown) ==> outcome == CoolingDown && communicator.lastTap == old(communicator.lastTap)
    {
      if hasCooledDown {
        var action := communicator.TapDetected(now);
        outcome := Tapped(action);
      } else {
        outcome := CoolingDown;
      }
      hasCooledDown := false;
    }

    /** A below-threshold block: raise the latch and notify the Communicator. */
    method NoTapDetected(now: real) returns (cue: Cue)
      modifies this
      ensures hasCooledDown && errorCount == old(errorCount)
      ensures cue == CueAt(communicator.lastTap, now)
    {
      hasCooledDown := true;
      cue := communicator.NoTapDetected(now);
    }

    /** One block: a failed read only counts; otherwise the strict threshold
        decides between the tap and the no-tap path. */
    method Listen(r: Reading, now: real) returns (outcome: Outcome)
      modifies this, communicator
      ensures Stepped(State(), outcome) == Step(old(State()), r, now)
    {
      match r
      case ReadError =>
        errorCount := errorCount + 1;
        outcome := ReadFailed;
      case Block(amplitude) =>
        if amplitude > TapThreshold {
          outcome := TapDetected(now);
        } else {
          var cue := NoTapDetected(now);
          outcome := Idle(cue);
        }
    }
  }
}
