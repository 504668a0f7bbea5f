/** The dwell-window state machine of the switch controller: the Communicator
    keeps the time of the last tap and, on every tap the detector forwards,
    classifies the elapsed time into a window that decides whether the tap
    starts a new dwell or submits NEXT or SELECT. Times are seconds, as reals;
    the clock reading is passed in as `now`. */
module Dwell {

  /** The Communicator's dwell thresholds, in seconds. */
  const WaitThreshold: real := 0.5
  const NextThreshold: real := 1.0
  const SelectThreshold: real := 2.0

  /** How far in the past the constructor places the last tap. */
  const StartOffset: real := 100.0

  /** The four branches taken on the elapsed time d = now - last_tap. */
  datatype Window =
    | Settling      // 0 <= d <= WAIT: too short, a tap here starts a dwell
    | NextWindow    // WAIT < d <= NEXT
    | SelectWindow  // NEXT < d <= SELECT
    | TooLong       // everything else: held too long, or a clock that went back

  /** Reference description of the windows as sets of elapsed times. */
  predicate InWindow(d: real, w: Window) {
    match w
    case Settling => 0.0 <= d <= WaitThreshold
    case NextWindow => WaitThreshold < d <= NextThreshold
    case SelectWindow => NextThreshold < d <= SelectThreshold
    case TooLong => d < 0.0 || SelectThreshold < d
  }

  /** The branch chain shared by `tapDetected` and `noTapDetected`. */
  function Classify(d: real): (w: Window)
    ensures InWindow(d, w)
  {
    if 0.0 <= d <= WaitThreshold then Settling
    else if WaitThreshold < d <= NextThreshold then NextWindow
    else if NextThreshold < d <= SelectThreshold then SelectWindow
    else TooLong
  }

  /** The windows cover every elapsed time and do not overlap, so the
      classification is the only window containing d. */
  lemma WindowsPartition(d: real, w: Window)
    ensures InWindow(d, w) <==> w == Classify(d)
  {
  }

  /** What a forwarded tap does: start a dwell, or submit a command. */
  datatype Action = Initial | Next | Select

  /** The user-interface callback a below-threshold block selects. */
  datatype Cue = WaitingForInput | RegisteringNext | RegisteringSelect

  /** The action taken by a tap and the new value of last_tap. */
  datatype TapResult = TapResult(action: Action, lastTap: real)

  /** A tap at `now` with the last tap at `lastTap`. */
  function OnTap(lastTap: real, now: real): TapResult {
    match Classify(now - lastTap)
    case Settling => TapResult(Initial, now)
    case NextWindow => TapResult(Next, now - SelectThreshold)
    case SelectWindow => TapResult(Select, now - SelectThreshold)
    case TooLong => TapResult(Initial, now)
  }

  /** The callback chosen for a below-threshold block at `now`. */
  function CueAt(lastTap: real, now: real): Cue {
    match Classify(now - lastTap)
    case Settling => WaitingForInput
    case NextWindow => RegisteringNext
    case SelectWindow => RegisteringSelect
    case TooLong => WaitingForInput
  }

  /** For every elapsed time, which action a tap takes: NEXT exactly in the
      next window, SELECT exactly in the select window, an initial tap on
      every other elapsed time, negative ones included. */
  lemma TapActionByWindow(lastTap: real, now: real)
    ensures var d := now - lastTap;
      (OnTap(lastTap, now).action == Next <==> WaitThreshold < d <= NextThreshold) &&
      (OnTap(lastTap, now).action == Select <==> NextThreshold < d <= SelectThreshold) &&
      (OnTap(lastTap, now).action == Initial <==> !(WaitThreshold < d <= SelectThreshold))
  {
  }

  /** An initial tap restarts the clock, so a re-read at the same instant is
      in the settling window. */
  lemma InitialTapRestartsClock(lastTap: real, now: real)
    ensures OnTap(lastTap, now).action == Initial ==>
      OnTap(lastTap, now).lastTap == now && Classify(now - OnTap(lastTap, now).lastTap) == Settling
  {
  }

  /** A submission pushes the clock SELECT seconds into the past, so every
      later tap starts a new dwell and every later below-threshold block
      shows "waiting for input". */
  lemma SubmitPushesClockBack(lastTap: real, now: real, later: real)
    requires OnTap(lastTap, now).action != Initial
    requires later > now
    ensures OnTap(lastTap, now).lastTap == now - SelectThreshold
    ensures Classify(later - OnTap(lastTap, now).lastTap) == TooLong
    ensures OnTap(OnTap(lastTap, now).lastTap, later).action == Initial
    ensures CueAt(OnTap(lastTap, now).lastTap, later) == WaitingForInput
  {
  }

  /** The reset offset is exactly SELECT, not more: a re-read at the very
      instant of a submission sits on the closed upper edge of the select
      window, so it is only strictly later reads that fall beyond it. */
  lemma ResetInstantOnSelectEdge(lastTap: real, now: real)
    requires OnTap(lastTap, now).action != Initial
    ensures Classify(now - OnTap(lastTap, now).lastTap) == SelectWindow
    ensures CueAt(OnTap(lastTap, now).lastTap, now) == RegisteringSelect
  {
  }

  /** The callback of a below-threshold block follows the same partition as
      the action of a tap at the same instant. */
  lemma CueFollowsWindows(lastTap: real, now: real)
    ensures CueAt(lastTap, now) == RegisteringNext <==> OnTap(lastTap, now).action == Next
    ensures CueAt(lastTap, now) == RegisteringSelect <==> OnTap(lastTap, now).action == Select
    ensures CueAt(lastTap, now) == WaitingForInput <==> OnTap(lastTap, now).action == Initial
  {
  }

  /** The Communicator object: its only mutable state is last_tap. */
  class Communicator {
    var lastTap: real

    /** Created at time `now`, with the last tap far in the past. */
    constructor (now: real)
      ensures lastTap == now - StartOffset
    {
      lastTap := now - StartOffset;
    }

    method TapDetected(now: real) returns (action: Action)
      modifies this
      ensures TapResult(action, lastTap) == OnTap(old(lastTap), now)
    {
      match Classify(now - lastTap)
      case Settling =>
        InitialTap(now);
        action := Initial;
      case NextWindow =>
        SubmitNext(now);
        action := Next;
      case SelectWindow =>
        SubmitSelect(now);
        action := Select;
      case TooLong =>
        InitialTap(now);
        action := Initial;
    }

    /** Chooses a callback and leaves last_tap alone (no modifies clause). */
    method NoTapDetected(now: real) returns (cue: Cue)
      ensures cue == CueAt(lastTap, now)
      ensures cue == RegisteringNext <==> WaitThreshold < now - lastTap <= NextThreshold
      ensures cue == RegisteringSelect <==> NextThreshold < now - lastTap <= SelectThreshold
    {
      match Classify(now - lastTap)
      case Settling => cue := WaitingForInput;
      case NextWindow => cue := RegisteringNext;
      case SelectWindow => cue := RegisteringSelect;
      case TooLong => cue := WaitingForInput;
    }

    method SubmitNext(now: real)
      modifies this
      ensures lastTap == now - SelectThreshold
    {
      ResetLastTap(now);
    }

    method SubmitSelect(now: real)
      modifies this
      ensures lastTap == now - SelectThreshold
    {
      ResetLastTap(now);
    }

    method InitialTap(now: real)
      modifies this
      ensures lastTap == now
    {
      UpdateLastTap(now);
    }

    method UpdateLastTap(now: real)
      modifies this
      ensures lastTap == now
    {
      lastTap := now;
    }

    method ResetLastTap(now: real)
      modifies this
      ensures lastTap == now - SelectThreshold
    {
      lastTap := now - SelectThreshold;
    }
  }
}
