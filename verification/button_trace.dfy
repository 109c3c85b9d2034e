/** The grammar of the events that a button may report, and what it implies. */
module ButtonTrace {

  // ---- the grammar of events ----

  datatype Event =
    | PRESS_DOWN | PRESS_UP | PRESS_REPEAT | PRESS_REPEAT_DONE
    | SINGLE_CLICK | DOUBLE_CLICK | MULTIPLE_CLICK
    | LONG_PRESS_START | LONG_PRESS_HOLD | LONG_PRESS_UP | PRESS_END

  /** Where in a session the events have come to; `clicks` counts presses modulo 256. */
  datatype Phase =
    | Idle
    | Pressed
    | Waiting(clicks: nat, again: bool)
    | Repeating(clicks: nat)
    | Repressed(clicks: nat)
    | Clicked
    | Counted
    | Holding(holds: nat)
    | LongReleased
    | Ending
    | Wrong

  /** One more, in a byte. */
  function Bumped(n: nat): nat { if n == 255 then 0 else n + 1 }

  function After(p: Phase, e: Event): Phase {
    match p
    case Idle => if e == PRESS_DOWN then Pressed else Wrong
    case Pressed =>
      if e == PRESS_UP then Waiting(1, false) else if e == LONG_PRESS_START then Holding(0) else Wrong
    case Waiting(clicks, again) =>
      if e == PRESS_DOWN then Repeating(clicks)
      else if e == SINGLE_CLICK && clicks == 1 then Clicked
      else if e == DOUBLE_CLICK && clicks == 2 then Clicked
      else if e == MULTIPLE_CLICK && clicks != 1 && clicks != 2 then Counted
      else if e == PRESS_END && again then Idle
      else Wrong
    case Repeating(clicks) => if e == PRESS_REPEAT then Repressed(Bumped(clicks)) else Wrong
    case Repressed(clicks) => if e == PRESS_UP then Waiting(clicks, true) else Wrong
    case Clicked => if e == MULTIPLE_CLICK then Counted else Wrong
    case Counted => if e == PRESS_REPEAT_DONE then Ending else Wrong
    case Holding(holds) =>
      if e == LONG_PRESS_HOLD then Holding(holds + 1) else if e == LONG_PRESS_UP then LongReleased else Wrong
    case LongReleased => if e == PRESS_UP then Ending else Wrong
    case Ending => if e == PRESS_END then Idle else Wrong
    case Wrong => Wrong
  }

  /** The phase after a trace; Wrong when the grammar does not allow it. */
  function Reached(log: seq<Event>): Phase {
    if log == [] then Idle else After(Reached(log[..|log| - 1]), log[|log| - 1])
  }

  lemma ReachedNext(log: seq<Event>, e: Event)
    ensures Reached(log + [e]) == After(Reached(log), e)
  {
    assert (log + [e])[..|log|] == log;
  }

  // ---- what the grammar implies ----

  /** The press-downs minus the press-ups. */
  function Balance(log: seq<Event>): int {
    if log == [] then 0
    else Balance(log[..|log| - 1]) + (match log[|log| - 1] case PRESS_DOWN => 1 case PRESS_UP => -1 case _ => 0)
  }

  predicate Down(p: Phase) { p.Pressed? || p.Repeating? || p.Repressed? || p.Holding? || p.LongReleased? }

  lemma {:induction false} DownsAndUps(log: seq<Event>)
    requires Reached(log) != Wrong
    ensures Balance(log) == if Down(Reached(log)) then 1 else 0
  {
    if log != [] { DownsAndUps(log[..|log| - 1]); }
  }

  lemma {:induction false} AllowedPrefix(log: seq<Event>, k: nat)
    requires k <= |log| && Reached(log) != Wrong
    ensures Reached(log[..k]) != Wrong
  {
    if k == |log| {
      assert log[..k] == log;
    } else {
      AllowedPrefix(log[..|log| - 1], k);
      assert log[..|log| - 1][..k] == log[..k];
    }
  }

  /** Press-downs and press-ups alternate, beginning with a press-down. */
  lemma Alternate(log: seq<Event>, k: nat)
    requires k <= |log| && Reached(log) != Wrong
    ensures 0 <= Balance(log[..k]) <= 1
  {
    AllowedPrefix(log, k);
    DownsAndUps(log[..k]);
  }

  /** The press-downs since the last session ended. */
  function Presses(log: seq<Event>): nat {
    if log == [] || log[|log| - 1] == PRESS_END then 0
    else Presses(log[..|log| - 1]) + (if log[|log| - 1] == PRESS_DOWN then 1 else 0)
  }

  lemma {:induction false} ClicksCountPresses(log: seq<Event>)
    requires Reached(log) != Wrong
    ensures match Reached(log)
      case Idle => Presses(log) == 0
      case Pressed => Presses(log) == 1
      case Waiting(clicks, _) => clicks == Presses(log) % 256
      case Repeating(clicks) => Bumped(clicks) == Presses(log) % 256
      case Repressed(clicks) => clicks == Presses(log) % 256
      case _ => true
  {
    if log != [] { ClicksCountPresses(log[..|log| - 1]); }
  }

  /** The holds since the last long press started. */
  function Holds(log: seq<Event>): nat {
    if log == [] || log[|log| - 1] == LONG_PRESS_START then 0
    else Holds(log[..|log| - 1]) + (if log[|log| - 1] == LONG_PRESS_HOLD then 1 else 0)
  }

  lemma {:induction false} HoldingCountsHolds(log: seq<Event>)
    requires Reached(log).Holding?
    ensures Reached(log).holds == Holds(log)
  {
    if log[|log| - 1] == LONG_PRESS_HOLD { HoldingCountsHolds(log[..|log| - 1]); }
  }

  function Downs(log: seq<Event>): nat {
    if log == [] then 0 else Downs(log[..|log| - 1]) + (if log[|log| - 1] == PRESS_DOWN then 1 else 0)
  }

  // ---- several events at once ----

  /** The phase after more events. */
  function Onward(p: Phase, es: seq<Event>): Phase
    decreases |es|
  {
    if es == [] then p else Onward(After(p, es[0]), es[1..])
  }

  lemma {:induction false} ReachedOn(log: seq<Event>, es: seq<Event>)
    ensures Reached(log + es) == Onward(Reached(log), es)
    ensures Downs(log + es) == Downs(log) + Downs(es)
    decreases |es|
  {
    if es == [] {
      assert log + es == log;
    } else {
      assert log + es == (log + [es[0]]) + es[1..];
      ReachedOn(log + [es[0]], es[1..]);
      ReachedNext(log, es[0]);
      DownsFirst(es);
      assert (log + [es[0]])[..|log|] == log;
    }
  }

  lemma {:induction false} DownsFirst(es: seq<Event>)
    requires es != []
    ensures Downs(es) == (if es[0] == PRESS_DOWN then 1 else 0) + Downs(es[1..])
  {
    if |es| > 1 {
      DownsFirst(es[..|es| - 1]);
      assert es[1..][..|es| - 2] == es[..|es| - 1][1..];
    } else {
      assert es[..0] == [];
    }
  }

  lemma OnwardOne(p: Phase, a: Event)
    ensures Onward(p, [a]) == After(p, a) && Downs([a]) == if a == PRESS_DOWN then 1 else 0
  {
  }

  lemma OnwardTwo(p: Phase, a: Event, b: Event)
    ensures Onward(p, [a, b]) == After(After(p, a), b) && Downs([a, b]) == Downs([a]) + Downs([b])
  {
    assert [a, b][1..] == [b] && [a, b][..1] == [a];
    OnwardOne(After(p, a), b);
    assert Onward(p, [a, b]) == Onward(After(p, a), [b]);
  }

  lemma OnwardThree(p: Phase, a: Event, b: Event, c: Event)
    ensures Onward(p, [a, b, c]) == After(After(After(p, a), b), c)
    ensures Downs([a, b, c]) == Downs([a]) + Downs([b]) + Downs([c])
  {
    assert [a, b, c][1..] == [b, c];
    OnwardTwo(After(p, a), b, c);
    DownsFirst([a, b, c]);
  }
}
