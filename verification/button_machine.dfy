/** The button driver's state machine as a function of the debounced level (components/button/iot_button.c). */
module ButtonMachine {

  import opened ButtonTrace
  import opened Debounce
  import opened Powers

  datatype State = DownCheck | UpCheck | RepeatDownCheck | RepeatUpCheck | LongUpCheck

  /** The configured times, in ticks. */
  datatype Params = Params(debounce: nat, long: nat, short: nat, serial: nat)

  predicate Sensible(p: Params) { 1 <= p.debounce <= 15 && p.long >= 1 && p.serial >= 1 }

  /** What the machine keeps from one period to the next, and the events it has raised. */
  datatype Core = Core(state: State, ticks: nat, repeat: nat, holds: nat, log: seq<Event>)

  const START := Core(DownCheck, 0, 0, 0, [])

  function Ticked(c: Core): Core { if c.state == DownCheck then c else c.(ticks := c.ticks + 1) }

  function Clicks(repeat: nat): seq<Event> {
    (if repeat == 1 then [SINGLE_CLICK] else if repeat == 2 then [DOUBLE_CLICK] else [])
    + [MULTIPLE_CLICK, PRESS_REPEAT_DONE]
  }

  /** The state machine proper, for the level of this period. */
  function Decide(p: Params, c: Core, active: bool): Core {
    match c.state
    case DownCheck =>
      if active then c.(log := c.log + [PRESS_DOWN], ticks := 0, repeat := 1, state := UpCheck) else c
    case UpCheck =>
      if !active then c.(log := c.log + [PRESS_UP], ticks := 0, state := RepeatDownCheck)
      else if c.ticks >= p.long then c.(log := c.log + [LONG_PRESS_START], state := LongUpCheck)
      else c
    case RepeatDownCheck =>
      if active then
        c.(log := c.log + [PRESS_DOWN, PRESS_REPEAT], repeat := (c.repeat + 1) % 256, ticks := 0,
           state := RepeatUpCheck)
      else if c.ticks > p.short then
        c.(log := c.log + (Clicks(c.repeat) + [PRESS_END]), repeat := 0, state := DownCheck)
      else c
    case RepeatUpCheck =>
      if active then c
      else if c.ticks < p.short then c.(log := c.log + [PRESS_UP], ticks := 0, state := RepeatDownCheck)
      else c.(log := c.log + [PRESS_UP, PRESS_END], state := DownCheck)
    case LongUpCheck =>
      if !active then
        c.(log := c.log + [LONG_PRESS_UP, PRESS_UP, PRESS_END], holds := 0, state := DownCheck)
      else if c.ticks >= (c.holds + 1) * p.serial + p.long then
        c.(log := c.log + [LONG_PRESS_HOLD], holds := c.holds + 1)
      else c
  }

  /** The machine after these debounced levels. */
  function Machine(p: Params, levels: seq<bool>): Core {
    if levels == [] then START
    else Decide(p, Ticked(Machine(p, levels[..|levels| - 1])), levels[|levels| - 1])
  }

  lemma MachineNext(p: Params, levels: seq<bool>, active: bool)
    ensures Machine(p, levels + [active]) == Decide(p, Ticked(Machine(p, levels)), active)
  {
    assert (levels + [active])[..|levels|] == levels;
  }

  // ---- numbers ----

  /** How many whole periods of d ticks fit into t. */
  function Periods(t: nat, d: nat): (n: nat)
    requires d >= 1
  {
    if t < d then 0 else 1 + Periods(t - d, d)
  }

  lemma {:induction false} PeriodsBound(t: nat, d: nat)
    requires d >= 1
    ensures Periods(t, d) * d <= t < Periods(t, d) * d + d
  {
    if t >= d { PeriodsBound(t - d, d); }
  }

  /** The number of periods grows by one exactly when the next multiple is reached. */
  lemma {:induction false} PeriodsStep(t: nat, d: nat)
    requires t >= 1 && d >= 1
    ensures Periods(t, d) == Periods(t - 1, d) + if t >= (Periods(t - 1, d) + 1) * d then 1 else 0
  {
    if t > d {
      PeriodsStep(t - d, d);
      assert (Periods(t - 1, d) + 1) * d == (Periods(t - d - 1, d) + 1) * d + d;
    }
  }

  lemma PeriodsIsQuotient(t: nat, d: nat)
    requires d >= 1
    ensures Periods(t, d) == t / d
  {
    PeriodsBound(t, d);
    RemainderIs(t, d, Periods(t, d), t - Periods(t, d) * d);
  }

  // ---- what the machine keeps ----

  /** How often the level has become active. */
  function Rises(levels: seq<bool>): nat {
    if levels == [] then 0
    else
      var t := levels[..|levels| - 1];
      Rises(t) + (if levels[|levels| - 1] && !Last(t) then 1 else 0)
  }

  /** The level now; inactive before the first sample. */
  function Last(levels: seq<bool>): bool { levels != [] && levels[|levels| - 1] }

  /** States 1, 3 and 4. */
  predicate PressedState(s: State) { s == UpCheck || s == RepeatUpCheck || s == LongUpCheck }

  /** The state is where the grammar is. */
  predicate PhaseOk(c: Core) {
    match c.state
    case DownCheck => Reached(c.log) == Idle
    case UpCheck => Reached(c.log) == Pressed && c.repeat == 1
    case RepeatDownCheck => Reached(c.log).Waiting? && c.repeat == Reached(c.log).clicks
    case RepeatUpCheck => Reached(c.log) == Repressed(c.repeat)
    case LongUpCheck => Reached(c.log) == Holding(c.holds)
  }

  /** Outside state 0, ticks says how long the level has been what it is, after its first period. */
  predicate TicksOk(p: Params, c: Core, levels: seq<bool>) {
    && (c.state != DownCheck ==> c.ticks + 1 == TrailingRun(levels, PressedState(c.state)))
    && (c.state == UpCheck ==> c.ticks < p.long)
    && (c.state == RepeatDownCheck ==> c.ticks <= p.short)
    && (c.state == LongUpCheck ==> c.ticks >= p.long)
  }

  predicate HoldsOk(p: Params, c: Core)
    requires Sensible(p)
  {
    if c.state == LongUpCheck then c.ticks >= p.long && c.holds == Periods(c.ticks - p.long, p.serial)
    else c.holds == 0
  }

  ghost predicate Sound(p: Params, c: Core, levels: seq<bool>)
    requires Sensible(p)
  {
    && PhaseOk(c) && TicksOk(p, c, levels) && HoldsOk(p, c) && c.repeat < 256
    && PressedState(c.state) == Last(levels)
    && Downs(c.log) == Rises(levels)
  }

  lemma LevelsNext(levels: seq<bool>, active: bool)
    ensures Last(levels + [active]) == active
    ensures Rises(levels + [active]) == Rises(levels) + (if active && !Last(levels) then 1 else 0)
    ensures forall v :: TrailingRun(levels + [active], v) == if active == v then TrailingRun(levels, v) + 1 else 0
  {
    assert (levels + [active])[..|levels|] == levels;
  }

  lemma RaiseOne(log: seq<Event>, a: Event)
    ensures Reached(log + [a]) == After(Reached(log), a)
    ensures Downs(log + [a]) == Downs(log) + if a == PRESS_DOWN then 1 else 0
  {
    ReachedOn(log, [a]);
    OnwardOne(Reached(log), a);
  }

  lemma RaiseTwo(log: seq<Event>, a: Event, b: Event)
    ensures Reached(log + [a, b]) == After(After(Reached(log), a), b)
    ensures Downs(log + [a, b]) == Downs(log) + (if a == PRESS_DOWN then 1 else 0) + if b == PRESS_DOWN then 1 else 0
  {
    ReachedOn(log, [a, b]);
    OnwardTwo(Reached(log), a, b);
  }

  lemma RaiseThree(log: seq<Event>, a: Event, b: Event, c: Event)
    requires a != PRESS_DOWN && b != PRESS_DOWN && c != PRESS_DOWN
    ensures Reached(log + [a, b, c]) == After(After(After(Reached(log), a), b), c)
    ensures Downs(log + [a, b, c]) == Downs(log)
  {
    ReachedOn(log, [a, b, c]);
    OnwardThree(Reached(log), a, b, c);
  }

  /** The events that close a session of clicks. */
  lemma ClicksClose(log: seq<Event>, repeat: nat)
    requires Reached(log).Waiting? && Reached(log).clicks == repeat
    ensures Reached(log + (Clicks(repeat) + [PRESS_END])) == Idle
    ensures Downs(log + (Clicks(repeat) + [PRESS_END])) == Downs(log)
  {
    var last := [MULTIPLE_CLICK, PRESS_REPEAT_DONE, PRESS_END];
    if repeat == 1 || repeat == 2 {
      var e := if repeat == 1 then SINGLE_CLICK else DOUBLE_CLICK;
      assert log + (Clicks(repeat) + [PRESS_END]) == (log + [e]) + last;
      RaiseOne(log, e);
      RaiseThree(log + [e], MULTIPLE_CLICK, PRESS_REPEAT_DONE, PRESS_END);
    } else {
      assert Clicks(repeat) + [PRESS_END] == last;
      RaiseThree(log, MULTIPLE_CLICK, PRESS_REPEAT_DONE, PRESS_END);
    }
  }

  predicate Placed(c: Core) {
    PhaseOk(c) && c.repeat < 256 && (c.state != LongUpCheck ==> c.holds == 0)
  }

  predicate StaysPlaced(p: Params, c: Core, active: bool) {
    var n := Decide(p, Ticked(c), active);
    && PhaseOk(n) && n.repeat < 256 && PressedState(n.state) == active
    && Downs(n.log) == Downs(c.log) + (if active && !PressedState(c.state) then 1 else 0)
  }

  lemma FromDownCheck(p: Params, c: Core, active: bool)
    requires Placed(c) && c.state == DownCheck
    ensures StaysPlaced(p, c, active)
  {
    if active { RaiseOne(c.log, PRESS_DOWN); }
  }

  lemma FromUpCheck(p: Params, c: Core, active: bool)
    requires Placed(c) && c.state == UpCheck
    ensures StaysPlaced(p, c, active)
  {
    RaiseOne(c.log, if active then LONG_PRESS_START else PRESS_UP);
  }

  lemma FromRepeatDownCheck(p: Params, c: Core, active: bool)
    requires Placed(c) && c.state == RepeatDownCheck
    ensures StaysPlaced(p, c, active)
  {
    if active {
      RaiseTwo(c.log, PRESS_DOWN, PRESS_REPEAT);
    } else {
      ClicksClose(c.log, c.repeat);
    }
  }

  lemma FromRepeatUpCheck(p: Params, c: Core, active: bool)
    requires Placed(c) && c.state == RepeatUpCheck
    ensures StaysPlaced(p, c, active)
  {
    RaiseOne(c.log, PRESS_UP);
    RaiseTwo(c.log, PRESS_UP, PRESS_END);
  }

  lemma FromLongUpCheck(p: Params, c: Core, active: bool)
    requires Placed(c) && c.state == LongUpCheck
    ensures StaysPlaced(p, c, active)
  {
    if active {
      RaiseOne(c.log, LONG_PRESS_HOLD);
    } else {
      RaiseThree(c.log, LONG_PRESS_UP, PRESS_UP, PRESS_END);
    }
  }

  lemma StepKeepsPhase(p: Params, c: Core, active: bool)
    requires Placed(c)
    ensures StaysPlaced(p, c, active)
  {
    match c.state
    case DownCheck => FromDownCheck(p, c, active);
    case UpCheck => FromUpCheck(p, c, active);
    case RepeatDownCheck => FromRepeatDownCheck(p, c, active);
    case RepeatUpCheck => FromRepeatUpCheck(p, c, active);
    case LongUpCheck => FromLongUpCheck(p, c, active);
  }

  lemma StepKeepsTicks(p: Params, c: Core, levels: seq<bool>, active: bool)
    requires Sensible(p) && TicksOk(p, c, levels) && HoldsOk(p, c) && PressedState(c.state) == Last(levels)
    ensures var n := Decide(p, Ticked(c), active); TicksOk(p, n, levels + [active]) && HoldsOk(p, n)
  {
    LevelsNext(levels, active);
    if c.state == LongUpCheck && active {
      PeriodsStep(c.ticks + 1 - p.long, p.serial);
    }
  }

  /** After any levels: the trace is in the grammar, and the counters count what they should. */
  lemma {:induction false} AlwaysSound(p: Params, levels: seq<bool>)
    requires Sensible(p)
    ensures Sound(p, Machine(p, levels), levels)
  {
    if levels != [] {
      var front, active := levels[..|levels| - 1], levels[|levels| - 1];
      AlwaysSound(p, front);
      assert front + [active] == levels;
      LevelsNext(front, active);
      StepKeepsPhase(p, Machine(p, front), active);
      StepKeepsTicks(p, Machine(p, front), front, active);
    }
  }

  /**
   * When a session of clicks ends: at a release, exactly if that press lasted short_press_ticks or more; and
   * while the button is up, exactly if it has been up for more than short_press_ticks.
   */
  lemma SessionEndsIff(p: Params, levels: seq<bool>)
    requires Sensible(p)
    requires Machine(p, levels).state == RepeatUpCheck || Machine(p, levels).state == RepeatDownCheck
    ensures var was, now := Machine(p, levels), Machine(p, levels + [false]);
      now.state == DownCheck <==>
        if was.state == RepeatUpCheck then TrailingRun(levels, true) >= p.short
        else TrailingRun(levels, false) > p.short
    ensures var now := Machine(p, levels + [false]); now.state == DownCheck <==> Reached(now.log) == Idle
  {
    AlwaysSound(p, levels);
    MachineNext(p, levels, false);
    AlwaysSound(p, levels + [false]);
  }

  /** A press becomes a long press exactly when it has lasted for more than long_press_ticks. */
  lemma LongPressIff(p: Params, levels: seq<bool>)
    requires Sensible(p) && Machine(p, levels).state == UpCheck
    ensures Machine(p, levels + [true]).state == LongUpCheck <==> TrailingRun(levels, true) >= p.long
  {
    AlwaysSound(p, levels);
    MachineNext(p, levels, true);
  }

  /** What the trace and the counters say, for every sequence of raw samples. */
  lemma TraceFacts(p: Params, samples: seq<bool>)
    requires Sensible(p)
    ensures var levels := Levels(p.debounce, samples);
      var c := Machine(p, levels);
      && Reached(c.log) != Wrong
      && PressedState(c.state) == Debounced(p.debounce, samples)
      && Downs(c.log) == Rises(levels) && Balance(c.log) == (if Debounced(p.debounce, samples) then 1 else 0)
      && (c.state == RepeatDownCheck || c.state == RepeatUpCheck ==> c.repeat == Presses(c.log) % 256)
      && (c.state == LongUpCheck ==>
            c.holds == Holds(c.log) == (TrailingRun(levels, true) - 1 - p.long) / p.serial)
  {
    var levels := Levels(p.debounce, samples);
    var c := Machine(p, levels);
    AlwaysSound(p, levels);
    DownsAndUps(c.log);
    ClicksCountPresses(c.log);
    if c.state == LongUpCheck {
      HoldingCountsHolds(c.log);
      PeriodsIsQuotient(c.ticks - p.long, p.serial);
    }
  }

  /**
   * A glitch in any state, pressed, held or between clicks: fewer than DEBOUNCE_TICKS samples off the level,
   * and the machine is where it would be without them; so it is later, once the level has been seen again.
   */
  lemma GlitchInvisible(p: Params, s: seq<bool>, n: nat, more: seq<bool>)
    requires Sensible(p) && TrailingRun(s, !Debounced(p.debounce, s)) + n < p.debounce
    ensures var v := Debounced(p.debounce, s);
      && Machine(p, Levels(p.debounce, s + Times(n, !v))) == Machine(p, Levels(p.debounce, s + Times(n, v)))
      && Machine(p, Levels(p.debounce, s + Times(n, !v) + [v] + more))
         == Machine(p, Levels(p.debounce, s + Times(n, v) + [v] + more))
  {
    GlitchIgnored(p.debounce, s, !Debounced(p.debounce, s), n);
    SteadyStays(p.debounce, s, n);
    GlitchLeavesNoTrace(p.debounce, s, n, more);
  }

  /** An idle button that is not pressed raises nothing. */
  lemma {:induction false} IdleStays(p: Params, levels: seq<bool>, n: nat)
    requires Machine(p, levels).state == DownCheck
    ensures Machine(p, levels + Times(n, false)) == Machine(p, levels)
  {
    TimesNext(levels, n, false);
    if n > 0 {
      IdleStays(p, levels, n - 1);
      TimesNext(levels, n - 1, false);
      MachineNext(p, levels + Times(n - 1, false), false);
    }
  }
}
