/** Whole sessions of a button: what clicks, slow presses and long presses report, event by event. */
module ButtonClicks {

  import opened ButtonTrace
  import opened ButtonMachine
  import opened Debounce
  import opened Powers

  // ---- n periods at the same level ----

  /** The machine after n more periods at level v. */
  function Steady(p: Params, c: Core, v: bool, n: nat): Core {
    if n == 0 then c else Decide(p, Ticked(Steady(p, c, v, n - 1)), v)
  }

  lemma {:induction false} MachineSteady(p: Params, levels: seq<bool>, v: bool, n: nat)
    ensures Machine(p, levels + Times(n, v)) == Steady(p, Machine(p, levels), v, n)
  {
    TimesNext(levels, n, v);
    if n > 0 {
      MachineSteady(p, levels, v, n - 1);
      TimesNext(levels, n - 1, v);
      MachineNext(p, levels + Times(n - 1, v), v);
      SteadyNext(p, Machine(p, levels), v, n - 1);
    }
  }

  lemma SteadyNext(p: Params, c: Core, v: bool, n: nat)
    ensures Steady(p, c, v, n + 1) == Decide(p, Ticked(Steady(p, c, v, n)), v)
  {
  }

  lemma {:induction false} SteadySplit(p: Params, c: Core, v: bool, m: nat, n: nat)
    ensures Steady(p, c, v, m + n) == Steady(p, Steady(p, c, v, m), v, n)
  {
    if n > 0 { SteadySplit(p, c, v, m, n - 1); }
  }

  /** A press that is not yet a long one, and a pause in which the session stays open. */
  lemma {:induction false} Waits(p: Params, c: Core, v: bool, n: nat)
    requires
      || (v && c.state == UpCheck && c.ticks + n < p.long)
      || (v && c.state == RepeatUpCheck)
      || (!v && c.state == RepeatDownCheck && c.ticks + n <= p.short)
    ensures Steady(p, c, v, n) == c.(ticks := c.ticks + n)
  {
    if n > 0 { Waits(p, c, v, n - 1); }
  }

  /** The first press of a session, held for n periods. */
  lemma FirstPress(p: Params, c: Core, n: nat)
    requires c.state == DownCheck && 1 <= n <= p.long
    ensures Steady(p, c, true, n) == Core(UpCheck, n - 1, 1, c.holds, c.log + [PRESS_DOWN])
  {
    SteadySplit(p, c, true, 1, n - 1);
    assert Steady(p, c, true, 1) == Decide(p, Ticked(Steady(p, c, true, 0)), true);
    Waits(p, Steady(p, c, true, 1), true, n - 1);
  }

  /** A release and a pause of n periods that leaves the session open. */
  lemma Pause(p: Params, c: Core, n: nat)
    requires c.state == UpCheck || (c.state == RepeatUpCheck && c.ticks + 1 < p.short)
    requires 1 <= n <= p.short + 1
    ensures Steady(p, c, false, n) == c.(state := RepeatDownCheck, ticks := n - 1, log := c.log + [PRESS_UP])
  {
    SteadySplit(p, c, false, 1, n - 1);
    assert Steady(p, c, false, 1) == Decide(p, Ticked(Steady(p, c, false, 0)), false);
    Waits(p, Steady(p, c, false, 1), false, n - 1);
  }

  /** One more press in the session, held for n periods. */
  lemma Repress(p: Params, c: Core, n: nat)
    requires c.state == RepeatDownCheck && n >= 1
    ensures Steady(p, c, true, n) ==
      Core(RepeatUpCheck, n - 1, (c.repeat + 1) % 256, c.holds, c.log + [PRESS_DOWN, PRESS_REPEAT])
  {
    SteadySplit(p, c, true, 1, n - 1);
    assert Steady(p, c, true, 1) == Decide(p, Ticked(Steady(p, c, true, 0)), true);
    Waits(p, Steady(p, c, true, 1), true, n - 1);
  }

  // ---- sessions of clicks ----

  /** A pause, and a press after it. */
  datatype Again = Again(pause: nat, held: nat)

  /** The level over the presses of a session, before the last release. */
  function LevelsOf(first: nat, more: seq<Again>): seq<bool> {
    if more == [] then Times(first, true)
    else
      var a := more[|more| - 1];
      LevelsOf(first, more[..|more| - 1]) + Times(a.pause, false) + Times(a.held, true)
  }

  /** Presses that are not long and pauses that leave the session open; all but the last press are short. */
  predicate Clicking(p: Params, first: nat, more: seq<Again>) {
    && 1 <= first <= p.long
    && (forall i :: 0 <= i < |more| ==> 1 <= more[i].pause <= p.short + 1 && 1 <= more[i].held)
    && (forall i :: 0 <= i < |more| - 1 ==> more[i].held < p.short)
  }

  /** What k presses report, up to the last press. */
  function Pressing(k: nat): seq<Event> {
    if k == 0 then [PRESS_DOWN] else Pressing(k - 1) + [PRESS_UP] + [PRESS_DOWN, PRESS_REPEAT]
  }

  /** The machine while the last of these presses lasts. */
  predicate Pressed(was: Core, c: Core, first: nat, more: seq<Again>) {
    && c.state == (if more == [] then UpCheck else RepeatUpCheck)
    && c.ticks + 1 == (if more == [] then first else more[|more| - 1].held)
    && c.repeat == (|more| + 1) % 256 && c.holds == was.holds && c.log == was.log + Pressing(|more|)
  }

  lemma OneMore(p: Params, before: seq<bool>, a: Again)
    requires var c := Machine(p, before);
      c.state == UpCheck || (c.state == RepeatUpCheck && c.ticks + 1 < p.short)
    requires 1 <= a.pause <= p.short + 1 && 1 <= a.held
    ensures var c := Machine(p, before);
      Machine(p, before + Times(a.pause, false) + Times(a.held, true)) ==
        Core(RepeatUpCheck, a.held - 1, (c.repeat + 1) % 256, c.holds,
             c.log + [PRESS_UP] + [PRESS_DOWN, PRESS_REPEAT])
  {
    MachineSteady(p, before, false, a.pause);
    MachineSteady(p, before + Times(a.pause, false), true, a.held);
    Pause(p, Machine(p, before), a.pause);
    Repress(p, Machine(p, before + Times(a.pause, false)), a.held);
  }

  lemma PressedNext(was: Core, c: Core, first: nat, more: seq<Again>, a: Again)
    requires Pressed(was, c, first, more) && a.held >= 1
    ensures var log := c.log + [PRESS_UP] + [PRESS_DOWN, PRESS_REPEAT];
      Pressed(was, Core(RepeatUpCheck, a.held - 1, (c.repeat + 1) % 256, c.holds, log), first, more + [a])
  {
    assert was.log + Pressing(|more|) + [PRESS_UP] + [PRESS_DOWN, PRESS_REPEAT] == was.log + Pressing(|more| + 1);
  }

  lemma JoinedLevels(levels: seq<bool>, first: nat, more: seq<Again>)
    requires more != []
    ensures var k := |more| - 1;
      levels + LevelsOf(first, more) ==
        levels + LevelsOf(first, more[..k]) + Times(more[k].pause, false) + Times(more[k].held, true)
  {
  }

  lemma FirstPressed(p: Params, levels: seq<bool>, first: nat)
    requires Machine(p, levels).state == DownCheck && 1 <= first <= p.long
    ensures Pressed(Machine(p, levels), Machine(p, levels + Times(first, true)), first, [])
  {
    MachineSteady(p, levels, true, first);
    FirstPress(p, Machine(p, levels), first);
  }

  lemma MorePressed(p: Params, was: Core, before: seq<bool>, first: nat, front: seq<Again>, a: Again)
    requires Pressed(was, Machine(p, before), first, front) && Clicking(p, first, front + [a])
    ensures Pressed(was, Machine(p, before + Times(a.pause, false) + Times(a.held, true)), first, front + [a])
  {
    var more, k := front + [a], |front|;
    assert more[k] == a && forall i :: 0 <= i < k ==> more[i] == front[i];
    OneMore(p, before, a);
    PressedNext(was, Machine(p, before), first, front, a);
  }

  lemma {:induction false} WhilePressing(p: Params, levels: seq<bool>, first: nat, more: seq<Again>)
    requires Machine(p, levels).state == DownCheck && Clicking(p, first, more)
    ensures Pressed(Machine(p, levels), Machine(p, levels + LevelsOf(first, more)), first, more)
  {
    if more == [] {
      FirstPressed(p, levels, first);
    } else {
      var k := |more| - 1;
      assert Clicking(p, first, more[..k]) && more[..k] + [more[k]] == more;
      WhilePressing(p, levels, first, more[..k]);
      MorePressed(p, Machine(p, levels), levels + LevelsOf(first, more[..k]), first, more[..k], more[k]);
      JoinedLevels(levels, first, more);
    }
  }

  /** The level stays up for long enough: the session ends once, and nothing follows. */
  lemma SilenceEnds(p: Params, c: Core, n: nat)
    requires c.state == UpCheck || (c.state == RepeatUpCheck && c.ticks + 1 < p.short)
    requires n >= p.short + 2
    ensures Steady(p, c, false, n) ==
      Core(DownCheck, p.short + 1, 0, c.holds, c.log + [PRESS_UP] + (Clicks(c.repeat) + [PRESS_END]))
  {
    var m := p.short + 1;
    Pause(p, c, m);
    var d := Steady(p, c, false, m);
    assert Steady(p, c, false, m + 1) == Decide(p, Ticked(d), false);
    SteadySplit(p, c, false, m + 1, n - (m + 1));
    IdleSteady(p, Steady(p, c, false, m + 1), n - (m + 1));
  }

  lemma {:induction false} IdleSteady(p: Params, c: Core, n: nat)
    requires c.state == DownCheck
    ensures Steady(p, c, false, n) == c
  {
    if n > 0 { IdleSteady(p, c, n - 1); }
  }

  /** The events of a session of `more` further presses, modulo 256, which ends in silence. */
  function ClickEvents(more: nat): seq<Event> {
    Pressing(more) + [PRESS_UP]
    + (if more % 256 == 0 then [SINGLE_CLICK] else if more % 256 == 1 then [DOUBLE_CLICK] else [])
    + [MULTIPLE_CLICK, PRESS_REPEAT_DONE, PRESS_END]
  }

  /**
   * A session of clicks, however many, from an idle button: every press and release is reported once, every
   * press but the first as a repeat, then the number of clicks, then the end.
   */
  lemma ClickSession(p: Params, levels: seq<bool>, first: nat, more: seq<Again>, silence: nat)
    requires Machine(p, levels).state == DownCheck && Clicking(p, first, more) && silence >= p.short + 2
    requires more != [] ==> more[|more| - 1].held < p.short
    ensures var n := Machine(p, levels + LevelsOf(first, more) + Times(silence, false));
      n.state == DownCheck && n.log == Machine(p, levels).log + ClickEvents(|more|)
  {
    WhilePressing(p, levels, first, more);
    var before := levels + LevelsOf(first, more);
    SilenceEnds(p, Machine(p, before), silence);
    MachineSteady(p, before, false, silence);
    CountedClicks(Machine(p, levels).log, |more|);
  }

  lemma CountedClicks(log: seq<Event>, more: nat)
    ensures log + Pressing(more) + [PRESS_UP] + (Clicks((more + 1) % 256) + [PRESS_END]) == log + ClickEvents(more)
  {
    ByteCount(more);
  }

  lemma ByteCount(more: nat)
    ensures (more + 1) % 256 == 1 <==> more % 256 == 0
    ensures (more + 1) % 256 == 2 <==> more % 256 == 1
  {
  }

  /** The two that matter most, spelled out. */
  lemma SingleAndDoubleClick(p: Params, first: nat, pause: nat, second: nat, silence: nat)
    requires 1 <= first <= p.long && silence >= p.short + 2
    requires 1 <= pause <= p.short + 1 && 1 <= second < p.short
    ensures Machine(p, Times(first, true) + Times(silence, false)).log ==
      [PRESS_DOWN, PRESS_UP, SINGLE_CLICK, MULTIPLE_CLICK, PRESS_REPEAT_DONE, PRESS_END]
    ensures Machine(p, Times(first, true) + Times(pause, false) + Times(second, true) + Times(silence, false)).log ==
      [PRESS_DOWN, PRESS_UP, PRESS_DOWN, PRESS_REPEAT, PRESS_UP, DOUBLE_CLICK, MULTIPLE_CLICK, PRESS_REPEAT_DONE,
       PRESS_END]
  {
    ClickSession(p, [], first, [], silence);
    assert [] + LevelsOf(first, []) == Times(first, true);
    var more := [Again(pause, second)];
    ClickSession(p, [], first, more, silence);
    assert more[..0] == [];
    assert [] + LevelsOf(first, more) == Times(first, true) + Times(pause, false) + Times(second, true);
    assert Pressing(1) == Pressing(0) + [PRESS_UP] + [PRESS_DOWN, PRESS_REPEAT];
  }

  /** A repeated press that is held for short_press_ticks ends the session at its release, with no count of clicks. */
  lemma SlowRepeat(p: Params, levels: seq<bool>, first: nat, more: seq<Again>, silence: nat)
    requires Machine(p, levels).state == DownCheck && Clicking(p, first, more) && silence >= 1
    requires more != [] && more[|more| - 1].held >= p.short
    ensures var n := Machine(p, levels + LevelsOf(first, more) + Times(silence, false));
      n.state == DownCheck && n.log == Machine(p, levels).log + Pressing(|more|) + [PRESS_UP, PRESS_END]
  {
    WhilePressing(p, levels, first, more);
    var before := levels + LevelsOf(first, more);
    var c := Machine(p, before);
    SlowRelease(p, c, silence);
    MachineSteady(p, before, false, silence);
  }

  lemma SlowRelease(p: Params, c: Core, n: nat)
    requires c.state == RepeatUpCheck && c.ticks + 1 >= p.short && n >= 1
    ensures Steady(p, c, false, n) == c.(state := DownCheck, ticks := c.ticks + 1, log := c.log + [PRESS_UP, PRESS_END])
  {
    SteadySplit(p, c, false, 1, n - 1);
    assert Steady(p, c, false, 1) == Decide(p, Ticked(Steady(p, c, false, 0)), false);
    IdleSteady(p, Steady(p, c, false, 1), n - 1);
  }

  // ---- a long press ----

  function Holdings(n: nat): seq<Event> { seq(n, i => LONG_PRESS_HOLD) }

  lemma {:induction false} Holds(p: Params, c: Core, n: nat)
    requires Sensible(p) && c.state == LongUpCheck && c.ticks == p.long && c.holds == 0
    ensures Steady(p, c, true, n) ==
      c.(ticks := p.long + n, holds := Periods(n, p.serial), log := c.log + Holdings(Periods(n, p.serial)))
  {
    if n == 0 {
      assert c.log + Holdings(0) == c.log;
    } else {
      Holds(p, c, n - 1);
      PeriodsStep(n, p.serial);
      var k := Periods(n - 1, p.serial);
      assert c.log + Holdings(k) + [LONG_PRESS_HOLD] == c.log + Holdings(k + 1);
    }
  }

  /**
   * A press held for `held` periods, more than long_press_ticks, from an idle button: one start, a hold for every
   * SERIAL_TICKS after that, and at the release the end.
   */
  lemma LongPress(p: Params, levels: seq<bool>, held: nat, silence: nat)
    requires Sensible(p) && Machine(p, levels).state == DownCheck && Machine(p, levels).holds == 0
    requires held > p.long && silence >= 1
    ensures var n := Machine(p, levels + Times(held, true) + Times(silence, false));
      && n.state == DownCheck && n.holds == 0
      && n.log == Machine(p, levels).log + [PRESS_DOWN, LONG_PRESS_START]
                  + Holdings((held - p.long - 1) / p.serial) + [LONG_PRESS_UP, PRESS_UP, PRESS_END]
  {
    var was := Machine(p, levels);
    LongHeld(p, was, held);
    MachineSteady(p, levels, true, held);
    MachineSteady(p, levels + Times(held, true), false, silence);
    LongRelease(p, Steady(p, was, true, held), silence);
  }

  lemma LongHeld(p: Params, c: Core, held: nat)
    requires Sensible(p) && c.state == DownCheck && c.holds == 0 && held > p.long
    ensures var n := (held - p.long - 1) / p.serial;
      Steady(p, c, true, held) ==
        Core(LongUpCheck, held - 1, 1, n, c.log + [PRESS_DOWN, LONG_PRESS_START] + Holdings(n))
  {
    var n := held - p.long - 1;
    LongStart(p, c);
    SteadySplit(p, c, true, p.long + 1, n);
    Holds(p, Steady(p, c, true, p.long + 1), n);
    PeriodsIsQuotient(n, p.serial);
  }

  lemma LongStart(p: Params, c: Core)
    requires c.state == DownCheck && p.long >= 1
    ensures Steady(p, c, true, p.long + 1) ==
      Core(LongUpCheck, p.long, 1, c.holds, c.log + [PRESS_DOWN, LONG_PRESS_START])
  {
    FirstPress(p, c, p.long);
    var up := Steady(p, c, true, p.long);
    assert Steady(p, c, true, p.long + 1) == Decide(p, Ticked(up), true);
    assert c.log + [PRESS_DOWN] + [LONG_PRESS_START] == c.log + [PRESS_DOWN, LONG_PRESS_START];
  }

  lemma LongRelease(p: Params, c: Core, n: nat)
    requires c.state == LongUpCheck && n >= 1
    ensures Steady(p, c, false, n) ==
      c.(state := DownCheck, ticks := c.ticks + 1, holds := 0, log := c.log + [LONG_PRESS_UP, PRESS_UP, PRESS_END])
  {
    SteadySplit(p, c, false, 1, n - 1);
    assert Steady(p, c, false, 1) == Decide(p, Ticked(Steady(p, c, false, 0)), false);
    IdleSteady(p, Steady(p, c, false, 1), n - 1);
  }

  // ---- when a session ends ----

  predicate EndsAt(p: Params, c: Core, v: bool) {
    !v && (c.state == LongUpCheck || (c.state == RepeatUpCheck && c.ticks + 1 >= p.short)
           || (c.state == RepeatDownCheck && c.ticks + 1 > p.short))
  }

  lemma StepEndsIff(p: Params, c: Core, v: bool)
    ensures var now := Decide(p, Ticked(c), v);
      c.log <= now.log && (PRESS_END in now.log[|c.log|..] <==> EndsAt(p, c, v))
  {
    var now := Decide(p, Ticked(c), v);
    var new_ := now.log[|c.log|..];
    if EndsAt(p, c, v) { assert new_[|new_| - 1] == PRESS_END; }
  }

  /**
   * PRESS_END is raised exactly at the release of a long press, at the release of a repeated press that lasted
   * short_press_ticks, and between clicks once the button has been up for more than that. No press ends a session.
   */
  lemma EndsIff(p: Params, levels: seq<bool>, v: bool)
    requires Sensible(p)
    ensures var was, now := Machine(p, levels), Machine(p, levels + [v]);
      && was.log <= now.log
      && (PRESS_END in now.log[|was.log|..] <==>
            !v && (was.state == LongUpCheck
                   || (was.state == RepeatUpCheck && TrailingRun(levels, true) >= p.short)
                   || (was.state == RepeatDownCheck && TrailingRun(levels, false) > p.short)))
  {
    AlwaysSound(p, levels);
    MachineNext(p, levels, v);
    StepEndsIff(p, Machine(p, levels), v);
  }

  /** A press between clicks is one more press of the session. */
  lemma PressContinues(p: Params, levels: seq<bool>)
    requires Sensible(p) && Machine(p, levels).state == RepeatDownCheck
    ensures var was, now := Machine(p, levels), Machine(p, levels + [true]);
      && Presses(now.log) == Presses(was.log) + 1
      && now.log == was.log + [PRESS_DOWN, PRESS_REPEAT] && now.repeat == (was.repeat + 1) % 256
  {
    MachineNext(p, levels, true);
    var log := Machine(p, levels).log;
    assert (log + [PRESS_DOWN, PRESS_REPEAT])[..|log| + 1] == log + [PRESS_DOWN];
    assert (log + [PRESS_DOWN])[..|log|] == log;
  }
}
