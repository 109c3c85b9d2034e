/** The button driver (components/button/iot_button.c), one sample at a time. */
module Button {

  import opened ButtonTrace
  import opened ButtonMachine
  import opened Debounce

  class ButtonDev {
    const p: Params
    var ticks: nat
    var longPressHoldCnt: nat
    var repeat: nat
    var state: State
    var debounceCnt: nat
    var active: bool                  // button_level == BUTTON_ACTIVE
    var log: seq<Event>               // the events raised, in order
    ghost var samples: seq<bool>      // the samples so far

    /** The level is the debounced one, and the counter says how far a change has come. */
    ghost predicate LevelOk()
      reads this`active, this`debounceCnt, this`samples
    {
      && active == Debounced(p.debounce, samples)
      && debounceCnt == TrailingRun(samples, !active) < p.debounce
    }

    function Now(): Core
      reads this`state, this`ticks, this`repeat, this`longPressHoldCnt, this`log
    {
      Core(state, ticks, repeat, longPressHoldCnt, log)
    }

    /** The fields are what the state machine makes of the debounced level. */
    ghost predicate Valid()
      reads this
    {
      Sensible(p) && LevelOk() && Now() == Machine(p, Levels(p.debounce, samples))
    }

    constructor (p: Params)
      requires Sensible(p)
      ensures Valid() && this.p == p && samples == [] && log == []
    {
      this.p := p;
      ticks, longPressHoldCnt, repeat, state, debounceCnt, active := 0, 0, 0, DownCheck, 0, false;
      log, samples := [], [];
    }

    /** The debounce part of the handler. */
    method Filter(level: bool)
      requires p.debounce >= 1 && LevelOk()
      modifies this`active, this`debounceCnt, this`samples
      ensures samples == old(samples) + [level] && LevelOk()
      ensures Levels(p.debounce, samples) == Levels(p.debounce, old(samples)) + [active]
    {
      RunNext(samples, level, !active);
      RunNext(samples, level, active);
      DebouncedNext(p.debounce, samples, level);
      samples := samples + [level];
      if level != active {
        debounceCnt := debounceCnt + 1;
        if debounceCnt >= p.debounce {
          active := level;
          debounceCnt := 0;
        }
      } else {
        debounceCnt := 0;
      }
    }

    method Raise(e: Event)
      modifies this`log
      ensures log == old(log) + [e]
    {
      log := log + [e];
    }

    /** button_handler: one period of the driver. */
    method Handler(level: bool)
      requires Valid()
      modifies this
      ensures Valid() && samples == old(samples) + [level]
    {
      ghost var levels := Levels(p.debounce, samples);
      if state != DownCheck { ticks := ticks + 1; }
      Filter(level);
      MachineNext(p, levels, active);
      RunMachine();
    }

    method RunMachine()
      modifies this`log, this`ticks, this`repeat, this`state, this`longPressHoldCnt
      ensures Now() == Decide(p, old(Now()), active)
    {
      match state
      case DownCheck => CheckDown();
      case UpCheck => CheckUp();
      case RepeatDownCheck => CheckRepeatDown();
      case RepeatUpCheck => CheckRepeatUp();
      case LongUpCheck => CheckLongUp();
    }

    method CheckDown()
      requires state == DownCheck
      modifies this`log, this`ticks, this`repeat, this`state
      ensures Now() == Decide(p, old(Now()), active)
    {
      if active {
        Raise(PRESS_DOWN);
        ticks := 0;
        repeat := 1;
        state := UpCheck;
      }
    }

    method CheckUp()
      requires state == UpCheck
      modifies this`log, this`ticks, this`state
      ensures Now() == Decide(p, old(Now()), active)
    {
      if !active {
        Raise(PRESS_UP);
        ticks := 0;
        state := RepeatDownCheck;
      } else if ticks >= p.long {
        Raise(LONG_PRESS_START);
        state := LongUpCheck;
      }
    }

    method CheckRepeatDown()
      requires state == RepeatDownCheck
      modifies this`log, this`ticks, this`state, this`repeat
      ensures Now() == Decide(p, old(Now()), active)
    {
      if active {
        Raise(PRESS_DOWN);
        repeat := (repeat + 1) % 256;
        Raise(PRESS_REPEAT);
        ticks := 0;
        state := RepeatUpCheck;
        assert log == old(log) + [PRESS_DOWN, PRESS_REPEAT];
      } else if ticks > p.short {
        RaiseClicks();
        repeat := 0;
        state := DownCheck;
        Raise(PRESS_END);
        assert log == old(log) + (Clicks(old(repeat)) + [PRESS_END]);
      }
    }

    method RaiseClicks()
      modifies this`log
      ensures log == old(log) + Clicks(repeat)
    {
      if repeat == 1 {
        Raise(SINGLE_CLICK);
      } else if repeat == 2 {
        Raise(DOUBLE_CLICK);
      }
      Raise(MULTIPLE_CLICK);
      Raise(PRESS_REPEAT_DONE);
    }

    method CheckRepeatUp()
      requires state == RepeatUpCheck
      modifies this`log, this`ticks, this`state
      ensures Now() == Decide(p, old(Now()), active)
    {
      if !active {
        Raise(PRESS_UP);
        if ticks < p.short {
          ticks := 0;
          state := RepeatDownCheck;
        } else {
          state := DownCheck;
          Raise(PRESS_END);
          assert log == old(log) + [PRESS_UP, PRESS_END];
        }
      }
    }

    method CheckLongUp()
      requires state == LongUpCheck
      modifies this`log, this`state, this`longPressHoldCnt
      ensures Now() == Decide(p, old(Now()), active)
    {
      if active {
        if ticks >= (longPressHoldCnt + 1) * p.serial + p.long {
          longPressHoldCnt := longPressHoldCnt + 1;
          Raise(LONG_PRESS_HOLD);
        }
      } else {
        Raise(LONG_PRESS_UP);
        Raise(PRESS_UP);
        state := DownCheck;
        longPressHoldCnt := 0;
        Raise(PRESS_END);
        assert log == old(log) + [LONG_PRESS_UP, PRESS_UP, PRESS_END];
      }
    }
  }

  lemma SampleNext(samples: seq<bool>, input: seq<bool>, i: nat)
    requires i <= |input|
    ensures i < |input| ==> samples + input[..i] + [input[i]] == samples + input[..i + 1]
    ensures i == |input| ==> input[..i] == input
  {
  }

  /** The driver over a sequence of samples. */
  method Feed(b: ButtonDev, input: seq<bool>)
    requires b.Valid()
    modifies b
    ensures b.Valid() && b.samples == old(b.samples) + input
  {
    for i := 0 to |input|
      invariant b.Valid() && b.samples == old(b.samples) + input[..i]
    {
      b.Handler(input[i]);
      SampleNext(old(b.samples), input, i);
    }
    SampleNext(old(b.samples), input, |input|);
  }

  /** A new driver over a sequence of samples: its whole event log and where it stands. */
  method Trace(p: Params, input: seq<bool>) returns (log: seq<Event>, state: State)
    requires Sensible(p)
    ensures log == Machine(p, Levels(p.debounce, input)).log && Reached(log) != Wrong
    ensures PressedState(state) == Debounced(p.debounce, input)
    ensures Balance(log) == if Debounced(p.debounce, input) then 1 else 0
  {
    var b := new ButtonDev(p);
    Feed(b, input);
    log, state := b.log, b.state;
    assert [] + input == input;
    TraceFacts(p, input);
  }

  /**
   * The driver under a glitch, whatever it is doing: its state, its counters and its log are those of a
   * driver that saw the level it already had, and it is still on that level.
   */
  method IgnoreGlitch(b: ButtonDev, n: nat)
    requires b.Valid() && TrailingRun(b.samples, !b.active) + n < b.p.debounce
    modifies b
    ensures b.Valid() && b.active == old(b.active) && b.samples == old(b.samples) + Times(n, !old(b.active))
    ensures b.Now() == Machine(b.p, Levels(b.p.debounce, old(b.samples) + Times(n, old(b.active))))
    ensures PressedState(b.state) == PressedState(old(b.state))
    ensures old(b.state) == DownCheck ==> b.Now() == old(b.Now())
  {
    ghost var s, d := b.samples, b.p.debounce;
    ghost var quiet := Times(n, b.active);
    GlitchInvisible(b.p, s, n, []);
    GlitchIgnored(d, s, !b.active, n);
    SteadyStays(d, s, n);
    TraceFacts(b.p, s);
    TraceFacts(b.p, s + quiet);
    if b.state == DownCheck { IdleStays(b.p, Levels(d, s), n); }
    Feed(b, Times(n, !b.active));
  }
}
