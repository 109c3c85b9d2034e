/** The debounced level of a button: what a sequence of raw samples amounts to. */
module Debounce {

  /** How many of the last samples are `v` without interruption. */
  function TrailingRun(s: seq<bool>, v: bool): (n: nat)
    ensures n <= |s|
  {
    if s == [] || s[|s| - 1] != v then 0 else TrailingRun(s[..|s| - 1], v) + 1
  }

  /** The value that was last held for d samples in a row; inactive before any was. */
  function Debounced(d: nat, s: seq<bool>): bool {
    if s == [] then false
    else
      var v := s[|s| - 1];
      if TrailingRun(s, v) >= d then v else Debounced(d, s[..|s| - 1])
  }

  /** The debounced level after each sample. */
  function Levels(d: nat, s: seq<bool>): (ls: seq<bool>)
    ensures |ls| == |s|
  {
    if s == [] then [] else Levels(d, s[..|s| - 1]) + [Debounced(d, s)]
  }

  lemma RunNext(s: seq<bool>, b: bool, v: bool)
    ensures TrailingRun(s + [b], v) == if b == v then TrailingRun(s, v) + 1 else 0
  {
    assert (s + [b])[..|s|] == s;
  }

  lemma DebouncedNext(d: nat, s: seq<bool>, b: bool)
    ensures Debounced(d, s + [b]) == if TrailingRun(s, b) + 1 >= d then b else Debounced(d, s)
    ensures Levels(d, s + [b]) == Levels(d, s) + [Debounced(d, s + [b])]
  {
    assert (s + [b])[..|s|] == s;
    RunNext(s, b, b);
  }

  // ---- glitches ----

  function Times(n: nat, b: bool): seq<bool> { seq(n, i => b) }

  lemma TimesNext(s: seq<bool>, n: nat, b: bool)
    ensures s + Times(0, b) == s && s + Times(n + 1, b) == (s + Times(n, b)) + [b]
  {
  }

  /** A change that does not last d samples leaves the level as it was all the time. */
  lemma {:induction false} GlitchIgnored(d: nat, s: seq<bool>, b: bool, n: nat)
    requires TrailingRun(s, b) + n < d
    ensures Debounced(d, s + Times(n, b)) == Debounced(d, s) && TrailingRun(s + Times(n, b), b) == TrailingRun(s, b) + n
    ensures Levels(d, s + Times(n, b)) == Levels(d, s) + Times(n, Debounced(d, s))
  {
    TimesNext(s, n, b);
    TimesNext(Levels(d, s), n, Debounced(d, s));
    if n > 0 {
      GlitchIgnored(d, s, b, n - 1);
      TimesNext(s, n - 1, b);
      TimesNext(Levels(d, s), n - 1, Debounced(d, s));
      DebouncedNext(d, s + Times(n - 1, b), b);
      RunNext(s + Times(n - 1, b), b, b);
    }
  }

  /** Samples of the level that there is leave it as it is. */
  lemma {:induction false} SteadyStays(d: nat, s: seq<bool>, n: nat)
    ensures Debounced(d, s + Times(n, Debounced(d, s))) == Debounced(d, s)
    ensures Levels(d, s + Times(n, Debounced(d, s))) == Levels(d, s) + Times(n, Debounced(d, s))
  {
    var b := Debounced(d, s);
    TimesNext(s, n, b);
    TimesNext(Levels(d, s), n, b);
    if n > 0 {
      SteadyStays(d, s, n - 1);
      TimesNext(s, n - 1, b);
      TimesNext(Levels(d, s), n - 1, b);
      DebouncedNext(d, s + Times(n - 1, b), b);
    }
  }

  /** The length of the run is what it should be: so many samples are v, and the one before is not. */
  lemma {:induction false} TrailingRunIs(s: seq<bool>, v: bool)
    ensures var n := TrailingRun(s, v);
      (forall i :: |s| - n <= i < |s| ==> s[i] == v) && (n < |s| ==> s[|s| - n - 1] != v)
  {
    if s != [] && s[|s| - 1] == v { TrailingRunIs(s[..|s| - 1], v); }
  }

  /** A change that lasts d samples is followed, at its last sample at the latest, and at no other time. */
  lemma {:induction false} LevelFollows(d: nat, s: seq<bool>, v: bool, n: nat)
    requires n >= 1
    ensures TrailingRun(s + Times(n, v), v) == TrailingRun(s, v) + n
    ensures Debounced(d, s + Times(n, v)) == if TrailingRun(s, v) + n >= d then v else Debounced(d, s)
  {
    TimesNext(s, n - 1, v);
    RunNext(s + Times(n - 1, v), v, v);
    DebouncedNext(d, s + Times(n - 1, v), v);
    if n == 1 {
      TimesNext(s, 0, v);
    } else {
      LevelFollows(d, s, v, n - 1);
    }
  }

  /** Two histories that no further sample tells apart: the same level, and as far on the way to the other. */
  ghost predicate Alike(d: nat, s: seq<bool>, t: seq<bool>) {
    Debounced(d, s) == Debounced(d, t) && TrailingRun(s, !Debounced(d, s)) == TrailingRun(t, !Debounced(d, s))
  }

  lemma AlikeNext(d: nat, s: seq<bool>, t: seq<bool>, b: bool)
    requires Alike(d, s, t)
    ensures Alike(d, s + [b], t + [b])
  {
    var v := Debounced(d, s);
    DebouncedNext(d, s, b);
    DebouncedNext(d, t, b);
    RunNext(s, b, v);
    RunNext(t, b, v);
    RunNext(s, b, !v);
    RunNext(t, b, !v);
  }

  lemma MoreNext(s: seq<bool>, more: seq<bool>, k: nat)
    requires |more| == k + 1
    ensures (s + more[..k]) + [more[k]] == s + more
  {
  }

  lemma {:induction false} AlikeOn(d: nat, s: seq<bool>, t: seq<bool>, more: seq<bool>)
    requires Alike(d, s, t) && Levels(d, s) == Levels(d, t)
    ensures Levels(d, s + more) == Levels(d, t + more) && Alike(d, s + more, t + more)
  {
    if more == [] {
      assert s + more == s && t + more == t;
    } else {
      var k := |more| - 1;
      AlikeOn(d, s, t, more[..k]);
      AlikeNext(d, s + more[..k], t + more[..k], more[k]);
      DebouncedNext(d, s + more[..k], more[k]);
      DebouncedNext(d, t + more[..k], more[k]);
      MoreNext(s, more, k);
      MoreNext(t, more, k);
    }
  }

  /**
   * Fewer than d samples off the level, then one back on it: from there on everything is as if those
   * samples had not left the level, whatever follows.
   */
  lemma GlitchLeavesNoTrace(d: nat, s: seq<bool>, n: nat, more: seq<bool>)
    requires d >= 1 && TrailingRun(s, !Debounced(d, s)) + n < d
    ensures var v := Debounced(d, s);
      Levels(d, s + Times(n, !v) + [v] + more) == Levels(d, s + Times(n, v) + [v] + more)
  {
    var v := Debounced(d, s);
    var glitch, steady := s + Times(n, !v), s + Times(n, v);
    GlitchIgnored(d, s, !v, n);
    SteadyStays(d, s, n);
    DebouncedNext(d, glitch, v);
    DebouncedNext(d, steady, v);
    RunNext(glitch, v, !v);
    RunNext(steady, v, !v);
    AlikeOn(d, glitch + [v], steady + [v], more);
  }
}
