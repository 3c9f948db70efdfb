/** Properties of whole gesture sessions: what a run of events does to the
    counters, the log and the one-shot flag. */
module Session {
  import opened JavaInt
  import opened Gestures

  /** Number of events in `es` that counter `k` tallies. */
  function Occurrences(es: seq<Event>, k: Counter): (n: nat)
    ensures n <= |es|
  {
    if |es| == 0 then 0
    else (if Tallies(es[0], k) then 1 else 0) + Occurrences(es[1..], k)
  }

  /** The log lines of `es`, in order, when nothing is suppressed. */
  function Transcript(es: seq<Event>): seq<Line>
  {
    if |es| == 0 then [] else Lines(es[0]) + Transcript(es[1..])
  }

  /** `es` without its first confirmed single tap. */
  function Suppress(es: seq<Event>): seq<Event>
  {
    if |es| == 0 then []
    else if es[0].SingleTapConfirmed? then es[1..]
    else [es[0]] + Suppress(es[1..])
  }

  /** `es` with every `DoubleTapEvent` removed. */
  function WithoutDoubleTapEvents(es: seq<Event>): seq<Event>
  {
    if |es| == 0 then []
    else if es[0].DoubleTapEvent? then WithoutDoubleTapEvents(es[1..])
    else [es[0]] + WithoutDoubleTapEvents(es[1..])
  }

  /** While the flag is armed, no confirmed tap has been counted or logged since the clear. */
  predicate Consistent(s: State)
  {
    s.buttonClicked ==> Get(s.counts, SingleTaps) == 0 && SingleTapLine !in s.log
  }

  // ---------------------------------------------------------------------------
  // Runs compose

  lemma {:induction false} RunConcat(s: State, a: seq<Event>, b: seq<Event>)
    ensures Run(s, a + b) == Run(Run(s, a), b)
    decreases |a|
  {
    if |a| > 0 {
      assert (a + b)[0] == a[0];
      assert (a + b)[1..] == a[1..] + b;
      RunConcat(Step(s, a[0]), a[1..], b);
    } else {
      assert a + b == b;
    }
  }

  /** Everything before a clear is forgotten: two sessions that clear and then
      see the same events end in the same state. */
  lemma RunThroughClear(s: State, t: State, a: seq<Event>, b: seq<Event>)
    ensures Run(s, a + [Clear] + b) == Run(t, [Clear] + b)
  {
    RunConcat(s, a, [Clear] + b);
    assert a + [Clear] + b == a + ([Clear] + b);
    assert ([Clear] + b)[1..] == b;
  }

  /** Pressing clear twice is the same as pressing it once. */
  lemma ClearIdempotent(s: State)
    ensures Run(s, [Clear, Clear]) == Run(s, [Clear])
  {
    assert [Clear, Clear][1..] == [Clear];
  }

  /** `onDoubleTapEvent` is invisible: removing every such event from any run
      changes nothing. */
  lemma {:induction false} DoubleTapEventsInvisible(s: State, es: seq<Event>)
    ensures Run(s, es) == Run(s, WithoutDoubleTapEvents(es))
    decreases |es|
  {
    if |es| > 0 {
      DoubleTapEventsInvisible(Step(s, es[0]), es[1..]);
      if !es[0].DoubleTapEvent? {
        var w := [es[0]] + WithoutDoubleTapEvents(es[1..]);
        assert w[0] == es[0] && w[1..] == WithoutDoubleTapEvents(es[1..]);
      }
    }
  }

  // ---------------------------------------------------------------------------
  // Runs without a clear

  /** With the flag disarmed and no clear, the flag stays disarmed and the log
      grows by exactly the transcript of the events. */
  lemma {:induction false} RunIdleLog(s: State, es: seq<Event>)
    requires !s.buttonClicked
    requires Clear !in es
    ensures Run(s, es).log == s.log + Transcript(es)
    ensures !Run(s, es).buttonClicked
    decreases |es|
  {
    if |es| > 0 {
      assert es == [es[0]] + es[1..];
      RunIdleLog(Step(s, es[0]), es[1..]);
    }
  }

  /** With the flag disarmed and no clear, each counter grows by the number of its
      events (as a Java `int`). */
  lemma {:induction false} RunIdleCount(s: State, es: seq<Event>, k: Counter)
    requires !s.buttonClicked
    requires Clear !in es
    ensures Get(Run(s, es).counts, k) == Wrap(Get(s.counts, k) + Occurrences(es, k))
    decreases |es|
  {
    var x: int := Get(s.counts, k);
    if |es| > 0 {
      var e, rest := es[0], es[1..];
      assert es == [e] + rest;
      var s1 := Step(s, e);
      RunIdleCount(s1, rest, k);
      var m := Occurrences(rest, k);
      if Tallies(e, k) {
        assert Get(s1.counts, k) == Wrap(x + 1);
        WrapAdd(x + 1, m);
      } else {
        assert Get(s1.counts, k) == x;
      }
    }
  }

  /** With the flag disarmed and no clear, every event contributes its line and
      its tally. */
  lemma RunIdle(s: State, es: seq<Event>)
    requires !s.buttonClicked
    requires Clear !in es
    ensures Run(s, es).log == s.log + Transcript(es)
    ensures forall k :: Get(Run(s, es).counts, k) == Wrap(Get(s.counts, k) + Occurrences(es, k))
    ensures !Run(s, es).buttonClicked
  {
    RunIdleLog(s, es);
    forall k ensures Get(Run(s, es).counts, k) == Wrap(Get(s.counts, k) + Occurrences(es, k)) {
      RunIdleCount(s, es, k);
    }
  }

  /** Delivering an event other than a clear or a confirmed tap does not depend on
      the flag and leaves it as it was. */
  lemma StepIgnoresFlag(s: State, e: Event, b: bool)
    requires !e.Clear? && !e.SingleTapConfirmed?
    ensures Step(s.(buttonClicked := b), e) == Step(s, e).(buttonClicked := b)
  {
  }

  /** With the flag armed and no clear, the session behaves as a disarmed one that
      never saw the first confirmed tap; if no confirmed tap comes, the flag stays
      armed and nothing else differs. */
  lemma {:induction false} RunArmed(s: State, es: seq<Event>)
    requires s.buttonClicked
    requires Clear !in es
    ensures Occurrences(es, SingleTaps) == 0 ==>
      Run(s, es) == Run(s.(buttonClicked := false), es).(buttonClicked := true)
    ensures Occurrences(es, SingleTaps) > 0 ==>
      Run(s, es) == Run(s.(buttonClicked := false), Suppress(es))
    decreases |es|
  {
    if |es| > 0 {
      var e, rest := es[0], es[1..];
      assert es == [e] + rest;
      var idle := s.(buttonClicked := false);
      if !e.SingleTapConfirmed? {
        var s1 := Step(s, e);
        StepIgnoresFlag(s, e, false);
        assert s1.(buttonClicked := false) == Step(idle, e);
        RunArmed(s1, rest);
        var w := [e] + Suppress(rest);
        assert w[0] == e && w[1..] == Suppress(rest);
      }
    }
  }

  lemma {:induction false} SuppressCounts(es: seq<Event>, k: Counter)
    requires Clear !in es
    ensures Clear !in Suppress(es)
    ensures Occurrences(es, SingleTaps) == 0 ==> Suppress(es) == es
    ensures Occurrences(Suppress(es), k) ==
      if k == SingleTaps && Occurrences(es, k) > 0 then Occurrences(es, k) - 1 else Occurrences(es, k)
    decreases |es|
  {
    if |es| > 0 {
      assert es == [es[0]] + es[1..];
      SuppressCounts(es[1..], k);
      if !es[0].SingleTapConfirmed? {
        var w := [es[0]] + Suppress(es[1..]);
        assert w[0] == es[0] && w[1..] == Suppress(es[1..]);
      }
    }
  }

  /** After a clear, the flag is still armed exactly when no confirmed tap has
      arrived, and the log is the transcript of the events without the tap the
      flag swallowed. */
  lemma AfterClearLog(s: State, es: seq<Event>)
    requires Clear !in es
    ensures Run(ClearAll(s), es).log == Transcript(Suppress(es))
    ensures Run(ClearAll(s), es).buttonClicked <==> Occurrences(es, SingleTaps) == 0
  {
    var c := ClearAll(s);
    var idle := c.(buttonClicked := false);
    RunArmed(c, es);
    SuppressCounts(es, SingleTaps);
    RunIdleLog(idle, Suppress(es));
  }

  /** After a clear, a counter holds the number of its events, less the confirmed
      tap the flag swallowed (as a Java `int`). */
  lemma AfterClearCount(s: State, es: seq<Event>, k: Counter)
    requires Clear !in es
    ensures var n := Occurrences(es, k);
      Get(Run(ClearAll(s), es).counts, k) == Wrap(if k == SingleTaps && n > 0 then n - 1 else n)
  {
    var c := ClearAll(s);
    var idle := c.(buttonClicked := false);
    RunArmed(c, es);
    SuppressCounts(es, SingleTaps);
    SuppressCounts(es, k);
    RunIdleCount(idle, Suppress(es), k);
    assert Get(idle.counts, k) == 0;
  }

  /** The counting law of a session: after a clear, each of doubleTaps,
      longPresses, scrolls and flings is the number of its events, and singleTaps
      is the number of confirmed taps less the one the flag swallowed. The log is
      the transcript without that tap, and the flag is still armed exactly when no
      confirmed tap arrived. Counters are Java `int`s, hence `Wrap`. */
  lemma RunAfterClear(s: State, es: seq<Event>)
    requires Clear !in es
    ensures Run(ClearAll(s), es).log == Transcript(Suppress(es))
    ensures Run(ClearAll(s), es).buttonClicked <==> Occurrences(es, SingleTaps) == 0
    ensures Get(Run(ClearAll(s), es).counts, SingleTaps) ==
      Wrap(if Occurrences(es, SingleTaps) == 0 then 0 else Occurrences(es, SingleTaps) - 1)
    ensures forall k :: k != SingleTaps ==> Get(Run(ClearAll(s), es).counts, k) == Wrap(Occurrences(es, k))
  {
    AfterClearLog(s, es);
    forall k ensures var n := Occurrences(es, k);
      Get(Run(ClearAll(s), es).counts, k) == Wrap(if k == SingleTaps && n > 0 then n - 1 else n)
    {
      AfterClearCount(s, es, k);
    }
  }

  /** The same law without wrap-around, for sessions shorter than the Java `int` range:
      each counter holds exactly the number of its events, singleTaps one fewer if any. */
  lemma RunAfterClearExact(s: State, es: seq<Event>, k: Counter)
    requires Clear !in es
    requires Occurrences(es, k) <= MaxInt + (if k == SingleTaps then 1 else 0)
    ensures var n := Occurrences(es, k);
      Get(Run(ClearAll(s), es).counts, k) == if k == SingleTaps && n > 0 then n - 1 else n
  {
    var n := Occurrences(es, k);
    var m := if k == SingleTaps && n > 0 then n - 1 else n;
    AfterClearCount(s, es, k);
    assert 0 <= m <= MaxInt;
    assert Wrap(m) == m;
  }

  /** Two confirmed taps straight after a clear: the first is swallowed, the second
      is logged and counted. */
  lemma SuppressionIsOneShot(s: State)
    ensures Get(Run(s, [Clear, SingleTapConfirmed]).counts, SingleTaps) == 0
    ensures Run(s, [Clear, SingleTapConfirmed]).log == []
    ensures Get(Run(s, [Clear, SingleTapConfirmed, SingleTapConfirmed]).counts, SingleTaps) == 1
    ensures Run(s, [Clear, SingleTapConfirmed, SingleTapConfirmed]).log == [SingleTapLine]
  {
    var one, two := [Clear, SingleTapConfirmed], [Clear, SingleTapConfirmed, SingleTapConfirmed];
    assert one[1..] == [SingleTapConfirmed] && one[1..][1..] == [];
    assert two[1..] == [SingleTapConfirmed, SingleTapConfirmed];
    assert two[1..][1..] == [SingleTapConfirmed] && two[1..][1..][1..] == [];
  }

  /** A tap's callbacks are logged in the order they arrive, after what was already there. */
  lemma TapLoggedInOrder(s: State)
    requires !s.buttonClicked
    ensures Run(s, [Down, SingleTapUp, SingleTapConfirmed]).log ==
      s.log + [DownLine, SingleTapUpLine, SingleTapLine]
  {
    var es := [Down, SingleTapUp, SingleTapConfirmed];
    RunIdleLog(s, es);
    assert es[1..] == [SingleTapUp, SingleTapConfirmed] && es[1..][1..] == [SingleTapConfirmed];
    assert es[1..][1..][1..] == [];
  }

  /** Between clears the log is append-only: what was logged stays, in order, at the front. */
  lemma {:induction false} LogAppendOnly(s: State, es: seq<Event>)
    requires Clear !in es
    ensures s.log <= Run(s, es).log
    decreases |es|
  {
    if |es| > 0 {
      assert es == [es[0]] + es[1..];
      LogAppendOnly(Step(s, es[0]), es[1..]);
    }
  }

  /** Between clears no counter goes down, and each goes up by at most the number
      of its events, as long as those events cannot take it past the Java `int`
      limit, where `++` wraps. */
  lemma {:induction false} CountersMonotone(s: State, es: seq<Event>, k: Counter)
    requires Clear !in es
    requires Get(s.counts, k) + Occurrences(es, k) <= MaxInt
    ensures Get(s.counts, k) <= Get(Run(s, es).counts, k) <= Get(s.counts, k) + Occurrences(es, k)
    decreases |es|
  {
    if |es| > 0 {
      assert es == [es[0]] + es[1..];
      CountersMonotone(Step(s, es[0]), es[1..], k);
    }
  }

  /** A counter that starts non-negative stays non-negative, across clears too,
      as long as its events cannot take it past the Java `int` limit. */
  lemma {:induction false} CountersStayNatural(s: State, es: seq<Event>, k: Counter)
    requires 0 <= Get(s.counts, k)
    requires Get(s.counts, k) + Occurrences(es, k) <= MaxInt
    ensures 0 <= Get(Run(s, es).counts, k) <= Get(s.counts, k) + Occurrences(es, k)
    decreases |es|
  {
    if |es| > 0 {
      assert es == [es[0]] + es[1..];
      CountersStayNatural(Step(s, es[0]), es[1..], k);
    }
  }

  /** An event a counter does not tally, other than a clear, leaves that counter
      exactly as it was; in particular a counter at the Java `int` maximum stays
      there, since only its own event wraps it. */
  lemma UntalliedEventKeepsCounter(s: State, e: Event, k: Counter)
    requires !e.Clear? && !Tallies(e, k)
    ensures Get(Run(s, [e]).counts, k) == Get(s.counts, k)
  {
    assert [e][0] == e && [e][1..] == [];
  }

  lemma StepConsistent(s: State, e: Event)
    requires Consistent(s)
    ensures Consistent(Step(s, e))
  {
  }

  /** Consistency is kept by every run: an armed flag means no confirmed tap has
      been counted or logged since the last clear. */
  lemma {:induction false} RunConsistent(s: State, es: seq<Event>)
    requires Consistent(s)
    ensures Consistent(Run(s, es))
    decreases |es|
  {
    if |es| > 0 {
      StepConsistent(s, es[0]);
      RunConsistent(Step(s, es[0]), es[1..]);
    }
  }

  /** The app as it starts: every state it can reach is consistent. */
  lemma InitialConsistent(es: seq<Event>)
    ensures Consistent(Run(Initial, es))
  {
    RunConsistent(Initial, es);
  }

  /** The app as it starts, before any clear: each counter holds the number of its
      events (as a Java `int`) and the log is the transcript of the events. */
  lemma InitialCounts(es: seq<Event>, k: Counter)
    requires Clear !in es
    ensures Get(Run(Initial, es).counts, k) == Wrap(Occurrences(es, k))
    ensures Run(Initial, es).log == Transcript(es)
  {
    RunIdle(Initial, es);
  }
}
