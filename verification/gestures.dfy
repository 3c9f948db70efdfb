/** The gesture session of the TouchGestures activity, taken out of its widgets:
    five Java `int` counters, an append-only log of line tokens and the one-shot
    `isButtonClicked` flag, with one pure transition per gesture callback. */
module Gestures {
  import opened JavaInt

  /** The two float arguments of `onScroll` (distances) and `onFling` (velocities).
      They are only carried into the log line, never inspected. */
  datatype Vector = Vector(x: real, y: real)

  /** The callbacks the platform gesture detector delivers, and the clear button. */
  datatype Event =
    | Down
    | ShowPress
    | SingleTapUp
    | SingleTapConfirmed
    | DoubleTap
    | DoubleTapEvent
    | Scroll(distance: Vector)
    | LongPress
    | Fling(velocity: Vector)
    | Clear

  /** One line appended to the gestures log, standing for its rendered text. */
  datatype Line =
    | DownLine
    | ShowPressLine
    | SingleTapUpLine
    | SingleTapLine
    | DoubleTapLine
    | ScrollLine(distance: Vector)
    | LongPressLine
    | FlingLine(velocity: Vector)

  /** Names of the five counters shown on screen. */
  datatype Counter = SingleTaps | DoubleTaps | LongPresses | Scrolls | Flings

  datatype Counters = Counters(
    singleTaps: Int32,
    doubleTaps: Int32,
    longPresses: Int32,
    scrolls: Int32,
    flings: Int32)

  datatype State = State(counts: Counters, log: seq<Line>, buttonClicked: bool)

  function Get(c: Counters, k: Counter): Int32
  {
    match k
    case SingleTaps => c.singleTaps
    case DoubleTaps => c.doubleTaps
    case LongPresses => c.longPresses
    case Scrolls => c.scrolls
    case Flings => c.flings
  }

  /** `++` on one counter; the other four are untouched. */
  function Bump(c: Counters, k: Counter): (r: Counters)
    ensures Get(r, k) == Inc(Get(c, k))
    ensures forall j :: j != k ==> Get(r, j) == Get(c, j)
  {
    match k
    case SingleTaps => c.(singleTaps := Inc(c.singleTaps))
    case DoubleTaps => c.(doubleTaps := Inc(c.doubleTaps))
    case LongPresses => c.(longPresses := Inc(c.longPresses))
    case Scrolls => c.(scrolls := Inc(c.scrolls))
    case Flings => c.(flings := Inc(c.flings))
  }

  const Zero: Counters := Counters(0, 0, 0, 0, 0)

  /** The field initialisers: all counters 0, flag false; the log starts empty. */
  const Initial: State := State(Zero, [], false)

  /** `r` is `s` with `line` appended to the log; the flag is unchanged. */
  predicate Appends(s: State, r: State, line: Line)
  {
    r.log == s.log + [line] && r.buttonClicked == s.buttonClicked
  }

  /** No counter differs between `s` and `r`. */
  predicate SameCounts(s: State, r: State)
  {
    forall k :: Get(r.counts, k) == Get(s.counts, k)
  }

  /** Counter `k` went up by one (Java `++`) and no other counter changed. */
  predicate CountsOnly(s: State, r: State, k: Counter)
  {
    && Get(r.counts, k) == Inc(Get(s.counts, k))
    && forall j :: j != k ==> Get(r.counts, j) == Get(s.counts, j)
  }

  // ---------------------------------------------------------------------------
  // The callbacks, one transition each

  /** A confirmed single tap is logged and counted, unless the clear button has
      just been pressed: then it only disarms the flag. */
  function OnSingleTapConfirmed(s: State): (r: State)
    ensures !s.buttonClicked ==> Appends(s, r, SingleTapLine) && CountsOnly(s, r, SingleTaps)
    ensures s.buttonClicked ==> r.log == s.log && SameCounts(s, r) && !r.buttonClicked
  {
    if !s.buttonClicked then
      s.(counts := Bump(s.counts, SingleTaps), log := s.log + [SingleTapLine])
    else
      s.(buttonClicked := false)
  }

  function OnDoubleTap(s: State): (r: State)
    ensures Appends(s, r, DoubleTapLine) && CountsOnly(s, r, DoubleTaps)
  {
    s.(counts := Bump(s.counts, DoubleTaps), log := s.log + [DoubleTapLine])
  }

  /** Returns without touching anything. */
  function OnDoubleTapEvent(s: State): (r: State)
    ensures r == s
  {
    s
  }

  function OnDown(s: State): (r: State)
    ensures Appends(s, r, DownLine) && SameCounts(s, r)
  {
    s.(log := s.log + [DownLine])
  }

  function OnShowPress(s: State): (r: State)
    ensures Appends(s, r, ShowPressLine) && SameCounts(s, r)
  {
    s.(log := s.log + [ShowPressLine])
  }

  function OnSingleTapUp(s: State): (r: State)
    ensures Appends(s, r, SingleTapUpLine) && SameCounts(s, r)
  {
    s.(log := s.log + [SingleTapUpLine])
  }

  function OnScroll(s: State, distance: Vector): (r: State)
    ensures Appends(s, r, ScrollLine(distance)) && CountsOnly(s, r, Scrolls)
  {
    s.(counts := Bump(s.counts, Scrolls), log := s.log + [ScrollLine(distance)])
  }

  function OnLongPress(s: State): (r: State)
    ensures Appends(s, r, LongPressLine) && CountsOnly(s, r, LongPresses)
  {
    s.(counts := Bump(s.counts, LongPresses), log := s.log + [LongPressLine])
  }

  function OnFling(s: State, velocity: Vector): (r: State)
    ensures Appends(s, r, FlingLine(velocity)) && CountsOnly(s, r, Flings)
  {
    s.(counts := Bump(s.counts, Flings), log := s.log + [FlingLine(velocity)])
  }

  /** The clear button: whatever came before, the counters are zero, the log is
      empty and the next confirmed tap will be swallowed. */
  function ClearAll(s: State): (r: State)
    ensures forall k :: Get(r.counts, k) == 0
    ensures r.log == []
    ensures r.buttonClicked
  {
    State(Zero, [], true)
  }

  // ---------------------------------------------------------------------------
  // Reference tables: what each event contributes when nothing is suppressed

  /** The log lines an event contributes (none or one). */
  function Lines(e: Event): (ls: seq<Line>)
    ensures |ls| <= 1
    ensures SingleTapLine in ls <==> e.SingleTapConfirmed?
    ensures ls == [] <==> e.DoubleTapEvent? || e.Clear?
  {
    match e
    case Down => [DownLine]
    case ShowPress => [ShowPressLine]
    case SingleTapUp => [SingleTapUpLine]
    case SingleTapConfirmed => [SingleTapLine]
    case DoubleTap => [DoubleTapLine]
    case DoubleTapEvent => []
    case Scroll(d) => [ScrollLine(d)]
    case LongPress => [LongPressLine]
    case Fling(v) => [FlingLine(v)]
    case Clear => []
  }

  /** Whether an event is tallied by counter `k`. */
  predicate Tallies(e: Event, k: Counter)
  {
    match k
    case SingleTaps => e.SingleTapConfirmed?
    case DoubleTaps => e.DoubleTap?
    case LongPresses => e.LongPress?
    case Scrolls => e.Scroll?
    case Flings => e.Fling?
  }

  /** Dispatches an event to its callback. */
  function Step(s: State, e: Event): (r: State)
    ensures e.Clear? ==> r.log == [] && r.buttonClicked && forall k :: Get(r.counts, k) == 0
    ensures e.SingleTapConfirmed? && s.buttonClicked ==> r == s.(buttonClicked := false)
    ensures !e.Clear? && !(e.SingleTapConfirmed? && s.buttonClicked) ==>
      && r.log == s.log + Lines(e)
      && r.buttonClicked == s.buttonClicked
      && forall k :: Get(r.counts, k) == (if Tallies(e, k) then Inc(Get(s.counts, k)) else Get(s.counts, k))
  {
    match e
    case Down => OnDown(s)
    case ShowPress => OnShowPress(s)
    case SingleTapUp => OnSingleTapUp(s)
    case SingleTapConfirmed => OnSingleTapConfirmed(s)
    case DoubleTap => OnDoubleTap(s)
    case DoubleTapEvent => OnDoubleTapEvent(s)
    case Scroll(d) => OnScroll(s, d)
    case LongPress => OnLongPress(s)
    case Fling(v) => OnFling(s, v)
    case Clear => ClearAll(s)
  }

  /** The state after delivering `es` in order, starting from `s`. */
  function Run(s: State, es: seq<Event>): State
    decreases |es|
  {
    if |es| == 0 then s else Run(Step(s, es[0]), es[1..])
  }
}
