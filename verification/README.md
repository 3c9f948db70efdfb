# TouchGestures gesture session, modelled in Dafny

The TouchGestures app is an Android activity (`MainActivity`). It logs the callbacks of the
platform gesture detector to a scrolling text view and shows five counters: single taps,
double taps, long presses, scrolls and flings. A button clears the log and the counters.

This project takes the activity's state out of its widgets and models it as a value:

- `Gestures.Counters`: the five Java `int` counters. They are `Int32` values, and `++` wraps
  from 2^31-1 to -2^31 (`JavaInt.Inc`, `JavaInt.Wrap`).
- `State.log`: the log, as a sequence of `Line` tokens. A token stands for the text a callback
  appends.
- `State.buttonClicked`: the one-shot `isButtonClicked` flag. The clear button sets it. The
  next confirmed single tap clears it and is neither logged nor counted.

Each callback is a pure transition `State -> State`:

- `OnDown`, `OnShowPress`, `OnSingleTapUp`, `OnSingleTapConfirmed`, `OnDoubleTap`,
  `OnDoubleTapEvent`, `OnScroll`, `OnLongPress`, `OnFling`
- `ClearAll` for the clear button

`Step` dispatches an `Event` to its callback. `Run` folds `Step` over a sequence of events.
The module `Session` proves what whole runs do:

- a counting law after a clear (`RunAfterClear`)
- the one-shot suppression (`RunArmed`, `SuppressionIsOneShot`)
- that everything before a clear is forgotten
- that the log is append-only between clears, and the counters are monotone between clears below the Java `int` wrap point
- an invariant of every state reachable from the start (`RunConsistent`, `InitialConsistent`)

Files:

- `java_int.dfy` (module `JavaInt`): Java `int` wrap-around.
- `gestures.dfy` (module `Gestures`): data model, callbacks, `Step`, `Run`.
- `session.dfy` (module `Session`): properties of runs.

Not every callback appends a line: `onDoubleTapEvent` appends nothing (MainActivity.java:117-120),
and a confirmed single tap that the flag swallows appends nothing (MainActivity.java:85-91).

## Model

| member | source | states |
|---|---|---|
| JavaInt.Wrap | app/src/main/java/edu/orangecoastcollege/cs273/touchgestures/MainActivity.java:31 | a counter is a Java `int`: a value in range is kept, and any other integer maps to the unique `int` congruent to it modulo 2^32 |
| JavaInt.Inc | app/src/main/java/edu/orangecoastcollege/cs273/touchgestures/MainActivity.java:89 | `++` on a counter adds one below the `int` maximum, and in every case gives the wrapped value of the successor |
| Gestures.Bump | app/src/main/java/edu/orangecoastcollege/cs273/touchgestures/MainActivity.java:31 | incrementing one of the five counters changes that counter by `++` and leaves the other four unchanged |
| Gestures.OnSingleTapConfirmed | app/src/main/java/edu/orangecoastcollege/cs273/touchgestures/MainActivity.java:83-93 | with the flag down: appends one SingleTap line, increments only singleTaps, flag stays down; with the flag up: log and counters unchanged and the flag goes down |
| Gestures.OnDoubleTap | app/src/main/java/edu/orangecoastcollege/cs273/touchgestures/MainActivity.java:103-108 | appends exactly one DoubleTap line, increments doubleTaps only, flag unchanged |
| Gestures.OnDown | app/src/main/java/edu/orangecoastcollege/cs273/touchgestures/MainActivity.java:129-133 | appends exactly one Down line; no counter and not the flag change (an armed flag stays armed) |
| Gestures.OnShowPress | app/src/main/java/edu/orangecoastcollege/cs273/touchgestures/MainActivity.java:141-144 | appends exactly one ShowPress line; no counter and not the flag change |
| Gestures.OnSingleTapUp | app/src/main/java/edu/orangecoastcollege/cs273/touchgestures/MainActivity.java:153-157 | appends exactly one SingleTapUp line; no counter and not the flag change |
| Gestures.OnScroll | app/src/main/java/edu/orangecoastcollege/cs273/touchgestures/MainActivity.java:169-174 | appends exactly one Scroll line carrying the two distances, increments scrolls only, flag unchanged |
| Gestures.OnLongPress | app/src/main/java/edu/orangecoastcollege/cs273/touchgestures/MainActivity.java:182-186 | appends exactly one LongPress line, increments longPresses only, flag unchanged |
| Gestures.OnFling | app/src/main/java/edu/orangecoastcollege/cs273/touchgestures/MainActivity.java:198-203 | appends exactly one Fling line carrying the two velocities, increments flings only, flag unchanged |
| Gestures.OnDoubleTapEvent | app/src/main/java/edu/orangecoastcollege/cs273/touchgestures/MainActivity.java:117-120 | leaves the whole state unchanged: counters, log and flag |
| Gestures.ClearAll | app/src/main/java/edu/orangecoastcollege/cs273/touchgestures/MainActivity.java:210-227 | whatever the prior state: all five counters 0, log empty, flag armed |
| Gestures.Step | app/src/main/java/edu/orangecoastcollege/cs273/touchgestures/MainActivity.java:83-203 | every event other than a clear or a suppressed confirmed tap appends its own line (or none) and increments exactly the counter that tallies it; a clear resets; a suppressed tap only disarms the flag |
| Session.DoubleTapEventsInvisible | app/src/main/java/edu/orangecoastcollege/cs273/touchgestures/MainActivity.java:117-120 | `onDoubleTapEvent` changes nothing: deleting every such event from any run gives the same final state |
| Session.ClearIdempotent | app/src/main/java/edu/orangecoastcollege/cs273/touchgestures/MainActivity.java:210-227 | clearing twice gives the same state as clearing once |
| Session.RunThroughClear | app/src/main/java/edu/orangecoastcollege/cs273/touchgestures/MainActivity.java:210-227 | the state after a clear and further events does not depend on anything before the clear |
| Session.RunIdle | app/src/main/java/edu/orangecoastcollege/cs273/touchgestures/MainActivity.java:83-203 | with the flag down and no clear, the log grows by exactly the lines of the events in order and each counter by the number of its events (as a Java `int`) |
| Session.RunArmed | app/src/main/java/edu/orangecoastcollege/cs273/touchgestures/MainActivity.java:85-91 | with the flag armed and no clear, a run equals a disarmed run without the first confirmed tap; if no confirmed tap comes the flag stays armed and nothing else differs |
| Session.RunAfterClear | app/src/main/java/edu/orangecoastcollege/cs273/touchgestures/MainActivity.java:210-227 | after a clear and a clear-free run: doubleTaps, longPresses, scrolls and flings equal the number of their events (as a Java `int`), singleTaps equals the confirmed taps minus one if there was one, 0 otherwise (as a Java `int`), the log is the run's lines without the swallowed tap, and the flag is armed exactly when no confirmed tap came |
| Session.RunAfterClearExact | app/src/main/java/edu/orangecoastcollege/cs273/touchgestures/MainActivity.java:31 | the same counting law in exact integers, for any counter whose events cannot make it wrap (at most 2^31-1 of them, or 2^31 confirmed taps for singleTaps since one is swallowed): the counter equals the number of its events, and singleTaps one fewer if there was any confirmed tap |
| Session.SuppressionIsOneShot | app/src/main/java/edu/orangecoastcollege/cs273/touchgestures/MainActivity.java:85-91 | of two confirmed taps straight after a clear only the second is logged and counted |
| Session.TapLoggedInOrder | app/src/main/java/edu/orangecoastcollege/cs273/touchgestures/MainActivity.java:129-157 | Down, SingleTapUp, SingleTapConfirmed with the flag down log three lines in that order after the existing log |
| Session.LogAppendOnly | app/src/main/java/edu/orangecoastcollege/cs273/touchgestures/MainActivity.java:83-203 | between clears the earlier log is always a prefix of the later log |
| Session.CountersMonotone | app/src/main/java/edu/orangecoastcollege/cs273/touchgestures/MainActivity.java:89-201 | between clears no counter decreases and each grows by at most the number of its events, while those events cannot take it past the Java `int` maximum |
| Session.CountersStayNatural | app/src/main/java/edu/orangecoastcollege/cs273/touchgestures/MainActivity.java:31 | a counter that starts non-negative stays non-negative through any run, clears included, and is at most its start value plus the number of its events, while those events cannot take it past the Java `int` maximum |
| Session.RunConsistent | app/src/main/java/edu/orangecoastcollege/cs273/touchgestures/MainActivity.java:36 | in every state reached from a consistent one (such as the initial state), an armed flag implies singleTaps is 0 and no SingleTap line is in the log |
| Session.InitialConsistent | app/src/main/java/edu/orangecoastcollege/cs273/touchgestures/MainActivity.java:31-36 | from the app's start state (counters 0, flag false), every reachable state is consistent |
| Session.InitialCounts | app/src/main/java/edu/orangecoastcollege/cs273/touchgestures/MainActivity.java:31 | from the app's start state and before any clear, each counter equals the number of its events (as a Java `int`) and the log is the events' lines in order |

## Left out

- `onCreate` (MainActivity.java:46-60): layout inflation, widget lookup, and construction of the `GestureDetector` with the activity as its listener (MainActivity.java:59), which is what makes the modelled callbacks fire. None of it changes the modelled state.
- `dispatchTouchEvent` (MainActivity.java:70-74): the forwarding to the platform `GestureDetector` is not modelled. Which callback the platform fires for a touch, including the tap and double-tap timing windows, is decided by the detector, whose code is not part of this model. The event sequence given to `Run` stands for the detector's callbacks, interleaved with calls to `clearAll` (MainActivity.java:210), the clear button's click handler.
- Rendering: the `setText(String.valueOf(...))` updates of the counter views and the `TextView.append` text. The log is a sequence of abstract line tokens.
- The float formatting of scroll distances and fling velocities in the log text. The two values are kept in the line token as an uninspected pair of reals. Java `float` rounding is not modelled. Nor are the Java `float` values that no `real` represents: NaN, positive and negative infinity, and negative zero as distinct from zero (they print differently).
- The `MotionEvent` arguments: the callbacks never read them.
- The callbacks' boolean return values: the app never reads them. Only the platform detector consumes them.
- The log's initial text: it comes from the layout file, which is not part of this model. `Initial` starts with an empty log.
- Session.CountersMonotone: holds only while the counter's own events cannot take it past 2^31-1, where `++` wraps to -2^31.
- Session.CountersStayNatural: holds only while the counter's own events cannot take it past 2^31-1, for the same reason.
