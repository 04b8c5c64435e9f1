# To-do list and debounce hook, modelled in Dafny

This project models the two pieces of logic in the HomeWork front end that
hold state:

- **The to-do list component** (`src/components/todo/TodoList.jsx`). Its state is
  an ordered list of task strings (`tasks`) and the text of the input box
  (`task`). Typing replaces the input. "Add Task" appends the input to the
  list when it is non-empty and then clears it. The delete button filters out
  the element at one position. In `todo_list.dfy`, module `TodoList`, the two
  state cells are the fields of class `TaskList`. Its methods `SetTask`, `AddTask`
  and `DeleteTask` are the three handlers. The new lists are computed by pure
  functions: `Append` is the spread `[...tasks, task]` and `RemoveAt` is the
  positional filter. `RemoveAt` is defined position by position, as the
  filter is. `RemoveAtIsSplice` proves it equal to cutting one element out
  of the list.
- **The debounce hook** (`src/helper/useDebounce.js`). In `debounce.dfy`, module
  `Debounce`, the hook is a discrete-event state machine over a natural-number
  clock. A `Hook` holds the hook's arguments (`value`, `delay`), its output
  `debounced` (initialised from the first value), at most one pending `Timer`
  (due time and the value it will emit), the clock, and a mount flag. There are
  three events, and `Step` gives the effect of each:
  - `Input(v, d)` is a render. The effect's dependency list is `[value, delay]`,
    so only a render where one of them changed runs the cleanup, which clears
    the pending timer, and schedules a new timer for `v`. It is due after
    `Timeout(d)`, the delay `setTimeout` actually waits: `d` converted to a
    signed 32-bit integer, with a negative result taken as 0. A
    render with the same value and delay changes nothing and does not restart
    the timer.
  - `Wait(dt)` lets time pass. If the pending timer falls due, its callback
    sets the output to the value it was scheduled with.
  - `Unmount` runs the cleanup. No callback runs after it.

  `Run` and `Emitted` give the state after a sequence of events and the
  values written to the output along the way. Class `Debouncer` holds the same
  state as fields and has methods `Change`, `Elapse`, `Fire`, `Teardown` and
  `Cancel`. `State()` ties the fields to `Hook`. The postconditions of `Change`,
  `Elapse` and `Teardown` are the matching `Step`, and each keeps `Valid`. `Fire` is the timer
  callback, and its postcondition is `Step` of a wait of no time. `Cancel` is
  the cleanup shared by `Change` and `Teardown`, and internal to them. It only
  clears the pending timer, and no single event corresponds to it.

The main debounce results:

- `SupersededNeverEmitted`: a superseded value is never emitted.
- `TeardownSilences`: after unmounting, the output never changes.
- `BurstThenQuiet`: after a burst of changes each less than the timeout apart,
  only the last value is emitted, exactly once, and only if the quiet that
  follows lasts at least the timeout.
- `TypingExample`: the case "a", "ab", "abc" typed 100 apart with delay 500.

## Model

| member | source | states |
|---|---|---|
| `TodoList.RemoveAt` | src/components/todo/TodoList.jsx:25 | the filtered list is one shorter exactly when the index is a position of the list, and the same length otherwise |
| `TodoList.Append` | src/components/todo/TodoList.jsx:19 | the spread append grows the list by exactly one, keeps every earlier element in place and puts the input last |
| `TodoList.AppendAddsOneOccurrence` | src/components/todo/TodoList.jsx:19 | the spread append adds exactly one occurrence of the input and removes nothing |
| `TodoList.DuplicatesAllowed` | src/components/todo/TodoList.jsx:19 | adding the same text twice gives two equal entries at the end, with no uniqueness check |
| `TodoList.RemoveAtIsSplice` | src/components/todo/TodoList.jsx:25 | the positional filter equals `tasks[..i] + tasks[i+1..]` for an index in range and leaves the list unchanged for any other index |
| `TodoList.RemoveAtKeepsOrder` | src/components/todo/TodoList.jsx:25 | after deleting position i, the elements before i keep their positions, those after it move up by one, and the length drops by one |
| `TodoList.RemoveAtRemovesOne` | src/components/todo/TodoList.jsx:25 | deleting removes exactly one occurrence of the deleted text and nothing else |
| `TodoList.RemoveAtOutOfRange` | src/components/todo/TodoList.jsx:24-27 | a negative or too-large index deletes nothing |
| `TodoList.TaskList.constructor` | src/components/todo/TodoList.jsx:14-15 | initially the list is empty and the input is the empty string |
| `TodoList.TaskList.SetTask` | src/components/todo/TodoList.jsx:37 | typing sets the input to exactly the typed text and leaves the list unchanged |
| `TodoList.TaskList.AddTask` | src/components/todo/TodoList.jsx:17-22 | a non-empty input (whitespace-only included) is appended to the list and the input is reset to `""`; an empty input leaves both cells unchanged |
| `TodoList.TaskList.DeleteTask` | src/components/todo/TodoList.jsx:24-27 | the list becomes the splice without position `index` (unchanged for an index out of range); the input text is never altered |
| `Debounce.Mount` | src/helper/useDebounce.js:5-10 | the first render sets the output to the first value and leaves one timer pending for it, due the timeout later; the hook invariant holds |
| `Debounce.Timeout` | src/helper/useDebounce.js:8-10 | the delay the timer actually waits is below 2^31; it equals the argument below 2^31, and is 0 for an argument from 2^31 up to 2^32, which wraps to a negative 32-bit number |
| `Debounce.Fired` | src/helper/useDebounce.js:8-10 | only time passing fires a timer, and what it writes is the value the pending timer was scheduled with |
| `Debounce.Step` | src/helper/useDebounce.js:7-16 | an event advances the clock by its waiting time only; the output is written exactly when the step fires, with the fired value, and nothing is left pending; an unmounted hook ignores renders and stays unmounted; unmounting leaves nothing pending |
| `Debounce.Run` | src/helper/useDebounce.js:4-19 | after a sequence of events the clock has advanced by exactly the time that passed, and a hook mounted at the end was mounted at the start |
| `Debounce.Emitted` | src/helper/useDebounce.js:9 | each event writes the output at most once |
| `Debounce.StepPreservesValid` | src/helper/useDebounce.js:4-16 | every event keeps the invariant: a pending timer belongs to a mounted hook, carries the current value and is due within the timeout; while mounted with nothing pending, the output equals the input |
| `Debounce.RunPreservesValid` | src/helper/useDebounce.js:4-16 | the invariant holds after any sequence of events |
| `Debounce.InputReschedules` | src/helper/useDebounce.js:7-16 | the dependency list `[value, delay]` decides: a render with a changed value or delay leaves exactly one pending timer, carrying the latest value and due the timeout from now, with the output untouched; a render with the same value and delay changes nothing |
| `Debounce.WaitFiresWhenDue` | src/helper/useDebounce.js:8-10 | when the pending timer is due, it emits exactly its scheduled value, sets the output to it, and nothing stays pending; before that, waiting only advances the clock |
| `Debounce.FiresOnlyCurrentValue` | src/helper/useDebounce.js:8-10 | in a valid state, any value emitted is the hook's current input value |
| `Debounce.ZeroDelayPassesThrough` | src/helper/useDebounce.js:8-10 | with delay 0, a new value is emitted on the next tick and becomes the output |
| `Debounce.SilentRunKeepsOutput` | src/helper/useDebounce.js:5-9 | as long as nothing is emitted, the output keeps its value |
| `Debounce.InitialOutputUntilFirstFire` | src/helper/useDebounce.js:5 | before any timer fires, the output equals the first input value |
| `Debounce.SupersededNeverEmitted` | src/helper/useDebounce.js:12-15 | once the input has moved away from a value and is never set back to it, that value is never emitted |
| `Debounce.UnmountedIsInert` | src/helper/useDebounce.js:13-15 | an unmounted hook with nothing pending emits nothing and keeps its output under any events |
| `Debounce.TeardownSilences` | src/helper/useDebounce.js:13-15 | after teardown, no event sequence emits anything or changes the output |
| `Debounce.BurstDefersOutput` | src/helper/useDebounce.js:7-16 | during a burst of changes less than the timeout apart, nothing is emitted and the output keeps its old value; at the end the one pending timer carries the last value and is due exactly the timeout after the last change |
| `Debounce.IdleWaits` | src/helper/useDebounce.js:8-10 | with no timer pending, time passing writes nothing and keeps the output |
| `Debounce.QuietFiresOnce` | src/helper/useDebounce.js:8-10 | over a stretch of waiting, a pending timer fires exactly once if the stretch reaches its due time and not at all otherwise |
| `Debounce.BurstThenQuiet` | src/helper/useDebounce.js:7-16 | a burst followed by any non-empty stretch of waiting emits only the last value of the burst, exactly once, if the waiting lasts at least the timeout, and emits nothing otherwise |
| `Debounce.TypingExample` | src/helper/useDebounce.js:4-19 | with delay 500 and "a", "ab", "abc" 100 apart, nothing is emitted 499 after the last input, and at 500 after it exactly "abc" is emitted, once, at time 700 |
| `Debounce.OversizedDelayFiresAtOnce` | src/helper/useDebounce.js:8-10 | a delay of 2^31 wraps to a negative 32-bit number, so the new value is emitted on the next tick |
| `Debounce.Debouncer.constructor` | src/helper/useDebounce.js:5-10 | the object starts in the `Mount` state |
| `Debounce.Debouncer.Cancel` | src/helper/useDebounce.js:13-15 | the cleanup, internal to `Change` and `Teardown`, leaves no timer pending |
| `Debounce.Debouncer.Change` | src/helper/useDebounce.js:7-16 | a render cancels and reschedules only when the value or delay changed; the output, clock and mount flag are untouched; the new state is `Step` of the old, and `Valid` is kept |
| `Debounce.Debouncer.Fire` | src/helper/useDebounce.js:8-10 | the due callback sets the output to its scheduled value, leaves nothing pending and nothing else changes; the new state is `Step` of a wait of no time, and `Valid` holds after it |
| `Debounce.Debouncer.Elapse` | src/helper/useDebounce.js:8-10 | the clock advances by `dt`, a timer that falls due fires, and the value reported as fired is exactly what `Step` emits; `Valid` is kept |
| `Debounce.Debouncer.Teardown` | src/helper/useDebounce.js:13-15 | teardown clears the pending timer and marks the hook unmounted; the output and arguments are unchanged; `Valid` is kept |

## Left out

- Rendering: the JSX, the MUI components, layout and styles (src/components/todo/TodoList.jsx:29-58), and the `key={index}` detail. They are presentation with no logic.
- React itself: `useState`, `useEffect` scheduling and re-rendering. The model takes their visible behaviour as given. State updates take effect before the next event. An effect re-runs only when a dependency differs, compared here with Dafny's `==` where React uses `Object.is` (the two agree on strings and numbers other than `NaN` and `-0`).
- Real timers: `setTimeout` and `clearTimeout` become the `pending` field and an abstract clock. A timer fires when the clock reaches its due time. Which of a callback and another event runs first at the same instant is not modelled. The delay's conversion to a signed 32-bit integer is modelled by `Timeout`, for whole non-negative delays. A negative, fractional or non-numeric delay is not representable, because `delay` is a `nat`. Browsers convert the delay to a number and then to a 32-bit integer: a numeric string such as `"500"` becomes 500, a fraction is dropped, a negative result becomes 0, and a delay that converts to NaN, such as `undefined` or `"abc"`, becomes 0.
- `Debounce.Debouncer.Fire`: it requires the timer to be due and to carry the mounted hook's current value, which is how the runtime calls it. Every other caller goes through `Elapse`.
- The input value: the text field always supplies a string, so the model's "non-empty" test is the same as JavaScript truthiness for that string. A non-string `task`, whose truthiness rules differ, is not modelled.
- Tasks are plain strings held in component state. These two files have no task ids, status flags, categories, durations, persistence, search, filtering or edit operations, so none of them is modelled.
