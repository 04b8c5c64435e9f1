/**
  The debounce hook as a discrete-event state machine. Time is a natural-number
  clock; a timer is the time it becomes due and the value its callback will
  emit. The hook holds at most one timer: every change of its inputs clears the
  previous one before scheduling the next, and unmounting clears it for good.
  `Hook` and `Step` are the specification; `Debouncer` is the object whose
  fields the events update in place.
 */
module Debounce {

  datatype Option<T> = None | Some(value: T)

  /** A scheduled callback: due at time `due`, it sets the output to `payload`. */
  datatype Timer<T> = Timer(due: nat, payload: T)

  /** One instance of the hook: its current arguments `value` and `delay`, the
      output `debounced`, the pending timer, the clock, and whether the
      component is still mounted. */
  datatype Hook<T> = Hook(value: T, delay: nat, debounced: T,
                          pending: Option<Timer<T>>, now: nat, mounted: bool)

  /** What can happen to a hook: a render with (possibly new) arguments, time
      passing, and the component being unmounted. */
  datatype Event<T> = Input(value: T, delay: nat) | Wait(dt: nat) | Unmount

  /** The delay `setTimeout` actually waits: the argument converted to a
      signed 32-bit integer (so it wraps modulo 2^32), and a negative result
      taken as 0. */
  function Timeout(delay: nat): (t: nat)
    ensures t < 0x8000_0000
    ensures delay < 0x8000_0000 ==> t == delay
    ensures 0x8000_0000 <= delay < 0x1_0000_0000 ==> t == 0
  {
    var w := delay % 0x1_0000_0000;
    if w < 0x8000_0000 then w else 0
  }

  /** The state every reachable hook keeps: a pending timer belongs to a
      mounted hook, carries the current value and is due within the timeout
      from now; a mounted hook with nothing pending has emitted its current
      value. */
  predicate Valid<T(==)>(h: Hook<T>)
  {
    (h.pending.Some? ==>
      h.mounted && h.pending.value.payload == h.value &&
      h.now <= h.pending.value.due <= h.now + Timeout(h.delay)) &&
    (h.mounted && h.pending.None? ==> h.debounced == h.value)
  }

  /** The first render: the output starts as the first value, and the effect
      that runs after it schedules a timer for that same value. */
  function Mount<T>(value: T, delay: nat, now: nat): (h: Hook<T>)
    ensures Valid(h) && h.mounted
    ensures h.debounced == value
    ensures h.pending == Some(Timer(now + Timeout(delay), value))
  {
    Hook(value, delay, value, Some(Timer(now + Timeout(delay), value)), now, true)
  }

  /** The effect's dependency list is `[value, delay]`: it re-runs only when
      that list differs from the one of the previous render. */
  predicate DepsChanged<T(==)>(h: Hook<T>, value: T, delay: nat)
  {
    value != h.value || delay != h.delay
  }

  /** The pending timer falls due within the next `dt` time units. */
  predicate IsDue<T>(h: Hook<T>, dt: nat)
  {
    h.pending.Some? && h.pending.value.due <= h.now + dt
  }

  /** The value a step writes to the output, if the pending timer fires during
      it: only time passing fires a timer, and what it writes is the value the
      timer was scheduled with. */
  function Fired<T>(h: Hook<T>, e: Event<T>): (f: Option<T>)
    ensures !e.Wait? ==> f == None
    ensures f.Some? ==> h.pending.Some? && f.value == h.pending.value.payload
  {
    match e
    case Wait(dt) => if IsDue(h, dt) then Some(h.pending.value.payload) else None
    case _ => None
  }

  /** One event. A render with changed arguments runs the cleanup (clearing
      the pending timer) and then schedules a new timer for the new value;
      waiting lets a due timer fire and set the output; unmounting runs the
      cleanup and nothing runs afterwards. */
  function Step<T(==)>(h: Hook<T>, e: Event<T>): (h': Hook<T>)
    ensures h'.now == h.now + (if e.Wait? then e.dt else 0)
    ensures h'.debounced == if Fired(h, e).Some? then Fired(h, e).value else h.debounced
    ensures !h.mounted ==> !h'.mounted && h'.value == h.value && h'.delay == h.delay
    ensures e.Unmount? ==> !h'.mounted && h'.pending == None
    ensures Fired(h, e).Some? ==> h'.pending == None
  {
    match e
    case Input(value, delay) =>
      if h.mounted && DepsChanged(h, value, delay)
      then h.(value := value, delay := delay, pending := Some(Timer(h.now + Timeout(delay), value)))
      else h
    case Wait(dt) =>
      var fired := Fired(h, e);
      if fired.Some?
      then h.(now := h.now + dt, debounced := fired.value, pending := None)
      else h.(now := h.now + dt)
    case Unmount =>
      h.(pending := None, mounted := false)
  }

  /** Total time that passes during a sequence of events. */
  function Elapsed<T>(events: seq<Event<T>>): (total: nat)
  {
    if |events| == 0 then 0
    else (if events[0].Wait? then events[0].dt else 0) + Elapsed(events[1..])
  }

  /** The hook after a sequence of events: the clock has advanced by exactly
      the time that passed, and a hook that is mounted at the end was mounted
      at the start. */
  function Run<T(==)>(h: Hook<T>, events: seq<Event<T>>): (end: Hook<T>)
    ensures end.now == h.now + Elapsed(events)
    ensures end.mounted ==> h.mounted
    decreases |events|
  {
    if |events| == 0 then h else Run(Step(h, events[0]), events[1..])
  }

  /** Every value written to the output along a sequence of events, in order;
      each event writes at most once. */
  function Emitted<T(==)>(h: Hook<T>, events: seq<Event<T>>): (out: seq<T>)
    ensures |out| <= |events|
    decreases |events|
  {
    if |events| == 0 then []
    else
      var f := Fired(h, events[0]);
      (if f.Some? then [f.value] else []) + Emitted(Step(h, events[0]), events[1..])
  }

  // ---------------------------------------------------------------------------
  // Single events

  /** Every event keeps the hook's invariant. */
  lemma StepPreservesValid<T>(h: Hook<T>, e: Event<T>)
    requires Valid(h)
    ensures Valid(Step(h, e))
  {
  }

  /** A render with changed arguments leaves exactly one pending timer, due
      the timeout from now and carrying the latest value; the output is not
      touched. A render with the same arguments changes nothing. */
  lemma InputReschedules<T>(h: Hook<T>, value: T, delay: nat)
    requires h.mounted
    ensures DepsChanged(h, value, delay) ==>
      Step(h, Input(value, delay)).pending == Some(Timer(h.now + Timeout(delay), value)) &&
      Step(h, Input(value, delay)).value == value &&
      Step(h, Input(value, delay)).debounced == h.debounced
    ensures !DepsChanged(h, value, delay) ==> Step(h, Input(value, delay)) == h
    ensures Fired(h, Input(value, delay)) == None
  {
  }

  /** When the pending timer fires, the output becomes exactly the value it
      was scheduled with and nothing is pending any more; before it is due,
      waiting only moves the clock. */
  lemma WaitFiresWhenDue<T>(h: Hook<T>, dt: nat)
    requires h.pending.Some?
    ensures h.pending.value.due <= h.now + dt ==>
      Fired(h, Wait(dt)) == Some(h.pending.value.payload) &&
      Step(h, Wait(dt)).debounced == h.pending.value.payload &&
      Step(h, Wait(dt)).pending == None
    ensures h.now + dt < h.pending.value.due ==>
      Fired(h, Wait(dt)) == None &&
      Step(h, Wait(dt)) == h.(now := h.now + dt)
  {
  }

  /** Only the current value is ever emitted, so a value that has been
      replaced by a newer one cannot be emitted by a single step. */
  lemma FiresOnlyCurrentValue<T>(h: Hook<T>, e: Event<T>)
    requires Valid(h)
    ensures Fired(h, e).Some? ==> Fired(h, e).value == h.value
  {
  }

  /** A zero delay passes a new value through on the very next tick. */
  lemma ZeroDelayPassesThrough<T>(h: Hook<T>, value: T)
    requires h.mounted && DepsChanged(h, value, 0)
    ensures Emitted(h, [Input(value, 0), Wait(0)]) == [value]
    ensures Run(h, [Input(value, 0), Wait(0)]).debounced == value
  {
    var h1 := Step(h, Input(value, 0));
    assert Run(h, [Input(value, 0), Wait(0)]) == Run(h1, [Wait(0)]);
    assert Emitted(h, [Input(value, 0), Wait(0)]) == Emitted(h1, [Wait(0)]);
  }

  // ---------------------------------------------------------------------------
  // Sequences of events

  lemma {:induction false} RunPreservesValid<T>(h: Hook<T>, events: seq<Event<T>>)
    requires Valid(h)
    ensures Valid(Run(h, events))
    decreases |events|
  {
    if |events| > 0 {
      StepPreservesValid(h, events[0]);
      RunPreservesValid(Step(h, events[0]), events[1..]);
    }
  }

  /** Running two sequences one after the other is running their concatenation. */
  lemma {:induction false} RunAppend<T>(h: Hook<T>, a: seq<Event<T>>, b: seq<Event<T>>)
    ensures Run(h, a + b) == Run(Run(h, a), b)
    ensures Emitted(h, a + b) == Emitted(h, a) + Emitted(Run(h, a), b)
    ensures Elapsed(a + b) == Elapsed(a) + Elapsed(b)
    decreases |a|
  {
    if |a| == 0 {
      assert a + b == b;
    } else {
      assert (a + b)[0] == a[0];
      assert (a + b)[1..] == a[1..] + b;
      RunAppend(Step(h, a[0]), a[1..], b);
    }
  }

  /** As long as nothing is emitted, the output keeps its value. */
  lemma {:induction false} SilentRunKeepsOutput<T>(h: Hook<T>, events: seq<Event<T>>)
    requires Emitted(h, events) == []
    ensures Run(h, events).debounced == h.debounced
    decreases |events|
  {
    if |events| > 0 {
      SilentRunKeepsOutput(Step(h, events[0]), events[1..]);
    }
  }

  /** Before any timer fires, the output is the first value the hook was given. */
  lemma InitialOutputUntilFirstFire<T>(value: T, delay: nat, now: nat, events: seq<Event<T>>)
    requires Emitted(Mount(value, delay, now), events) == []
    ensures Run(Mount(value, delay, now), events).debounced == value
  {
    SilentRunKeepsOutput(Mount(value, delay, now), events);
  }

  /** A superseded value is never emitted: once the current value differs
      from `v`, no sequence of events that never renders `v` again emits `v`. */
  lemma {:induction false} SupersededNeverEmitted<T>(h: Hook<T>, v: T, events: seq<Event<T>>)
    requires Valid(h) && h.value != v
    requires forall i :: 0 <= i < |events| && events[i].Input? ==> events[i].value != v
    ensures v !in Emitted(h, events)
    decreases |events|
  {
    if |events| > 0 {
      FiresOnlyCurrentValue(h, events[0]);
      StepPreservesValid(h, events[0]);
      SupersededNeverEmitted(Step(h, events[0]), v, events[1..]);
    }
  }

  /** A hook that is unmounted with nothing pending never changes its output again. */
  lemma {:induction false} UnmountedIsInert<T>(h: Hook<T>, events: seq<Event<T>>)
    requires !h.mounted && h.pending.None?
    ensures Emitted(h, events) == []
    ensures Run(h, events).debounced == h.debounced
    ensures Run(h, events).pending == None
    decreases |events|
  {
    if |events| > 0 {
      UnmountedIsInert(Step(h, events[0]), events[1..]);
    }
  }

  /** Unmounting cancels the pending timer: whatever happens afterwards, the
      output is never updated. */
  lemma TeardownSilences<T>(h: Hook<T>, events: seq<Event<T>>)
    ensures Emitted(h, [Unmount] + events) == []
    ensures Run(h, [Unmount] + events).debounced == h.debounced
  {
    RunAppend(h, [Unmount], events);
    UnmountedIsInert(Step(h, Unmount), events);
  }

  // ---------------------------------------------------------------------------
  // Bursts

  /** The total of a list of gaps. */
  function Sum(xs: seq<nat>): (total: nat)
  {
    if |xs| == 0 then 0 else xs[0] + Sum(xs[1..])
  }

  /** A burst: renders with the values `vs`, one after another, each followed
      by the matching gap in `gaps`, the last one by nothing. */
  function Burst<T>(vs: seq<T>, gaps: seq<nat>, delay: nat): (events: seq<Event<T>>)
    requires |vs| >= 1 && |gaps| == |vs| - 1
    ensures |events| == 2 * |vs| - 1
    decreases |vs|
  {
    if |vs| == 1 then [Input(vs[0], delay)]
    else [Input(vs[0], delay), Wait(gaps[0])] + Burst(vs[1..], gaps[1..], delay)
  }

  /** The conditions of a burst of changes on hook `h`: every value differs
      from the one before it (the first from the hook's current value), the
      delay is kept, and every gap is shorter than the timeout. */
  predicate IsBurst<T(==)>(h: Hook<T>, vs: seq<T>, gaps: seq<nat>)
  {
    |vs| >= 1 && |gaps| == |vs| - 1 &&
    vs[0] != h.value &&
    (forall i :: 0 <= i < |vs| - 1 ==> vs[i] != vs[i + 1]) &&
    (forall i :: 0 <= i < |gaps| ==> gaps[i] < Timeout(h.delay))
  }

  /** A quiet stretch: time passes and nothing is rendered or unmounted. */
  predicate IsQuiet<T>(events: seq<Event<T>>)
  {
    forall i :: 0 <= i < |events| ==> events[i].Wait?
  }

  /** During a burst nothing is emitted, the output keeps its old value, and
      at its end the only pending timer carries the last value and is due
      exactly the timeout after the last render. */
  lemma {:induction false} BurstDefersOutput<T>(h: Hook<T>, vs: seq<T>, gaps: seq<nat>)
    requires Valid(h) && h.mounted && IsBurst(h, vs, gaps)
    ensures var end := Run(h, Burst(vs, gaps, h.delay));
      Emitted(h, Burst(vs, gaps, h.delay)) == [] &&
      end.debounced == h.debounced &&
      end.value == vs[|vs| - 1] && end.delay == h.delay && end.mounted &&
      end.now == h.now + Sum(gaps) &&
      end.pending == Some(Timer(end.now + Timeout(h.delay), vs[|vs| - 1]))
    decreases |vs|
  {
    var d := h.delay;
    var h1 := Step(h, Input(vs[0], d));
    if |vs| == 1 {
      assert Burst(vs, gaps, d) == [Input(vs[0], d)];
      assert Run(h, [Input(vs[0], d)]) == Run(h1, []);
      assert Emitted(h, [Input(vs[0], d)]) == Emitted(h1, []);
    } else {
      var h2 := Step(h1, Wait(gaps[0]));
      var rest := Burst(vs[1..], gaps[1..], d);
      var head: seq<Event<T>> := [Input(vs[0], d), Wait(gaps[0])];
      assert Burst(vs, gaps, d) == head + rest;
      RunAppend(h, head, rest);
      assert Run(h, head) == h2 by {
        assert Run(h, head) == Run(h1, [Wait(gaps[0])]);
        assert Run(h1, [Wait(gaps[0])]) == Run(h2, []);
      }
      assert Emitted(h, head) == [] by {
        assert Emitted(h, head) == Emitted(h1, [Wait(gaps[0])]);
        assert Emitted(h1, [Wait(gaps[0])]) == Emitted(h2, []);
      }
      assert IsBurst(h2, vs[1..], gaps[1..]) by {
        assert forall i :: 0 <= i < |gaps| - 1 ==> gaps[1..][i] == gaps[i + 1];
        assert forall i :: 0 <= i < |vs| - 1 ==> vs[1..][i] == vs[i + 1];
      }
      BurstDefersOutput(h2, vs[1..], gaps[1..]);
    }
  }

  /** With nothing pending, time passing writes nothing. */
  lemma {:induction false} IdleWaits<T>(h: Hook<T>, quiet: seq<Event<T>>)
    requires h.pending.None? && IsQuiet(quiet)
    ensures Emitted(h, quiet) == []
    ensures Run(h, quiet).debounced == h.debounced
    decreases |quiet|
  {
    if |quiet| > 0 {
      IdleWaits(Step(h, quiet[0]), quiet[1..]);
    }
  }

  /** Over a non-empty quiet stretch, a timer that is not yet overdue fires
      exactly once if the stretch reaches its due time, and not at all
      otherwise. */
  lemma {:induction false} QuietFiresOnce<T>(h: Hook<T>, quiet: seq<Event<T>>)
    requires h.pending.Some? && h.now <= h.pending.value.due
    requires |quiet| > 0 && IsQuiet(quiet)
    ensures var t := h.pending.value;
      var fires := t.due <= h.now + Elapsed(quiet);
      Emitted(h, quiet) == (if fires then [t.payload] else []) &&
      Run(h, quiet).debounced == (if fires then t.payload else h.debounced)
    decreases |quiet|
  {
    var h1 := Step(h, quiet[0]);
    var rest := quiet[1..];
    assert IsQuiet(rest) by {
      assert forall i :: 0 <= i < |rest| ==> rest[i] == quiet[i + 1];
    }
    if IsDue(h, quiet[0].dt) {
      IdleWaits(h1, rest);
    } else if |rest| == 0 {
      assert Elapsed(rest) == 0;
    } else {
      QuietFiresOnce(h1, rest);
    }
  }

  /** A burst followed by a quiet stretch: the last value is emitted exactly
      once if the quiet lasts at least the timeout, and nothing is emitted
      otherwise; no earlier value of the burst is ever emitted. */
  lemma BurstThenQuiet<T>(h: Hook<T>, vs: seq<T>, gaps: seq<nat>, quiet: seq<Event<T>>)
    requires Valid(h) && h.mounted && IsBurst(h, vs, gaps)
    requires |quiet| > 0 && IsQuiet(quiet)
    ensures var events := Burst(vs, gaps, h.delay) + quiet;
      var settles := Elapsed(quiet) >= Timeout(h.delay);
      Emitted(h, events) == (if settles then [vs[|vs| - 1]] else []) &&
      Run(h, events).debounced == (if settles then vs[|vs| - 1] else h.debounced) &&
      Run(h, events).now == h.now + Sum(gaps) + Elapsed(quiet)
  {
    var burst := Burst(vs, gaps, h.delay);
    BurstDefersOutput(h, vs, gaps);
    RunAppend(h, burst, quiet);
    QuietFiresOnce(Run(h, burst), quiet);
  }

  /** Delay 500, the inputs "a", "ab", "abc" 100 time units apart: only "abc"
      is emitted, once, 500 time units after the last input and not earlier. */
  lemma TypingExample()
    ensures Emitted(Mount("", 500, 0), Burst(["a", "ab", "abc"], [100, 100], 500) + [Wait(499)]) == []
    ensures Emitted(Mount("", 500, 0), Burst(["a", "ab", "abc"], [100, 100], 500) + [Wait(500)]) == ["abc"]
    ensures Run(Mount("", 500, 0), Burst(["a", "ab", "abc"], [100, 100], 500) + [Wait(500)]).debounced == "abc"
    ensures Run(Mount("", 500, 0), Burst(["a", "ab", "abc"], [100, 100], 500) + [Wait(500)]).now == 700
  {
    var h := Mount("", 500, 0);
    var vs: seq<string>, gaps: seq<nat> := ["a", "ab", "abc"], [100, 100];
    assert IsBurst(h, vs, gaps);
    assert Sum(gaps) == 200 by {
      assert gaps[1..][1..] == [];
    }
    var q499: seq<Event<string>>, q500: seq<Event<string>> := [Wait(499)], [Wait(500)];
    assert Elapsed(q499) == 499 by {
      assert q499[1..] == [];
    }
    assert Elapsed(q500) == 500 by {
      assert q500[1..] == [];
    }
    BurstThenQuiet(h, vs, gaps, q499);
    BurstThenQuiet(h, vs, gaps, q500);
  }

  /** A delay of 2^31 wraps to a negative 32-bit number, so the timer fires on
      the next tick instead of 2^31 time units later. */
  lemma OversizedDelayFiresAtOnce<T>(h: Hook<T>, value: T)
    requires h.mounted && value != h.value
    ensures Emitted(h, [Input(value, 0x8000_0000), Wait(0)]) == [value]
  {
    var h1 := Step(h, Input(value, 0x8000_0000));
    assert Emitted(h, [Input(value, 0x8000_0000), Wait(0)]) == Emitted(h1, [Wait(0)]);
  }

  // ---------------------------------------------------------------------------
  // The hook as an object updated in place

  /** The hook's state cells: the arguments of the last render, the output
      `debouncedValue`, the single timer handle, the clock and the mount flag. */
  class Debouncer<T(==)> {
    var value: T
    var delay: nat
    var debouncedValue: T
    var pending: Option<Timer<T>>
    var now: nat
    var mounted: bool

    /** The fields as a value of the specification. */
    function State(): (h: Hook<T>)
      reads this
      ensures h.debounced == debouncedValue && h.pending == pending && h.now == now
    {
      Hook(value, delay, debouncedValue, pending, now, mounted)
    }

    /** The first render at time `start`: the output is the first value and a
        timer for it is scheduled. */
    constructor (value: T, delay: nat, start: nat)
      ensures State() == Mount(value, delay, start)
      ensures Valid(State())
    {
      this.value := value;
      this.delay := delay;
      this.debouncedValue := value;
      this.now := start;
      this.mounted := true;
      this.pending := Some(Timer(start + Timeout(delay), value));
    }

    /** The effect's cleanup: clear the pending timer. Internal to `Change`
        and `Teardown`: called on its own it would leave a mounted hook idle
        with an output that is not its current value. */
    method Cancel()
      modifies this`pending
      ensures pending == None
    {
      pending := None;
    }

    /** A render with `v` and `d`: if either differs from the previous render,
        the pending timer is cleared and a new one scheduled for `v`. */
    method Change(v: T, d: nat)
      requires Valid(State())
      modifies this
      ensures Valid(State())
      ensures State() == Step(old(State()), Input(v, d))
      ensures old(mounted) && (v != old(value) || d != old(delay)) ==>
        value == v && delay == d && pending == Some(Timer(now + Timeout(d), v))
      ensures !(old(mounted) && (v != old(value) || d != old(delay))) ==> State() == old(State())
      ensures debouncedValue == old(debouncedValue) && now == old(now) && mounted == old(mounted)
    {
      if mounted && (v != value || d != delay) {
        Cancel();
        value, delay := v, d;
        pending := Some(Timer(now + Timeout(delay), value));
      }
      StepPreservesValid(old(State()), Input(v, d));
    }

    /** The pending timer's callback: set the output to the value it was
        scheduled with; the timer is then spent. The runtime calls it only
        once the timer is due, and the timer belongs to the mounted hook and
        carries its current value; it then has the effect of a wait of no time. */
    method Fire()
      requires pending.Some? && pending.value.due <= now
      requires mounted && pending.value.payload == value
      modifies this
      ensures debouncedValue == old(pending.value.payload)
      ensures pending == None
      ensures value == old(value) && delay == old(delay) && now == old(now) && mounted == old(mounted)
      ensures State() == Step(old(State()), Wait(0))
      ensures Valid(State())
    {
      debouncedValue := pending.value.payload;
      pending := None;
    }

    /** `dt` time units pass; a timer that falls due meanwhile fires. */
    method Elapse(dt: nat) returns (fired: Option<T>)
      requires Valid(State())
      modifies this
      ensures Valid(State())
      ensures State() == Step(old(State()), Wait(dt))
      ensures fired == Fired(old(State()), Wait(dt))
      ensures now == old(now) + dt
    {
      now := now + dt;
      if pending.Some? && pending.value.due <= now {
        fired := Some(pending.value.payload);
        Fire();
      } else {
        fired := None;
      }
      StepPreservesValid(old(State()), Wait(dt));
    }

    /** Unmounting: the cleanup clears the pending timer; no callback runs afterwards. */
    method Teardown()
      requires Valid(State())
      modifies this
      ensures Valid(State())
      ensures State() == Step(old(State()), Unmount)
      ensures pending == None && !mounted
      ensures value == old(value) && delay == old(delay) && debouncedValue == old(debouncedValue) && now == old(now)
    {
      Cancel();
      mounted := false;
      StepPreservesValid(old(State()), Unmount);
    }
  }
}
