/**
  Debouncing over a logical clock.

  The host's timers are an explicit list: `setTimeout` appends a timer with a
  fresh handle, `clearTimeout` drops the timer with a given handle, and
  advancing the clock runs every timer that has come due. A debounced
  function is the closure's `timer` variable together with that list.
  Both `Utils.debounce` and the older draft `debounce` are this machine;
  they differ only in the receiver the callback is applied to.
 */
module Debounce {
  import opened JsText

  /** One scheduled callback: its handle, the time it is due, and what it
      will run. */
  datatype Timer<P> = Timer(handle: nat, fireAt: int, payload: P)

  /** The host's timer list, the next handle it hands out, and the clock. */
  datatype Host<P> = Host(timers: seq<Timer<P>>, nextHandle: nat, now: int)

  /** A callback that ran, and the time it ran at. */
  datatype Fired<P> = Fired(at: int, payload: P)

  /** `setTimeout` treats a negative delay as zero. */
  function EffectiveDelay(delay: int): (d: nat)
    ensures d >= delay
    ensures delay < 0 ==> d == 0
    ensures delay >= 0 ==> d == delay
  {
    if delay < 0 then 0 else delay
  }

  /** The timers of `ts` whose handle is not `handle`, in order. */
  function Without<P>(ts: seq<Timer<P>>, handle: nat): (rs: seq<Timer<P>>)
    ensures |rs| <= |ts|
    ensures forall i :: 0 <= i < |rs| ==> rs[i] in ts && rs[i].handle != handle
    ensures forall i :: 0 <= i < |ts| && ts[i].handle != handle ==> ts[i] in rs
  {
    if ts == [] then []
    else if ts[0].handle == handle then Without(ts[1..], handle)
    else [ts[0]] + Without(ts[1..], handle)
  }

  /** `clearTimeout(timer)`: with `timer` undefined nothing is cleared. */
  function ClearTimeout<P>(h: Host<P>, timer: Option<nat>): (r: Host<P>)
    ensures r.nextHandle == h.nextHandle && r.now == h.now
    ensures timer.None? ==> r == h
    // With a handle, that timer is gone and every other timer stays.
    ensures timer.Some? ==>
              && (forall i :: 0 <= i < |r.timers| ==> r.timers[i] in h.timers && r.timers[i].handle != timer.value)
              && (forall i :: 0 <= i < |h.timers| && h.timers[i].handle != timer.value ==> h.timers[i] in r.timers)
  {
    if timer.Some? then h.(timers := Without(h.timers, timer.value)) else h
  }

  /** The timers of `ts` due at time `t`, in list order, as run callbacks. */
  function Due<P>(ts: seq<Timer<P>>, t: int): (fs: seq<Fired<P>>)
    ensures |fs| <= |ts|
    ensures forall i :: 0 <= i < |ts| && ts[i].fireAt <= t ==> Fired(ts[i].fireAt, ts[i].payload) in fs
    ensures forall k :: 0 <= k < |fs| ==> fs[k].at <= t
  {
    if ts == [] then []
    else if ts[0].fireAt <= t then [Fired(ts[0].fireAt, ts[0].payload)] + Due(ts[1..], t)
    else Due(ts[1..], t)
  }

  /** The timers of `ts` not yet due at time `t`, in order. */
  function NotDue<P>(ts: seq<Timer<P>>, t: int): (rs: seq<Timer<P>>)
    ensures |rs| <= |ts|
    ensures forall i :: 0 <= i < |rs| ==> rs[i] in ts && rs[i].fireAt > t
    ensures forall i :: 0 <= i < |ts| && ts[i].fireAt > t ==> ts[i] in rs
  {
    if ts == [] then []
    else if ts[0].fireAt <= t then NotDue(ts[1..], t)
    else [ts[0]] + NotDue(ts[1..], t)
  }

  /** The closure returned by `debounce`: the host it schedules on, its
      `timer` variable (undefined until the first call) and its delay. */
  datatype Debouncer<P> = Debouncer(host: Host<P>, timer: Option<nat>, delay: int)

  /** A debounced function as created at time `now`. */
  function Create<P>(now: int, delay: int): (d: Debouncer<P>)
    ensures Inv(d) && Pending(d).None?
    ensures d.timer.None? && d.host.now == now && d.delay == delay
  {
    Debouncer(Host([], 0, now), None, delay)
  }

  /** What the closure keeps true: at most one timer is scheduled, it is the
      one `timer` remembers, and it is not overdue. */
  predicate Inv<P>(d: Debouncer<P>) {
    && |d.host.timers| <= 1
    && (|d.host.timers| == 1 ==> d.timer == Some(d.host.timers[0].handle))
    && (|d.host.timers| == 1 ==> d.host.timers[0].fireAt >= d.host.now)
  }

  /** The pending invocation, if any. */
  function Pending<P>(d: Debouncer<P>): Option<Timer<P>> {
    if d.host.timers == [] then None else Some(d.host.timers[0])
  }

  /** One call of the debounced function: cancel the remembered timer, then
      schedule `payload` after the delay and remember the new handle. */
  function Call<P>(d: Debouncer<P>, payload: P): (e: Debouncer<P>)
    ensures e.host.now == d.host.now && e.delay == d.delay
    // The previous invocation is cancelled and this call's is the only one.
    ensures Inv(d) ==> Inv(e)
    ensures Inv(d) ==> Pending(e).Some? && Pending(e).value.payload == payload
                       && Pending(e).value.fireAt == d.host.now + EffectiveDelay(d.delay)
  {
    var h1 := ClearTimeout(d.host, d.timer);
    var handle := h1.nextHandle;
    var h2 := h1.(timers := h1.timers + [Timer(handle, h1.now + EffectiveDelay(d.delay), payload)], nextHandle := handle + 1);
    Debouncer(h2, Some(handle), d.delay)
  }

  /** The clock moves to `t` (never backwards) and every timer due by then
      runs and leaves the list. */
  function Advance<P>(d: Debouncer<P>, t: int): (r: (Debouncer<P>, seq<Fired<P>>))
    ensures r.0.host.now == (if t < d.host.now then d.host.now else t)
    ensures r.0.timer == d.timer && r.0.delay == d.delay
    ensures Inv(d) ==> Inv(r.0)
    // Under the invariant, the pending invocation runs exactly when it is
    // due, at its due time, and is then no longer pending.
    ensures Inv(d) ==>
              if Pending(d).Some? && Pending(d).value.fireAt <= r.0.host.now then
                r.1 == [Fired(Pending(d).value.fireAt, Pending(d).value.payload)] && Pending(r.0).None?
              else
                r.1 == [] && Pending(r.0) == Pending(d)
  {
    var now := if t < d.host.now then d.host.now else t;
    var fired := Due(d.host.timers, now);
    var h := d.host.(timers := NotDue(d.host.timers, now), now := now);
    (d.(host := h), fired)
  }

  /** Something that happens to a debounced function: a call at time `at`
      with a payload, or time passing until `at` with no call. */
  datatype Event<P> = CallAt(at: int, payload: P) | WaitUntil(at: int)

  /** The clock first moves to the event's time (running what is due), then
      a call is made. */
  function Step<P>(d: Debouncer<P>, ev: Event<P>): (Debouncer<P>, seq<Fired<P>>) {
    var (d1, fired) := Advance(d, ev.at);
    match ev
    case CallAt(_, payload) => (Call(d1, payload), fired)
    case WaitUntil(_) => (d1, fired)
  }

  /** A trace of events, and every invocation it causes, in order. */
  function Run<P>(d: Debouncer<P>, evs: seq<Event<P>>): (Debouncer<P>, seq<Fired<P>>)
    decreases |evs|
  {
    if evs == [] then (d, [])
    else
      var first := Step(d, evs[0]);
      var rest := Run(first.0, evs[1..]);
      (rest.0, first.1 + rest.1)
  }

  /** A burst: calls only, in time order, each closer than `delay` to the
      one before. */
  predicate IsBurst<P>(evs: seq<Event<P>>, delay: int) {
    && |evs| > 0
    && (forall i :: 0 <= i < |evs| ==> evs[i].CallAt?)
    && (forall i :: 0 <= i < |evs| - 1 ==> evs[i].at <= evs[i + 1].at < evs[i].at + delay)
  }

  /** During a burst nothing runs; afterwards exactly the last call's
      invocation is pending, due `delay` after the last call. */
  lemma {:induction false} BurstLeavesLastPending<P>(d: Debouncer<P>, evs: seq<Event<P>>)
    requires Inv(d) && d.delay > 0 && IsBurst(evs, d.delay)
    requires d.host.now <= evs[0].at
    requires Pending(d).None? || Pending(d).value.fireAt > evs[0].at
    ensures var e := Run(d, evs).0;
            var last := evs[|evs| - 1];
            && Run(d, evs).1 == []
            && Inv(e) && e.delay == d.delay
            && e.host.now == last.at
            && Pending(e).Some?
            && Pending(e).value.payload == last.payload
            && Pending(e).value.fireAt == last.at + d.delay
    decreases |evs|
  {
    var (d1, f1) := Step(d, evs[0]);
    assert f1 == [];
    if |evs| > 1 {
      assert evs[1..][0] == evs[1];
      BurstLeavesLastPending(d1, evs[1..]);
      assert evs[1..][|evs[1..]| - 1] == evs[|evs| - 1];
    }
  }

  /** Running two traces one after the other is running their
      concatenation. */
  lemma {:induction false} RunAppend<P>(d: Debouncer<P>, xs: seq<Event<P>>, ys: seq<Event<P>>)
    ensures Run(d, xs + ys).0 == Run(Run(d, xs).0, ys).0
    ensures Run(d, xs + ys).1 == Run(d, xs).1 + Run(Run(d, xs).0, ys).1
    decreases |xs|
  {
    if xs == [] {
      assert xs + ys == ys;
    } else {
      var first := Step(d, xs[0]);
      assert (xs + ys)[0] == xs[0];
      assert (xs + ys)[1..] == xs[1..] + ys;
      RunAppend(first.0, xs[1..], ys);
      var mid := Run(first.0, xs[1..]);
      var tail := Run(mid.0, ys);
      assert Run(d, xs + ys).1 == first.1 + (mid.1 + tail.1);
      assert first.1 + (mid.1 + tail.1) == (first.1 + mid.1) + tail.1;
    }
  }

  /** Waiting until time `t` runs the pending invocation when it is due by
      then, and nothing otherwise. */
  lemma WaitRuns<P>(e: Debouncer<P>, t: int)
    requires Inv(e) && e.host.now <= t
    ensures Pending(e).Some? && Pending(e).value.fireAt <= t ==>
              Run(e, [WaitUntil(t)]).1 == [Fired(Pending(e).value.fireAt, Pending(e).value.payload)]
    ensures Pending(e).None? || Pending(e).value.fireAt > t ==> Run(e, [WaitUntil(t)]).1 == []
  {
    var w: seq<Event<P>> := [WaitUntil(t)];
    assert w[1..] == [];
    assert Run(e, w).1 == Advance(e, t).1 + [];
  }

  /** A burst of calls followed by a quiet period of `delay` causes exactly
      one invocation: the last call's, `delay` after it. */
  lemma BurstFiresOnce<P>(d: Debouncer<P>, evs: seq<Event<P>>)
    requires Inv(d) && d.delay > 0 && IsBurst(evs, d.delay)
    requires d.host.now <= evs[0].at
    requires Pending(d).None? || Pending(d).value.fireAt > evs[0].at
    ensures var last := evs[|evs| - 1];
            Run(d, evs + [WaitUntil(last.at + d.delay)]).1 == [Fired(last.at + d.delay, last.payload)]
  {
    var last := evs[|evs| - 1];
    BurstLeavesLastPending(d, evs);
    RunAppend(d, evs, [WaitUntil(last.at + d.delay)]);
    WaitRuns(Run(d, evs).0, last.at + d.delay);
  }

  /** An invocation never runs before `delay` has passed since the last
      call: waiting any shorter time runs nothing. */
  lemma QuietPeriodTooShort<P>(d: Debouncer<P>, evs: seq<Event<P>>, wait: int)
    requires Inv(d) && d.delay > 0 && IsBurst(evs, d.delay)
    requires d.host.now <= evs[0].at
    requires Pending(d).None? || Pending(d).value.fireAt > evs[0].at
    requires evs[|evs| - 1].at <= wait < evs[|evs| - 1].at + d.delay
    ensures Run(d, evs + [WaitUntil(wait)]).1 == []
  {
    BurstLeavesLastPending(d, evs);
    RunAppend(d, evs, [WaitUntil(wait)]);
    WaitRuns(Run(d, evs).0, wait);
  }

  /** The invocation a callback makes: the receiver it is applied to
      (`None` for a plain call) and the argument list. */
  datatype Invocation<R, A> = Invocation(receiver: Option<R>, args: A)

  /** `Utils.debounce(func, delay, thisArg)`: the receiver is fixed at
      creation. An object `thisArg` is truthy and is applied as receiver;
      the default `null` is falsy and gives a plain call. */
  datatype Debounced<R, A> = Debounced(thisArg: Option<R>, core: Debouncer<Invocation<R, A>>)

  /** One call of the function `Utils.debounce` returned. The truthiness
      test on `thisArg` is `Some?`, so the receiver is `thisArg` itself. */
  function Invoke<R, A>(f: Debounced<R, A>, args: A): (g: Debounced<R, A>)
    ensures g.thisArg == f.thisArg
    ensures Inv(f.core) ==>
              && Inv(g.core)
              && Pending(g.core).Some?
              && Pending(g.core).value.payload == Invocation(f.thisArg, args)
              && Pending(g.core).value.fireAt == f.core.host.now + EffectiveDelay(f.core.delay)
  {
    f.(core := Call(f.core, Invocation(f.thisArg, args)))
  }

  /** One call of the draft `debounce` closure: `func.apply(this, args)`
      uses the receiver of the call itself. */
  function InvokeDraft<R, A>(d: Debouncer<Invocation<R, A>>, self: R, args: A): (e: Debouncer<Invocation<R, A>>)
    ensures Inv(d) ==>
              && Inv(e)
              && Pending(e).Some?
              && Pending(e).value.payload == Invocation(Some(self), args)
  {
    Call(d, Invocation(Some(self), args))
  }

  /** Calls at 0, 100 and 200 with a delay of 500 and then quiet: one
      invocation, at 700, with the arguments of the call at 200. */
  lemma ThreeKeystrokes()
    ensures var d := Create<string>(0, 500);
            var evs := [CallAt(0, "a"), CallAt(100, "ab"), CallAt(200, "abc")];
            Run(d, evs + [WaitUntil(700)]).1 == [Fired(700, "abc")]
  {
    var d := Create<string>(0, 500);
    var evs := [CallAt(0, "a"), CallAt(100, "ab"), CallAt(200, "abc")];
    assert IsBurst(evs, 500);
    BurstFiresOnce(d, evs);
  }
}
