/** The animation-frame throttle: calls coalesce into at most one pending
    frame, the frame applies the wrapped function to the latest arguments,
    and teardown cancels a pending frame. */
module RafThrottle {
  import opened Js

  /** The throttle's state: whether `frameRef` holds a handle, whether the
      browser still holds the requested callback (it loses it when the
      frame runs or is cancelled), and `lastArgs`. */
  datatype State<T> = State(framePending: bool, callbackQueued: bool, lastArgs: Option<T>)

  /** What can happen to a throttle: a call of the throttled function, the
      browser running the requested frame callback, and unmount teardown. */
  datatype Event<T> = Call(args: T) | Frame | Teardown

  /** No frame pending, nothing recorded. */
  function Idle<T>(): State<T>
  {
    State(false, false, None)
  }

  /** A queued callback always has a handle in `frameRef` and arguments
      to apply. */
  predicate Valid<T>(s: State<T>)
  {
    (s.callbackQueued ==> s.framePending) && (s.framePending ==> s.lastArgs.Some?)
  }

  /** The state after one event, with the arguments the wrapped function
      was applied to, if it was. */
  function Step<T>(s: State<T>, e: Event<T>): (r: (State<T>, Option<T>))
    ensures Valid(s) ==> Valid(r.0)
    ensures r.1.Some? ==> e.Frame? && r.1 == s.lastArgs && !r.0.framePending
    ensures e.Call? ==> r.0.lastArgs == Some(e.args) && r.0.framePending
  {
    match e
    case Call(args) =>
      if s.framePending then (s.(lastArgs := Some(args)), None)
      else (State(true, true, Some(args)), None)
    case Frame =>
      if s.callbackQueued then (s.(framePending := false, callbackQueued := false), s.lastArgs)
      else (s, None)
    case Teardown =>
      (if s.framePending then s.(callbackQueued := false) else s, None)
  }

  /** The arguments of every application made while `events` happen. */
  function Applied<T>(s: State<T>, events: seq<Event<T>>): seq<T>
    decreases |events|
  {
    if events == [] then []
    else
      var (next, out) := Step(s, events[0]);
      (if out.Some? then [out.value] else []) + Applied(next, events[1..])
  }

  /** The state once `events` have happened. */
  function After<T>(s: State<T>, events: seq<Event<T>>): State<T>
    decreases |events|
  {
    if events == [] then s else After(Step(s, events[0]).0, events[1..])
  }

  /** The calls of a burst, one per argument list. */
  function Calls<T>(xs: seq<T>): (es: seq<Event<T>>)
    ensures |es| == |xs|
    ensures forall k :: 0 <= k < |xs| ==> es[k] == Call(xs[k])
  {
    if xs == [] then [] else [Call(xs[0])] + Calls(xs[1..])
  }

  // ---------------------------------------------------------------------
  // Laws of one step

  /** Every step keeps the state valid; a call records its own arguments
      and schedules a frame only when none is pending; a frame applies the
      latest arguments exactly when its callback is still queued. */
  lemma StepLaws<T>(s: State<T>, e: Event<T>)
    requires Valid(s)
    ensures Valid(Step(s, e).0)
    ensures e.Call? ==>
      (Step(s, e).0.lastArgs == Some(e.args) && Step(s, e).0.framePending && Step(s, e).1 == None &&
       (Step(s, e).0.callbackQueued <==> s.callbackQueued || !s.framePending))
    ensures e.Frame? ==>
      (Step(s, e).1.Some? <==> s.callbackQueued) &&
      (s.callbackQueued ==> Step(s, e).1 == s.lastArgs && !Step(s, e).0.framePending)
    ensures e.Teardown? ==>
      (Step(s, e).1 == None && !Step(s, e).0.callbackQueued && Step(s, e).0.framePending == s.framePending)
  {
  }

  // ---------------------------------------------------------------------
  // Laws of event sequences

  lemma {:induction false} AppliedAppend<T>(s: State<T>, a: seq<Event<T>>, b: seq<Event<T>>)
    ensures Applied(s, a + b) == Applied(s, a) + Applied(After(s, a), b)
    ensures After(s, a + b) == After(After(s, a), b)
    decreases |a|
  {
    if a != [] {
      assert (a + b)[0] == a[0] && (a + b)[1..] == a[1..] + b;
      AppliedAppend(Step(s, a[0]).0, a[1..], b);
    } else {
      assert a + b == b;
    }
  }

  /** Calls apply nothing; after a burst of at least one call the last
      call's arguments are recorded, a frame is pending, and a callback is
      queued if one was queued before or no frame was pending. */
  lemma {:induction false} BurstOfCalls<T>(s: State<T>, xs: seq<T>)
    requires |xs| >= 1
    ensures Applied(s, Calls(xs)) == []
    ensures After(s, Calls(xs)).lastArgs == Some(xs[|xs| - 1])
    ensures After(s, Calls(xs)).framePending
    ensures After(s, Calls(xs)).callbackQueued <==> s.callbackQueued || !s.framePending
    decreases |xs|
  {
    var first := Step(s, Call(xs[0])).0;
    assert Calls(xs)[0] == Call(xs[0]) && Calls(xs)[1..] == Calls(xs[1..]);
    if |xs| > 1 {
      BurstOfCalls(first, xs[1..]);
    }
  }

  /** From an idle throttle, k >= 1 calls and then one frame apply the
      wrapped function exactly once, to the last call's arguments, and
      leave the throttle with no frame pending. */
  lemma CallsThenFrame<T>(xs: seq<T>)
    requires |xs| >= 1
    ensures Applied(Idle(), Calls(xs) + [Frame]) == [xs[|xs| - 1]]
    ensures !After(Idle(), Calls(xs) + [Frame]).framePending
  {
    BurstOfCalls(Idle(), xs);
    AppliedAppend(Idle(), Calls(xs), [Frame]);
  }

  /** Once torn down with a frame pending, the throttle never applies the
      function again and never schedules another frame: the handle is not
      cleared, so every later call sees a pending frame. */
  lemma {:induction false} TornDownStaysSilent<T>(s: State<T>, events: seq<Event<T>>)
    requires s.framePending && !s.callbackQueued
    ensures Applied(s, events) == []
    ensures After(s, events).framePending && !After(s, events).callbackQueued
    decreases |events|
  {
    if events != [] {
      TornDownStaysSilent(Step(s, events[0]).0, events[1..]);
    }
  }

  lemma TeardownCancels<T>(s: State<T>, events: seq<Event<T>>)
    requires s.framePending
    ensures Applied(s, [Teardown] + events) == []
  {
    TornDownStaysSilent(Step(s, Teardown).0, events);
    AppliedAppend(s, [Teardown], events);
  }

  // ---------------------------------------------------------------------
  // The hook's refs, updated in place

  class Throttle<T> {
    /** frameRef.current != null */
    var framePending: bool
    /** the browser still holds the callback requested into frameRef */
    var callbackQueued: bool
    /** lastArgs.current */
    var lastArgs: Option<T>
    /** the arguments the wrapped function has been applied to */
    ghost var applied: seq<T>

    function Current(): State<T>
      reads this
    {
      State(framePending, callbackQueued, lastArgs)
    }

    constructor ()
      ensures Current() == Idle() && applied == []
    {
      framePending, callbackQueued, lastArgs := false, false, None;
      applied := [];
    }

    /** The throttled callback. */
    method Call(args: T)
      modifies this
      ensures Current() == Step(old(Current()), Event.Call(args)).0
      ensures applied == old(applied)
    {
      lastArgs := Some(args);
      if !framePending {
        framePending := true;
        callbackQueued := true;
      }
    }

    /** The browser runs the frame: a no-op unless the callback is still
        queued; otherwise the handle is cleared and the wrapped function is
        applied to the latest arguments, which are returned. */
    method Fire() returns (fired: Option<T>)
      modifies this
      ensures (Current(), fired) == Step(old(Current()), Frame)
      ensures applied == old(applied) + Applied(old(Current()), [Frame])
    {
      fired := None;
      if callbackQueued {
        callbackQueued := false;
        framePending := false;
        if lastArgs.Some? {
          fired := lastArgs;
          applied := applied + [lastArgs.value];
        }
      }
    }

    /** The effect cleanup: cancels a pending frame but leaves frameRef set. */
    method Teardown()
      modifies this
      ensures Current() == Step(old(Current()), Event.Teardown).0
      ensures applied == old(applied)
    {
      if framePending {
        callbackQueued := false;
      }
    }
  }

  /** A burst of calls on a fresh throttle followed by one frame: the
      wrapped function is applied once, to the last arguments. */
  method CoalescedBurst<T>(xs: seq<T>) returns (t: Throttle<T>)
    requires |xs| >= 1
    ensures t.applied == [xs[|xs| - 1]]
    ensures !t.framePending
  {
    t := new Throttle();
    var k := 0;
    while k < |xs|
      invariant 0 <= k <= |xs|
      invariant t.applied == []
      invariant t.Current() == After(Idle(), Calls(xs[..k]))
    {
      AppliedAppend(Idle(), Calls(xs[..k]), [Call(xs[k])]);
      assert Calls(xs[..k + 1]) == Calls(xs[..k]) + [Call(xs[k])];
      t.Call(xs[k]);
      k := k + 1;
    }
    assert xs[..|xs|] == xs;
    BurstOfCalls(Idle(), xs);
    CallsThenFrame(xs);
    AppliedAppend(Idle(), Calls(xs), [Frame]);
    var fired := t.Fire();
  }
}
