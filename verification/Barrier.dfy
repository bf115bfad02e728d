/** The event and barrier classes; a call runs up to the point where its process blocks or returns. */
module Barrier {
  import P = BarrierProtocol

  lemma SkipOne(ps: seq<P.Pid>, i: nat, p: P.Pid)
    requires i < |ps| && ps[i] != p
    ensures ps[..i] + P.Without(ps[i..], p) == ps[..i + 1] + P.Without(ps[i..][1..], p)
  {
    assert P.Without(ps[i..], p) == [ps[i]] + P.Without(ps[i..][1..], p);
    assert ps[..i + 1] == ps[..i] + [ps[i]];
  }

  /** The simulator's event object with the processes blocked on it. */
  class EventObject {
    var waiting: seq<P.Pid>

    constructor ()
      ensures waiting == []
    {
      waiting := [];
    }

    /** Everyone blocked on the object goes on. */
    method Fire() returns (released: seq<P.Pid>)
      modifies this
      ensures released == old(waiting) && waiting == []
    {
      released := waiting;
      waiting := [];
    }

    method Kill(p: P.Pid)
      modifies this
      ensures waiting == P.Without(old(waiting), p)
    {
      var i := 0;
      ghost var rest := waiting;
      while i < |waiting| && waiting[i] != p
        invariant i <= |waiting| && waiting == old(waiting) && rest == waiting[i..]
        invariant P.Without(waiting, p) == waiting[..i] + P.Without(rest, p)
      {
        SkipOne(waiting, i, p);
        rest := rest[1..];
        i := i + 1;
      }
      if i < |waiting| {
        assert P.Without(rest, p) == rest[1..] == waiting[i + 1..];
        waiting := waiting[..i] + waiting[i + 1..];
      } else {
        assert rest == [] && waiting[..i] + [] == waiting;
      }
    }
  }

  class Event {
    var handle: EventObject
    var numWaiters: nat
    var on: bool

    ghost function Abs(): P.Event
      reads this, handle
    {
      P.Event(numWaiters, on, handle.waiting)
    }

    constructor ()
      ensures fresh(handle) && Abs() == P.Event(0, false, [])
    {
      handle := new EventObject();
      numWaiters, on := 0, false;
    }

    /** wait_trigger, up to the wait. */
    method WaitTrigger(p: P.Pid)
      modifies this, handle
      ensures handle == old(handle) && Abs() == P.Block(old(Abs()), p)
    {
      numWaiters := numWaiters + 1;
      handle.waiting := handle.waiting + [p];
    }

    /** trigger; `skip` counts the pre_trigger callbacks that ask for it to be skipped. */
    method Trigger(skip: nat) returns (released: seq<P.Pid>)
      modifies this, handle
      ensures handle == old(handle) && Abs() == P.Trigger(old(Abs()), skip != 0)
      ensures released == if skip == 0 then old(handle.waiting) else []
    {
      released := [];
      if skip == 0 {
        on := true;
        released := handle.Fire();
        numWaiters := 0;
      }
    }

    method Reset(wakeup: bool) returns (released: seq<P.Pid>)
      modifies this, handle
      ensures fresh(handle) && Abs() == P.Renew(old(Abs()))
      ensures released == if wakeup then old(handle.waiting) else []
      ensures !wakeup ==> old(handle).waiting == old(handle.waiting)
    {
      released := [];
      if wakeup {
        released := handle.Fire();
      }
      handle := new EventObject();
      numWaiters, on := 0, false;
    }

    method Cancel()
      modifies this
      ensures handle == old(handle) && Abs() == P.CancelOne(old(Abs()))
    {
      if numWaiters > 0 {
        numWaiters := numWaiters - 1;
      }
    }
  }

  class Barrier {
    var threshold: int
    var numWaiters: nat
    var atThreshold: bool
    var autoReset: bool
    const event: Event

    ghost function Abs(): P.Barrier
      reads this, event, event.handle
    {
      P.Barrier(threshold, numWaiters, atThreshold, autoReset, event.Abs())
    }

    constructor (threshold: int)
      ensures fresh(event) && fresh(event.handle) && Abs() == P.New(threshold)
    {
      event := new Event();
      this.threshold, numWaiters, autoReset, atThreshold := threshold, 0, true, false;
    }

    /** wait_for, up to the wait: the processes that go on because of this call. */
    method WaitFor(p: P.Pid) returns (released: seq<P.Pid>)
      modifies this, event, event.handle
      ensures event.handle == old(event.handle)
      ensures (Abs(), released) == P.WaitFor(old(Abs()), p)
    {
      if atThreshold { return [p]; }
      numWaiters := numWaiters + 1;
      if numWaiters >= threshold {
        if !autoReset {
          atThreshold := true;
        }
        released := event.Trigger(0);
        numWaiters := 0;
        return released + [p];
      }
      event.WaitTrigger(p);
      released := [];
    }

    method Reset(wakeup: bool) returns (released: seq<P.Pid>)
      modifies this, event, event.handle
      ensures event.handle == old(event.handle) || fresh(event.handle)
      ensures (Abs(), released) == P.Reset(old(Abs()), wakeup)
    {
      atThreshold := false;
      released := [];
      if numWaiters != 0 {
        if wakeup {
          released := event.Trigger(0);
        } else {
          released := event.Reset(false);
        }
      }
      numWaiters := 0;
    }

    method SetAutoReset(value: bool)
      modifies this
      ensures Abs() == P.SetAutoReset(old(Abs()), value)
    {
      atThreshold := false;
      autoReset := value;
    }

    method SetThreshold(threshold: int) returns (released: seq<P.Pid>)
      modifies this, event, event.handle
      ensures (Abs(), released) == P.SetThreshold(old(Abs()), threshold)
    {
      this.threshold := threshold;
      released := [];
      if threshold <= numWaiters {
        released := Reset(true);
      }
    }

    method Cancel()
      modifies this, event
      ensures Abs() == P.Cancel(old(Abs()))
    {
      event.Cancel();
      numWaiters := event.numWaiters;
    }

    /** The simulator kills a process; nothing of the barrier runs. */
    method Kill(p: P.Pid)
      modifies event.handle
      ensures Abs() == P.Kill(old(Abs()), p)
    {
      event.handle.Kill(p);
    }
  }
}
