/** The intrusive change list of the polling library: records linked through their own fields. */
module PollingChangeList {
  import opened PollingProtocol
  import opened Sequences

  class HookRecord {
    const svKey: int
    var onChangeList: bool
    var changeListLink: HookRecord?

    constructor (svKey: int)
      ensures this.svKey == svKey && !onChangeList
    {
      this.svKey := svKey;
      onChangeList, changeListLink := false, null;
    }
  }

  /** Following the links from head visits exactly the records of q. */
  ghost predicate Linked(head: HookRecord?, q: seq<HookRecord>)
    reads q
  {
    if q == [] then head == null else head == q[0] && Linked(q[0].changeListLink, q[1..])
  }

  class Polling {
    var changeList: HookRecord?
    var notifier: bool
    ghost var toggles: nat
    /** The records on the list, newest first, and all records created. */
    ghost var pending: seq<HookRecord>
    ghost var hooks: set<HookRecord>

    /** Acyclic, each record once, and exactly the records whose flag is set. */
    ghost predicate Valid()
      reads this, hooks
    {
      && (forall r | r in pending :: r in hooks)
      && Distinct(pending)
      && (forall r | r in hooks :: r.onChangeList <==> r in pending)
      && Linked(changeList, pending)
    }

    ghost function Abs(): State<HookRecord>
      reads this
    {
      State(pending, notifier, toggles)
    }

    constructor ()
      ensures Valid() && pending == [] && hooks == {} && toggles == 0
    {
      changeList, notifier, toggles, pending, hooks := null, false, 0, [], {};
    }

    method Create(svKey: int) returns (rec: HookRecord)
      requires Valid()
      modifies this`hooks
      ensures Valid() && fresh(rec) && rec.svKey == svKey && hooks == old(hooks) + {rec}
      ensures Abs() == old(Abs())
    {
      rec := new HookRecord(svKey);
      hooks := hooks + {rec};
    }

    method PushIfNeeded(rec: HookRecord)
      requires Valid() && rec in hooks
      modifies this`changeList, this`pending, rec
      ensures Valid() && pending == Push(old(pending), rec)
      ensures pending == if rec in old(pending) then old(pending) else [rec] + old(pending)
    {
      if !rec.onChangeList {
        rec.onChangeList := true;
        rec.changeListLink := changeList;
        changeList := rec;
        pending := [rec] + pending;
      }
    }

    method ToggleNotifier()
      modifies this`notifier, this`toggles
      ensures notifier == !old(notifier) && toggles == old(toggles) + 1
    {
      notifier := !notifier;
      toggles := toggles + 1;
    }

    /** The value-change callback. */
    method ValueChange(hook: HookRecord)
      requires Valid() && hook in hooks
      modifies this`changeList, this`pending, this`notifier, this`toggles, hook
      ensures Valid() && Abs() == old(Change(Abs(), hook))
      ensures pending == if hook in old(pending) then old(pending) else [hook] + old(pending)
      ensures notifier == if old(pending) == [] then !old(notifier) else old(notifier)
    {
      var requireNotification := changeList == null;
      PushIfNeeded(hook);
      if requireNotification {
        ToggleNotifier();
      }
    }

    method GetNewestEntry() returns (rec: HookRecord?)
      requires Valid()
      modifies this`changeList, this`pending, hooks
      ensures Valid()
      ensures rec == null <==> old(pending) == []
      ensures rec != null ==> rec == old(pending)[0] && Abs() == old(Pop(Abs())) && pending == old(pending)[1..]
      ensures rec == null ==> Abs() == old(Abs())
    {
      rec := changeList;
      if rec != null {
        changeList := rec.changeListLink;
        rec.onChangeList := false;
        pending := pending[1..];
      }
    }

    /** The changes that arrive while one notification runs. */
    method Arrive(ks: seq<HookRecord>)
      requires Valid() && forall k | k in ks :: k in hooks
      modifies this`changeList, this`pending, this`notifier, this`toggles, hooks
      ensures Valid() && Abs() == old(Changes(Abs(), ks))
    {
      for i := 0 to |ks|
        invariant Valid() && hooks == old(hooks)
        invariant Changes(Abs(), ks[i..]) == old(Changes(Abs(), ks))
      {
        ValueChange(ks[i]);
      }
    }

    /** during[i] are the changes that arrive while the i-th notification runs. */
    method ProcessChangelist(during: seq<seq<HookRecord>>) returns (notified: seq<HookRecord>)
      requires Valid() && forall ks, k | ks in during && k in ks :: k in hooks
      modifies this`changeList, this`pending, this`notifier, this`toggles, hooks
      ensures Valid() && pending == []
      ensures Abs() == old(Drain(Abs(), during)).0 && notified == old(Drain(Abs(), during)).1
    {
      notified := [];
      ghost var final, todo := Drain(Abs(), during), during;
      var i := 0;
      while changeList != null
        invariant Valid() && hooks == old(hooks) && 0 <= i <= |during| && todo == during[i..]
        invariant final.0 == Drain(Abs(), todo).0 && final.1 == notified + Drain(Abs(), todo).1
        decreases |during| - i, |pending|
      {
        ghost var sent := notified;
        var rec := GetNewestEntry();
        notified := notified + [rec];
        if i < |during| {
          assert todo[0] == during[i] && todo[1..] == during[i + 1..];
          Arrive(during[i]);
          i, todo := i + 1, todo[1..];
        }
        Assoc(sent, [rec], Drain(Abs(), todo).1);
      }
      assert notified + [] == notified;
    }
  }
}
