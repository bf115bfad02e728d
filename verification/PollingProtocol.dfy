/**
 * The signal-polling protocol as a state machine: value changes arrive at any moment, also
 * while a notification is being delivered, and list processing pops one entry at a time.
 */
module PollingProtocol {
  import opened Sequences

  /** The change list, newest first, and the notifier bit with the number of its toggles. */
  datatype State<K> = State(pending: seq<K>, notifier: bool, toggles: nat)

  /** Changed: the value-change callback of k.  Notify: the loop pops the newest entry and notifies it. */
  datatype Action<+K> = Changed(k: K) | Notify

  ghost function Push<K>(pending: seq<K>, k: K): seq<K> {
    if k in pending then pending else [k] + pending
  }

  ghost function Toggle<K>(s: State<K>): State<K> {
    s.(notifier := !s.notifier, toggles := s.toggles + 1)
  }

  /** The first change since the list was empty toggles the notifier. */
  ghost function Change<K>(s: State<K>, k: K): State<K> {
    var s' := s.(pending := Push(s.pending, k));
    if s.pending == [] then Toggle(s') else s'
  }

  ghost function Pop<K>(s: State<K>): State<K>
    requires s.pending != []
  {
    s.(pending := s.pending[1..])
  }

  ghost predicate Enabled<K>(s: State<K>, a: Action<K>) {
    a.Notify? ==> s.pending != []
  }

  ghost function Apply<K>(s: State<K>, a: Action<K>): State<K>
    requires Enabled(s, a)
  {
    match a
    case Changed(k) => Change(s, k)
    case Notify => Pop(s)
  }

  ghost predicate Feasible<K>(s: State<K>, run: seq<Action<K>>)
    decreases |run|
  {
    run == [] || (Enabled(s, run[0]) && Feasible(Apply(s, run[0]), run[1..]))
  }

  ghost function After<K>(s: State<K>, run: seq<Action<K>>): State<K>
    requires Feasible(s, run)
    decreases |run|
  {
    if run == [] then s else After(Apply(s, run[0]), run[1..])
  }

  /** The entries notified, in order. */
  ghost function Notified<K>(s: State<K>, run: seq<Action<K>>): seq<K>
    requires Feasible(s, run)
    decreases |run|
  {
    if run == [] then []
    else (if run[0].Notify? then [s.pending[0]] else []) + Notified(Apply(s, run[0]), run[1..])
  }

  /** How often the list went from empty to nonempty. */
  ghost function Wakeups<K>(s: State<K>, run: seq<Action<K>>): nat
    requires Feasible(s, run)
    decreases |run|
  {
    if run == [] then 0
    else
      var s' := Apply(s, run[0]);
      (if s.pending == [] && s'.pending != [] then 1 else 0) + Wakeups(s', run[1..])
  }

  /** Over any run the list holds each entry at most once. */
  lemma {:induction false} ListStaysDuplicateFree<K>(s: State<K>, run: seq<Action<K>>)
    requires Feasible(s, run) && Distinct(s.pending)
    ensures Distinct(After(s, run).pending)
    decreases |run|
  {
    if run != [] { ListStaysDuplicateFree(Apply(s, run[0]), run[1..]); }
  }

  /** The notifier toggles exactly when the list stops being empty, and its level is the parity of those moments. */
  lemma {:induction false} TogglesAreWakeups<K>(s: State<K>, run: seq<Action<K>>)
    requires Feasible(s, run)
    ensures After(s, run).toggles == s.toggles + Wakeups(s, run)
    ensures After(s, run).notifier == (s.notifier != (Wakeups(s, run) % 2 == 1))
    decreases |run|
  {
    if run != [] { TogglesAreWakeups(Apply(s, run[0]), run[1..]); }
  }

  /**
   * No toggle is undone before the list has been emptied: as long as the list never becomes
   * empty after the change that made it nonempty, the notifier keeps the level that change gave it.
   */
  lemma {:induction false} WakeupIsNotCancelled<K>(s: State<K>, k: K, run: seq<Action<K>>)
    requires s.pending == [] && Feasible(Change(s, k), run)
    requires NeverEmpty(Change(s, k), run)
    ensures After(Change(s, k), run).notifier == !s.notifier
  {
    NonemptyKeepsLevel(Change(s, k), run);
  }

  ghost predicate NeverEmpty<K>(s: State<K>, run: seq<Action<K>>)
    requires Feasible(s, run)
    decreases |run|
  {
    s.pending != [] && (run == [] || NeverEmpty(Apply(s, run[0]), run[1..]))
  }

  lemma {:induction false} NonemptyKeepsLevel<K>(s: State<K>, run: seq<Action<K>>)
    requires Feasible(s, run) && NeverEmpty(s, run)
    ensures After(s, run).notifier == s.notifier && After(s, run).toggles == s.toggles
    decreases |run|
  {
    if run != [] { NonemptyKeepsLevel(Apply(s, run[0]), run[1..]); }
  }

  /** Did k change after its last notification?  `since` says whether it had when the run began. */
  ghost function ChangedSinceNotify<K>(s: State<K>, run: seq<Action<K>>, k: K, since: bool): bool
    requires Feasible(s, run)
    decreases |run|
  {
    if run == [] then since
    else
      var now := match run[0]
        case Changed(j) => since || j == k
        case Notify => since && s.pending[0] != k;
      ChangedSinceNotify(Apply(s, run[0]), run[1..], k, now)
  }

  /** In every interleaving, the list holds exactly the signals with an unnotified change. */
  lemma {:induction false} ListHoldsUnnotifiedChanges<K>(s: State<K>, run: seq<Action<K>>, k: K)
    requires Feasible(s, run) && Distinct(s.pending)
    ensures k in After(s, run).pending <==> ChangedSinceNotify(s, run, k, k in s.pending)
    decreases |run|
  {
    if run != [] {
      var s' := Apply(s, run[0]);
      if run[0].Notify? {
        assert s.pending == [s.pending[0]] + s.pending[1..];
      }
      ListHoldsUnnotifiedChanges(s', run[1..], k);
    }
  }

  /** Nothing is dropped: an entry on the list stays there until it is notified. */
  lemma {:induction false} PendingIsNotifiedOrStays<K>(s: State<K>, run: seq<Action<K>>, k: K)
    requires Feasible(s, run) && k in s.pending
    ensures k in After(s, run).pending || k in Notified(s, run)
    decreases |run|
  {
    if run != [] {
      var s' := Apply(s, run[0]);
      assert run[0].Notify? ==> s.pending == [s.pending[0]] + s'.pending;
      if k in s'.pending { PendingIsNotifiedOrStays(s', run[1..], k); }
    }
  }

  /**
   * No lost notification: a signal with an unnotified change, at any point of any run, is
   * notified before any later point where the list is found empty, which is where a drain ends.
   */
  lemma NoLostNotification<K>(s: State<K>, before: seq<Action<K>>, drain: seq<Action<K>>, k: K)
    requires s.pending == [] && Feasible(s, before) && Feasible(After(s, before), drain)
    requires ChangedSinceNotify(s, before, k, false)
    requires After(After(s, before), drain).pending == []
    ensures k in Notified(After(s, before), drain)
  {
    ListHoldsUnnotifiedChanges(s, before, k);
    PendingIsNotifiedOrStays(After(s, before), drain, k);
  }

  /** The changes that put an entry on the list. */
  ghost function Pushes<K>(s: State<K>, run: seq<Action<K>>): nat
    requires Feasible(s, run)
    decreases |run|
  {
    if run == [] then 0
    else (if run[0].Changed? && run[0].k !in s.pending then 1 else 0) + Pushes(Apply(s, run[0]), run[1..])
  }

  /** Every entry put on the list is notified once or still there. */
  lemma {:induction false} Conservation<K>(s: State<K>, run: seq<Action<K>>)
    requires Feasible(s, run)
    ensures |s.pending| + Pushes(s, run) == |Notified(s, run)| + |After(s, run).pending|
    decreases |run|
  {
    if run != [] { Conservation(Apply(s, run[0]), run[1..]); }
  }

  // ----- One call of the processing function

  /** The changes that arrive during one notification. */
  ghost function Changes<K>(s: State<K>, ks: seq<K>): State<K>
    decreases |ks|
  {
    if ks == [] then s else Changes(Change(s, ks[0]), ks[1..])
  }

  /** Pop, notify, and let the changes of that notification arrive, until the list is empty. */
  ghost function Drain<K>(s: State<K>, during: seq<seq<K>>): (State<K>, seq<K>)
    decreases |during|, |s.pending|
  {
    if s.pending == [] then (s, [])
    else
      var (k, s') := (s.pending[0], Pop(s));
      var (r, log) := if during == [] then Drain(s', []) else Drain(Changes(s', during[0]), during[1..]);
      (r, [k] + log)
  }

  /** The actions of that call. */
  ghost function DrainRun<K>(s: State<K>, during: seq<seq<K>>): seq<Action<K>>
    decreases |during|, |s.pending|
  {
    if s.pending == [] then []
    else if during == [] then [Notify] + DrainRun(Pop(s), [])
    else [Notify] + ChangeRun(during[0]) + DrainRun(Changes(Pop(s), during[0]), during[1..])
  }

  ghost function ChangeRun<K>(ks: seq<K>): seq<Action<K>> {
    if ks == [] then [] else [Changed(ks[0])] + ChangeRun(ks[1..])
  }

  lemma {:induction false} RunConcat<K>(s: State<K>, ks: seq<K>, rest: seq<Action<K>>)
    requires Feasible(Changes(s, ks), rest)
    ensures Feasible(s, ChangeRun(ks) + rest)
    ensures After(s, ChangeRun(ks) + rest) == After(Changes(s, ks), rest)
    ensures Notified(s, ChangeRun(ks) + rest) == Notified(Changes(s, ks), rest)
    decreases |ks|
  {
    var run := ChangeRun(ks) + rest;
    if ks == [] {
      assert run == rest;
    } else {
      RunConcat(Change(s, ks[0]), ks[1..], rest);
      assert run[0] == Changed(ks[0]) && run[1..] == ChangeRun(ks[1..]) + rest;
    }
  }

  /** A call, whatever arrives during its notifications, is a run that leaves the list empty. */
  lemma {:induction false} DrainIsARun<K>(s: State<K>, during: seq<seq<K>>)
    ensures Drain(s, during).0.pending == []
    ensures Feasible(s, DrainRun(s, during))
    ensures After(s, DrainRun(s, during)) == Drain(s, during).0
    ensures Notified(s, DrainRun(s, during)) == Drain(s, during).1
    decreases |during|, |s.pending|
  {
    if s.pending != [] {
      var run, s' := DrainRun(s, during), Pop(s);
      if during == [] {
        DrainIsARun(s', []);
        assert run[0] == Notify && run[1..] == DrainRun(s', []);
      } else {
        var s'' := Changes(s', during[0]);
        DrainIsARun(s'', during[1..]);
        RunConcat(s', during[0], DrainRun(s'', during[1..]));
        assert run[0] == Notify && run[1..] == ChangeRun(during[0]) + DrainRun(s'', during[1..]);
      }
    }
  }

  /** With no change in between, every pending entry is notified once, newest first. */
  lemma {:induction false} QuietDrain<K>(s: State<K>)
    ensures Drain(s, []) == (s.(pending := []), s.pending)
    decreases |s.pending|
  {
    if s.pending != [] {
      QuietDrain(Pop(s));
      assert s.pending == [s.pending[0]] + s.pending[1..];
    }
  }
}
