/** A barrier over an event, with the processes blocked on the event object, as steps on values. */
module BarrierProtocol {
  import opened Arithmetic

  type Pid = nat

  /** The event's count, its state, and the processes blocked on its current event object. */
  datatype Event = Event(numWaiters: nat, on: bool, waiting: seq<Pid>)

  datatype Barrier = Barrier(threshold: int, numWaiters: nat, atThreshold: bool, autoReset: bool, event: Event)

  function New(threshold: int): Barrier {
    Barrier(threshold, 0, false, true, Event(0, false, []))
  }

  // ----- The event

  /** Unless a callback vetoes it, a trigger wakes everyone. */
  function Trigger(e: Event, vetoed: bool): Event {
    if vetoed then e else Event(0, true, [])
  }

  /** A new event object: whoever waits on the old one is not woken again. */
  function Renew(e: Event): Event {
    Event(0, false, [])
  }

  function Block(e: Event, p: Pid): Event {
    Event(e.numWaiters + 1, e.on, e.waiting + [p])
  }

  function CancelOne(e: Event): Event {
    e.(numWaiters := if e.numWaiters > 0 then e.numWaiters - 1 else 0)
  }

  function Without(ps: seq<Pid>, p: Pid): seq<Pid> {
    if ps == [] then [] else if ps[0] == p then ps[1..] else [ps[0]] + Without(ps[1..], p)
  }

  // ----- The barrier; each step also gives the processes it lets go on

  function WaitFor(b: Barrier, p: Pid): (Barrier, seq<Pid>) {
    if b.atThreshold then (b, [p])
    else if b.numWaiters + 1 >= b.threshold then
      (b.(atThreshold := !b.autoReset, numWaiters := 0, event := Trigger(b.event, false)), b.event.waiting + [p])
    else
      (b.(numWaiters := b.numWaiters + 1, event := Block(b.event, p)), [])
  }

  function Reset(b: Barrier, wakeup: bool): (Barrier, seq<Pid>) {
    var event := if b.numWaiters == 0 then b.event else if wakeup then Trigger(b.event, false) else Renew(b.event);
    (b.(atThreshold := false, numWaiters := 0, event := event),
     if b.numWaiters != 0 && wakeup then b.event.waiting else [])
  }

  function SetAutoReset(b: Barrier, value: bool): Barrier {
    b.(atThreshold := false, autoReset := value)
  }

  function SetThreshold(b: Barrier, threshold: int): (Barrier, seq<Pid>) {
    var b' := b.(threshold := threshold);
    if threshold <= b.numWaiters then Reset(b', true) else (b', [])
  }

  function Cancel(b: Barrier): Barrier {
    var event := CancelOne(b.event);
    b.(event := event, numWaiters := event.numWaiters)
  }

  /** A blocked process is killed; the barrier does not notice. */
  function Kill(b: Barrier, p: Pid): Barrier {
    b.(event := b.event.(waiting := Without(b.event.waiting, p)))
  }

  // ----- Runs

  datatype Action =
    | Arrive(p: Pid)
    | ResetBy(wakeup: bool)
    | AutoReset(value: bool)
    | Threshold(n: int)
    | KillOne(p: Pid)
    | CancelBy

  /** The barrier, and the processes that went on, that were left on an old event object, and that were killed. */
  datatype World = World(b: Barrier, released: seq<Pid>, stranded: seq<Pid>, killed: seq<Pid>)

  /** The kills that matter are those of processes blocked on the current event object. */
  predicate Allowed(w: World, a: Action) {
    a.KillOne? ==> a.p in w.b.event.waiting
  }

  function Apply(w: World, a: Action): World {
    match a
    case Arrive(p) => var (b, out) := WaitFor(w.b, p); w.(b := b, released := w.released + out)
    case ResetBy(wakeup) =>
      var (b, out) := Reset(w.b, wakeup);
      w.(b := b, released := w.released + out,
         stranded := w.stranded + if w.b.numWaiters != 0 && !wakeup then w.b.event.waiting else [])
    case AutoReset(value) => w.(b := SetAutoReset(w.b, value))
    case Threshold(n) => var (b, out) := SetThreshold(w.b, n); w.(b := b, released := w.released + out)
    case KillOne(p) => w.(b := Kill(w.b, p), killed := w.killed + [p])
    case CancelBy => w.(b := Cancel(w.b))
  }

  function Start(threshold: int): World {
    World(New(threshold), [], [], [])
  }

  function Run(threshold: int, acts: seq<Action>): World {
    if acts == [] then Start(threshold)
    else Apply(Run(threshold, acts[..|acts| - 1]), acts[|acts| - 1])
  }

  predicate AllAllowed(threshold: int, acts: seq<Action>) {
    acts == [] || (AllAllowed(threshold, acts[..|acts| - 1]) && Allowed(Run(threshold, acts[..|acts| - 1]), acts[|acts| - 1]))
  }

  function Arrivals(acts: seq<Action>): seq<Pid> {
    if acts == [] then []
    else Arrivals(acts[..|acts| - 1]) + if acts[|acts| - 1].Arrive? then [acts[|acts| - 1].p] else []
  }

  // ----- What every run keeps

  predicate Inv(b: Barrier) {
    && b.numWaiters == b.event.numWaiters
    && (b.numWaiters == 0 || b.numWaiters < b.threshold)
    && (b.atThreshold ==> b.numWaiters == 0 && !b.autoReset && b.event.waiting == [])
  }

  /** Whether the step releases or leaves behind whoever is blocked. */
  predicate Empties(w: World, a: Action) {
    match a
    case Arrive(_) => !w.b.atThreshold && w.b.numWaiters + 1 >= w.b.threshold
    case ResetBy(_) => w.b.numWaiters != 0
    case Threshold(n) => w.b.numWaiters != 0 && n <= w.b.numWaiters
    case _ => false
  }

  /** Kills that no cancel has followed yet, less cancels without a kill, since the barrier was last emptied. */
  function Owed(threshold: int, acts: seq<Action>): int {
    if acts == [] then 0
    else
      var w, a, before := Run(threshold, acts[..|acts| - 1]), acts[|acts| - 1], Owed(threshold, acts[..|acts| - 1]);
      if Empties(w, a) then 0
      else if a.KillOne? then before + 1
      else if a.CancelBy? && w.b.numWaiters > 0 then before - 1
      else before
  }

  /** Every process that arrived went on, is blocked, was left behind, or was killed. */
  predicate Conserved(w: World, arrived: seq<Pid>) {
    multiset(arrived) == multiset(w.released) + multiset(w.b.event.waiting) + multiset(w.stranded) + multiset(w.killed)
  }

  lemma {:induction false} WithoutOne(ps: seq<Pid>, p: Pid)
    requires p in ps
    ensures |Without(ps, p)| == |ps| - 1 && multiset(ps) == multiset(Without(ps, p)) + multiset{p}
  {
    assert ps == [ps[0]] + ps[1..];
    if ps[0] != p {
      WithoutOne(ps[1..], p);
    }
  }

  lemma StepKeepsInv(w: World, a: Action)
    requires Inv(w.b) && Allowed(w, a)
    ensures Inv(Apply(w, a).b)
  {
  }

  /** The barrier's count changes as the number of blocked processes does, except by kills and cancels. */
  lemma StepCounts(w: World, a: Action)
    requires Inv(w.b) && Allowed(w, a)
    ensures var b, b' := w.b, Apply(w, a).b;
            if Empties(w, a) then b'.numWaiters == 0 && b'.event.waiting == []
            else b'.numWaiters - |b'.event.waiting| ==
                 b.numWaiters - |b.event.waiting|
                 + (if a.KillOne? then 1 else if a.CancelBy? && b.numWaiters > 0 then -1 else 0)
  {
    if a.KillOne? {
      WithoutOne(w.b.event.waiting, a.p);
    }
  }

  lemma WakingConserves(w: World, w': World, arrived: seq<Pid>, more: seq<Pid>)
    requires Conserved(w, arrived) && w'.stranded == w.stranded && w'.killed == w.killed
    requires w'.released + w'.b.event.waiting == w.released + w.b.event.waiting + more
    ensures Conserved(w', arrived + more)
  {
    assert multiset(w'.released + w'.b.event.waiting) == multiset(w'.released) + multiset(w'.b.event.waiting);
    assert multiset(w.released + w.b.event.waiting) == multiset(w.released) + multiset(w.b.event.waiting);
  }

  lemma ArrivalConserves(w: World, p: Pid, arrived: seq<Pid>)
    requires Inv(w.b) && Conserved(w, arrived)
    ensures Conserved(Apply(w, Arrive(p)), arrived + [p])
  {
    var w' := Apply(w, Arrive(p));
    var out := WaitFor(w.b, p).1;
    assert w'.released == w.released + out;
    if w.b.atThreshold {
      assert w.b.event.waiting == [];
    }
    assert w.released + out + w'.b.event.waiting == w.released + w.b.event.waiting + [p];
    WakingConserves(w, w', arrived, [p]);
  }

  lemma StrandingConserves(w: World, arrived: seq<Pid>)
    requires Inv(w.b) && Conserved(w, arrived)
    ensures Conserved(Apply(w, ResetBy(false)), arrived)
  {
    var waiting := w.b.event.waiting;
    if w.b.numWaiters != 0 {
      assert multiset(w.stranded + waiting) == multiset(w.stranded) + multiset(waiting);
    }
  }

  lemma KillingConserves(w: World, p: Pid, arrived: seq<Pid>)
    requires Inv(w.b) && p in w.b.event.waiting && Conserved(w, arrived)
    ensures Conserved(Apply(w, KillOne(p)), arrived)
  {
    WithoutOne(w.b.event.waiting, p);
    assert multiset(w.killed + [p]) == multiset(w.killed) + multiset{p};
  }

  lemma StepConserves(w: World, a: Action, arrived: seq<Pid>)
    requires Inv(w.b) && Allowed(w, a) && Conserved(w, arrived) && !a.Arrive?
    ensures Conserved(Apply(w, a), arrived)
  {
    var w' := Apply(w, a);
    assert arrived + [] == arrived;
    match a {
      case ResetBy(wakeup) =>
        if wakeup {
          assert w'.released + w'.b.event.waiting == w.released + w.b.event.waiting + [];
          WakingConserves(w, w', arrived, []);
        } else {
          StrandingConserves(w, arrived);
        }
      case AutoReset(value) =>
      case Threshold(n) =>
        assert w'.released + w'.b.event.waiting == w.released + w.b.event.waiting + [];
        WakingConserves(w, w', arrived, []);
      case KillOne(p) =>
        KillingConserves(w, p, arrived);
      case CancelBy =>
    }
  }

  /** What the last action adds to what is owed. */
  lemma OwedLast(threshold: int, before: seq<Action>, a: Action)
    ensures var acts, w := before + [a], Run(threshold, before);
            && Run(threshold, acts) == Apply(w, a) && Arrivals(acts) == Arrivals(before) + (if a.Arrive? then [a.p] else [])
            && (AllAllowed(threshold, acts) <==> AllAllowed(threshold, before) && Allowed(w, a))
            && Owed(threshold, acts) ==
               if Empties(w, a) then 0
               else Owed(threshold, before) + (if a.KillOne? then 1 else if a.CancelBy? && w.b.numWaiters > 0 then -1 else 0)
  {
    assert (before + [a])[..|before|] == before;
  }

  /** The barrier's count is that of the blocked processes and of the kills not yet cancelled. */
  predicate Counted(b: Barrier, owed: int) {
    b.numWaiters == |b.event.waiting| + owed
  }

  lemma StepKeepsAll(w: World, a: Action, arrived: seq<Pid>)
    requires Inv(w.b) && Allowed(w, a) && Conserved(w, arrived)
    ensures Inv(Apply(w, a).b) && Conserved(Apply(w, a), arrived + if a.Arrive? then [a.p] else [])
  {
    StepKeepsInv(w, a);
    if a.Arrive? {
      ArrivalConserves(w, a.p, arrived);
    } else {
      StepConserves(w, a, arrived);
      assert arrived + [] == arrived;
    }
  }

  /**
   * In every run the barrier's count is the event's, is 0 or below the threshold, and differs
   * from the number of blocked processes by exactly the kills not yet cancelled; no process
   * is lost or duplicated.
   */
  lemma {:induction false} BarrierConservation(threshold: int, acts: seq<Action>)
    requires AllAllowed(threshold, acts)
    ensures var w := Run(threshold, acts);
            Inv(w.b) && Conserved(w, Arrivals(acts)) && Counted(w.b, Owed(threshold, acts))
    decreases |acts|
  {
    if acts != [] {
      var before, a := acts[..|acts| - 1], acts[|acts| - 1];
      assert acts == before + [a];
      OwedLast(threshold, before, a);
      BarrierConservation(threshold, before);
      StepKeepsAll(Run(threshold, before), a, Arrivals(before));
      StepCounts(Run(threshold, before), a);
    }
  }

  /** Every kill is followed by its cancel at once, and there is no other cancel. */
  predicate Paired(acts: seq<Action>)
    decreases |acts|
  {
    acts == []
    || (|acts| >= 2 && acts[|acts| - 1].CancelBy? && acts[|acts| - 2].KillOne? && Paired(acts[..|acts| - 2]))
    || (!acts[|acts| - 1].CancelBy? && !acts[|acts| - 1].KillOne? && Paired(acts[..|acts| - 1]))
  }

  lemma KillThenCancel(threshold: int, before: seq<Action>, p: Pid)
    requires AllAllowed(threshold, before + [KillOne(p)] + [CancelBy])
    ensures AllAllowed(threshold, before)
    ensures Owed(threshold, before) == 0 ==> Owed(threshold, before + [KillOne(p)] + [CancelBy]) == 0
  {
    var killed := before + [KillOne(p)];
    OwedLast(threshold, before, KillOne(p));
    OwedLast(threshold, killed, CancelBy);
    BarrierConservation(threshold, killed);
  }

  lemma OtherStep(threshold: int, before: seq<Action>, a: Action)
    requires AllAllowed(threshold, before + [a]) && !a.KillOne? && !a.CancelBy?
    ensures AllAllowed(threshold, before)
    ensures Owed(threshold, before) == 0 ==> Owed(threshold, before + [a]) == 0
  {
    OwedLast(threshold, before, a);
  }

  lemma {:induction false} PairedOwesNothing(threshold: int, acts: seq<Action>)
    requires AllAllowed(threshold, acts) && Paired(acts)
    ensures Owed(threshold, acts) == 0
    decreases |acts|
  {
    if acts != [] {
      var front, a := acts[..|acts| - 1], acts[|acts| - 1];
      if a.CancelBy? {
        var start, kill := acts[..|acts| - 2], acts[|acts| - 2];
        assert acts == start + [kill] + [a];
        KillThenCancel(threshold, start, kill.p);
        PairedOwesNothing(threshold, start);
      } else {
        assert acts == front + [a];
        OtherStep(threshold, front, a);
        PairedOwesNothing(threshold, front);
      }
    }
  }

  /** Used as documented, cancel keeps the count at the number of blocked processes. */
  lemma PairedCancelsCount(threshold: int, acts: seq<Action>)
    requires AllAllowed(threshold, acts) && Paired(acts)
    ensures Run(threshold, acts).b.numWaiters == |Run(threshold, acts).b.event.waiting|
  {
    BarrierConservation(threshold, acts);
    PairedOwesNothing(threshold, acts);
  }

  /** An unpaired cancel spoils the count exactly when there is someone to count. */
  lemma UnpairedCancel(w: World)
    requires Inv(w.b) && w.b.numWaiters == |w.b.event.waiting|
    ensures var b := Apply(w, CancelBy).b; b.numWaiters == |b.event.waiting| <==> w.b.event.waiting == []
  {
    StepCounts(w, CancelBy);
  }

  // ----- Arrivals only

  /** The processes arrive one after the other, with nothing else happening. */
  function AllArrive(w: World, ps: seq<Pid>): World
    decreases |ps|
  {
    if ps == [] then w else Apply(AllArrive(w, ps[..|ps| - 1]), Arrive(ps[|ps| - 1]))
  }

  /** A threshold below 1 acts like 1. */
  function Group(threshold: int): (n: nat)
    ensures n >= 1
  {
    if threshold < 1 then 1 else threshold
  }

  lemma DivUnique(x: nat, n: nat, q: nat, r: nat)
    requires x == n * q + r && r < n
    ensures x / n == q && x % n == r
  {
    var d := x / n - q;
    assert x == n * (x / n) + x % n;
    assert n * d == r - x % n;
    assert d < 1 && d > -1;
  }

  /** The barrier with auto-reset in use, `waiting` blocked and `released` gone on. */
  predicate Grouping(w: World, threshold: int, released: seq<Pid>, waiting: seq<Pid>) {
    && w.released == released && w.b.event.waiting == waiting
    && w.b.numWaiters == |waiting| && w.b.autoReset && !w.b.atThreshold && w.b.threshold == threshold
  }

  lemma NextInGroup(w: World, threshold: int, released: seq<Pid>, waiting: seq<Pid>, p: Pid)
    requires Grouping(w, threshold, released, waiting) && |waiting| < Group(threshold)
    ensures if |waiting| + 1 == Group(threshold) then Grouping(Apply(w, Arrive(p)), threshold, released + (waiting + [p]), [])
            else Grouping(Apply(w, Arrive(p)), threshold, released, waiting + [p])
  {
  }

  lemma Slices(ps: seq<Pid>, full: nat)
    requires ps != [] && full < |ps|
    ensures var before, p := ps[..|ps| - 1], ps[|ps| - 1];
            && before[..full] + (before[full..] + [p]) == ps && before[..full] == ps[..full] && before[full..] + [p] == ps[full..]
    ensures ps[..|ps|] == ps && ps[|ps|..] == []
  {
  }

  /** Arrivals at a barrier with some processes blocked, fewer than the threshold. */
  lemma {:induction false} GroupsFrom(w: World, threshold: int, blocked: seq<Pid>, ps: seq<Pid>) returns (full: nat, q: nat)
    requires Grouping(w, threshold, [], blocked) && |blocked| < Group(threshold)
    ensures var all := blocked + ps;
            && full == q * Group(threshold) && full <= |all| < full + Group(threshold)
            && Grouping(AllArrive(w, ps), threshold, all[..full], all[full..])
    decreases |ps|
  {
    var all := blocked + ps;
    if ps == [] {
      full, q := 0, 0;
      assert all[..0] == [] && all[0..] == blocked;
    } else {
      var front, p := ps[..|ps| - 1], ps[|ps| - 1];
      var before := blocked + front;
      full, q := GroupsFrom(w, threshold, blocked, front);
      NextInGroup(AllArrive(w, front), threshold, before[..full], before[full..], p);
      assert all[..|all| - 1] == before;
      Slices(all, full);
      if |all| == full + Group(threshold) {
        Scaled(q + 1, Group(threshold));
        full, q := |all|, q + 1;
      }
    }
  }

  /**
   * With auto-reset and a fixed threshold n, the processes go on in groups of n in the order
   * they came: after k arrivals the first n * (k / n) went on and the last k % n are blocked.
   */
  lemma AutoResetGroups(threshold: int, ps: seq<Pid>)
    ensures var n := Group(threshold);
            && n * (|ps| / n) + |ps| % n == |ps|
            && Grouping(AllArrive(Start(threshold), ps), threshold, ps[..n * (|ps| / n)], ps[n * (|ps| / n)..])
  {
    var full, q := GroupsFrom(Start(threshold), threshold, [], ps);
    assert [] + ps == ps;
    DivUnique(|ps|, Group(threshold), q, |ps| - full);
  }

  predicate Closed(w: World, threshold: int, waiting: seq<Pid>) {
    && w.released == [] && w.b.event.waiting == waiting && w.b.numWaiters == w.b.event.numWaiters == |waiting|
    && !w.b.atThreshold && !w.b.autoReset && w.b.threshold == threshold
  }

  predicate Open(w: World, threshold: int, released: seq<Pid>) {
    && w.released == released && w.b.event.waiting == [] && w.b.numWaiters == w.b.event.numWaiters == 0
    && w.b.atThreshold && !w.b.autoReset && w.b.threshold == threshold
  }

  lemma NextIfOpen(w: World, threshold: int, ps: seq<Pid>, p: Pid)
    requires if |ps| < Group(threshold) then Closed(w, threshold, ps) else Open(w, threshold, ps)
    ensures var w' := Apply(w, Arrive(p));
            if |ps| + 1 < Group(threshold) then Closed(w', threshold, ps + [p]) else Open(w', threshold, ps + [p])
  {
    assert [] + (ps + [p]) == ps + [p];
  }

  /** Arrivals at a closed barrier with some processes blocked. */
  lemma {:induction false} OpensFrom(w: World, threshold: int, blocked: seq<Pid>, ps: seq<Pid>)
    requires Closed(w, threshold, blocked) && |blocked| < Group(threshold)
    ensures var all := blocked + ps;
            if |all| < Group(threshold) then Closed(AllArrive(w, ps), threshold, all) else Open(AllArrive(w, ps), threshold, all)
    decreases |ps|
  {
    if ps == [] {
      assert blocked + ps == blocked;
    } else {
      var front, p := ps[..|ps| - 1], ps[|ps| - 1];
      OpensFrom(w, threshold, blocked, front);
      NextIfOpen(AllArrive(w, front), threshold, blocked + front, p);
      assert blocked + ps == blocked + front + [p];
    }
  }

  lemma StaysOpenFrom(w: World, threshold: int, ps: seq<Pid>)
    requires Closed(w, threshold, [])
    ensures if |ps| < Group(threshold) then Closed(AllArrive(w, ps), threshold, ps) else Open(AllArrive(w, ps), threshold, ps)
  {
    OpensFrom(w, threshold, [], ps);
    assert [] + ps == ps;
  }

  /** Without auto-reset everyone waits until the threshold is met, and from then on the barrier is open. */
  lemma StaysOpen(threshold: int, ps: seq<Pid>)
    ensures var w := AllArrive(Apply(Start(threshold), AutoReset(false)), ps);
            if |ps| < Group(threshold) then Closed(w, threshold, ps) else Open(w, threshold, ps)
  {
    StaysOpenFrom(Apply(Start(threshold), AutoReset(false)), threshold, ps);
  }

  // ----- Starting afresh

  /** What went on before has no effect on what an arrival does. */
  lemma {:induction false} EarlierReleases(w: World, before: seq<Pid>, ps: seq<Pid>)
    requires w.released == []
    ensures AllArrive(w.(released := before), ps) == AllArrive(w, ps).(released := before + AllArrive(w, ps).released)
    decreases |ps|
  {
    if ps == [] {
      assert before + [] == before;
    } else {
      var front, p := ps[..|ps| - 1], ps[|ps| - 1];
      EarlierReleases(w, before, front);
      var v := AllArrive(w, front);
      var out := WaitFor(v.b, p).1;
      assert before + v.released + out == before + (v.released + out);
    }
  }

  /** Nobody is blocked, nothing is counted and the barrier is closed, as when it was new. */
  predicate AsNew(b: Barrier, threshold: int, autoReset: bool) {
    && b.threshold == threshold && b.autoReset == autoReset && !b.atThreshold
    && b.numWaiters == 0 && b.event.numWaiters == 0 && b.event.waiting == []
  }

  /**
   * In every run a reset keeps the threshold and auto-reset and closes the barrier, and it makes it
   * as new if and only if it has someone to count or nobody is blocked.
   */
  lemma ResetClears(threshold: int, acts: seq<Action>, wakeup: bool)
    requires AllAllowed(threshold, acts)
    ensures var w := Run(threshold, acts);
            var w' := Apply(w, ResetBy(wakeup));
            && !w'.b.atThreshold && w'.b.numWaiters == 0
            && (AsNew(w'.b, w.b.threshold, w.b.autoReset) <==> w.b.numWaiters > 0 || w.b.event.waiting == [])
            && (if w.b.numWaiters == 0 then w'.released == w.released && w'.stranded == w.stranded
                else if wakeup then w'.released == w.released + w.b.event.waiting && w'.stranded == w.stranded
                else w'.released == w.released && w'.stranded == w.stranded + w.b.event.waiting)
  {
    BarrierConservation(threshold, acts);
    assert Run(threshold, acts).released + [] == Run(threshold, acts).released;
    assert Run(threshold, acts).stranded + [] == Run(threshold, acts).stranded;
  }

  /** A new threshold that the count has reached resets the barrier and lets everyone go on; any other changes nothing else. */
  lemma ThresholdEffect(threshold: int, acts: seq<Action>, n: int)
    requires AllAllowed(threshold, acts)
    ensures var w := Run(threshold, acts);
            var w' := Apply(w, Threshold(n));
            if n > w.b.numWaiters then w' == w.(b := w.b.(threshold := n))
            else w' == Apply(w.(b := w.b.(threshold := n)), ResetBy(true))
  {
    var w := Run(threshold, acts);
    assert w.released + [] == w.released && w.stranded + [] == w.stranded;
  }

  /**
   * Arrivals at a barrier that is as new do what they do at a new one: with auto-reset they go on
   * in groups, without it all wait until the threshold is met and from then on all go on.
   */
  lemma ArrivalsAfresh(w: World, threshold: int, autoReset: bool, ps: seq<Pid>)
    requires AsNew(w.b, threshold, autoReset)
    ensures var v := AllArrive(w.(released := []), ps);
            && AllArrive(w, ps) == v.(released := w.released + v.released)
            && (autoReset ==>
                  var n := Group(threshold); Grouping(v, threshold, ps[..n * (|ps| / n)], ps[n * (|ps| / n)..]))
            && (!autoReset ==> if |ps| < Group(threshold) then Closed(v, threshold, ps) else Open(v, threshold, ps))
  {
    ArrivalsWithBlocked(w, threshold, [], autoReset, ps);
    assert [] + ps == ps;
  }

  /** Closed with ps waiting, or open once there were enough. */
  predicate ClosedOrOpen(w: World, threshold: int, ps: seq<Pid>) {
    if |ps| < Group(threshold) then Closed(w, threshold, ps) else Open(w, threshold, ps)
  }

  lemma ResetOf(w: World, threshold: int, ps: seq<Pid>, wakeup: bool)
    requires ClosedOrOpen(w, threshold, ps)
    ensures AsNew(Apply(w, ResetBy(wakeup)).b, threshold, false)
  {
  }

  lemma AutoResetOf(w: World, threshold: int, ps: seq<Pid>, value: bool)
    requires ClosedOrOpen(w, threshold, ps)
    ensures var w', blocked := Apply(w, AutoReset(value)), if |ps| < Group(threshold) then ps else [];
            && w'.released == (if |ps| < Group(threshold) then [] else ps)
            && (if value then Grouping(w'.(released := []), threshold, [], blocked)
                else Closed(w'.(released := []), threshold, blocked))
  {
  }

  /** After a reset a barrier that had opened, or had processes waiting, is closed, and opens only to as many arrivals again. */
  lemma ResetStartsAfresh(threshold: int, ps: seq<Pid>, wakeup: bool, later: seq<Pid>)
    ensures var w := Apply(AllArrive(Apply(Start(threshold), AutoReset(false)), ps), ResetBy(wakeup));
            var v := AllArrive(w.(released := []), later);
            && Closed(w.(released := []), threshold, [])
            && AllArrive(w, later) == v.(released := w.released + v.released)
            && if |later| < Group(threshold) then Closed(v, threshold, later) else Open(v, threshold, later)
  {
    var before := AllArrive(Apply(Start(threshold), AutoReset(false)), ps);
    StaysOpen(threshold, ps);
    ResetOf(before, threshold, ps, wakeup);
    ArrivalsAfresh(Apply(before, ResetBy(wakeup)), threshold, false, later);
  }

  /**
   * set_auto_reset closes an open barrier too, and leaves those blocked at a closed one: they are
   * the first of those that the next arrivals wait with.
   */
  lemma AutoResetStartsAfresh(threshold: int, ps: seq<Pid>, value: bool, later: seq<Pid>)
    ensures var w := Apply(AllArrive(Apply(Start(threshold), AutoReset(false)), ps), AutoReset(value));
            var v := AllArrive(w.(released := []), later);
            var all := if |ps| < Group(threshold) then ps + later else later;
            && w.released == (if |ps| < Group(threshold) then [] else ps)
            && AllArrive(w, later) == v.(released := w.released + v.released)
            && (value ==> var n := Group(threshold); Grouping(v, threshold, all[..n * (|all| / n)], all[n * (|all| / n)..]))
            && (!value ==> if |all| < Group(threshold) then Closed(v, threshold, all) else Open(v, threshold, all))
  {
    var before := AllArrive(Apply(Start(threshold), AutoReset(false)), ps);
    StaysOpen(threshold, ps);
    AutoResetOf(before, threshold, ps, value);
    var blocked := if |ps| < Group(threshold) then ps else [];
    ArrivalsWithBlocked(Apply(before, AutoReset(value)), threshold, blocked, value, later);
    assert [] + later == later;
  }

  lemma ArrivalsWithBlocked(w: World, threshold: int, blocked: seq<Pid>, autoReset: bool, later: seq<Pid>)
    requires |blocked| < Group(threshold)
    requires if autoReset then Grouping(w.(released := []), threshold, [], blocked) else Closed(w.(released := []), threshold, blocked)
    ensures var v, all := AllArrive(w.(released := []), later), blocked + later;
            && AllArrive(w, later) == v.(released := w.released + v.released)
            && (autoReset ==> var n := Group(threshold); Grouping(v, threshold, all[..n * (|all| / n)], all[n * (|all| / n)..]))
            && (!autoReset ==> if |all| < Group(threshold) then Closed(v, threshold, all) else Open(v, threshold, all))
  {
    var start, all := w.(released := []), blocked + later;
    EarlierReleases(start, w.released, later);
    assert start.(released := w.released) == w;
    if autoReset {
      var full, q := GroupsFrom(start, threshold, blocked, later);
      DivUnique(|all|, Group(threshold), q, |all| - full);
    } else {
      OpensFrom(start, threshold, blocked, later);
    }
  }

  // ----- The event by itself

  datatype EventOp = WaitOp(p: Pid) | TriggerOp(vetoed: bool) | ResetOp | CancelOp

  function EventStep(e: Event, op: EventOp): Event {
    match op
    case WaitOp(p) => Block(e, p)
    case TriggerOp(vetoed) => Trigger(e, vetoed)
    case ResetOp => Renew(e)
    case CancelOp => CancelOne(e)
  }

  function EventRun(ops: seq<EventOp>): Event {
    if ops == [] then Event(0, false, []) else EventStep(EventRun(ops[..|ops| - 1]), ops[|ops| - 1])
  }

  /** An event is on since an unvetoed trigger that no reset has followed. */
  predicate TriggeredSince(ops: seq<EventOp>, i: nat) {
    i < |ops| && ops[i] == TriggerOp(false) && forall j | i < j < |ops| :: ops[j] != ResetOp
  }

  lemma {:induction false} OnSinceTrigger(ops: seq<EventOp>)
    ensures EventRun(ops).on <==> exists i: nat :: TriggeredSince(ops, i)
    decreases |ops|
  {
    if ops != [] {
      var front, op := ops[..|ops| - 1], ops[|ops| - 1];
      OnSinceTrigger(front);
      forall i: nat | i < |front|
        ensures TriggeredSince(ops, i) <==> TriggeredSince(front, i) && op != ResetOp
      {
      }
      if op == TriggerOp(false) { assert TriggeredSince(ops, |front|); }
    }
  }

  /** The processes that wait, in order. */
  function Waits(ops: seq<EventOp>): seq<Pid> {
    if ops == [] then [] else Waits(ops[..|ops| - 1]) + if ops[|ops| - 1].WaitOp? then [ops[|ops| - 1].p] else []
  }

  /** The operations from k on are those since the last unvetoed trigger or reset. */
  predicate LastEmptied(ops: seq<EventOp>, k: nat) {
    && k <= |ops| && (k > 0 ==> ops[k - 1] in {TriggerOp(false), ResetOp})
    && forall j | k <= j < |ops| :: ops[j] !in {TriggerOp(false), ResetOp}
  }

  /**
   * Whoever waits since the last trigger or reset is blocked, in that order, and nobody else; and
   * unless there was a cancel since, they are the ones counted.
   */
  lemma {:induction false} BlockedSince(ops: seq<EventOp>, k: nat)
    requires LastEmptied(ops, k)
    ensures EventRun(ops).waiting == Waits(ops[k..])
    ensures CancelOp !in ops[k..] ==> EventRun(ops).numWaiters == |Waits(ops[k..])|
    decreases |ops|
  {
    if k == |ops| {
      assert ops[k..] == [];
    } else {
      var front, op := ops[..|ops| - 1], ops[|ops| - 1];
      BlockedSince(front, k);
      assert ops[k..][..|ops| - k - 1] == front[k..] && ops[k..] == front[k..] + [op];
      assert Waits(front[k..]) + [] == Waits(front[k..]);
    }
  }
}
