/**
 * Callback queues on values: one typewide queue per type, one queue per object that ever
 * had a callback of its own.
 */
module CallbackQueues {
  import opened Sequences

  type Cb = nat
  type Obj = nat

  /** The types derived from each type, the type of report objects, and the types each object can be cast to. */
  datatype Hierarchy = Hierarchy(derived: seq<seq<nat>>, report: nat, casts: (Obj, nat) -> bool)

  datatype State = State(tw: map<nat, seq<Cb>>, pool: map<Obj, seq<Cb>>)

  /** A type is registered before the types derived from it. */
  predicate ValidTree(h: Hierarchy) {
    h.report < |h.derived|
    && forall t, i | 0 <= t < |h.derived| && 0 <= i < |h.derived[t]| :: t < h.derived[t][i] < |h.derived|
  }

  /** u is t or derived from it, directly or not. */
  predicate Desc(h: Hierarchy, u: nat, t: nat)
    requires ValidTree(h) && t < |h.derived|
    decreases |h.derived| - t
  {
    u == t || exists i | 0 <= i < |h.derived[t]| :: Desc(h, u, h.derived[t][i])
  }

  /** The object can be cast to type t. */
  predicate IsA(h: Hierarchy, o: Obj, t: nat) {
    h.casts(o, t)
  }

  /** An object of a derived type is one of the base type. */
  ghost predicate CastsUp(h: Hierarchy)
    requires ValidTree(h)
  {
    forall o: Obj, u: nat, t: nat | t < |h.derived| && Desc(h, u, t) && IsA(h, o, u) :: IsA(h, o, t)
  }

  ghost predicate Valid(h: Hierarchy, s: State) {
    ValidTree(h) && CastsUp(h) && forall t: nat :: t in s.tw <==> t < |h.derived|
  }

  // ----- Queues

  function Insert(q: seq<Cb>, cb: Cb, append: bool): seq<Cb> {
    if cb in q then q else if append then q + [cb] else [cb] + q
  }

  /** The queue without its first occurrence of cb. */
  function Remove(q: seq<Cb>, cb: Cb): seq<Cb> {
    if q == [] then [] else if q[0] == cb then q[1..] else [q[0]] + Remove(q[1..], cb)
  }

  lemma InsertNoDup(q: seq<Cb>, cb: Cb, append: bool)
    requires Distinct(q)
    ensures Distinct(Insert(q, cb, append)) && forall c :: c in Insert(q, cb, append) <==> c in q || c == cb
  {
  }

  lemma {:induction false} RemoveNoDup(q: seq<Cb>, cb: Cb)
    requires Distinct(q)
    ensures Distinct(Remove(q, cb)) && forall c :: c in Remove(q, cb) <==> c in q && c != cb
    decreases |q|
  {
    if q != [] {
      RemoveNoDup(q[1..], cb);
      assert q == [q[0]] + q[1..] && q[0] !in q[1..];
      assert q[0] !in Remove(q[1..], cb);
    }
  }

  function Copies(q: seq<Cb>, cb: Cb): (n: nat)
    ensures n > 0 <==> cb in q
  {
    if q == [] then 0 else (if q[0] == cb then 1 else 0) + Copies(q[1..], cb)
  }

  /** n less k, but not below 0. */
  function Less(n: nat, k: nat): nat {
    if n > k then n - k else 0
  }

  lemma {:induction false} RemoveCopies(q: seq<Cb>, d: Cb, cb: Cb)
    ensures Copies(Remove(q, d), cb) == if d == cb then Less(Copies(q, cb), 1) else Copies(q, cb)
    decreases |q|
  {
    if q != [] && q[0] != d {
      RemoveCopies(q[1..], d, cb);
      assert ([q[0]] + Remove(q[1..], d))[1..] == Remove(q[1..], d);
    }
  }

  // ----- Operations

  function TwAdd(h: Hierarchy, s: State, t: nat, cb: Cb, append: bool): State
    requires Valid(h, s) && t < |h.derived|
  {
    State(map u | u in s.tw :: if Desc(h, u, t) then Insert(s.tw[u], cb, append) else s.tw[u],
          map o | o in s.pool :: if IsA(h, o, t) then Insert(s.pool[o], cb, append) else s.pool[o])
  }

  /** The types a deletion from t goes through, up to the k-th derived type: t itself first, each before those below it. */
  function VisitsUpTo(h: Hierarchy, t: nat, k: nat): (vs: seq<nat>)
    requires ValidTree(h) && t < |h.derived| && k <= |h.derived[t]|
    ensures vs != [] && forall u | u in vs :: u < |h.derived|
    decreases |h.derived| - t, k
  {
    if k == 0 then [t] else VisitsUpTo(h, t, k - 1) + Visits(h, h.derived[t][k - 1])
  }

  function Visits(h: Hierarchy, t: nat): (vs: seq<nat>)
    requires ValidTree(h) && t < |h.derived|
    ensures vs != [] && forall u | u in vs :: u < |h.derived|
    decreases |h.derived| - t, |h.derived[t]| + 1
  {
    VisitsUpTo(h, t, |h.derived[t]|)
  }

  /** At each type its queue loses the first occurrence, and so does every object's, whatever the object's type. */
  function DeleteAt(s: State, u: nat, cb: Cb): State
    requires u in s.tw
  {
    State(s.tw[u := Remove(s.tw[u], cb)], map o | o in s.pool :: Remove(s.pool[o], cb))
  }

  predicate Known(s: State, vs: seq<nat>) {
    forall u | u in vs :: u in s.tw
  }

  function DeleteAll(s: State, vs: seq<nat>, cb: Cb): (r: State)
    requires Known(s, vs)
    ensures r.tw.Keys == s.tw.Keys && r.pool.Keys == s.pool.Keys
    decreases |vs|
  {
    if vs == [] then s else DeleteAll(DeleteAt(s, vs[0], cb), vs[1..], cb)
  }

  function TwDelete(h: Hierarchy, s: State, t: nat, cb: Cb): State
    requires Valid(h, s) && t < |h.derived|
  {
    DeleteAll(s, Visits(h, t), cb)
  }

  function Queue(s: State, o: Obj): seq<Cb> {
    if o in s.pool then s.pool[o] else []
  }

  /** What an empty instance queue starts from: the queue of report objects if it is one, and that of the type named. */
  function Seed(h: Hierarchy, s: State, t: nat, o: Obj): seq<Cb>
    requires t in s.tw && h.report in s.tw
  {
    (if IsA(h, o, h.report) then s.tw[h.report] else []) + s.tw[t]
  }

  function ObjAdd(h: Hierarchy, s: State, t: nat, o: Obj, cb: Cb, append: bool): State
    requires t in s.tw && h.report in s.tw
  {
    var q := if Queue(s, o) == [] then Seed(h, s, t, o) else Queue(s, o);
    s.(pool := s.pool[o := Insert(q, cb, append)])
  }

  datatype Call =
    | AddType(t: nat, cb: Cb, append: bool)
    | AddObj(t: nat, o: Obj, cb: Cb, append: bool)
    | DeleteType(t: nat, cb: Cb)
    | DeleteObj(o: Obj, cb: Cb)

  /** The type exists, the object is of that type, and a callback is deleted only from an object that has a queue. */
  predicate Allowed(h: Hierarchy, s: State, c: Call) {
    match c
    case AddType(t, _, _) => t < |h.derived|
    case AddObj(t, o, _, _) => t < |h.derived| && IsA(h, o, t)
    case DeleteType(t, _) => t < |h.derived|
    case DeleteObj(o, _) => o in s.pool
  }

  function Apply(h: Hierarchy, s: State, c: Call): State
    requires Valid(h, s) && Allowed(h, s, c)
  {
    match c
    case AddType(t, cb, append) => if cb in s.tw[t] then s else TwAdd(h, s, t, cb, append)
    case AddObj(t, o, cb, append) => ObjAdd(h, s, t, o, cb, append)
    case DeleteType(t, cb) => TwDelete(h, s, t, cb)
    case DeleteObj(o, cb) => s.(pool := s.pool[o := Remove(s.pool[o], cb)])
  }

  // ----- The order of the queues

  /**
   * A callback that an object's queue lacks comes last with append and first without it; one that it
   * has changes nothing.  An empty queue takes those of the report objects first, if the object
   * is one, and then those of the type.  No other queue changes.
   */
  lemma AddObjOrder(h: Hierarchy, s: State, t: nat, o: Obj, cb: Cb, append: bool)
    requires Valid(h, s) && t < |h.derived| && IsA(h, o, t)
    ensures var s' := Apply(h, s, AddObj(t, o, cb, append));
            var q := if o in s.pool && s.pool[o] != [] then s.pool[o]
                     else if h.casts(o, h.report) then s.tw[h.report] + s.tw[t] else s.tw[t];
            && (cb !in q && append ==> s' == s.(pool := s.pool[o := q + [cb]]))
            && (cb !in q && !append ==> s' == s.(pool := s.pool[o := [cb] + q]))
            && (cb in q ==> s' == s.(pool := s.pool[o := q]))
  {
    assert [] + s.tw[t] == s.tw[t];
  }

  /** The same for each queue that a typewide add reaches: that of the type, of the types derived from it, and of the objects it casts to. */
  lemma AddTypeOrder(h: Hierarchy, s: State, t: nat, cb: Cb, append: bool)
    requires Valid(h, s) && t < |h.derived| && cb !in s.tw[t]
    ensures var s' := Apply(h, s, AddType(t, cb, append));
            && s'.tw.Keys == s.tw.Keys && s'.pool.Keys == s.pool.Keys
            && (forall u | u in s.tw ::
                  s'.tw[u] == if !Desc(h, u, t) || cb in s.tw[u] then s.tw[u]
                              else if append then s.tw[u] + [cb] else [cb] + s.tw[u])
            && (forall o | o in s.pool ::
                  s'.pool[o] == if !h.casts(o, t) || cb in s.pool[o] then s.pool[o]
                                else if append then s.pool[o] + [cb] else [cb] + s.pool[o])
  {
  }

  /** The queue without the first n occurrences of cb. */
  function Without(q: seq<Cb>, cb: Cb, n: nat): seq<Cb> {
    if q == [] then []
    else if q[0] == cb && n > 0 then Without(q[1..], cb, n - 1)
    else [q[0]] + Without(q[1..], cb, n)
  }

  lemma {:induction false} WithoutNone(q: seq<Cb>, cb: Cb)
    ensures Without(q, cb, 0) == q
    decreases |q|
  {
    if q != [] {
      WithoutNone(q[1..], cb);
    }
  }

  lemma {:induction false} RemoveFirst(q: seq<Cb>, cb: Cb, n: nat)
    ensures Without(Remove(q, cb), cb, n) == Without(q, cb, n + 1)
    decreases |q|
  {
    if q != [] && q[0] != cb {
      RemoveFirst(q[1..], cb, n);
      assert ([q[0]] + Remove(q[1..], cb))[1..] == Remove(q[1..], cb);
    }
  }

  lemma {:induction false} DeleteAllOrder(s: State, vs: seq<nat>, cb: Cb, o: Obj)
    requires Known(s, vs) && o in s.pool
    ensures DeleteAll(s, vs, cb).pool[o] == Without(s.pool[o], cb, |vs|)
    decreases |vs|
  {
    if vs == [] {
      WithoutNone(s.pool[o], cb);
    } else {
      DeleteAllOrder(DeleteAt(s, vs[0], cb), vs[1..], cb, o);
      RemoveFirst(s.pool[o], cb, |vs| - 1);
    }
  }

  /** How often a type is gone through. */
  function Visited(vs: seq<nat>, u: nat): nat {
    if vs == [] then 0 else (if vs[0] == u then 1 else 0) + Visited(vs[1..], u)
  }

  lemma {:induction false} DeleteAllTypeOrder(s: State, vs: seq<nat>, cb: Cb, u: nat)
    requires Known(s, vs) && u in s.tw
    ensures DeleteAll(s, vs, cb).tw[u] == Without(s.tw[u], cb, Visited(vs, u))
    decreases |vs|
  {
    if vs == [] {
      WithoutNone(s.tw[u], cb);
    } else {
      DeleteAllTypeOrder(DeleteAt(s, vs[0], cb), vs[1..], cb, u);
      RemoveFirst(s.tw[u], cb, Visited(vs[1..], u));
    }
  }

  /**
   * A typewide delete takes the first occurrences of the callback off a queue, one for each
   * time it comes by, and leaves everything else in its order: an object's queue for every type
   * gone through, a type's for the visits to that type.  A delete from one object takes its first.
   */
  lemma DeleteOrder(h: Hierarchy, s: State, t: nat, cb: Cb)
    requires Valid(h, s) && t < |h.derived|
    ensures var s', vs := Apply(h, s, DeleteType(t, cb)), Visits(h, t);
            && (forall o | o in s.pool :: s'.pool[o] == Without(s.pool[o], cb, |vs|))
            && (forall u | u in s.tw :: s'.tw[u] == Without(s.tw[u], cb, Visited(vs, u)))
    ensures forall o | o in s.pool :: Apply(h, s, DeleteObj(o, cb)) == s.(pool := s.pool[o := Without(s.pool[o], cb, 1)])
  {
    forall o | o in s.pool
      ensures Apply(h, s, DeleteType(t, cb)).pool[o] == Without(s.pool[o], cb, |Visits(h, t)|)
      ensures Apply(h, s, DeleteObj(o, cb)) == s.(pool := s.pool[o := Without(s.pool[o], cb, 1)])
    {
      DeleteAllOrder(s, Visits(h, t), cb, o);
      RemoveFirst(s.pool[o], cb, 0);
      WithoutNone(Remove(s.pool[o], cb), cb);
    }
    forall u | u in s.tw ensures Apply(h, s, DeleteType(t, cb)).tw[u] == Without(s.tw[u], cb, Visited(Visits(h, t), u)) {
      DeleteAllTypeOrder(s, Visits(h, t), cb, u);
    }
  }

  /** ss is a run from the state without callbacks. */
  ghost predicate Run(h: Hierarchy, ss: seq<State>, cs: seq<Call>) {
    && |ss| == |cs| + 1 && ValidTree(h) && CastsUp(h) && ss[0] == Initial(h)
    && forall i | 0 <= i < |cs| :: Stepped(h, ss[i], cs[i], ss[i + 1])
  }

  ghost predicate Stepped(h: Hierarchy, s: State, c: Call, s': State) {
    Valid(h, s) ==> Allowed(h, s, c) && s' == Apply(h, s, c)
  }

  function Initial(h: Hierarchy): State {
    State(EmptyQueues(|h.derived|), map[])
  }

  function EmptyQueues(n: nat): (m: map<nat, seq<Cb>>)
    ensures forall t: nat :: t in m <==> t < n
    ensures forall t | t in m :: m[t] == []
  {
    if n == 0 then map[] else EmptyQueues(n - 1)[n - 1 := []]
  }

  // ----- Deleting

  lemma {:induction false} DeleteAllPool(s: State, vs: seq<nat>, d: Cb, o: Obj, cb: Cb)
    requires Known(s, vs) && o in s.pool
    ensures Copies(DeleteAll(s, vs, d).pool[o], cb)
         == if d == cb then Less(Copies(s.pool[o], cb), |vs|) else Copies(s.pool[o], cb)
    decreases |vs|
  {
    if vs != [] {
      RemoveCopies(s.pool[o], d, cb);
      DeleteAllPool(DeleteAt(s, vs[0], d), vs[1..], d, o, cb);
    }
  }

  lemma {:induction false} DeleteAllTw(s: State, vs: seq<nat>, d: Cb, u: nat, cb: Cb)
    requires Known(s, vs) && u in s.tw
    ensures var n, n' := Copies(s.tw[u], cb), Copies(DeleteAll(s, vs, d).tw[u], cb);
            n' <= n && (n' < n <==> n > 0 && d == cb && u in vs)
    decreases |vs|
  {
    if vs != [] {
      RemoveCopies(s.tw[u], d, cb);
      DeleteAllTw(DeleteAt(s, vs[0], d), vs[1..], d, u, cb);
      assert vs == [vs[0]] + vs[1..];
    }
  }

  lemma {:induction false} DeleteAllJoin(s: State, a: seq<nat>, b: seq<nat>, cb: Cb)
    requires Known(s, a) && Known(s, b)
    ensures Known(s, a + b) && DeleteAll(s, a + b, cb) == DeleteAll(DeleteAll(s, a, cb), b, cb)
    decreases |a|
  {
    if a == [] {
      assert a + b == b;
    } else {
      assert (a + b)[0] == a[0] && (a + b)[1..] == a[1..] + b;
      DeleteAllJoin(DeleteAt(s, a[0], cb), a[1..], b, cb);
    }
  }

  predicate DescUpTo(h: Hierarchy, u: nat, t: nat, k: nat)
    requires ValidTree(h) && t < |h.derived| && k <= |h.derived[t]|
  {
    u == t || exists i | 0 <= i < k :: Desc(h, u, h.derived[t][i])
  }

  lemma {:induction false} VisitsDescUpTo(h: Hierarchy, u: nat, t: nat, k: nat)
    requires ValidTree(h) && t < |h.derived| && k <= |h.derived[t]|
    ensures u in VisitsUpTo(h, t, k) <==> DescUpTo(h, u, t, k)
    decreases |h.derived| - t, k
  {
    if k > 0 {
      var d := h.derived[t][k - 1];
      VisitsDescUpTo(h, u, t, k - 1);
      VisitsDescUpTo(h, u, d, |h.derived[d]|);
    }
  }

  lemma VisitsDesc(h: Hierarchy, u: nat, t: nat)
    requires ValidTree(h) && t < |h.derived|
    ensures u in Visits(h, t) <==> Desc(h, u, t)
  {
    VisitsDescUpTo(h, u, t, |h.derived[t]|);
  }

  // ----- Duplicates

  /** No type's queue holds a callback twice. */
  ghost predicate TwDistinct(s: State) {
    forall t | t in s.tw :: Distinct(s.tw[t])
  }

  ghost predicate AllNoDup(s: State) {
    TwDistinct(s) && forall o | o in s.pool :: Distinct(s.pool[o])
  }

  lemma {:induction false} DeleteAllDistinct(s: State, vs: seq<nat>, cb: Cb)
    requires Known(s, vs) && TwDistinct(s)
    ensures TwDistinct(DeleteAll(s, vs, cb)) && (AllNoDup(s) ==> AllNoDup(DeleteAll(s, vs, cb)))
    decreases |vs|
  {
    if vs != [] {
      var s' := DeleteAt(s, vs[0], cb);
      RemoveNoDup(s.tw[vs[0]], cb);
      forall o | o in s.pool && Distinct(s.pool[o]) ensures Distinct(s'.pool[o]) { RemoveNoDup(s.pool[o], cb); }
      DeleteAllDistinct(s', vs[1..], cb);
    }
  }

  lemma ApplyValid(h: Hierarchy, s: State, c: Call)
    requires Valid(h, s) && Allowed(h, s, c) && TwDistinct(s)
    ensures Valid(h, Apply(h, s, c)) && TwDistinct(Apply(h, s, c))
  {
    match c {
      case AddType(t, cb, append) =>
        forall u | u in s.tw ensures Distinct(Insert(s.tw[u], cb, append)) { InsertNoDup(s.tw[u], cb, append); }
      case AddObj(t, o, cb, append) =>
      case DeleteType(t, cb) =>
        DeleteAllDistinct(s, Visits(h, t), cb);
      case DeleteObj(o, cb) =>
    }
  }

  /** In every run the types' queues hold no callback twice. */
  lemma {:induction false} RunValid(h: Hierarchy, ss: seq<State>, cs: seq<Call>, n: nat)
    requires Run(h, ss, cs) && n <= |cs|
    ensures Valid(h, ss[n]) && TwDistinct(ss[n])
    ensures n < |cs| ==> Allowed(h, ss[n], cs[n]) && ss[n + 1] == Apply(h, ss[n], cs[n])
    decreases n
  {
    if n > 0 {
      RunValid(h, ss, cs, n - 1);
      ApplyValid(h, ss[n - 1], cs[n - 1]);
    }
    if n < |cs| { assert Stepped(h, ss[n], cs[n], ss[n + 1]); }
  }

  /** An object's queue is not started from two queues that share a callback. */
  predicate SeedsApart(h: Hierarchy, s: State, c: Call)
    requires Valid(h, s) && Allowed(h, s, c)
  {
    c.AddObj? && Queue(s, c.o) == [] && IsA(h, c.o, h.report) ==> forall x | x in s.tw[c.t] :: x !in s.tw[h.report]
  }

  lemma DistinctJoin(a: seq<Cb>, b: seq<Cb>)
    requires Distinct(a) && Distinct(b)
    ensures Distinct(a + b) <==> forall x | x in b :: x !in a
  {
    var s := a + b;
    if forall x | x in b :: x !in a {
      forall i, j | 0 <= i < j < |s| ensures s[i] != s[j] {
        assert i < |a| <= j ==> s[i] in a && s[j] in b;
      }
    } else {
      var i, j :| 0 <= i < |a| && 0 <= j < |b| && a[i] == b[j];
      assert s[i] == s[|a| + j];
    }
  }

  lemma InsertDistinct(q: seq<Cb>, cb: Cb, append: bool)
    ensures Distinct(Insert(q, cb, append)) <==> Distinct(q)
  {
    var r := Insert(q, cb, append);
    var k := if cb in q || append then 0 else 1;
    assert forall i | 0 <= i < |q| :: r[i + k] == q[i];
    if Distinct(r) {
      forall i, j | 0 <= i < j < |q| ensures q[i] != q[j] {
        assert r[i + k] != r[j + k];
      }
    }
  }

  lemma SeedDistinct(h: Hierarchy, s: State, t: nat, o: Obj, cb: Cb, append: bool)
    requires Valid(h, s) && AllNoDup(s) && t < |h.derived| && IsA(h, o, t)
    ensures AllNoDup(ObjAdd(h, s, t, o, cb, append)) <==> SeedsApart(h, s, AddObj(t, o, cb, append))
  {
    var s' := ObjAdd(h, s, t, o, cb, append);
    assert AllNoDup(s') <==> Distinct(s'.pool[o]);
    if Queue(s, o) == [] {
      InsertDistinct(Seed(h, s, t, o), cb, append);
      DistinctJoin(s.tw[h.report], s.tw[t]);
      assert [] + s.tw[t] == s.tw[t];
    } else {
      InsertDistinct(Queue(s, o), cb, append);
    }
  }

  lemma CallKeepsDistinct(h: Hierarchy, s: State, c: Call)
    requires Valid(h, s) && Allowed(h, s, c) && AllNoDup(s)
    ensures AllNoDup(Apply(h, s, c)) <==> SeedsApart(h, s, c)
  {
    var s' := Apply(h, s, c);
    match c {
      case AddType(t, cb, append) =>
        forall u | u in s.tw ensures Distinct(Insert(s.tw[u], cb, append)) { InsertNoDup(s.tw[u], cb, append); }
        forall o | o in s.pool ensures Distinct(Insert(s.pool[o], cb, append)) { InsertNoDup(s.pool[o], cb, append); }
      case AddObj(t, o, cb, append) =>
        SeedDistinct(h, s, t, o, cb, append);
      case DeleteType(t, cb) =>
        DeleteAllDistinct(s, Visits(h, t), cb);
      case DeleteObj(o, cb) =>
        RemoveNoDup(s.pool[o], cb);
    }
  }

  ghost predicate AllSeedsApart(h: Hierarchy, ss: seq<State>, cs: seq<Call>, n: nat)
    requires Run(h, ss, cs) && n <= |cs|
    decreases n
  {
    n == 0 || (AllSeedsApart(h, ss, cs, n - 1) && Valid(h, ss[n - 1]) && Allowed(h, ss[n - 1], cs[n - 1])
               && SeedsApart(h, ss[n - 1], cs[n - 1]))
  }

  ghost predicate AlwaysDistinct(ss: seq<State>, n: nat)
    requires n < |ss|
    decreases n
  {
    (n == 0 || AlwaysDistinct(ss, n - 1)) && AllNoDup(ss[n])
  }

  /** A run keeps all queues free of duplicates iff no report object's queue was started from two queues with a callback in common. */
  lemma {:induction false} NoDuplicates(h: Hierarchy, ss: seq<State>, cs: seq<Call>, n: nat)
    requires Run(h, ss, cs) && n <= |cs|
    ensures AlwaysDistinct(ss, n) <==> AllSeedsApart(h, ss, cs, n)
    decreases n
  {
    if n > 0 {
      NoDuplicates(h, ss, cs, n - 1);
      RunValid(h, ss, cs, n - 1);
      DistinctLast(ss, n - 1);
      if AllNoDup(ss[n - 1]) { CallKeepsDistinct(h, ss[n - 1], cs[n - 1]); }
    }
  }

  lemma DistinctLast(ss: seq<State>, n: nat)
    requires n < |ss|
    ensures AlwaysDistinct(ss, n) ==> AllNoDup(ss[n])
  {
  }

  /**
   * A report object that gets a callback of its own after one was added for all report
   * objects: its queue starts from that typewide queue twice, and deleting the typewide
   * callback leaves it there.
   */
  lemma DuplicateSurvives() returns (h: Hierarchy, s: State)
    ensures Valid(h, s) && |h.derived| == 1 && s == Initial(h) && IsA(h, 0, 0)
    ensures var s1 := Apply(h, s, AddType(0, 7, true));
            var s2 := Apply(h, s1, AddObj(0, 0, 8, true));
            && Valid(h, s1) && Valid(h, s2) && s2.pool == map[0 := [7, 7, 8]]
            && Apply(h, s2, DeleteType(0, 7)).pool == map[0 := [7, 8]]
  {
    h := Hierarchy([[]], 0, (o, t) => true);
    s := Initial(h);
    var s1 := Apply(h, s, AddType(0, 7, true));
    assert Desc(h, 0, 0) && s1.tw[0] == [7] && s1.pool == map[];
    SeededTwice(h, s1, 0, 0, 7, 8);
    var s2 := Apply(h, s1, AddObj(0, 0, 8, true));
    assert VisitsUpTo(h, 0, 0) == [0] && Visits(h, 0) == [0];
    CopyStays(s2, 0, 0, 7, 8);
  }

  lemma SeededTwice(h: Hierarchy, s: State, t: nat, o: Obj, cb: Cb, d: Cb)
    requires Valid(h, s) && t == h.report && IsA(h, o, t) && o !in s.pool && s.tw[t] == [cb] && d != cb
    ensures ObjAdd(h, s, t, o, d, true).pool == s.pool[o := [cb, cb, d]]
  {
    assert Insert([cb, cb], d, true) == [cb, cb, d] && Seed(h, s, t, o) == [cb, cb];
  }

  lemma CopyStays(s: State, t: nat, o: Obj, cb: Cb, d: Cb)
    requires t in s.tw && s.pool == map[o := [cb, cb, d]]
    ensures DeleteAll(s, [t], cb).pool == map[o := [cb, d]]
  {
    DeleteOnce(s, t, cb);
    assert Remove([cb, cb, d], cb) == [cb, d];
  }

  lemma DeleteOnce(s: State, u: nat, cb: Cb)
    requires u in s.tw
    ensures DeleteAll(s, [u], cb) == DeleteAt(s, u, cb)
  {
    assert [u][1..] == [];
  }

  // ----- Typewide calls

  /** The callback is in the queue of the type, of every type derived from it and of every object with a queue. */
  predicate Reaches(h: Hierarchy, s: State, t: nat, cb: Cb)
    requires Valid(h, s) && t < |h.derived|
  {
    && (forall u | u in s.tw && Desc(h, u, t) :: cb in s.tw[u])
    && (forall o | o in s.pool && IsA(h, o, t) :: cb in s.pool[o])
  }

  /**
   * A typewide add whose callback the type's own queue lacks changes the state and reaches
   * every queue; any other changes nothing at all, so that it reaches them only if all had it.
   */
  lemma TypewideAddReaches(h: Hierarchy, s: State, t: nat, cb: Cb, append: bool)
    requires Valid(h, s) && t < |h.derived|
    ensures var s' := Apply(h, s, AddType(t, cb, append));
            && Valid(h, s')
            && (s' != s <==> cb !in s.tw[t])
            && (s' != s ==> Reaches(h, s', t, cb))
            && (Reaches(h, s', t, cb) <==> cb !in s.tw[t] || Reaches(h, s, t, cb))
  {
    var s' := Apply(h, s, AddType(t, cb, append));
    if cb !in s.tw[t] {
      assert t in s'.tw && Desc(h, t, t) && cb in s'.tw[t];
    }
  }

  /** An object that is no report object: after its callback was deleted from it, adding it typewide again does nothing. */
  lemma TypewideAddCanMiss() returns (h: Hierarchy, s: State)
    ensures Valid(h, s) && IsA(h, 0, 0) && !IsA(h, 0, h.report)
    ensures var s1 := Apply(h, s, AddType(0, 7, true));
            var s2 := Apply(h, s1, AddObj(0, 0, 8, true));
            var s3 := Apply(h, s2, DeleteObj(0, 7));
            s == Initial(h) && Valid(h, s1) && Valid(h, s2) && 0 in s2.pool && Valid(h, s3)
            && !Reaches(h, Apply(h, s3, AddType(0, 7, true)), 0, 7)
  {
    h := Hierarchy([[], []], 1, (o, t) => t == 0);
    s := Initial(h);
    var s1 := Apply(h, s, AddType(0, 7, true));
    assert Desc(h, 0, 0) && s1.tw[0] == [7];
    var s2 := Apply(h, s1, AddObj(0, 0, 8, true));
    assert s2.pool[0] == [7, 8];
    var s3 := Apply(h, s2, DeleteObj(0, 7));
    assert s3.pool[0] == [8];
    assert IsA(h, 0, 0);
  }

  /** The same with no deletion: an object that gets its first callback through a base type misses those of its own. */
  lemma ForeignAddCanMiss() returns (h: Hierarchy, s: State)
    ensures Valid(h, s) && |h.derived| == 3 && h.derived[0] == [1] && IsA(h, 0, 0) && IsA(h, 0, 1) && !IsA(h, 0, h.report) && s == Initial(h)
    ensures var s1 := Apply(h, s, AddType(1, 7, true));
            var s2 := Apply(h, s1, AddObj(0, 0, 8, true));
            Valid(h, s1) && Valid(h, s2) && !Reaches(h, Apply(h, s2, AddType(1, 7, true)), 1, 7)
  {
    h := Hierarchy([[1], [], []], 2, (o, t) => t < 2);
    s := Initial(h);
    assert Desc(h, 1, 1) && !Desc(h, 0, 1);
    var s1 := Apply(h, s, AddType(1, 7, true));
    assert s1.tw[0] == [] && s1.tw[1] == [7];
    var s2 := Apply(h, s1, AddObj(0, 0, 8, true));
    assert s2.pool[0] == [8];
    assert IsA(h, 0, 1);
  }

  /**
   * A typewide delete clears the type and those derived from it, and an object's queue iff
   * that holds the callback no more often than there are types to go through; nothing else changes.
   */
  lemma TypewideDeleteClears(h: Hierarchy, s: State, t: nat, cb: Cb)
    requires Valid(h, s) && TwDistinct(s) && t < |h.derived|
    ensures var s' := Apply(h, s, DeleteType(t, cb));
            && Valid(h, s') && s'.pool.Keys == s.pool.Keys
            && (forall u, c | u in s.tw :: c in s'.tw[u] <==> c in s.tw[u] && !(c == cb && Desc(h, u, t)))
            && (forall o | o in s.pool :: cb !in s'.pool[o] <==> Copies(s.pool[o], cb) <= |Visits(h, t)|)
            && (forall o, c | o in s.pool && c != cb :: Copies(s'.pool[o], c) == Copies(s.pool[o], c))
  {
    var vs, s' := Visits(h, t), Apply(h, s, DeleteType(t, cb));
    ApplyValid(h, s, DeleteType(t, cb));
    forall u, c | u in s.tw ensures c in s'.tw[u] <==> c in s.tw[u] && !(c == cb && Desc(h, u, t)) {
      DeleteAllTw(s, vs, cb, u, c);
      VisitsDesc(h, u, t);
      DistinctCopies(s.tw[u], c);
    }
    forall o, c | o in s.pool
      ensures Copies(s'.pool[o], c) == if c == cb then Less(Copies(s.pool[o], c), |vs|) else Copies(s.pool[o], c)
    {
      DeleteAllPool(s, vs, cb, o, c);
    }
  }

  lemma {:induction false} DistinctCopies(q: seq<Cb>, cb: Cb)
    requires Distinct(q)
    ensures Copies(q, cb) <= 1
    decreases |q|
  {
    if q != [] {
      DistinctCopies(q[1..], cb);
      assert q[0] !in q[1..];
    }
  }

  // ----- When typewide adds reach every queue

  lemma {:induction false} DescTransitive(h: Hierarchy, a: nat, b: nat, c: nat)
    requires ValidTree(h) && c < |h.derived| && Desc(h, b, c) && b < |h.derived| && Desc(h, a, b)
    ensures Desc(h, a, c)
    decreases |h.derived| - c
  {
    if b != c {
      var i :| 0 <= i < |h.derived[c]| && Desc(h, b, h.derived[c][i]);
      DescTransitive(h, a, b, h.derived[c][i]);
    }
  }

  /** Whatever the type, adding the callback to it would leave it in every queue it is meant for. */
  ghost predicate AddsReach(h: Hierarchy, s: State, cb: Cb)
    requires Valid(h, s)
  {
    forall t: nat | t < |h.derived| :: Reaches(h, Apply(h, s, AddType(t, cb, true)), t, cb)
  }

  /** The callback has spread wherever the types that hold it say. */
  ghost predicate Covered(h: Hierarchy, s: State, cb: Cb) {
    Valid(h, s) && forall t | t in s.tw && cb in s.tw[t] :: Reaches(h, s, t, cb)
  }

  lemma CoveredMeans(h: Hierarchy, s: State, cb: Cb)
    requires Valid(h, s)
    ensures AddsReach(h, s, cb) <==> Covered(h, s, cb)
  {
    forall t: nat | t < |h.derived|
      ensures Reaches(h, Apply(h, s, AddType(t, cb, true)), t, cb) <==> cb !in s.tw[t] || Reaches(h, s, t, cb)
    {
      TypewideAddReaches(h, s, t, cb, true);
    }
  }

  /**
   * The calls after which typewide adds of cb still reach every queue.  An object's queue
   * that is started from others gets cb if a type of the object holds it; cb is deleted
   * from a type only if no type that keeps it has derived types in common or an object that
   * loses it; it is deleted from an object only if a copy stays or no type of the object holds it.
   */
  ghost predicate Harmless(h: Hierarchy, s: State, c: Call, cb: Cb)
    requires Valid(h, s) && Allowed(h, s, c)
  {
    match c
    case AddType(_, _, _) => true
    case AddObj(t, o, d, _) =>
      Queue(s, o) != [] || d == cb || cb in Seed(h, s, t, o) || Unheld(h, s, o, cb)
    case DeleteType(t, d) => d != cb || forall u | u in s.tw && cb in s.tw[u] && !Desc(h, u, t) :: Apart(h, s, u, t, cb)
    case DeleteObj(o, d) => d != cb || Copies(s.pool[o], cb) >= 2 || Unheld(h, s, o, cb)
  }

  /** No type of the object holds the callback. */
  ghost predicate Unheld(h: Hierarchy, s: State, o: Obj, cb: Cb) {
    forall u | u in s.tw && cb in s.tw[u] :: !IsA(h, o, u)
  }

  /** u has no derived type in common with t, and its objects keep the callback when t's is deleted. */
  ghost predicate Apart(h: Hierarchy, s: State, u: nat, t: nat, cb: Cb)
    requires Valid(h, s) && u < |h.derived| && t < |h.derived|
  {
    && (forall x | x in s.tw && Desc(h, x, u) :: !Desc(h, x, t))
    && (forall o | o in s.pool && IsA(h, o, u) :: Copies(s.pool[o], cb) > |Visits(h, t)|)
  }

  lemma AddTypeKeeps(h: Hierarchy, s: State, t: nat, d: Cb, append: bool, cb: Cb)
    requires Covered(h, s, cb) && t < |h.derived|
    ensures Covered(h, Apply(h, s, AddType(t, d, append)), cb)
  {
    var s' := Apply(h, s, AddType(t, d, append));
    forall u | u in s'.tw && cb in s'.tw[u] ensures Reaches(h, s', u, cb) {
      if cb in s.tw[u] {
        assert Reaches(h, s, u, cb);
      } else {
        assert d == cb && Desc(h, u, t);
        forall x | x in s'.tw && Desc(h, x, u) ensures cb in s'.tw[x] {
          DescTransitive(h, x, u, t);
        }
        forall o | o in s'.pool && IsA(h, o, u) ensures cb in s'.pool[o] {
          assert IsA(h, o, t);
        }
      }
    }
  }

  lemma AddObjKeeps(h: Hierarchy, s: State, t: nat, o: Obj, d: Cb, append: bool, cb: Cb)
    requires Covered(h, s, cb) && t < |h.derived| && IsA(h, o, t)
    ensures Covered(h, Apply(h, s, AddObj(t, o, d, append)), cb) <==> Harmless(h, s, AddObj(t, o, d, append), cb)
  {
    var s' := Apply(h, s, AddObj(t, o, d, append));
    assert cb in s'.pool[o] <==> d == cb || cb in (if Queue(s, o) == [] then Seed(h, s, t, o) else Queue(s, o));
    forall u | u in s.tw && cb in s.tw[u]
      ensures Reaches(h, s', u, cb) <==> !IsA(h, o, u) || cb in s'.pool[o]
      ensures IsA(h, o, u) && Queue(s, o) != [] ==> cb in s'.pool[o]
    {
      assert Reaches(h, s, u, cb);
    }
  }

  /** A deletion of another callback changes nothing for cb. */
  lemma OthersKeep(h: Hierarchy, s: State, s': State, cb: Cb)
    requires Covered(h, s, cb) && Valid(h, s')
    requires s'.pool.Keys == s.pool.Keys
    requires forall u | u in s.tw :: cb in s'.tw[u] <==> cb in s.tw[u]
    requires forall o | o in s.pool :: cb in s'.pool[o] <==> cb in s.pool[o]
    ensures Covered(h, s', cb)
  {
    forall u | u in s'.tw && cb in s'.tw[u] ensures Reaches(h, s', u, cb) {
      assert Reaches(h, s, u, cb);
    }
  }

  lemma DeleteTypeKeeps(h: Hierarchy, s: State, t: nat, d: Cb, cb: Cb)
    requires Covered(h, s, cb) && TwDistinct(s) && t < |h.derived|
    ensures Covered(h, Apply(h, s, DeleteType(t, d)), cb) <==> Harmless(h, s, DeleteType(t, d), cb)
  {
    var s' := Apply(h, s, DeleteType(t, d));
    TypewideDeleteClears(h, s, t, d);
    if d != cb {
      forall o | o in s.pool ensures cb in s'.pool[o] <==> cb in s.pool[o] {
        assert Copies(s'.pool[o], cb) == Copies(s.pool[o], cb);
      }
      OthersKeep(h, s, s', cb);
    } else {
      forall u | u in s.tw && cb in s.tw[u] ensures Reaches(h, s', u, cb) <==> Apart(h, s, u, t, cb) {
        assert Reaches(h, s, u, cb);
      }
    }
  }

  lemma DeleteObjKeeps(h: Hierarchy, s: State, o: Obj, d: Cb, cb: Cb)
    requires Covered(h, s, cb) && o in s.pool
    ensures Covered(h, Apply(h, s, DeleteObj(o, d)), cb) <==> Harmless(h, s, DeleteObj(o, d), cb)
  {
    var s' := Apply(h, s, DeleteObj(o, d));
    RemoveCopies(s.pool[o], d, cb);
    if d != cb {
      OthersKeep(h, s, s', cb);
    } else {
      forall u | u in s.tw && cb in s.tw[u]
        ensures Reaches(h, s', u, cb) <==> !IsA(h, o, u) || Copies(s.pool[o], cb) >= 2
      {
        assert Reaches(h, s, u, cb);
      }
    }
  }

  lemma CallKeeps(h: Hierarchy, s: State, c: Call, cb: Cb)
    requires Covered(h, s, cb) && TwDistinct(s) && Allowed(h, s, c)
    ensures Covered(h, Apply(h, s, c), cb) <==> Harmless(h, s, c, cb)
  {
    match c {
      case AddType(t, d, append) => AddTypeKeeps(h, s, t, d, append, cb);
      case AddObj(t, o, d, append) => AddObjKeeps(h, s, t, o, d, append, cb);
      case DeleteType(t, d) => DeleteTypeKeeps(h, s, t, d, cb);
      case DeleteObj(o, d) => DeleteObjKeeps(h, s, o, d, cb);
    }
  }

  /** The first n calls of the run were harmless to cb when they were made. */
  ghost predicate AllHarmless(h: Hierarchy, ss: seq<State>, cs: seq<Call>, n: nat, cb: Cb)
    requires Run(h, ss, cs) && n <= |cs|
    decreases n
  {
    n == 0 || (AllHarmless(h, ss, cs, n - 1, cb) && Valid(h, ss[n - 1]) && Allowed(h, ss[n - 1], cs[n - 1])
               && Harmless(h, ss[n - 1], cs[n - 1], cb))
  }

  /** At every point up to the n-th, a typewide add of cb to any type would reach every queue. */
  ghost predicate AlwaysReach(h: Hierarchy, ss: seq<State>, n: nat, cb: Cb)
    requires n < |ss|
    decreases n
  {
    (n == 0 || AlwaysReach(h, ss, n - 1, cb)) && Valid(h, ss[n]) && AddsReach(h, ss[n], cb)
  }

  /** Typewide adds of a callback reach every queue throughout a run iff no call of it was harmful to that callback. */
  lemma {:induction false} TypewideAddsReach(h: Hierarchy, ss: seq<State>, cs: seq<Call>, n: nat, cb: Cb)
    requires Run(h, ss, cs) && n <= |cs|
    ensures AlwaysReach(h, ss, n, cb) <==> AllHarmless(h, ss, cs, n, cb)
    decreases n
  {
    RunValid(h, ss, cs, n);
    CoveredMeans(h, ss[n], cb);
    if n > 0 {
      TypewideAddsReach(h, ss, cs, n - 1, cb);
      RunValid(h, ss, cs, n - 1);
      CoveredMeans(h, ss[n - 1], cb);
      LastReaches(h, ss, n - 1, cb);
      if Covered(h, ss[n - 1], cb) { CallKeeps(h, ss[n - 1], cs[n - 1], cb); }
    }
  }

  lemma LastReaches(h: Hierarchy, ss: seq<State>, n: nat, cb: Cb)
    requires n < |ss|
    ensures AlwaysReach(h, ss, n, cb) ==> Valid(h, ss[n]) && AddsReach(h, ss[n], cb)
  {
  }

  /** Every type of the object but that of report objects is the one named or one it derives from. */
  predicate OwnType(h: Hierarchy, o: Obj, t: nat)
    requires ValidTree(h)
  {
    forall u | 0 <= u < |h.derived| && IsA(h, o, u) :: u == h.report || Desc(h, t, u)
  }

  /** cb is not deleted, and an object is given callbacks through its own type. */
  predicate Spares(h: Hierarchy, c: Call, cb: Cb)
    requires ValidTree(h)
  {
    match c
    case AddType(_, _, _) => true
    case AddObj(t, o, _, _) => OwnType(h, o, t)
    case DeleteType(_, d) => d != cb
    case DeleteObj(_, d) => d != cb
  }

  lemma SparedIsHarmless(h: Hierarchy, s: State, c: Call, cb: Cb)
    requires Covered(h, s, cb) && Allowed(h, s, c) && Spares(h, c, cb)
    ensures Harmless(h, s, c, cb)
  {
    if c.AddObj? {
      forall u | u in s.tw && cb in s.tw[u] && IsA(h, c.o, u) ensures cb in Seed(h, s, c.t, c.o) {
        assert Reaches(h, s, u, cb);
      }
    }
  }

  lemma SparedStep(h: Hierarchy, ss: seq<State>, cs: seq<Call>, n: nat, cb: Cb)
    requires Run(h, ss, cs) && n < |cs| && AlwaysReach(h, ss, n, cb) && Spares(h, cs[n], cb)
    ensures AlwaysReach(h, ss, n + 1, cb)
  {
    RunValid(h, ss, cs, n);
    RunValid(h, ss, cs, n + 1);
    LastReaches(h, ss, n, cb);
    CoveredMeans(h, ss[n], cb);
    SparedIsHarmless(h, ss[n], cs[n], cb);
    CallKeeps(h, ss[n], cs[n], cb);
    CoveredMeans(h, ss[n + 1], cb);
  }

  /** Whatever happens to other callbacks, adds of one that is never deleted reach every queue. */
  lemma {:induction false} SparedReaches(h: Hierarchy, ss: seq<State>, cs: seq<Call>, n: nat, cb: Cb)
    requires Run(h, ss, cs) && n <= |cs| && forall i | 0 <= i < n :: Spares(h, cs[i], cb)
    ensures AlwaysReach(h, ss, n, cb)
    decreases n
  {
    if n > 0 {
      SparedReaches(h, ss, cs, n - 1, cb);
      SparedStep(h, ss, cs, n - 1, cb);
    } else {
      TypewideAddsReach(h, ss, cs, 0, cb);
    }
  }
}
