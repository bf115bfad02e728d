/** The callback registry: adding, deleting and iterating. */
module Callbacks {
  import opened Options
  import opened CallbackQueues
  import opened Sequences

  // ----- Partial effects, for the loops over derived types

  function AddUpTo(h: Hierarchy, s: State, t: nat, k: nat, cb: Cb, append: bool): State
    requires Valid(h, s) && t < |h.derived| && k <= |h.derived[t]|
  {
    State(map u | u in s.tw :: if DescUpTo(h, u, t, k) then Insert(s.tw[u], cb, append) else s.tw[u],
          map o | o in s.pool :: if IsA(h, o, t) then Insert(s.pool[o], cb, append) else s.pool[o])
  }

  predicate InPool(s: State, cb: Cb) {
    exists o | o in s.pool :: cb in s.pool[o]
  }

  /** There is something to find for a deletion that goes through the types vs. */
  predicate Found(s: State, vs: seq<nat>, cb: Cb)
    requires Known(s, vs)
  {
    InPool(s, cb) || exists u | u in vs :: cb in s.tw[u]
  }

  lemma FoundJoin(s: State, a: seq<nat>, b: seq<nat>, cb: Cb)
    requires Known(s, a) && Known(s, b)
    ensures Known(s, a + b) && (Found(s, a + b, cb) <==> Found(s, a, cb) || Found(s, b, cb))
  {
    forall u ensures u in a + b <==> u in a || u in b {
    }
  }

  /** What the types after a find in what the deletion through a has left. */
  lemma FoundLater(s: State, a: seq<nat>, b: seq<nat>, cb: Cb)
    requires Known(s, a) && Known(s, b)
    ensures Found(s, a, cb) || Found(DeleteAll(s, a, cb), b, cb) <==> Found(s, a, cb) || Found(s, b, cb)
  {
    var s' := DeleteAll(s, a, cb);
    forall u | u in s.tw
      ensures cb in s'.tw[u] ==> cb in s.tw[u]
      ensures cb in s.tw[u] && u !in a ==> cb in s'.tw[u]
    {
      DeleteAllTw(s, a, cb, u, cb);
    }
    forall o | o in s.pool ensures cb in s'.pool[o] ==> cb in s.pool[o] {
      DeleteAllPool(s, a, cb, o, cb);
    }
  }

  /** s' is s after the deletion from t and from the first k types derived from it; found tells whether there was anything. */
  ghost predicate Deleted(h: Hierarchy, s: State, s': State, t: nat, k: nat, cb: Cb, found: bool)
    requires Valid(h, s) && t < |h.derived|
  {
    k <= |h.derived[t]| && s' == DeleteAll(s, VisitsUpTo(h, t, k), cb) && (found <==> Found(s, VisitsUpTo(h, t, k), cb))
  }

  /** One more derived type in the deletion's loop. */
  lemma DeleteNext(h: Hierarchy, s: State, s': State, t: nat, k: nat, cb: Cb, found: bool)
    requires Valid(h, s) && TwDistinct(s) && t < |h.derived| && k < |h.derived[t]| && Deleted(h, s, s', t, k, cb, found)
    ensures Valid(h, s') && TwDistinct(s')
    ensures var d := h.derived[t][k];
            Deleted(h, s, TwDelete(h, s', d, cb), t, k + 1, cb, found || Found(s', Visits(h, d), cb))
  {
    var done, below := VisitsUpTo(h, t, k), Visits(h, h.derived[t][k]);
    DeleteAllDistinct(s, done, cb);
    DeleteAllJoin(s, done, below, cb);
    FoundJoin(s, done, below, cb);
    FoundLater(s, done, below, cb);
  }

  lemma DeleteFirst(h: Hierarchy, s: State, s': State, t: nat, cb: Cb)
    requires Valid(h, s) && t < |h.derived| && s' == DeleteAt(s, t, cb)
    ensures Deleted(h, s, s', t, 0, cb, cb in s.tw[t] || InPool(s, cb))
  {
    DeleteOnce(s, t, cb);
  }

  lemma DeleteLast(h: Hierarchy, s: State, s': State, t: nat, cb: Cb, found: bool)
    requires Valid(h, s) && TwDistinct(s) && t < |h.derived| && Deleted(h, s, s', t, |h.derived[t]|, cb, found)
    ensures Valid(h, s') && TwDistinct(s') && s' == TwDelete(h, s, t, cb) && (found <==> Found(s, Visits(h, t), cb))
  {
    DeleteAllDistinct(s, Visits(h, t), cb);
  }

  lemma DescNext(h: Hierarchy, u: nat, t: nat, k: nat)
    requires ValidTree(h) && t < |h.derived| && k < |h.derived[t]|
    ensures DescUpTo(h, u, t, k + 1) <==> DescUpTo(h, u, t, k) || Desc(h, u, h.derived[t][k])
    ensures Desc(h, u, h.derived[t][k]) ==> Desc(h, u, t)
  {
  }

  lemma AddNext(h: Hierarchy, s: State, t: nat, k: nat, cb: Cb, append: bool)
    requires Valid(h, s) && t < |h.derived| && k < |h.derived[t]|
    ensures TwAdd(h, AddUpTo(h, s, t, k, cb, append), h.derived[t][k], cb, append) == AddUpTo(h, s, t, k + 1, cb, append)
  {
    var d := h.derived[t][k];
    forall u ensures DescUpTo(h, u, t, k + 1) <==> DescUpTo(h, u, t, k) || Desc(h, u, d) {
      DescNext(h, u, t, k);
    }
    assert Desc(h, d, t) by { DescNext(h, d, t, k); }
    forall o ensures IsA(h, o, d) ==> IsA(h, o, t) {
    }
  }

  lemma AddFirst(h: Hierarchy, s: State, s': State, t: nat, cb: Cb, append: bool)
    requires Valid(h, s) && t < |h.derived|
    requires s'.tw == s.tw[t := Insert(s.tw[t], cb, append)]
    requires s'.pool == map o | o in s.pool :: if IsA(h, o, t) then Insert(s.pool[o], cb, append) else s.pool[o]
    ensures s' == AddUpTo(h, s, t, 0, cb, append)
  {
  }

  lemma AddLast(h: Hierarchy, s: State, t: nat, cb: Cb, append: bool)
    requires Valid(h, s) && t < |h.derived|
    ensures AddUpTo(h, s, t, |h.derived[t]|, cb, append) == TwAdd(h, s, t, cb, append)
  {
  }

  lemma RemoveAgain(q: seq<Cb>, cb: Cb)
    requires cb !in q
    ensures Remove(q, cb) == q
    decreases |q|
  {
    if q != [] {
      RemoveAgain(q[1..], cb);
    }
  }

  lemma {:induction false} RemoveAt(q: seq<Cb>, pos: nat, cb: Cb)
    requires pos < |q| && q[pos] == cb && cb !in q[..pos]
    ensures Remove(q, cb) == q[..pos] + q[pos + 1..]
    decreases pos
  {
    if pos > 0 {
      assert q[0] == q[..pos][0] && forall c :: c in q[1..][..pos - 1] ==> c in q[..pos];
      RemoveAt(q[1..], pos - 1, cb);
    }
  }

  lemma AddUpToValid(h: Hierarchy, s: State, t: nat, k: nat, cb: Cb, append: bool)
    requires Valid(h, s) && TwDistinct(s) && t < |h.derived| && k <= |h.derived[t]|
    ensures Valid(h, AddUpTo(h, s, t, k, cb, append)) && TwDistinct(AddUpTo(h, s, t, k, cb, append))
  {
    forall u | u in s.tw ensures Distinct(Insert(s.tw[u], cb, append)) { InsertNoDup(s.tw[u], cb, append); }
  }

  /** u is t or below it, the object is of type u, and of no type derived from u. */
  predicate MostDerived(h: Hierarchy, o: Obj, t: nat, u: nat)
    requires ValidTree(h) && t < |h.derived|
  {
    u < |h.derived| && Desc(h, u, t) && IsA(h, o, u) && forall i | 0 <= i < |h.derived[u]| :: !IsA(h, o, h.derived[u][i])
  }

  class Registry {
    const h: Hierarchy
    var tw: map<nat, seq<Cb>>
    var pool: map<Obj, seq<Cb>>

    ghost function Abs(): State
      reads this
    {
      State(tw, pool)
    }

    ghost predicate Ok()
      reads this
    {
      Valid(h, Abs()) && TwDistinct(Abs())
    }

    constructor (h: Hierarchy)
      requires ValidTree(h) && CastsUp(h)
      ensures this.h == h && Ok() && Abs() == Initial(h)
    {
      this.h := h;
      tw, pool := EmptyQueues(|h.derived|), map[];
    }

    /** m_cb_find. */
    static method Find(q: seq<Cb>, cb: Cb) returns (pos: int)
      ensures pos == -1 <==> cb !in q
      ensures pos != -1 ==> 0 <= pos < |q| && q[pos] == cb && cb !in q[..pos]
    {
      for i := 0 to |q|
        invariant cb !in q[..i]
      {
        if q[i] == cb { return i; }
        assert q[..i + 1] == q[..i] + [q[i]];
      }
      assert q[..|q|] == q;
      pos := -1;
    }

    static method InsertInto(q: seq<Cb>, cb: Cb, append: bool) returns (r: seq<Cb>)
      ensures r == Insert(q, cb, append)
    {
      var pos := Find(q, cb);
      r := if pos != -1 then q else if append then q + [cb] else [cb] + q;
    }

    static method RemoveFrom(q: seq<Cb>, cb: Cb) returns (r: seq<Cb>, found: bool)
      ensures r == Remove(q, cb) && (found <==> cb in q)
    {
      var pos := Find(q, cb);
      found := pos != -1;
      if found {
        RemoveAt(q, pos, cb);
        r := q[..pos] + q[pos + 1..];
      } else {
        RemoveAgain(q, cb);
        r := q;
      }
    }

    /** m_add_tw_cbs: the type's queue, the queues of its objects, then every derived type. */
    method AddTwCbs(t: nat, cb: Cb, append: bool)
      requires Ok() && t < |h.derived|
      modifies this`tw, this`pool
      ensures Ok() && Abs() == TwAdd(h, old(Abs()), t, cb, append)
      decreases |h.derived| - t, 1
    {
      ghost var s := Abs();
      var q := InsertInto(tw[t], cb, append);
      tw := tw[t := q];
      AddToObjects(t, cb, append);
      AddFirst(h, s, Abs(), t, cb, append);
      AddToDerived(t, cb, append, s);
    }

    method AddToDerived(t: nat, cb: Cb, append: bool, ghost s: State)
      requires t < |h.derived| && Valid(h, s) && TwDistinct(s) && Abs() == AddUpTo(h, s, t, 0, cb, append)
      modifies this`tw, this`pool
      ensures Ok() && Abs() == TwAdd(h, s, t, cb, append)
      decreases |h.derived| - t, 0
    {
      for i := 0 to |h.derived[t]|
        invariant Abs() == AddUpTo(h, s, t, i, cb, append)
      {
        AddUpToValid(h, s, t, i, cb, append);
        AddNext(h, s, t, i, cb, append);
        AddTwCbs(h.derived[t][i], cb, append);
      }
      AddUpToValid(h, s, t, |h.derived[t]|, cb, append);
      AddLast(h, s, t, cb, append);
    }

    /** The loop over the pool's objects. */
    method AddToObjects(t: nat, cb: Cb, append: bool)
      requires ValidTree(h) && t < |h.derived|
      modifies this`pool
      ensures pool == map o | o in old(pool) :: if IsA(h, o, t) then Insert(old(pool)[o], cb, append) else old(pool)[o]
    {
      var rest := pool.Keys;
      while rest != {}
        invariant rest <= pool.Keys == old(pool.Keys)
        invariant forall o | o in pool ::
          pool[o] == if o !in rest && IsA(h, o, t) then Insert(old(pool)[o], cb, append) else old(pool)[o]
        decreases |rest|
      {
        var o :| o in rest;
        if IsA(h, o, t) {
          var q := InsertInto(pool[o], cb, append);
          pool := pool[o := q];
        }
        rest := rest - {o};
      }
    }

    /** m_delete_tw_cbs: the type's queue, every object's, then every derived type. */
    method DeleteTwCbs(t: nat, cb: Cb) returns (found: bool)
      requires Ok() && t < |h.derived|
      modifies this`tw, this`pool
      ensures Ok() && Abs() == TwDelete(h, old(Abs()), t, cb)
      ensures found <==> Found(old(Abs()), Visits(h, t), cb)
      decreases |h.derived| - t, 1
    {
      ghost var s := Abs();
      var q, here := RemoveFrom(tw[t], cb);
      tw := tw[t := q];
      var inPool := DeleteFromObjects(cb);
      DeleteFirst(h, s, Abs(), t, cb);
      found := DeleteFromDerived(t, cb, s, here || inPool);
    }

    method DeleteFromDerived(t: nat, cb: Cb, ghost s: State, before: bool) returns (found: bool)
      requires t < |h.derived| && Valid(h, s) && TwDistinct(s) && Deleted(h, s, Abs(), t, 0, cb, before)
      modifies this`tw, this`pool
      ensures Ok() && Abs() == TwDelete(h, s, t, cb)
      ensures found <==> Found(s, Visits(h, t), cb)
      decreases |h.derived| - t, 0
    {
      found := before;
      for i := 0 to |h.derived[t]|
        invariant Deleted(h, s, Abs(), t, i, cb, found)
      {
        DeleteNext(h, s, Abs(), t, i, cb, found);
        var below := DeleteTwCbs(h.derived[t][i], cb);
        found := found || below;
      }
      DeleteLast(h, s, Abs(), t, cb, found);
    }

    method DeleteFromObjects(cb: Cb) returns (found: bool)
      modifies this`pool
      ensures pool == map o | o in old(pool) :: Remove(old(pool)[o], cb)
      ensures found <==> exists o | o in old(pool) :: cb in old(pool)[o]
    {
      found := false;
      var rest := pool.Keys;
      while rest != {}
        invariant rest <= pool.Keys == old(pool.Keys)
        invariant forall o | o in pool :: pool[o] == if o !in rest then Remove(old(pool)[o], cb) else old(pool)[o]
        invariant found <==> exists o | o in old(pool) && o !in rest :: cb in old(pool)[o]
        decreases |rest|
      {
        var o :| o in rest;
        var q, here := RemoveFrom(pool[o], cb);
        pool := pool[o := q];
        found := found || here;
        rest := rest - {o};
      }
    }

    /** The callbacks an object's empty queue is started from, in the order they are pushed. */
    method PushAll(q: seq<Cb>, more: seq<Cb>) returns (r: seq<Cb>)
      ensures r == q + more
    {
      r := q;
      for i := 0 to |more|
        invariant r == q + more[..i]
      {
        r := r + [more[i]];
      }
      assert more[..|more|] == more;
    }

    /** add, on the class of type t; without an object the callback is typewide. */
    method Add(t: nat, obj: Option<Obj>, cb: Cb, append: bool)
      requires Ok() && t < |h.derived| && (obj.Some? ==> IsA(h, obj.value, t))
      modifies this`tw, this`pool
      ensures Ok()
      ensures obj.None? ==> Abs() == Apply(h, old(Abs()), AddType(t, cb, append))
      ensures obj.Some? ==> Abs() == Apply(h, old(Abs()), AddObj(t, obj.value, cb, append))
    {
      if obj.None? {
        var pos := Find(tw[t], cb);
        if pos == -1 {
          AddTwCbs(t, cb, append);
        }
      } else {
        var q := if obj.value in pool then pool[obj.value] else [];
        if |q| == 0 {
          if IsA(h, obj.value, h.report) {
            q := PushAll(q, tw[h.report]);
          }
          q := PushAll(q, tw[t]);
          assert [] + tw[h.report] == tw[h.report];
        }
        q := InsertInto(q, cb, append);
        pool := pool[obj.value := q];
      }
    }

    /** delete: an object without a queue is an error of the caller. */
    method Delete(t: nat, obj: Option<Obj>, cb: Cb) returns (found: bool)
      requires Ok() && t < |h.derived| && (obj.Some? ==> obj.value in pool)
      modifies this`tw, this`pool
      ensures Ok()
      ensures obj.None? ==>
                Abs() == Apply(h, old(Abs()), DeleteType(t, cb)) && (found <==> Found(old(Abs()), Visits(h, t), cb))
      ensures obj.Some? ==> Abs() == Apply(h, old(Abs()), DeleteObj(obj.value, cb)) && (found <==> cb in old(pool)[obj.value])
    {
      if obj.None? {
        found := DeleteTwCbs(t, cb);
      } else {
        var q, here := RemoveFrom(pool[obj.value], cb);
        found := here;
        pool := pool[obj.value := q];
      }
    }

    // ----- Iterating

    /** m_get_tw_cb_q: a most derived type of the object below t, if the object is of type t. */
    method TypewideOwner(t: nat, o: Obj) returns (r: Option<nat>)
      requires ValidTree(h) && t < |h.derived|
      ensures r.None? <==> !IsA(h, o, t)
      ensures r.Some? ==> MostDerived(h, o, t, r.value)
      decreases |h.derived| - t
    {
      if !IsA(h, o, t) { return None; }
      for i := 0 to |h.derived[t]|
        invariant forall j | 0 <= j < i :: !IsA(h, o, h.derived[t][j])
      {
        r := TypewideOwner(h.derived[t][i], o);
        if r.Some? { return; }
      }
      r := Some(t);
    }

    /** m_get_q: an object without a queue of its own uses that of its most derived type; no object means the typewide queue. */
    method QueueOf(t: nat, obj: Option<Obj>) returns (q: seq<Cb>)
      requires Ok() && t < |h.derived| && (obj.Some? ==> IsA(h, obj.value, t))
      ensures obj.None? ==> q == tw[t]
      ensures obj.Some? && obj.value in pool ==> q == pool[obj.value]
      ensures obj.Some? && obj.value !in pool ==> exists u | u in tw :: MostDerived(h, obj.value, t, u) && q == tw[u]
      ensures AllNoDup(Abs()) ==> Distinct(q)
    {
      if obj.None? { return tw[t]; }
      if obj.value in pool {
        q := pool[obj.value];
      } else {
        var owner := TypewideOwner(t, obj.value);
        q := tw[owner.value];
      }
    }

    /**
     * get_first and, from itr + 1, get_next: the first enabled callback at or after a position
     * that can be cast to the iterator's callback type.
     */
    method NextEnabled(q: seq<Cb>, cast: set<Cb>, enabled: set<Cb>, from: nat) returns (itr: nat, cb: Option<Cb>)
      requires from <= |q|
      ensures from <= itr <= |q| && forall i | from <= i < itr :: q[i] !in cast || q[i] !in enabled
      ensures if itr < |q| then q[itr] in cast && q[itr] in enabled && cb == Some(q[itr]) else cb == None
    {
      itr := from;
      while itr < |q|
        invariant from <= itr <= |q| && forall i | from <= i < itr :: q[i] !in cast || q[i] !in enabled
      {
        if q[itr] in cast && q[itr] in enabled { return itr, Some(q[itr]); }
        itr := itr + 1;
      }
      cb := None;
    }
  }
}
