/** The factory's methods, updating the queues of overrides in place. */
module Factory {
  import opened Options
  import O = FactoryOverrides
  import R = FactoryResolution

  /** What two scans of consecutive parts of the log find together. */
  function Later(found: Option<O.Override>, rest: Option<O.Override>): Option<O.Override> {
    if rest.None? then found else rest
  }

  /** What a scan of the log looks for and what it writes. */
  datatype Criteria = Criteria(names: set<O.Name>, ty: Option<O.Type>, name: string, ovrd: O.TypePair, replace: bool, byName: bool) {
    function Scan(log: seq<O.Override>): (O.Outcome, seq<O.Override>) {
      O.Scan(names, log, ty, name, ovrd, replace, byName)
    }

    predicate Found(o: O.Override) {
      O.MatchesType(names, o.orig, ty, name)
    }

    function Updated(o: O.Override): O.Override {
      o.(orig := if byName then o.orig else O.TypePair(ty, name), ovrd := ovrd, replace := replace)
    }
  }

  /** With `done` behind and `rest` ahead, the whole scan comes to `all`. */
  predicate Scanning(c: Criteria, all: (O.Outcome, seq<O.Override>), done: seq<O.Override>, rest: seq<O.Override>, replaced: bool) {
    && (replaced ==> c.replace)
    && all.0 == (if replaced then O.Replaced else c.Scan(rest).0)
    && all.1 == done + c.Scan(rest).1
  }

  lemma ScanStep(c: Criteria, all: (O.Outcome, seq<O.Override>), done: seq<O.Override>, rest: seq<O.Override>, replaced: bool)
    requires Scanning(c, all, done, rest, replaced) && rest != []
    ensures c.Found(rest[0]) && !c.replace ==> all == (O.Kept, done + rest)
    ensures c.Found(rest[0]) && c.replace ==> Scanning(c, all, done + [c.Updated(rest[0])], rest[1..], true)
    ensures !c.Found(rest[0]) && O.Stops(rest[0], c.ty, c.byName) ==>
              all == (if replaced then O.Replaced else O.NotFound, done + rest)
    ensures !c.Found(rest[0]) && !O.Stops(rest[0], c.ty, c.byName) ==> Scanning(c, all, done + [rest[0]], rest[1..], replaced)
  {
    var tail := c.Scan(rest[1..]).1;
    assert done + ([c.Updated(rest[0])] + tail) == done + [c.Updated(rest[0])] + tail;
    assert done + ([rest[0]] + tail) == done + [rest[0]] + tail;
  }

  lemma Here(os: seq<O.Override>, index: nat)
    requires index < |os|
    ensures os[..index] + os[index..] == os && os[index..][0] == os[index] && os[index..] != []
  {
  }

  lemma Advance(os: seq<O.Override>, index: nat, o: O.Override)
    requires index < |os|
    ensures os[index := o][..index + 1] == os[..index] + [o] && os[index := o][index + 1..] == os[index..][1..]
    ensures o == os[index] ==> os[index := o] == os
  {
  }

  /** Registering a type without a name changes no override, nor does registering a name again. */
  lemma {:induction false} NothingResolved(t: O.Type, os: seq<O.Override>)
    requires t.Unnamed?
    ensures O.ResolveAll(t, os) == os
    decreases |os|
  {
    if os != [] { NothingResolved(t, os[1..]); }
  }

  lemma RegisterAgain(s: O.State, t: O.Type)
    requires t.Named? ==> t.name in s.names
    ensures O.Register(s, t) == s
  {
    if t.Unnamed? {
      NothingResolved(t, s.types);
      NothingResolved(t, s.insts);
    }
  }

  class Factory {
    var typeNames: map<O.Name, O.Type>
    var types: set<O.Type>
    var typeOverrides: seq<O.Override>
    var instOverrides: seq<O.Override>

    ghost function Abs(): O.State
      reads this
    {
      O.State(typeNames.Keys, typeOverrides, instOverrides)
    }

    ghost predicate Valid()
      reads this
    {
      O.Valid(Abs()) && Registry()
    }

    ghost predicate Registry()
      reads this`typeNames, this`types
    {
      && (forall n | n in typeNames :: typeNames[n] == O.Named(n))
      && (forall t: O.Type | t.Named? :: t in types <==> t.name in typeNames)
    }

    constructor ()
      ensures Valid() && Abs() == O.EMPTY
    {
      typeNames, types, typeOverrides, instOverrides := map[], {}, [], [];
    }

    function Resolved(n: string): (t: Option<O.Type>)
      reads this`typeNames, this`types
      ensures Registry() ==> t == O.Lookup(typeNames.Keys, n)
    {
      if n in typeNames then Some(typeNames[n]) else None
    }

    method FillIn(obj: O.Type, os: seq<O.Override>) returns (r: seq<O.Override>)
      ensures r == O.ResolveAll(obj, os)
    {
      r := os;
      for index := 0 to |os|
        invariant |r| == |os| && r[index..] == os[index..]
        invariant forall i | 0 <= i < index :: r[i] == O.ResolveAll(obj, os)[i]
      {
        if O.MatchesPair(r[index].orig, None, O.TypeName(obj)) {
          r := r[index := r[index].(orig := r[index].orig.(ty := Some(obj)))];
        }
        if O.MatchesPair(r[index].ovrd, None, O.TypeName(obj)) {
          r := r[index := r[index].(ovrd := r[index].ovrd.(ty := Some(obj)))];
        }
        assert r[index] == O.ResolveAll(obj, os)[index];
      }
    }

    /** register; a type without a name is entered for its proxy only. */
    method Register(obj: O.Type)
      requires Valid()
      modifies this
      ensures Valid() && Abs() == O.Register(old(Abs()), obj) && types == old(types) + {obj}
    {
      O.RegisterValid(Abs(), obj);
      ghost var s := Abs();
      var name := O.TypeName(obj);
      if name != "" && name != "<unknown>" {
        if name !in typeNames {
          typeNames := typeNames[name := obj];
        }
      }
      if obj !in types {
        types := types + {obj};
        typeOverrides := FillIn(obj, typeOverrides);
        instOverrides := FillIn(obj, instOverrides);
      } else {
        RegisterAgain(s, obj);
      }
      assert typeNames.Keys == O.With(s.names, obj);
    }

    /** The loop over the log that both ways of setting a type override share. */
    method Update(ty: Option<O.Type>, name: string, ovrd: O.TypePair, replace: bool, byName: bool) returns (found: O.Outcome)
      requires Valid()
      modifies this`typeOverrides
      ensures (found, typeOverrides) == O.Scan(old(Abs()).names, old(typeOverrides), ty, name, ovrd, replace, byName)
    {
      ghost var names, log := Abs().names, typeOverrides;
      ghost var c := Criteria(names, ty, name, ovrd, replace, byName);
      ghost var all, rest := c.Scan(log), log;
      var replaced, index := false, 0;
      assert [] + all.1 == all.1;
      while index < |typeOverrides|
        invariant index <= |typeOverrides| && typeOverrides[index..] == rest
        invariant Scanning(c, all, typeOverrides[..index], rest, replaced)
      {
        var o := typeOverrides[index];
        ghost var done := typeOverrides[..index];
        Here(typeOverrides, index);
        ScanStep(c, all, done, rest, replaced);
        var pair := if o.orig.ty.None? then o.orig.(ty := Resolved(o.orig.name)) else o.orig;
        assert O.MatchesPair(pair, ty, name) <==> c.Found(o);
        if O.MatchesPair(pair, ty, name) {
          if !replace { return O.Kept; }
          replaced := true;
          var orig := if byName then o.orig else O.TypePair(ty, name);
          var updated := o.(orig := orig, ovrd := ovrd, replace := replace);
          assert updated == c.Updated(o);
          Advance(typeOverrides, index, updated);
          typeOverrides := typeOverrides[index := updated];
        } else if o.orig.ty.None? || (byName && ty.None?) {
          return if replaced then O.Replaced else O.NotFound;
        } else {
          Advance(typeOverrides, index, o);
        }
        rest := rest[1..];
        index := index + 1;
      }
      assert rest == [] && typeOverrides[..index] + rest == typeOverrides;
      found := if replaced then O.Replaced else O.NotFound;
    }

    /** Both types are registered if they are not yet. */
    method RegisterBoth(original: O.Type, ovrd: O.Type)
      requires Valid()
      modifies this
      ensures Valid() && Abs() == O.Register(O.Register(old(Abs()), original), ovrd)
      ensures original.Named? ==> original.name in Abs().names
      ensures ovrd.Named? ==> ovrd.name in Abs().names
    {
      O.RegisterValid(Abs(), original);
      ghost var s := O.Register(Abs(), original);
      O.RegisterValid(s, ovrd);
      if original in types {
        RegisterAgain(Abs(), original);
      } else {
        Register(original);
      }
      if ovrd in types {
        RegisterAgain(Abs(), ovrd);
      } else {
        Register(ovrd);
      }
    }

    method SetTypeOverrideByType(original: O.Type, ovrd: O.Type, replace: bool)
      requires Valid()
      modifies this
      ensures Valid() && Abs() == O.SetByType(old(Abs()), original, ovrd, replace)
    {
      RegisterBoth(original, ovrd);
      var orig, over := O.PairOf(original), O.PairOf(ovrd);
      O.PairsAreKnown(Abs().names, original, "");
      O.PairsAreKnown(Abs().names, ovrd, "");
      O.RecordValid(Abs(), orig, over, replace, false);
      var found := Update(Some(original), O.TypeName(original), over, replace, false);
      if found == O.NotFound {
        typeOverrides := [O.Override("", orig, over, replace)] + typeOverrides;
      }
    }

    method SetTypeOverrideByName(original: string, ovrd: string, replace: bool)
      requires Valid()
      modifies this
      ensures Valid() && Abs() == O.SetByName(old(Abs()), original, ovrd, replace)
    {
      var orig, over := O.TypePair(Resolved(original), original), O.TypePair(Resolved(ovrd), ovrd);
      if original == ovrd { return; }
      O.RecordValid(Abs(), orig, over, replace, true);
      var found := Update(orig.ty, original, over, replace, true);
      if found == O.NotFound {
        typeOverrides := [O.Override("", orig, over, replace)] + typeOverrides;
      }
    }

    method CheckInstOverrideExists(o: O.Override) returns (r: bool)
      ensures r <==> O.InstExists(instOverrides, o)
    {
      for i := 0 to |instOverrides|
        invariant forall j | 0 <= j < i :: !O.SameInst(instOverrides[j], o)
      {
        if O.SameInst(instOverrides[i], o) { return true; }
      }
      r := false;
    }

    method SetInstOverrideByType(original: O.Type, ovrd: O.Type, path: string)
      requires Valid()
      modifies this
      ensures Valid() && Abs() == O.SetInstByType(old(Abs()), original, ovrd, path)
    {
      RegisterBoth(original, ovrd);
      O.PairsAreKnown(Abs().names, original, "");
      O.PairsAreKnown(Abs().names, ovrd, "");
      var o := O.Override(path, O.PairOf(original), O.PairOf(ovrd), false);
      var exists' := CheckInstOverrideExists(o);
      if exists' { return; }
      instOverrides := instOverrides + [o];
    }

    method SetInstOverrideByName(original: string, ovrd: string, path: string)
      requires Valid()
      modifies this
      ensures Valid() && Abs() == O.SetInstByName(old(Abs()), original, ovrd, path)
    {
      var o := O.Override(path, O.TypePair(Resolved(original), original), O.TypePair(Resolved(ovrd), ovrd), false);
      var exists' := CheckInstOverrideExists(o);
      if exists' { return; }
      instOverrides := instOverrides + [o];
    }

    // ----- Finding overrides

    predicate Matches(o: O.Override, original: bool, ty: Option<O.Type>, name: string)
      requires Valid()
      reads this
      ensures Matches(o, original, ty, name) <==> O.MatchesType(Abs().names, if original then o.orig else o.ovrd, ty, name)
    {
      var p := if original then o.orig else o.ovrd;
      O.MatchesPair(if p.ty.None? then p.(ty := Resolved(p.name)) else p, ty, name)
    }

    method FindInst(ty: Option<O.Type>, name: string, path: string) returns (lindex: Option<O.Override>)
      requires Valid()
      ensures lindex == R.FirstInst(Abs().names, instOverrides, ty, name, path)
    {
      for i := 0 to |instOverrides|
        invariant R.FirstInst(Abs().names, instOverrides, ty, name, path)
               == R.FirstInst(Abs().names, instOverrides[i..], ty, name, path)
      {
        var o := instOverrides[i];
        assert instOverrides[i..][0] == o && instOverrides[i..][1..] == instOverrides[i + 1..];
        assert O.MatchesInst(Abs().names, o, ty, name, path) <==>
               Matches(o, true, ty, name) &&
               if O.HasWildcard(o.path) then o.path == "*" || O.GlobMatcher.Accepts(o.path, path) else o.path == path;
        if Matches(o, true, ty, name) {
          if O.HasWildcard(o.path) {
            if o.path == "*" || O.GlobMatcher.Accepts(o.path, path) { return Some(o); }
          } else if o.path == path {
            return Some(o);
          }
        }
      }
      lindex := None;
    }

    method FindType(ty: Option<O.Type>, name: string) returns (lindex: Option<O.Override>)
      requires Valid()
      ensures lindex == O.Select(Abs().names, typeOverrides, ty, name)
    {
      lindex := None;
      for index := 0 to |typeOverrides|
        invariant lindex.Some? ==> !lindex.value.replace
        invariant O.Select(Abs().names, typeOverrides, ty, name)
               == Later(lindex, O.Select(Abs().names, typeOverrides[index..], ty, name))
      {
        var o := typeOverrides[index];
        assert typeOverrides[index..][0] == o && typeOverrides[index..][1..] == typeOverrides[index + 1..];
        if Matches(o, true, ty, name) {
          lindex := Some(o);
          if o.replace { return; }
        }
      }
    }

    method FindApplied(ty: Option<O.Type>, name: string, path: string) returns (lindex: Option<O.Override>)
      requires Valid()
      ensures lindex == R.Applied(Abs(), path, ty, name)
    {
      lindex := None;
      if path != "" {
        lindex := FindInst(ty, name, path);
      }
      if lindex.None? {
        lindex := FindType(ty, name);
      }
    }

    /** find_override_by_type: every search starts with an empty list of overrides. */
    method FindOverrideByType(requested: O.Type, path: string) returns (r: Option<O.Type>)
      requires Valid() && R.Terminates(Abs(), path, requested)
      ensures r == R.FindByType(Abs(), path, requested)
      decreases R.Steps(Abs(), path, requested), 2
    {
      r := FindUnlisted(requested, path, []);
    }

    /** m_find_override_by_type; what it adds to the list is read by no other search. */
    method FindUnlisted(requested: O.Type, path: string, info: seq<O.Override>) returns (r: Option<O.Type>)
      requires Valid() && R.Terminates(Abs(), path, requested)
      ensures r == R.FindUnlisted(Abs(), path, requested, info)
      decreases R.Steps(Abs(), path, requested), 1
    {
      for index := 0 to |info|
        invariant forall i | 0 <= i < index :: info[i].orig.ty != Some(requested)
      {
        if info[index].orig.ty == Some(requested) { return Some(requested); }
      }
      var lindex := FindApplied(Some(requested), O.TypeName(requested), path);
      R.AppliedByType(Abs(), path, requested);
      if lindex.None? { return Some(requested); }
      r := FollowOverride(lindex.value, Some(requested), O.TypeName(requested), path, requested);
    }

    method FindOverrideByName(requested: string, path: string) returns (r: Option<O.Type>)
      requires Valid() && R.Terminates(Abs(), path, O.Named(requested))
      ensures r == R.FindByName(Abs(), path, requested)
      decreases R.Steps(Abs(), path, O.Named(requested)), 1
    {
      var rtype := Resolved(requested);
      var lindex := FindApplied(rtype, requested, path);
      assert lindex == R.Step(Abs(), path, O.Named(requested));
      if lindex.None? { return None; }
      r := FollowOverride(lindex.value, rtype, requested, path, O.Named(requested));
    }

    method FollowOverride(o: O.Override, ty: Option<O.Type>, name: string, path: string, ghost k: O.Key)
      returns (r: Option<O.Type>)
      requires Valid() && O.Askable(k) && (ty == O.TypeOf(Abs().names, k) || (O.IsType(k) && ty == Some(k))) && name == O.TypeName(k)
      requires R.Step(Abs(), path, k) == Some(o) && R.Terminates(Abs(), path, k)
      ensures r == R.Follow(Abs(), path, o, k, ty)
      decreases R.Steps(Abs(), path, k), 0
    {
      R.LeadsOn(Abs(), path, k, ty);
      r := o.ovrd.ty;
      if !Matches(o, false, ty, name) {
        R.StepsDown(Abs(), path, k);
        if r.None? {
          r := FindOverrideByName(o.ovrd.name, path);
        } else {
          r := FindOverrideByType(r.value, path);
        }
      } else if r.None? {
        r := Resolved(o.ovrd.name);
      }
    }
  }
}
