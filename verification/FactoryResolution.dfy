/** Following overrides to the type that is built. */
module FactoryResolution {
  import opened Options
  import opened FactoryOverrides
  import opened Sequences

  /** The first instance override, in the order of registration, that matches at this path. */
  function FirstInst(names: set<Name>, insts: seq<Override>, ty: Option<Type>, name: string, path: string): (r: Option<Override>)
    ensures r.Some? ==> r.value in insts && MatchesInst(names, r.value, ty, name, path)
    decreases |insts|
  {
    if insts == [] then None
    else if MatchesInst(names, insts[0], ty, name, path) then Some(insts[0])
    else FirstInst(names, insts[1..], ty, name, path)
  }

  /** The override applied to a request; an instance override goes before any type override. */
  function Applied(s: State, path: string, ty: Option<Type>, name: string): Option<Override> {
    var inst := if path == "" then None else FirstInst(s.names, s.insts, ty, name, path);
    if inst.Some? then inst else Select(s.names, s.types, ty, name)
  }

  function Step(s: State, path: string, k: Key): Option<Override>
    requires Askable(k)
  {
    Applied(s, path, TypeOf(s.names, k), TypeName(k))
  }

  /** Whether no override, or only its own, applies to a key. */
  predicate Final(s: State, path: string, k: Key)
    requires Askable(k)
  {
    var o := Step(s, path, k);
    o.None? || KeyOf(o.value.ovrd) == k
  }

  /** What the override applied to a key leads to. */
  function Next(s: State, path: string, k: Key): (next: Key)
    requires Askable(k) && !Final(s, path, k)
    ensures Askable(next)
  {
    KeyOf(Step(s, path, k).value.ovrd)
  }

  /** Following overrides from a key comes to an end within n steps. */
  predicate Ends(s: State, path: string, k: Key, n: nat)
    requires Askable(k)
    decreases n
  {
    Final(s, path, k) || (n > 0 && Ends(s, path, Next(s, path, k), n - 1))
  }

  /** The search for a key ends. */
  ghost predicate Terminates(s: State, path: string, k: Key)
    requires Askable(k)
  {
    exists n: nat :: Ends(s, path, k, n)
  }

  lemma {:induction false} EndsLater(s: State, path: string, k: Key, m: nat, n: nat)
    requires Askable(k) && Ends(s, path, k, m) && m <= n
    ensures Ends(s, path, k, n)
    decreases n
  {
    if !Final(s, path, k) { EndsLater(s, path, Next(s, path, k), m - 1, n - 1); }
  }

  ghost function Least(s: State, path: string, k: Key, n: nat): (m: nat)
    requires Askable(k) && Ends(s, path, k, n)
    ensures Ends(s, path, k, m) && (m > 0 ==> !Ends(s, path, k, m - 1))
    decreases n
  {
    if n > 0 && Ends(s, path, k, n - 1) then Least(s, path, k, n - 1) else n
  }

  /** The number of steps a search that ends takes. */
  ghost function Steps(s: State, path: string, k: Key): (n: nat)
    requires Askable(k) && Terminates(s, path, k)
    ensures Ends(s, path, k, n) && (n > 0 ==> !Ends(s, path, k, n - 1))
  {
    var n: nat :| Ends(s, path, k, n);
    Least(s, path, k, n)
  }

  lemma StepsDown(s: State, path: string, k: Key)
    requires Askable(k) && Terminates(s, path, k) && !Final(s, path, k)
    ensures Terminates(s, path, Next(s, path, k)) && Steps(s, path, Next(s, path, k)) < Steps(s, path, k)
  {
    var n, next := Steps(s, path, k), Next(s, path, k);
    assert n > 0 && Ends(s, path, next, n - 1);
    if Steps(s, path, next) >= n {
      EndsLater(s, path, next, n - 1, Steps(s, path, next) - 1);
    }
  }

  // ----- The search

  /** A request by type matches as one by key does, also if the type was never registered. */
  lemma {:induction false} SelectByType(names: set<Name>, log: seq<Override>, t: Type)
    requires AllKnown(names, log)
    ensures Select(names, log, Some(t), TypeName(t)) == Select(names, log, TypeOf(names, t), TypeName(t))
    decreases |log|
  {
    if log != [] { SelectByType(names, log[1..], t); }
  }

  lemma {:induction false} FirstInstByType(names: set<Name>, insts: seq<Override>, t: Type, path: string)
    requires AllKnown(names, insts)
    ensures FirstInst(names, insts, Some(t), TypeName(t), path) == FirstInst(names, insts, TypeOf(names, t), TypeName(t), path)
    decreases |insts|
  {
    if insts != [] { FirstInstByType(names, insts[1..], t, path); }
  }

  lemma AppliedByType(s: State, path: string, t: Type)
    requires Valid(s)
    ensures Applied(s, path, Some(t), TypeName(t)) == Step(s, path, t)
  {
    SelectByType(s.names, s.types, t);
    FirstInstByType(s.names, s.insts, t, path);
  }

  /** The entry applied to a key is an override of that key, and leads back to it only where the search ends. */
  lemma LeadsOn(s: State, path: string, k: Key, ty: Option<Type>)
    requires Valid(s) && Askable(k) && Step(s, path, k).Some? && (ty == TypeOf(s.names, k) || (IsType(k) && ty == Some(k)))
    ensures var o := Step(s, path, k).value;
            && Known(s.names, o.orig) && Known(s.names, o.ovrd) && (o in s.types || o in s.insts) && IsType(k) && KeyOf(o.orig) == k
            && (MatchesType(s.names, o.ovrd, ty, TypeName(k)) <==> Final(s, path, k))
  {
    var o := Step(s, path, k).value;
    MatchIsSameKey(s.names, o.orig, k);
    MatchIsSameKey(s.names, o.ovrd, k);
  }

  /** Whether the type was met before in the same list of overrides. */
  predicate Listed(info: seq<Override>, t: Type) {
    exists i | 0 <= i < |info| :: info[i].orig.ty == Some(t)
  }

  /** find_override_by_type: the search for visited overrides starts from an empty list. */
  function FindByType(s: State, path: string, t: Type): Option<Type>
    requires Valid(s) && Terminates(s, path, t)
    decreases Steps(s, path, t), 2
  {
    FindUnlisted(s, path, t, [])
  }

  /** m_find_override_by_type. */
  function FindUnlisted(s: State, path: string, t: Type, info: seq<Override>): Option<Type>
    requires Valid(s) && Terminates(s, path, t)
    decreases Steps(s, path, t), 1
  {
    if Listed(info, t) then Some(t)
    else
      var o := Applied(s, path, Some(t), TypeName(t));
      AppliedByType(s, path, t);
      if o.None? then Some(t) else Follow(s, path, o.value, t, Some(t))
  }

  /** find_override_by_name: null when no override applies. */
  function FindByName(s: State, path: string, name: string): Option<Type>
    requires Valid(s) && Terminates(s, path, Named(name))
    decreases Steps(s, path, Named(name)), 1
  {
    var o := Applied(s, path, Lookup(s.names, name), name);
    assert o == Step(s, path, Named(name));
    if o.None? then None else Follow(s, path, o.value, Named(name), Lookup(s.names, name))
  }

  /** An override by the requested type itself ends the search, any other starts the next. */
  function Follow(s: State, path: string, o: Override, k: Key, ty: Option<Type>): Option<Type>
    requires Valid(s) && Askable(k) && Step(s, path, k) == Some(o) && Terminates(s, path, k)
    requires ty == TypeOf(s.names, k) || (IsType(k) && ty == Some(k))
    decreases Steps(s, path, k), 0
  {
    LeadsOn(s, path, k, ty);
    if !MatchesType(s.names, o.ovrd, ty, TypeName(k)) then
      StepsDown(s, path, k);
      if o.ovrd.ty.None? then FindByName(s, path, o.ovrd.name) else FindByType(s, path, o.ovrd.ty.value)
    else if o.ovrd.ty.None? then Lookup(s.names, o.ovrd.name) else o.ovrd.ty
  }

  // ----- The calls of the search, with its check for loops

  datatype Request = OfType(t: Type, info: seq<Override>) | OfName(name: string) {
    function Asked(): (k: Key)
      ensures Askable(k)
    {
      if OfType? then t else Named(name)
    }
  }

  /** The search that the search for a request starts in turn, if it does. */
  function Callee(s: State, path: string, r: Request): Option<Request> {
    if r.OfType? && Listed(r.info, r.t) then None
    else
      var ty := if r.OfType? then Some(r.t) else Lookup(s.names, r.name);
      var o := Applied(s, path, ty, TypeName(r.Asked()));
      if o.None? || MatchesType(s.names, o.value.ovrd, ty, TypeName(r.Asked())) then None
      else if o.value.ovrd.ty.None? then Some(OfName(o.value.ovrd.name))
      else Some(OfType(o.value.ovrd.ty.value, []))
  }

  /** With at most n further searches the one for r returns. */
  predicate Returns(s: State, path: string, r: Request, n: nat)
    decreases n
  {
    Callee(s, path, r).None? || (n > 0 && Returns(s, path, Callee(s, path, r).value, n - 1))
  }

  /** Each search starts with an empty list, so the check for loops stops none: a search returns only where the overrides end. */
  lemma {:induction false} LoopCheckNeverFires(s: State, path: string, r: Request, n: nat)
    requires Valid(s) && (r.OfType? ==> r.info == [])
    ensures Returns(s, path, r, n) <==> Ends(s, path, r.Asked(), n)
    decreases n
  {
    var k := r.Asked();
    if r.OfType? { AppliedByType(s, path, r.t); }
    if Step(s, path, k).Some? {
      LeadsOn(s, path, k, if r.OfType? then Some(r.t) else Lookup(s.names, r.name));
      if !Final(s, path, k) && n > 0 { LoopCheckNeverFires(s, path, Callee(s, path, r).value, n - 1); }
    }
  }

  // ----- Where the search ends

  /** ks is a chain of overrides at this path. */
  predicate Chain(s: State, path: string, ks: seq<Key>) {
    (forall i | 0 <= i < |ks| :: Askable(ks[i])) && forall i | 0 <= i < |ks| - 1 :: Overrides(s, path, ks[i], ks[i + 1])
  }

  predicate Overrides(s: State, path: string, a: Key, b: Key)
    requires Askable(a)
  {
    Step(s, path, a).Some? && KeyOf(Step(s, path, a).value.ovrd) == b && a != b
  }

  function Last(ks: seq<Key>): Key
    requires ks != []
  {
    ks[|ks| - 1]
  }

  /** A chain from k to a key without a further override. */
  predicate Resolves(s: State, path: string, k: Key, ks: seq<Key>) {
    ks != [] && ks[0] == k && Chain(s, path, ks) && Final(s, path, Last(ks))
  }

  /** A chain from k that comes back to a key. */
  ghost predicate ComesBack(s: State, path: string, k: Key, ks: seq<Key>) {
    ks != [] && ks[0] == k && Chain(s, path, ks) && !Distinct(ks)
  }

  /** Following the overrides from k never comes back to a key. */
  ghost predicate Acyclic(s: State, path: string, k: Key) {
    !exists ks: seq<Key> :: ComesBack(s, path, k, ks)
  }

  lemma ChainCons(s: State, path: string, k: Key, ks: seq<Key>)
    requires Askable(k) && !Final(s, path, k) && ks != [] && ks[0] == Next(s, path, k) && Chain(s, path, ks)
    ensures Chain(s, path, [k] + ks)
  {
    var all := [k] + ks;
    assert forall i | 0 < i < |all| :: all[i] == ks[i - 1];
    forall i | 0 <= i < |all| - 1 ensures Overrides(s, path, all[i], all[i + 1]) {
      if i > 0 {
        assert Overrides(s, path, ks[i - 1], ks[i]);
      }
    }
  }

  /** A search that goes on for more than n steps passes along a chain of n + 2 keys. */
  lemma {:induction false} LongChain(s: State, path: string, k: Key, n: nat) returns (ks: seq<Key>)
    requires Askable(k) && !Ends(s, path, k, n)
    ensures |ks| == n + 2 && ks[0] == k && Chain(s, path, ks)
    decreases n
  {
    var next := Next(s, path, k);
    var rest := [next];
    if n > 0 {
      rest := LongChain(s, path, next, n - 1);
    }
    ChainCons(s, path, k, rest);
    ks := [k] + rest;
  }

  /** The keys that have an override. */
  function Overridden(os: seq<Override>): (ks: set<Key>)
    ensures |ks| <= |os| && forall o | o in os :: KeyOf(o.orig) in ks
  {
    if os == [] then {} else {KeyOf(os[0].orig)} + Overridden(os[1..])
  }

  /** A chain longer than there are overrides, and one more key, comes back to one. */
  lemma LongChainComesBack(s: State, path: string, ks: seq<Key>)
    requires Valid(s) && Chain(s, path, ks) && |ks| > |s.types| + |s.insts| + 1
    ensures !Distinct(ks)
  {
    var front, os := ks[..|ks| - 1], s.types + s.insts;
    forall k | k in front ensures k in Overridden(os) {
      var i :| 0 <= i < |front| && front[i] == k;
      assert Overrides(s, path, ks[i], ks[i + 1]);
      LeadsOn(s, path, k, TypeOf(s.names, k));
      assert Step(s, path, k).value in os;
    }
    DistinctFront(ks);
    if Distinct(front) { DistinctFits(front, Overridden(os)); }
  }

  lemma DistinctFront(ks: seq<Key>)
    requires ks != []
    ensures Distinct(ks) ==> Distinct(ks[..|ks| - 1])
  {
    var front := ks[..|ks| - 1];
    assert forall i | 0 <= i < |front| :: front[i] == ks[i];
  }

  /** A search that ends does so behind every key of a chain. */
  lemma {:induction false} EndsAlong(s: State, path: string, ks: seq<Key>, i: nat, n: nat)
    requires Chain(s, path, ks) && i < |ks| && Ends(s, path, ks[0], n)
    ensures i <= n && Ends(s, path, ks[i], n - i)
    decreases i
  {
    if i > 0 {
      EndsAlong(s, path, ks, i - 1, n);
      assert Overrides(s, path, ks[i - 1], ks[i]);
    }
  }

  /** No search ends that comes back to where it started. */
  lemma {:induction false} CycleGoesOn(s: State, path: string, ks: seq<Key>, n: nat)
    requires |ks| > 1 && Chain(s, path, ks) && Last(ks) == ks[0]
    ensures !Ends(s, path, ks[0], n)
    decreases n
  {
    if Ends(s, path, ks[0], n) {
      EndsAlong(s, path, ks, |ks| - 1, n);
      CycleGoesOn(s, path, ks, n - (|ks| - 1));
    }
  }

  lemma SubChain(s: State, path: string, ks: seq<Key>, i: nat, j: nat)
    requires Chain(s, path, ks) && i <= j <= |ks|
    ensures Chain(s, path, ks[i..j])
  {
    var part := ks[i..j];
    assert forall m | 0 <= m < |part| :: part[m] == ks[i + m];
    forall m | 0 <= m < |part| - 1 ensures Overrides(s, path, part[m], part[m + 1]) {
      assert Overrides(s, path, ks[i + m], ks[i + m + 1]);
    }
  }

  lemma ComingBackGoesOn(s: State, path: string, k: Key, ks: seq<Key>, n: nat)
    requires Askable(k) && ComesBack(s, path, k, ks)
    ensures !Ends(s, path, k, n)
  {
    if Ends(s, path, k, n) {
      var i, j :| 0 <= i < j < |ks| && ks[i] == ks[j];
      SubChain(s, path, ks, i, j + 1);
      EndsAlong(s, path, ks, i, n);
      CycleGoesOn(s, path, ks[i..j + 1], n - i);
    }
  }

  /**
   * The search for a key ends iff following the overrides never comes back to a key, and then
   * it takes no more steps than there are overrides.
   */
  lemma SearchEnds(s: State, path: string, k: Key)
    requires Valid(s) && Askable(k)
    ensures Terminates(s, path, k) <==> Acyclic(s, path, k)
    ensures Terminates(s, path, k) <==> Ends(s, path, k, |s.types| + |s.insts|)
  {
    var bound := |s.types| + |s.insts|;
    if !Ends(s, path, k, bound) {
      var ks := LongChain(s, path, k, bound);
      LongChainComesBack(s, path, ks);
      assert ComesBack(s, path, k, ks);
    }
    forall ks: seq<Key>, n: nat | ComesBack(s, path, k, ks) ensures !Ends(s, path, k, n) {
      ComingBackGoesOn(s, path, k, ks, n);
    }
  }

  /** Without an instance path a step is what the type override calls amount to. */
  lemma TypeStep(calls: seq<Call>, k: Key)
    requires Askable(k)
    ensures Target(Step(Run(calls), "", k)) == Get(Fold(calls), k)
  {
    LogRefinesMap(calls);
    assert InForce(Run(calls), k) == Get(Fold(calls), k);
  }

  lemma FoldTwo(calls: seq<Call>, c: Call, d: Call)
    ensures Fold(calls + [c] + [d]) == Meaning(Meaning(Fold(calls), c), d)
  {
    assert (calls + [c])[..|calls|] == calls && (calls + [c] + [d])[..|calls| + 1] == calls + [c];
  }

  /**
   * Whatever was called before, two types can be made to override each other; the search for
   * either then does not return, for all its check for loops.
   */
  lemma CyclesHappen(calls: seq<Call>, a: Type, b: Type, n: nat)
    requires a != b
    ensures var s := Run(calls + [ByType(a, b, true)] + [ByType(b, a, true)]);
            Valid(s) && !Terminates(s, "", a) && !Returns(s, "", OfType(a, []), n)
  {
    var all := calls + [ByType(a, b, true)] + [ByType(b, a, true)];
    var s := Run(all);
    LogRefinesMap(all);
    assert Overrides(s, "", a, b) && Overrides(s, "", b, a) by {
      FoldTwo(calls, ByType(a, b, true), ByType(b, a, true));
      TypeStep(all, a);
      TypeStep(all, b);
    }
    TwoWays(s, "", a, b);
    LoopCheckNeverFires(s, "", OfType(a, []), n);
  }

  lemma TwoWays(s: State, path: string, a: Type, b: Type)
    requires Valid(s) && Overrides(s, path, a, b) && Overrides(s, path, b, a)
    ensures !Terminates(s, path, a)
  {
    var ks := [a, b, a];
    assert ks[0] == ks[2] && ComesBack(s, path, a, ks);
    SearchEnds(s, path, a);
  }

  // ----- What it finds

  /** The chain of overrides from a key to the end. */
  ghost function Path(s: State, path: string, k: Key): (ks: seq<Key>)
    requires Askable(k) && Terminates(s, path, k)
    ensures ks != [] && ks[0] == k
    decreases Steps(s, path, k)
  {
    if Final(s, path, k) then [k]
    else
      StepsDown(s, path, k);
      [k] + Path(s, path, Next(s, path, k))
  }

  lemma {:induction false} PathResolves(s: State, path: string, k: Key)
    requires Askable(k) && Terminates(s, path, k)
    ensures Resolves(s, path, k, Path(s, path, k))
    decreases Steps(s, path, k)
  {
    if !Final(s, path, k) {
      StepsDown(s, path, k);
      PathResolves(s, path, Next(s, path, k));
      ChainCons(s, path, k, Path(s, path, Next(s, path, k)));
    }
  }

  lemma PathStep(s: State, path: string, k: Key)
    requires Askable(k) && Terminates(s, path, k)
    ensures Final(s, path, k) ==> Last(Path(s, path, k)) == k
    ensures !Final(s, path, k) ==>
              Terminates(s, path, Next(s, path, k)) && Last(Path(s, path, k)) == Last(Path(s, path, Next(s, path, k)))
  {
    if !Final(s, path, k) { StepsDown(s, path, k); }
  }

  lemma FollowMeans(s: State, path: string, k: Key, ty: Option<Type>)
    requires Valid(s) && Askable(k) && Step(s, path, k).Some? && Terminates(s, path, k)
    requires ty == TypeOf(s.names, k) || (IsType(k) && ty == Some(k))
    ensures var o := Step(s, path, k).value;
            if Final(s, path, k) then Follow(s, path, o, k, ty) == TypeOf(s.names, k)
            else Terminates(s, path, KeyOf(o.ovrd))
                 && Follow(s, path, o, k, ty) ==
                    if o.ovrd.ty.None? then FindByName(s, path, o.ovrd.name) else FindByType(s, path, o.ovrd.ty.value)
  {
    LeadsOn(s, path, k, ty);
    if !Final(s, path, k) { StepsDown(s, path, k); }
  }

  /** A search by type without any override gives the type itself, one by name nothing; else both give the last key's type. */
  lemma {:induction false} FindEndsAtPath(s: State, path: string, k: Key)
    requires Valid(s) && Askable(k) && Terminates(s, path, k)
    ensures var last, o := Last(Path(s, path, k)), Step(s, path, k);
            && Askable(last)
            && (IsType(k) ==> FindByType(s, path, k) == if o.None? then Some(k) else TypeOf(s.names, last))
            && (k.Named? ==> FindByName(s, path, k.name) == if o.None? then None else TypeOf(s.names, last))
    decreases Steps(s, path, k)
  {
    PathStep(s, path, k);
    if IsType(k) { AppliedByType(s, path, k); }
    if Step(s, path, k).Some? {
      FollowMeans(s, path, k, TypeOf(s.names, k));
      LeadsOn(s, path, k, TypeOf(s.names, k));
      FollowMeans(s, path, k, Some(k));
      if !Final(s, path, k) {
        StepsDown(s, path, k);
        PathStep(s, path, Next(s, path, k));
        FindEndsAtPath(s, path, Next(s, path, k));
      }
    }
  }

  /**
   * Override resolution: where following the overrides from a type never comes back to a key,
   * the search follows them to one without a further override, gives its type if it has one,
   * and gives that type again when asked for it.
   */
  lemma ResolutionIsFinal(s: State, path: string, t: Type) returns (ks: seq<Key>)
    requires Valid(s) && Acyclic(s, path, t)
    ensures Terminates(s, path, t) && Resolves(s, path, t, ks) && Distinct(ks)
    ensures var found := FindByType(s, path, t);
            && found == (if |ks| == 1 && Step(s, path, t).None? then Some(t) else TypeOf(s.names, Last(ks)))
            && (found.Some? ==> Terminates(s, path, found.value) && FindByType(s, path, found.value) == found)
  {
    SearchEnds(s, path, t);
    ks := Path(s, path, t);
    PathResolves(s, path, t);
    assert !ComesBack(s, path, t, ks);
    FindEndsAtPath(s, path, t);
    assert Ends(s, path, Last(ks), 0);
    FindEndsAtPath(s, path, Last(ks));
  }

  // ----- Instance overrides keep the order of their registration

  /** The instance override a call asks for: the original's key, the override's, and the path. */
  function InstOf(c: Call): Option<(Key, Key, string)> {
    match c
    case InstByType(orig, ovrd, path) => Some((orig, ovrd, path))
    case InstByName(orig, ovrd, path) => Some((Named(orig), Named(ovrd), path))
    case _ => None
  }

  /** The path of an override is a glob; a '^' in front is dropped, but only if there is a wildcard. */
  predicate AtPath(at: string, path: string) {
    if at != "" && at[0] == '^' && ('*' in at || '?' in at) then GlobMatcher.GlobMatch(false, at[1..], path)
    else GlobMatcher.GlobMatch(false, at, path)
  }

  /** The factory's own test comes to the same: paths without a wildcard are compared, and "*" is not handed to the matcher. */
  lemma PathIsGlob(at: string, path: string)
    ensures AtPath(at, path) <==> if HasWildcard(at) then at == "*" || GlobMatcher.Accepts(at, path) else at == path
  {
    assert HasWildcard(at) <==> '*' in at || '?' in at;
    if !HasWildcard(at) {
      GlobMatcher.PlainMatch(at, path);
    }
    GlobMatcher.StarMatchesAll(path);
  }

  predicate CallMatches(c: Call, k: Key, path: string) {
    InstOf(c).Some? && InstOf(c).value.0 == k && IsType(k) && AtPath(InstOf(c).value.2, path)
  }

  /** The override of the earliest call that matches. */
  function Earliest(calls: seq<Call>, k: Key, path: string): Option<Key> {
    if calls == [] then None
    else
      var before := Earliest(calls[..|calls| - 1], k, path);
      var last := calls[|calls| - 1];
      if before.None? && CallMatches(last, k, path) then Some(InstOf(last).value.1) else before
  }

  function InstInForce(names: set<Name>, insts: seq<Override>, k: Key, path: string): Option<Key>
    requires Askable(k)
  {
    Target(FirstInst(names, insts, TypeOf(names, k), TypeName(k), path))
  }

  lemma ResolvedInst(names: set<Name>, t: Type, o: Override, k: Key, path: string)
    requires Known(names, o.orig) && Known(names, o.ovrd) && (t.Named? ==> t.name !in names) && Askable(k)
    ensures var o' := o.(orig := Resolve(t, o.orig), ovrd := Resolve(t, o.ovrd));
            && (MatchesInst(With(names, t), o', TypeOf(With(names, t), k), TypeName(k), path)
                <==> MatchesInst(names, o, TypeOf(names, k), TypeName(k), path))
            && KeyOf(o'.ovrd) == KeyOf(o.ovrd)
  {
    ResolvedEntry(names, t, o.orig, o.ovrd, k);
  }

  lemma {:induction false} ResolveKeepsInst(names: set<Name>, t: Type, insts: seq<Override>, k: Key, path: string)
    requires AllKnown(names, insts) && (t.Named? ==> t.name !in names) && Askable(k)
    ensures InstInForce(With(names, t), ResolveAll(t, insts), k, path) == InstInForce(names, insts, k, path)
    decreases |insts|
  {
    if insts != [] {
      ResolvedInst(names, t, insts[0], k, path);
      assert ResolveAll(t, insts)[1..] == ResolveAll(t, insts[1..]);
      ResolveKeepsInst(names, t, insts[1..], k, path);
    }
  }

  lemma {:induction false} PushBack(names: set<Name>, insts: seq<Override>, o: Override, ty: Option<Type>, name: string, path: string)
    ensures FirstInst(names, insts + [o], ty, name, path) ==
              (var first := FirstInst(names, insts, ty, name, path);
               if first.None? && MatchesInst(names, o, ty, name, path) then Some(o) else first)
    decreases |insts|
  {
    if insts == [] {
      assert insts + [o] == [o] && [o][1..] == [];
    } else {
      assert (insts + [o])[1..] == insts[1..] + [o];
      PushBack(names, insts[1..], o, ty, name, path);
    }
  }

  /** An entry that already exists cannot be the only one to match. */
  lemma {:induction false} DuplicateIsBehind(names: set<Name>, insts: seq<Override>, i: nat, ty: Option<Type>, n: string, path: string)
    requires i < |insts| && MatchesInst(names, insts[i], ty, n, path)
    ensures FirstInst(names, insts, ty, n, path).Some?
    decreases |insts|
  {
    if !MatchesInst(names, insts[0], ty, n, path) {
      DuplicateIsBehind(names, insts[1..], i - 1, ty, n, path);
    }
  }

  lemma AddInstKeepsOrder(s: State, orig: TypePair, ovrd: TypePair, at: string, k: Key, path: string)
    requires Valid(s) && Known(s.names, orig) && Known(s.names, ovrd) && Askable(k)
    ensures var before := InstInForce(s.names, s.insts, k, path);
            InstInForce(s.names, AddInst(s, orig, ovrd, at).insts, k, path) ==
              if before.None? && KeyOf(orig) == k && IsType(k) && AtPath(at, path) then Some(KeyOf(ovrd)) else before
  {
    var o, ty, n := Override(at, orig, ovrd, false), TypeOf(s.names, k), TypeName(k);
    MatchIsSameKey(s.names, orig, k);
    PathIsGlob(at, path);
    PushBack(s.names, s.insts, o, ty, n, path);
    if InstExists(s.insts, o) && MatchesInst(s.names, o, ty, n, path) {
      var i :| 0 <= i < |s.insts| && SameInst(s.insts[i], o);
      DuplicateIsBehind(s.names, s.insts, i, ty, n, path);
    }
  }

  lemma RegisterKeepsInst(s: State, t: Type, k: Key, path: string)
    requires Valid(s) && Askable(k)
    ensures InstInForce(Register(s, t).names, Register(s, t).insts, k, path) == InstInForce(s.names, s.insts, k, path)
  {
    if !(t.Named? && t.name in s.names) {
      ResolveKeepsInst(s.names, t, s.insts, k, path);
    }
  }

  lemma ApplyKeepsOrder(s: State, c: Call, k: Key, path: string)
    requires Valid(s) && Askable(k)
    ensures var before := InstInForce(s.names, s.insts, k, path);
            InstInForce(Apply(s, c).names, Apply(s, c).insts, k, path) ==
              if before.None? && CallMatches(c, k, path) then Some(InstOf(c).value.1) else before
  {
    match c {
      case ByType(orig, ovrd, _) =>
        var s2 := RegisterTwice(s, orig, ovrd, k, path);
      case ByName(orig, ovrd, _) =>
      case InstByType(orig, ovrd, at) =>
        var s2 := RegisterTwice(s, orig, ovrd, k, path);
        AddInstKeepsOrder(s2, PairOf(orig), PairOf(ovrd), at, k, path);
      case InstByName(orig, ovrd, at) =>
        AddInstKeepsOrder(s, PairNamed(s.names, orig), PairNamed(s.names, ovrd), at, k, path);
      case Late(t) => RegisterKeepsInst(s, t, k, path);
    }
  }

  /** After any sequence of calls the instance override applied is that of the earliest call that matches. */
  lemma {:induction false} InstOverridesInOrder(calls: seq<Call>, k: Key, path: string)
    requires Askable(k)
    ensures InstInForce(Run(calls).names, Run(calls).insts, k, path) == Earliest(calls, k, path)
    decreases |calls|
  {
    if calls != [] {
      var before := calls[..|calls| - 1];
      InstOverridesInOrder(before, k, path);
      LogRefinesMap(before);
      ApplyKeepsOrder(Run(before), calls[|calls| - 1], k, path);
    }
  }

  // ----- The instance log is the list of what was asked for

  /** What an entry stands for: the original's key, the override's, and the path. */
  function Entry(o: Override): (Key, Key, string) {
    (KeyOf(o.orig), KeyOf(o.ovrd), o.path)
  }

  function Entries(os: seq<Override>): (es: seq<(Key, Key, string)>)
    ensures |es| == |os| && forall i | 0 <= i < |os| :: es[i] == Entry(os[i])
  {
    if os == [] then [] else [Entry(os[0])] + Entries(os[1..])
  }

  /** The instance overrides asked for, each where it was asked for first. */
  function Asked(calls: seq<Call>): seq<(Key, Key, string)> {
    if calls == [] then []
    else
      var before, last := Asked(calls[..|calls| - 1]), InstOf(calls[|calls| - 1]);
      if last.None? || last.value in before then before else before + [last.value]
  }

  /** Entries whose types are filled in are equal if they stand for the same. */
  lemma SameEntry(names: set<Name>, a: Override, b: Override)
    requires Known(names, a.orig) && Known(names, a.ovrd) && Known(names, b.orig) && Known(names, b.ovrd)
    ensures Entry(a) == Entry(b) <==> a.path == b.path && a.orig == b.orig && a.ovrd == b.ovrd
  {
  }

  lemma RegisterKeepsEntries(s: State, t: Type)
    requires Valid(s)
    ensures Entries(Register(s, t).insts) == Entries(s.insts)
  {
    if !(t.Named? && t.name in s.names) {
      forall i | 0 <= i < |s.insts| ensures Entry(Register(s, t).insts[i]) == Entry(s.insts[i]) {
        ResolvedPair(s.names, t, s.insts[i].orig);
        ResolvedPair(s.names, t, s.insts[i].ovrd);
      }
    }
  }

  lemma AddInstEntries(s: State, orig: TypePair, ovrd: TypePair, path: string)
    requires Valid(s) && Known(s.names, orig) && Known(s.names, ovrd)
    ensures var e, es := (KeyOf(orig), KeyOf(ovrd), path), Entries(s.insts);
            Entries(AddInst(s, orig, ovrd, path).insts) == if e in es then es else es + [e]
  {
    var o, es := Override(path, orig, ovrd, false), Entries(s.insts);
    forall i | 0 <= i < |s.insts| ensures es[i] == Entry(o) <==> SameInst(s.insts[i], o) {
      SameEntry(s.names, s.insts[i], o);
    }
  }

  lemma RegisterBothEntries(s: State, a: Type, b: Type) returns (s2: State)
    requires Valid(s)
    ensures s2 == Register(Register(s, a), b) && Valid(s2) && Entries(s2.insts) == Entries(s.insts)
    ensures Known(s2.names, PairOf(a)) && Known(s2.names, PairOf(b)) && KeyOf(PairOf(a)) == a && KeyOf(PairOf(b)) == b
  {
    s2 := Register(Register(s, a), b);
    RegisterValid(s, a);
    RegisterKeepsEntries(s, a);
    RegisterValid(Register(s, a), b);
    RegisterKeepsEntries(Register(s, a), b);
    PairsAreKnown(s2.names, a, "");
    PairsAreKnown(s2.names, b, "");
  }

  lemma ApplyEntries(s: State, c: Call)
    requires Valid(s)
    ensures var es, e := Entries(s.insts), InstOf(c);
            Entries(Apply(s, c).insts) == if e.None? || e.value in es then es else es + [e.value]
  {
    match c {
      case ByType(orig, ovrd, _) =>
        var s2 := RegisterBothEntries(s, orig, ovrd);
      case ByName(orig, ovrd, _) =>
      case InstByType(orig, ovrd, at) =>
        var s2 := RegisterBothEntries(s, orig, ovrd);
        AddInstEntries(s2, PairOf(orig), PairOf(ovrd), at);
      case InstByName(orig, ovrd, at) =>
        AddInstEntries(s, PairNamed(s.names, orig), PairNamed(s.names, ovrd), at);
      case Late(t) => RegisterKeepsEntries(s, t);
    }
  }

  /** After any sequence of calls the instance overrides are those asked for, each once, in the order they were first asked for. */
  lemma {:induction false} InstLogIsAsked(calls: seq<Call>)
    ensures Entries(Run(calls).insts) == Asked(calls) && Distinct(Asked(calls))
    decreases |calls|
  {
    if calls != [] {
      var before := calls[..|calls| - 1];
      InstLogIsAsked(before);
      LogRefinesMap(before);
      ApplyEntries(Run(before), calls[|calls| - 1]);
    }
  }

  /**
   * One step of resolution, told by the calls alone: the earliest matching instance override
   * if the request has a path and there is one, else what the type override calls amount to.
   */
  lemma StepFollowsCalls(calls: seq<Call>, k: Key, path: string)
    requires Askable(k)
    ensures var inst := Earliest(calls, k, path);
            Target(Step(Run(calls), path, k)) == if path != "" && inst.Some? then inst else Get(Fold(calls), k)
  {
    InstOverridesInOrder(calls, k, path);
    LogRefinesMap(calls);
    assert InForce(Run(calls), k) == Get(Fold(calls), k);
  }

  /**
   * What the last call does to the type override of any key: a replacement is in force at once, any
   * other only if there was none; nothing is ever in force for the empty and the unknown name.
   */
  lemma LastCall(calls: seq<Call>, c: Call, k: Key)
    requires Askable(k)
    ensures var before, after := InForce(Run(calls), k), InForce(Run(calls + [c]), k);
            match c
            case ByType(orig, ovrd, replace) =>
              after == if k == orig && (replace || before.None?) then Some(ovrd) else before
            case ByName(orig, ovrd, replace) =>
              after == if k == Named(orig) && orig != "" && orig != "<unknown>" && orig != ovrd && (replace || before.None?)
                       then Some(Named(ovrd)) else before
            case _ => after == before
    ensures k == Named("") || k == Named("<unknown>") ==> InForce(Run(calls), k) == None
  {
    LogRefinesMap(calls);
    LogRefinesMap(calls + [c]);
    assert (calls + [c])[..|calls|] == calls;
    assert InForce(Run(calls), k) == Get(Fold(calls), k);
    assert InForce(Run(calls + [c]), k) == Get(Fold(calls + [c]), k);
    if k in Fold(calls) { FoldHasTypes(calls, k); }
  }

  lemma {:induction false} FoldHasTypes(calls: seq<Call>, k: Key)
    requires k in Fold(calls)
    ensures IsType(k)
    decreases |calls|
  {
    if calls != [] {
      var before := calls[..|calls| - 1];
      if k in Fold(before) { FoldHasTypes(before, k); }
    }
  }

  lemma RegisterTwice(s: State, a: Type, b: Type, k: Key, path: string) returns (s2: State)
    requires Valid(s) && Askable(k)
    ensures s2 == Register(Register(s, a), b) && Valid(s2) && Known(s2.names, PairOf(a)) && Known(s2.names, PairOf(b))
    ensures InstInForce(s2.names, s2.insts, k, path) == InstInForce(s.names, s.insts, k, path)
  {
    s2 := Register(Register(s, a), b);
    RegisterValid(s, a);
    RegisterKeepsInst(s, a, k, path);
    RegisterValid(Register(s, a), b);
    RegisterKeepsInst(Register(s, a), b, k, path);
    PairsAreKnown(s2.names, a, "");
    PairsAreKnown(s2.names, b, "");
  }
}
