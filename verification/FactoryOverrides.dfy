/** The factory's override log on values, and the override map it stands for. */
module FactoryOverrides {
  import opened Options
  import GlobMatcher

  predicate ValidName(n: string) {
    n != "" && n != "<unknown>"
  }

  type Name = n: string | ValidName(n) witness "a"

  /** What a request names or an override leads to: a type name, or a type without one and what it shows instead. */
  datatype Key = Named(name: string) | Unnamed(id: nat, shown: string)

  /** A named type has a valid name, any other shows an invalid one. */
  predicate IsType(k: Key) {
    if k.Named? then ValidName(k.name) else !ValidName(k.shown)
  }

  /** A type's proxy; type names are unique, so the name of a named type determines the proxy. */
  type Type = k: Key | IsType(k) witness Unnamed(0, "")

  /** get_type_name. */
  function TypeName(k: Key): string {
    if k.Named? then k.name else k.shown
  }

  datatype TypePair = TypePair(ty: Option<Type>, name: string)

  datatype Override = Override(path: string, orig: TypePair, ovrd: TypePair, replace: bool)

  /** The names with a registered type; the type overrides, newest first; the instance overrides, oldest first. */
  datatype State = State(names: set<Name>, types: seq<Override>, insts: seq<Override>)

  const EMPTY := State({}, [], [])

  function Lookup(names: set<Name>, n: string): Option<Type> {
    if n in names then Some(Named(n)) else None
  }

  // ----- Matching

  predicate MatchesPair(p: TypePair, ty: Option<Type>, name: string) {
    (p.ty.Some? && p.ty == ty) || (p.name != "<unknown>" && p.name != "" && p.name == name)
  }

  /** A type still unknown when the override was made is looked up again. */
  function Refresh(names: set<Name>, p: TypePair): TypePair {
    if p.ty.None? then p.(ty := Lookup(names, p.name)) else p
  }

  predicate MatchesType(names: set<Name>, p: TypePair, ty: Option<Type>, name: string) {
    MatchesPair(Refresh(names, p), ty, name)
  }

  predicate HasWildcard(path: string) {
    exists i | 0 <= i < |path| :: path[i] == '*' || path[i] == '?'
  }

  predicate MatchesInst(names: set<Name>, o: Override, ty: Option<Type>, name: string, path: string) {
    MatchesType(names, o.orig, ty, name)
    && if HasWildcard(o.path) then o.path == "*" || GlobMatcher.Accepts(o.path, path) else o.path == path
  }

  // ----- Setting overrides

  function PairOf(t: Type): TypePair {
    TypePair(Some(t), TypeName(t))
  }

  function PairNamed(names: set<Name>, n: string): TypePair {
    TypePair(Lookup(names, n), n)
  }

  /** Filling in the type of a name that was not registered yet. */
  function Resolve(t: Type, p: TypePair): TypePair {
    if MatchesPair(p, None, TypeName(t)) then p.(ty := Some(t)) else p
  }

  function ResolveAll(t: Type, os: seq<Override>): (r: seq<Override>)
    ensures |r| == |os|
    ensures forall i | 0 <= i < |os| :: r[i] == os[i].(orig := Resolve(t, os[i].orig), ovrd := Resolve(t, os[i].ovrd))
  {
    if os == [] then []
    else [os[0].(orig := Resolve(t, os[0].orig), ovrd := Resolve(t, os[0].ovrd))] + ResolveAll(t, os[1..])
  }

  /** Only a named type can be looked up by its name later. */
  function With(names: set<Name>, t: Type): set<Name> {
    if t.Named? then names + {t.name} else names
  }

  function Register(s: State, t: Type): State {
    if t.Named? && t.name in s.names then s
    else State(With(s.names, t), ResolveAll(t, s.types), ResolveAll(t, s.insts))
  }

  datatype Outcome = NotFound | Kept | Replaced

  /** Whether the scan for an existing override gives up at this entry. */
  predicate Stops(o: Override, ty: Option<Type>, byName: bool) {
    o.orig.ty.None? || (byName && ty.None?)
  }

  /**
   * The scan over the log for an existing override: replacing updates every match up to the
   * point where the scan gives up, keeping ends it at the first.
   */
  function Scan(names: set<Name>, log: seq<Override>, ty: Option<Type>, name: string, ovrd: TypePair,
                replace: bool, byName: bool): (r: (Outcome, seq<Override>))
    ensures |r.1| == |log|
    decreases |log|
  {
    if log == [] then (NotFound, log)
    else if MatchesType(names, log[0].orig, ty, name) then
      if !replace then (Kept, log)
      else
        var orig := if byName then log[0].orig else TypePair(ty, name);
        (Replaced, [log[0].(orig := orig, ovrd := ovrd, replace := replace)]
                   + Scan(names, log[1..], ty, name, ovrd, replace, byName).1)
    else if Stops(log[0], ty, byName) then (NotFound, log)
    else
      var (found, rest) := Scan(names, log[1..], ty, name, ovrd, replace, byName);
      (found, [log[0]] + rest)
  }

  function Record(s: State, orig: TypePair, ovrd: TypePair, replace: bool, byName: bool): State {
    var (found, log) := Scan(s.names, s.types, orig.ty, orig.name, ovrd, replace, byName);
    if found == NotFound then s.(types := [Override("", orig, ovrd, replace)] + log) else s.(types := log)
  }

  function SetByType(s: State, orig: Type, ovrd: Type, replace: bool): State {
    Record(Register(Register(s, orig), ovrd), PairOf(orig), PairOf(ovrd), replace, false)
  }

  function SetByName(s: State, orig: string, ovrd: string, replace: bool): State {
    if orig == ovrd then s else Record(s, PairNamed(s.names, orig), PairNamed(s.names, ovrd), replace, true)
  }

  predicate SameInst(a: Override, b: Override) {
    a.path == b.path && a.orig == b.orig && a.ovrd == b.ovrd
  }

  predicate InstExists(insts: seq<Override>, o: Override) {
    exists i | 0 <= i < |insts| :: SameInst(insts[i], o)
  }

  function AddInst(s: State, orig: TypePair, ovrd: TypePair, path: string): State {
    var o := Override(path, orig, ovrd, false);
    if InstExists(s.insts, o) then s else s.(insts := s.insts + [o])
  }

  function SetInstByType(s: State, orig: Type, ovrd: Type, path: string): State {
    AddInst(Register(Register(s, orig), ovrd), PairOf(orig), PairOf(ovrd), path)
  }

  function SetInstByName(s: State, orig: string, ovrd: string, path: string): State {
    AddInst(s, PairNamed(s.names, orig), PairNamed(s.names, ovrd), path)
  }

  // ----- The type of an entry is known exactly when its name is registered

  predicate Known(names: set<Name>, p: TypePair) {
    if p.ty.Some? && p.ty.value.Unnamed? then p.name == p.ty.value.shown else p.ty == Lookup(names, p.name)
  }

  predicate AllKnown(names: set<Name>, os: seq<Override>) {
    forall i | 0 <= i < |os| :: Known(names, os[i].orig) && Known(names, os[i].ovrd)
  }

  predicate Valid(s: State) {
    AllKnown(s.names, s.types) && AllKnown(s.names, s.insts)
  }

  /** What an entry's pair stands for. */
  function KeyOf(p: TypePair): (k: Key)
    ensures Askable(k)
  {
    if p.ty.Some? then p.ty.value else Named(p.name)
  }

  /** What can be asked for: any name and any type. */
  predicate Askable(k: Key) {
    k.Named? || IsType(k)
  }

  /** The type a request comes with, if its name is registered. */
  function TypeOf(names: set<Name>, k: Key): Option<Type>
    requires Askable(k)
  {
    if k.Named? then Lookup(names, k.name) else Some(k)
  }

  /** An entry matches the requests for its own key; the empty and the unknown name match nothing. */
  lemma MatchIsSameKey(names: set<Name>, p: TypePair, k: Key)
    requires Known(names, p) && Askable(k)
    ensures MatchesType(names, p, TypeOf(names, k), TypeName(k)) <==> KeyOf(p) == k && IsType(k)
  {
  }

  lemma PairsAreKnown(names: set<Name>, t: Type, n: string)
    requires t.Named? ==> t.name in names
    ensures Known(names, PairOf(t)) && KeyOf(PairOf(t)) == t && TypeOf(names, t) == Some(t)
    ensures Known(names, PairNamed(names, n)) && KeyOf(PairNamed(names, n)) == Named(n)
  {
  }

  lemma ResolvedPair(names: set<Name>, t: Type, p: TypePair)
    requires Known(names, p) && (t.Named? ==> t.name !in names)
    ensures Known(With(names, t), Resolve(t, p)) && KeyOf(Resolve(t, p)) == KeyOf(p)
  {
  }

  /** Filling in types changes neither what an entry matches nor what it leads to. */
  lemma ResolvedEntry(names: set<Name>, t: Type, orig: TypePair, ovrd: TypePair, k: Key)
    requires Known(names, orig) && Known(names, ovrd) && (t.Named? ==> t.name !in names) && Askable(k)
    ensures MatchesType(With(names, t), Resolve(t, orig), TypeOf(With(names, t), k), TypeName(k))
            <==> MatchesType(names, orig, TypeOf(names, k), TypeName(k))
    ensures KeyOf(Resolve(t, ovrd)) == KeyOf(ovrd)
  {
    ResolvedPair(names, t, orig);
    ResolvedPair(names, t, ovrd);
    MatchIsSameKey(names, orig, k);
    MatchIsSameKey(With(names, t), Resolve(t, orig), k);
  }

  lemma RegisterValid(s: State, t: Type)
    requires Valid(s)
    ensures Valid(Register(s, t)) && (t.Named? ==> t.name in Register(s, t).names)
  {
    if !(t.Named? && t.name in s.names) {
      var s' := Register(s, t);
      forall i | 0 <= i < |s.types| ensures Known(s'.names, s'.types[i].orig) && Known(s'.names, s'.types[i].ovrd) {
        ResolvedPair(s.names, t, s.types[i].orig);
        ResolvedPair(s.names, t, s.types[i].ovrd);
      }
      forall i | 0 <= i < |s.insts| ensures Known(s'.names, s'.insts[i].orig) && Known(s'.names, s'.insts[i].ovrd) {
        ResolvedPair(s.names, t, s.insts[i].orig);
        ResolvedPair(s.names, t, s.insts[i].ovrd);
      }
    }
  }

  lemma {:induction false} ScanKnown(names: set<Name>, log: seq<Override>, orig: TypePair, ovrd: TypePair, replace: bool, byName: bool)
    requires AllKnown(names, log) && Known(names, orig) && Known(names, ovrd)
    ensures AllKnown(names, Scan(names, log, orig.ty, orig.name, ovrd, replace, byName).1)
    decreases |log|
  {
    if log != [] {
      ScanKnown(names, log[1..], orig, ovrd, replace, byName);
    }
  }

  lemma RecordValid(s: State, orig: TypePair, ovrd: TypePair, replace: bool, byName: bool)
    requires Valid(s) && Known(s.names, orig) && Known(s.names, ovrd)
    ensures Valid(Record(s, orig, ovrd, replace, byName))
  {
    ScanKnown(s.names, s.types, orig, ovrd, replace, byName);
  }

  // ----- Choosing an override

  /**
   * The newest-first scan: an override set with `replace` ends it, an override set without
   * yields to any older one.
   */
  function Select(names: set<Name>, log: seq<Override>, ty: Option<Type>, name: string): (r: Option<Override>)
    ensures r.Some? ==> r.value in log && MatchesType(names, r.value.orig, ty, name)
    decreases |log|
  {
    if log == [] then None
    else if MatchesType(names, log[0].orig, ty, name) then
      if log[0].replace then Some(log[0])
      else
        var older := Select(names, log[1..], ty, name);
        if older.None? then Some(log[0]) else older
    else Select(names, log[1..], ty, name)
  }

  function Target(o: Option<Override>): Option<Key> {
    if o.None? then None else Some(KeyOf(o.value.ovrd))
  }

  function Chosen(names: set<Name>, log: seq<Override>, k: Key): Option<Key>
    requires Askable(k)
  {
    Target(Select(names, log, TypeOf(names, k), TypeName(k)))
  }

  /** What the type override in force for a request leads to. */
  function InForce(s: State, k: Key): Option<Key>
    requires Askable(k)
  {
    Chosen(s.names, s.types, k)
  }

  // ----- Calls and the map they amount to

  datatype Call =
    | ByType(orig: Type, ovrd: Type, replace: bool)
    | ByName(origName: string, ovrdName: string, replace: bool)
    | InstByType(orig: Type, ovrd: Type, path: string)
    | InstByName(origName: string, ovrdName: string, path: string)
    | Late(late: Type)

  function Apply(s: State, c: Call): State {
    match c
    case ByType(orig, ovrd, replace) => SetByType(s, orig, ovrd, replace)
    case ByName(orig, ovrd, replace) => SetByName(s, orig, ovrd, replace)
    case InstByType(orig, ovrd, path) => SetInstByType(s, orig, ovrd, path)
    case InstByName(orig, ovrd, path) => SetInstByName(s, orig, ovrd, path)
    case Late(t) => Register(s, t)
  }

  /** The state after a sequence of calls, the last one last. */
  function Run(calls: seq<Call>): State {
    if calls == [] then EMPTY else Apply(Run(calls[..|calls| - 1]), calls[|calls| - 1])
  }

  /** Replace wins, else the first is kept; what can never match is not entered. */
  function Put(m: map<Key, Key>, orig: Key, ovrd: Key, replace: bool): map<Key, Key> {
    if IsType(orig) && (replace || orig !in m) then m[orig := ovrd] else m
  }

  /** An override of a name by itself is ignored. */
  function Meaning(m: map<Key, Key>, c: Call): map<Key, Key> {
    match c
    case ByType(orig, ovrd, replace) => Put(m, orig, ovrd, replace)
    case ByName(orig, ovrd, replace) => if orig == ovrd then m else Put(m, Named(orig), Named(ovrd), replace)
    case _ => m
  }

  function Fold(calls: seq<Call>): map<Key, Key> {
    if calls == [] then map[] else Meaning(Fold(calls[..|calls| - 1]), calls[|calls| - 1])
  }

  function Get(m: map<Key, Key>, k: Key): Option<Key> {
    if k in m then Some(m[k]) else None
  }

  /** The log answers every request as the map does. */
  ghost predicate Represents(s: State, m: map<Key, Key>) {
    forall k: Key | Askable(k) :: InForce(s, k) == Get(m, k)
  }

  // ----- Refinement

  /** Registration only fills in types, so it changes no answer. */
  lemma {:induction false} ResolveKeepsChoice(names: set<Name>, t: Type, log: seq<Override>, k: Key)
    requires AllKnown(names, log) && (t.Named? ==> t.name !in names) && Askable(k)
    ensures Chosen(With(names, t), ResolveAll(t, log), k) == Chosen(names, log, k)
    decreases |log|
  {
    if log != [] {
      ResolvedEntry(names, t, log[0].orig, log[0].ovrd, k);
      assert ResolveAll(t, log)[1..] == ResolveAll(t, log[1..]);
      ResolveKeepsChoice(names, t, log[1..], k);
    }
  }

  lemma {:induction false} ScanKeepsOthers(names: set<Name>, log: seq<Override>, orig: TypePair, ovrd: TypePair,
                                           replace: bool, byName: bool, k: Key)
    requires AllKnown(names, log) && Known(names, orig) && orig.ty == TypeOf(names, KeyOf(orig)) && Askable(k) && k != KeyOf(orig)
    ensures Chosen(names, Scan(names, log, orig.ty, orig.name, ovrd, replace, byName).1, k) == Chosen(names, log, k)
    decreases |log|
  {
    if log != [] {
      MatchIsSameKey(names, log[0].orig, KeyOf(orig));
      MatchIsSameKey(names, log[0].orig, k);
      MatchIsSameKey(names, orig, k);
      ScanKeepsOthers(names, log[1..], orig, ovrd, replace, byName, k);
    }
  }

  /** A replacement that found an entry is in force, whatever duplicates lie behind the point where the scan gave up. */
  lemma {:induction false} ScanReplaces(names: set<Name>, log: seq<Override>, orig: TypePair, ovrd: TypePair, byName: bool)
    requires AllKnown(names, log) && Known(names, orig) && orig.ty == TypeOf(names, KeyOf(orig))
    requires Scan(names, log, orig.ty, orig.name, ovrd, true, byName).0 == Replaced
    ensures Chosen(names, Scan(names, log, orig.ty, orig.name, ovrd, true, byName).1, KeyOf(orig)) == Some(KeyOf(ovrd))
    decreases |log|
  {
    MatchIsSameKey(names, log[0].orig, KeyOf(orig));
    MatchIsSameKey(names, orig, KeyOf(orig));
    if KeyOf(log[0].orig) != KeyOf(orig) || !IsType(KeyOf(orig)) {
      ScanReplaces(names, log[1..], orig, ovrd, byName);
    }
  }

  lemma {:induction false} ScanFinds(names: set<Name>, log: seq<Override>, orig: TypePair, ovrd: TypePair, replace: bool, byName: bool)
    requires AllKnown(names, log) && Known(names, orig) && orig.ty == TypeOf(names, KeyOf(orig))
    ensures var r := Scan(names, log, orig.ty, orig.name, ovrd, replace, byName);
            && (r.0 == Kept ==> !replace && Chosen(names, log, KeyOf(orig)).Some?)
            && (r.0 == Replaced ==> replace)
            && (r.0 != Replaced ==> r.1 == log)
    decreases |log|
  {
    if log != [] {
      MatchIsSameKey(names, log[0].orig, KeyOf(orig));
      ScanFinds(names, log[1..], orig, ovrd, replace, byName);
    }
  }

  /** A new entry in front answers for its key if it replaces, or if nothing older does. */
  lemma PushFront(names: set<Name>, o: Override, log: seq<Override>, k: Key)
    requires Known(names, o.orig) && Askable(k)
    ensures Chosen(names, [o] + log, k) ==
              if k == KeyOf(o.orig) && IsType(k) && (o.replace || Chosen(names, log, k).None?) then Some(KeyOf(o.ovrd))
              else Chosen(names, log, k)
  {
    MatchIsSameKey(names, o.orig, k);
    assert ([o] + log)[1..] == log;
  }

  /** A key that is no type is never matched. */
  lemma {:induction false} NothingChosen(names: set<Name>, log: seq<Override>, k: Key)
    requires AllKnown(names, log) && Askable(k) && !IsType(k)
    ensures Chosen(names, log, k) == None
    decreases |log|
  {
    if log != [] {
      MatchIsSameKey(names, log[0].orig, k);
      NothingChosen(names, log[1..], k);
    }
  }

  lemma RecordAnswers(s: State, orig: TypePair, ovrd: TypePair, replace: bool, byName: bool, k: Key)
    requires Valid(s) && Known(s.names, orig) && Known(s.names, ovrd) && orig.ty == TypeOf(s.names, KeyOf(orig)) && Askable(k)
    ensures InForce(Record(s, orig, ovrd, replace, byName), k) ==
              if k == KeyOf(orig) && IsType(k) && (replace || InForce(s, k).None?) then Some(KeyOf(ovrd)) else InForce(s, k)
  {
    var (found, log) := Scan(s.names, s.types, orig.ty, orig.name, ovrd, replace, byName);
    ScanFinds(s.names, s.types, orig, ovrd, replace, byName);
    PushFront(s.names, Override("", orig, ovrd, replace), log, k);
    if k != KeyOf(orig) {
      ScanKeepsOthers(s.names, s.types, orig, ovrd, replace, byName, k);
    } else if !IsType(k) {
      ScanKnown(s.names, s.types, orig, ovrd, replace, byName);
      NothingChosen(s.names, s.types, k);
      NothingChosen(s.names, log, k);
    } else if found == Replaced {
      ScanReplaces(s.names, s.types, orig, ovrd, byName);
    }
  }

  lemma RecordRefinesPut(s: State, orig: TypePair, ovrd: TypePair, replace: bool, byName: bool, m: map<Key, Key>)
    requires Valid(s) && Known(s.names, orig) && Known(s.names, ovrd) && orig.ty == TypeOf(s.names, KeyOf(orig)) && Represents(s, m)
    ensures Represents(Record(s, orig, ovrd, replace, byName), Put(m, KeyOf(orig), KeyOf(ovrd), replace))
  {
    var s' := Record(s, orig, ovrd, replace, byName);
    forall k: Key | Askable(k) ensures InForce(s', k) == Get(Put(m, KeyOf(orig), KeyOf(ovrd), replace), k) {
      assert InForce(s, k) == Get(m, k);
      RecordAnswers(s, orig, ovrd, replace, byName, k);
    }
  }

  lemma RegisterRefines(s: State, t: Type, m: map<Key, Key>)
    requires Valid(s) && Represents(s, m)
    ensures Represents(Register(s, t), m)
  {
    if !(t.Named? && t.name in s.names) {
      forall k: Key | Askable(k) ensures InForce(Register(s, t), k) == Get(m, k) {
        ResolveKeepsChoice(s.names, t, s.types, k);
        assert InForce(s, k) == Get(m, k);
      }
    }
  }

  lemma AddInstRefines(s: State, orig: TypePair, ovrd: TypePair, path: string, m: map<Key, Key>)
    requires Valid(s) && Known(s.names, orig) && Known(s.names, ovrd) && Represents(s, m)
    ensures Valid(AddInst(s, orig, ovrd, path)) && Represents(AddInst(s, orig, ovrd, path), m)
  {
    var s' := AddInst(s, orig, ovrd, path);
    forall k: Key | Askable(k) ensures InForce(s', k) == Get(m, k) {
      assert InForce(s, k) == Get(m, k);
    }
  }

  lemma ApplyRefines(s: State, c: Call, m: map<Key, Key>)
    requires Valid(s) && Represents(s, m)
    ensures Valid(Apply(s, c)) && Represents(Apply(s, c), Meaning(m, c))
  {
    match c {
      case ByType(orig, ovrd, replace) =>
        var s2 := RegisterBoth(s, orig, ovrd, m);
        RecordValid(s2, PairOf(orig), PairOf(ovrd), replace, false);
        RecordRefinesPut(s2, PairOf(orig), PairOf(ovrd), replace, false, m);
      case ByName(orig, ovrd, replace) =>
        RecordValid(s, PairNamed(s.names, orig), PairNamed(s.names, ovrd), replace, true);
        RecordRefinesPut(s, PairNamed(s.names, orig), PairNamed(s.names, ovrd), replace, true, m);
      case InstByType(orig, ovrd, path) =>
        var s2 := RegisterBoth(s, orig, ovrd, m);
        AddInstRefines(s2, PairOf(orig), PairOf(ovrd), path, m);
      case InstByName(orig, ovrd, path) =>
        AddInstRefines(s, PairNamed(s.names, orig), PairNamed(s.names, ovrd), path, m);
      case Late(t) =>
        RegisterValid(s, t);
        RegisterRefines(s, t, m);
    }
  }

  lemma RegisterBoth(s: State, a: Type, b: Type, m: map<Key, Key>) returns (s2: State)
    requires Valid(s) && Represents(s, m)
    ensures s2 == Register(Register(s, a), b) && Valid(s2) && Represents(s2, m)
    ensures Known(s2.names, PairOf(a)) && Known(s2.names, PairOf(b)) && TypeOf(s2.names, a) == Some(a)
  {
    s2 := Register(Register(s, a), b);
    RegisterValid(s, a);
    RegisterRefines(s, a, m);
    RegisterValid(Register(s, a), b);
    RegisterRefines(Register(s, a), b, m);
    PairsAreKnown(s2.names, a, "");
    PairsAreKnown(s2.names, b, "");
  }

  /**
   * Type overrides: after any sequence of calls and late registrations, the newest-first
   * scan answers every request as the map obtained by folding the calls oldest first.
   */
  lemma {:induction false} LogRefinesMap(calls: seq<Call>)
    ensures Valid(Run(calls)) && Represents(Run(calls), Fold(calls))
    decreases |calls|
  {
    if calls != [] {
      var before := calls[..|calls| - 1];
      LogRefinesMap(before);
      ApplyRefines(Run(before), calls[|calls| - 1], Fold(before));
    }
  }

  /** The scan's early end does leave duplicates: here "a" has two entries. */
  lemma DuplicatesHappen()
    ensures var s := SetByName(SetByName(SetByType(EMPTY, Named("a"), Named("b"), true), "u", "b", true), "a", "c", true);
            |s.types| == 3 && s.types[0].orig.name == s.types[2].orig.name == "a" && InForce(s, Named("a")) == Some(Named("c"))
  {
    var s1 := SetByType(EMPTY, Named("a"), Named("b"), true);
    assert s1.types == [Override("", PairOf(Named("a")), PairOf(Named("b")), true)];
    var s2 := SetByName(s1, "u", "b", true);
    assert s2.types == [Override("", TypePair(None, "u"), PairOf(Named("b")), true)] + s1.types;
  }
}
