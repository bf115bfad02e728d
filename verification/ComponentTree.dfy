/** The component tree: creating components, full names and lookup. */
module ComponentTree {
  import opened Options

  // ----- Names

  /** A leaf name without dots and wildcards. */
  predicate GoodName(n: string) {
    n != "" && forall i | 0 <= i < |n| :: n[i] != '.' && n[i] != '*' && n[i] != '?'
  }

  /** A string that lookup rejects: two dots in a row or a wildcard. */
  predicate Malformed(s: string) {
    exists i | 0 <= i < |s| :: MalformedAt(s, i)
  }

  predicate MalformedAt(s: string, i: nat)
    requires i < |s|
  {
    (i + 1 < |s| && s[i] == '.' && s[i + 1] == '.') || s[i] == '*' || s[i] == '?'
  }

  /** The position of the first dot, or the length. */
  function FirstDot(s: string): (i: nat)
    ensures i <= |s| && (i < |s| ==> s[i] == '.') && forall j | 0 <= j < i :: s[j] != '.'
  {
    if s == "" || s[0] == '.' then 0 else 1 + FirstDot(s[1..])
  }

  function Leaf(s: string): string {
    s[..FirstDot(s)]
  }

  function Rest(s: string): string {
    if FirstDot(s) == |s| then "" else s[FirstDot(s) + 1..]
  }

  function Dots(s: string): nat {
    if s == "" then 0 else Dots(s[..|s| - 1]) + if s[|s| - 1] == '.' then 1 else 0
  }

  /** What get_depth makes of a full name: one more than its dots, 0 for the root's empty one. */
  function DepthOf(fullName: string): nat {
    if fullName == "" then 0 else 1 + Dots(fullName)
  }

  lemma FirstDotIs(s: string, i: nat)
    requires i <= |s| && (i < |s| ==> s[i] == '.') && forall j | 0 <= j < i :: s[j] != '.'
    ensures FirstDot(s) == i
  {
  }

  /** The leaf is what comes before the first dot, the rest what comes after it. */
  lemma NameParts(s: string)
    ensures '.' !in Leaf(s)
    ensures if '.' in s then s == Leaf(s) + "." + Rest(s) else s == Leaf(s) && Rest(s) == ""
  {
    var i := FirstDot(s);
    if i < |s| {
      assert s == s[..i] + [s[i]] + s[i + 1..];
    }
  }

  lemma ExtractTail(p: string, t: string)
    requires t != "" && t[0] == '.'
    ensures Leaf(p + t) == Leaf(p)
    ensures Rest(p + t) == if FirstDot(p) == |p| then t[1..] else Rest(p) + t
  {
    var i := FirstDotOf(p);
    FirstDotJoined(p, t, i);
    JoinedSlices(p, t, i);
    ExtractAt(p, i);
    ExtractAt(p + t, i);
  }

  lemma FirstDotOf(s: string) returns (i: nat)
    ensures i <= |s| && i == FirstDot(s)
  {
    i := FirstDot(s);
  }

  lemma ExtractAt(s: string, i: nat)
    requires FirstDot(s) == i <= |s|
    ensures Leaf(s) == s[..i] && Rest(s) == if i == |s| then "" else s[i + 1..]
  {
  }

  /** The first segment of p + "." + n is that of p, and n goes to the rest. */
  lemma ExtractJoined(p: string, n: string)
    ensures Leaf(p + "." + n) == Leaf(p)
    ensures Rest(p + "." + n) == if FirstDot(p) == |p| then n else Rest(p) + "." + n
  {
    JoinDot(p, n);
    JoinDot(Rest(p), n);
    ExtractTail(p, "." + n);
  }

  lemma JoinDot(p: string, n: string)
    ensures p + "." + n == p + ("." + n) && ("." + n)[1..] == n
  {
  }

  lemma FirstDotJoined(p: string, t: string, i: nat)
    requires t != "" && t[0] == '.' && i == FirstDot(p)
    ensures FirstDot(p + t) == i
  {
    FirstDotIs(p + t, i);
  }

  lemma JoinedSlices(p: string, t: string, i: nat)
    requires i <= |p| && t != ""
    ensures (p + t)[..i] == p[..i]
    ensures (p + t)[i + 1..] == if i == |p| then t[1..] else p[i + 1..] + t
  {
  }

  lemma GoodNameHasNoDot(n: string)
    requires GoodName(n)
    ensures FirstDot(n) == |n| && Leaf(n) == n && Rest(n) == "" && !Malformed(n) && Dots(n) == 0
  {
    FirstDotIs(n, |n|);
    DotsCount(n);
  }

  lemma {:induction false} DotsJoin(a: string, b: string)
    ensures Dots(a + b) == Dots(a) + Dots(b)
    decreases |b|
  {
    if b == "" {
      assert a + b == a;
    } else {
      assert (a + b)[..|a + b| - 1] == a + b[..|b| - 1];
      DotsJoin(a, b[..|b| - 1]);
    }
  }

  /** A path of good names: no dot at either end, nothing malformed. */
  predicate GoodPath(p: string) {
    p != "" && p[0] != '.' && p[|p| - 1] != '.' && !Malformed(p)
  }

  lemma GoodPathGrows(p: string, n: string)
    requires GoodPath(p) && GoodName(n)
    ensures GoodPath(p + "." + n)
  {
    var s := p + "." + n;
    forall i | 0 <= i < |s| ensures !MalformedAt(s, i) {
      if i < |p| {
        assert !MalformedAt(p, i);
      }
    }
  }

  lemma GoodPathRest(p: string)
    requires GoodPath(p)
    ensures FirstDot(p) > 0 && (FirstDot(p) < |p| ==> GoodPath(Rest(p)) && |Rest(p)| < |p|)
  {
    var i := FirstDot(p);
    if i < |p| {
      assert !MalformedAt(p, i);
      forall j | 0 <= j < |Rest(p)| ensures !MalformedAt(Rest(p), j) {
        assert !MalformedAt(p, i + 1 + j);
      }
    }
  }

  /** Paths that agree agree in their last name and in what is before it. */
  lemma LastName(p: string, n: string, p': string, n': string)
    requires '.' !in n && '.' !in n' && p + "." + n == p' + "." + n'
    ensures p == p' && n == n'
  {
    var s := p + "." + n;
    assert s[..|p|] == p && s[|p|] == '.' && s[|p| + 1..] == n;
    assert s == p' + "." + n';
    assert s[..|p'|] == p' && s[|p'|] == '.' && s[|p'| + 1..] == n';
    assert forall k | 0 <= k < |n| :: n[k] == s[|p| + 1 + k];
    assert forall k | 0 <= k < |n'| :: n'[k] == s[|p'| + 1 + k];
    assert |p| == |p'|;
  }

  lemma {:induction false} DotsCount(s: string)
    ensures Dots(s) > 0 <==> '.' in s
    decreases |s|
  {
    if s != "" {
      DotsCount(s[..|s| - 1]);
      assert s == s[..|s| - 1] + [s[|s| - 1]];
    }
  }

  function Decimal(n: nat): (s: string)
    ensures s != ""
  {
    if n < 10 then [('0' as int + n) as char] else Decimal(n / 10) + [('0' as int + n % 10) as char]
  }

  /** The number that a string of decimal digits denotes. */
  function Denoted(s: string): int {
    if s == "" then 0 else 10 * Denoted(s[..|s| - 1]) + (s[|s| - 1] as int - '0' as int)
  }

  /** An instance count is written in decimal, without leading zeros. */
  lemma {:induction false} DecimalDenotes(n: nat)
    ensures Denoted(Decimal(n)) == n
    ensures forall i | 0 <= i < |Decimal(n)| :: '0' <= Decimal(n)[i] <= '9'
    ensures n > 0 ==> Decimal(n)[0] != '0'
    decreases n
  {
    var s := Decimal(n);
    if n >= 10 {
      DecimalDenotes(n / 10);
      assert s[..|s| - 1] == Decimal(n / 10);
    } else {
      assert s[..|s| - 1] == "";
    }
  }

  /** What lookup takes for a leaf of a string that it does not reject has no dot and no wildcard. */
  lemma LeafIsGood(s: string)
    requires !Malformed(s)
    ensures Leaf(s) != "" ==> GoodName(Leaf(s))
    ensures Leaf(Rest(s)) != "" ==> GoodName(Leaf(Rest(s)))
  {
    forall i | 0 <= i < |s| ensures s[i] != '*' && s[i] != '?' {
      assert !MalformedAt(s, i);
    }
  }

  class Component {
    const id: nat
    var name: string
    var fullName: string
    var parent: Component?
    var children: map<string, Component>

    constructor (id: nat, name: string, fullName: string, parent: Component?)
      ensures this.id == id && this.name == name && this.fullName == fullName && this.parent == parent && children == map[]
    {
      this.id, this.name, this.fullName, this.parent, children := id, name, fullName, parent, map[];
    }
  }

  class Tree {
    /** The components in the order of their creation, the root first. */
    var all: seq<Component>

    ghost predicate Valid()
      reads this, all
    {
      |all| > 0 && (forall i | 0 <= i < |all| :: all[i].id == i) && IsRoot() && (forall i | 0 < i < |all| :: Placed(i))
      && (forall i, n | 0 <= i < |all| && n in all[i].children :: ChildOf(i, n))
    }

    ghost predicate Has(c: Component)
      reads this, all
    {
      c.id < |all| && all[c.id] == c
    }

    ghost predicate IsRoot()
      requires |all| > 0
      reads this, all
    {
      all[0].name == "" && all[0].fullName == "" && all[0].parent == null
    }

    /** A component below the root has a name, is its parent's child, and is named after its parent. */
    ghost predicate Placed(i: nat)
      requires 0 < i < |all|
      reads this, all
    {
      var c := all[i];
      c.name != "" && c.parent != null && Has(c.parent) && c.parent.id < i
      && c.name in c.parent.children && c.parent.children[c.name] == c
      && c.fullName == if c.parent == all[0] then c.name else c.parent.fullName + "." + c.name
    }

    ghost predicate ChildOf(i: nat, n: string)
      requires i < |all| && n in all[i].children
      reads this, all
    {
      var c := all[i].children[n];
      Has(c) && c.id > 0 && c.name == n && c.parent == all[i]
    }

    constructor ()
      ensures Valid() && |all| == 1 && fresh(all[0])
    {
      var root := new Component(0, "", "", null);
      all := [root];
    }

    /**
     * new: an empty name is replaced by one made of the instance count; a name that the
     * parent already has is an error and changes nothing.
     */
    method New(given: string, parent: Component, count: nat) returns (r: Option<Component>)
      requires Valid() && Has(parent)
      modifies this, parent
      ensures Valid()
      ensures var name := if given == "" then "COMP_" + Decimal(count) else given;
              if name in old(parent.children) then r == None && all == old(all) && parent.children == old(parent.children)
              else && r.Some? && fresh(r.value) && all == old(all) + [r.value] && r.value.name == name && r.value.children == map[]
                   && r.value.parent == parent && parent.children == old(parent.children)[name := r.value]
                   && r.value.fullName == if parent == all[0] then name else parent.fullName + "." + name
      ensures parent.name == old(parent.name) && parent.fullName == old(parent.fullName) && parent.parent == old(parent.parent)
    {
      var name := given;
      if name == "" {
        name := "COMP_" + Decimal(count);
      }
      if name in parent.children { return None; }
      var fullName := if parent == all[0] then name else parent.fullName + "." + name;
      var c := new Component(|all|, name, fullName, parent);
      parent.children := parent.children[name := c];
      all := all + [c];
      r := Some(c);
      StaysValid(parent, c);
    }

    /** Linking a new component keeps the tree valid. */
    twostate lemma StaysValid(parent: Component, new c: Component)
      requires old(Valid()) && old(Has(parent)) && fresh(c) && c.name != "" && c.name !in old(parent.children)
      requires all == old(all) + [c] && c.id == |old(all)| && c.parent == parent && c.children == map[]
      requires c.fullName == if parent == all[0] then c.name else parent.fullName + "." + c.name
      requires unchanged(old(all)`name, old(all)`fullName, old(all)`parent)
      requires parent.children == old(parent.children)[c.name := c]
      requires forall d | d in old(all) && d != parent :: d.children == old(d.children)
      ensures Valid()
    {
      forall i | 0 < i < |all| ensures Placed(i) {
        if i < |all| - 1 {
          assert old(Placed(i)) && old(all[i]) == all[i];
        }
      }
      forall i, n | 0 <= i < |all| && n in all[i].children ensures ChildOf(i, n) {
        if i < |all| - 1 && all[i].children[n] != c {
          assert old(ChildOf(i, n));
        }
      }
    }

    // ----- Good names

    /** The component's name and those of all components above it have no dot and no wildcard. */
    ghost predicate GoodChain(i: nat)
      requires Valid() && i < |all|
      reads this, all
      decreases i
    {
      i == 0 || (assert Placed(i); GoodName(all[i].name) && GoodChain(all[i].parent.id))
    }

    lemma {:induction false} FullNameIsPath(i: nat)
      requires Valid() && 0 < i < |all| && GoodChain(i)
      ensures GoodPath(all[i].fullName)
      decreases i
    {
      assert Placed(i);
      var c := all[i];
      GoodNameHasNoDot(c.name);
      if c.parent != all[0] {
        assert c.parent == all[c.parent.id];
        FullNameIsPath(c.parent.id);
        GoodPathGrows(c.parent.fullName, c.name);
      }
    }

    // ----- Lookup

    /** What lookup finds from a component; a name that starts with a dot is looked up from the root. */
    ghost function Find(c: Component, name: string): (r: Component?)
      requires Valid() && Has(c)
      reads this, all
      ensures r != null ==> Has(r)
      decreases |name|
    {
      if Malformed(name) then null
      else if Leaf(name) == "" then Descend(all[0], Leaf(Rest(name)), Rest(Rest(name)), |name|)
      else Descend(c, Leaf(name), Rest(name), |name|)
    }

    ghost function Descend(c: Component, leaf: string, rest: string, bound: nat): (r: Component?)
      requires Valid() && Has(c) && (rest != "" ==> |rest| < bound)
      reads this, all
      ensures r != null ==> Has(r)
      decreases bound, 0
    {
      if leaf !in c.children then null
      else
        assert ChildOf(c.id, leaf);
        if rest != "" then Find(c.children[leaf], rest) else c.children[leaf]
    }

    /** A string with a wildcard or with two dots in a row finds nothing. */
    lemma RejectsMalformed(c: Component, a: string, b: string, bad: string)
      requires Valid() && Has(c) && bad in {"*", "?", ".."}
      ensures Find(c, a + bad + b) == null
    {
      assert MalformedAt(a + bad + b, |a|);
    }

    /** Looking up p + "." + n goes on from what p finds to its child n. */
    lemma {:induction false} FindSnoc(c: Component, p: string, n: string)
      requires Valid() && Has(c) && GoodPath(p) && GoodName(n)
      ensures var d := Find(c, p);
              Find(c, p + "." + n) == if d == null || n !in d.children then null else d.children[n]
      decreases |p|
    {
      GoodPathGrows(p, n);
      GoodPathRest(p);
      ExtractJoined(p, n);
      if Leaf(p) in c.children {
        assert ChildOf(c.id, Leaf(p));
        var d := c.children[Leaf(p)];
        if Rest(p) == "" {
          FindGood(d, n);
        } else {
          FindSnoc(d, Rest(p), n);
        }
      }
    }

    lemma FindGood(c: Component, n: string)
      requires Valid() && Has(c) && GoodName(n)
      ensures Find(c, n) == if n in c.children then c.children[n] else null
    {
      GoodNameHasNoDot(n);
    }

    lemma {:induction false} GoodIsFound(i: nat)
      requires Valid() && 0 < i < |all| && GoodChain(i)
      ensures Find(all[0], all[i].fullName) == all[i]
      decreases i
    {
      assert Placed(i);
      var c := all[i];
      if c.parent == all[0] {
        FindGood(all[0], c.name);
      } else {
        GoodIsFound(c.parent.id);
        FullNameIsPath(c.parent.id);
        FindSnoc(all[0], c.parent.fullName, c.name);
      }
    }

    /** Whatever string is looked up, only components with good names are found. */
    lemma {:induction false} FoundIsGood(c: Component, name: string)
      requires Valid() && Has(c) && GoodChain(c.id) && Find(c, name) != null
      ensures GoodChain(Find(c, name).id)
      decreases |name|
    {
      LeafIsGood(name);
      var start, leaf, rest := c, Leaf(name), Rest(name);
      if leaf == "" {
        start, leaf, rest := all[0], Leaf(rest), Rest(rest);
      }
      assert ChildOf(start.id, leaf);
      var d := start.children[leaf];
      assert Placed(d.id) && GoodChain(d.id);
      if rest != "" { FoundIsGood(d, rest); }
    }

    /** Looking up a full name from the root gives the component iff no name of its chain has a dot or a wildcard. */
    lemma LookupInvertsFullName(i: nat)
      requires Valid() && 0 < i < |all|
      ensures Find(all[0], all[i].fullName) == all[i] <==> GoodChain(i)
    {
      if GoodChain(i) { GoodIsFound(i); }
      if Find(all[0], all[i].fullName) == all[i] { FoundIsGood(all[0], all[i].fullName); }
    }

    /** With a dot in front the lookup is from the root, wherever it starts. */
    lemma AbsoluteLookup(c: Component, i: nat)
      requires Valid() && Has(c) && 0 < i < |all| && GoodChain(i)
      ensures Find(c, "." + all[i].fullName) == all[i]
    {
      var p := all[i].fullName;
      FullNameIsPath(i);
      GoodIsFound(i);
      GoodPathRest(p);
      var s := "." + p;
      assert s[1..] == p && FirstDot(s) == 0 && Leaf(s) == "" && Rest(s) == p;
      forall k | 0 <= k < |s| ensures !MalformedAt(s, k) {
        if k > 0 {
          assert !MalformedAt(p, k - 1);
        }
      }
    }

    // ----- Depth

    /** The number of steps to the root. */
    ghost function Depth(i: nat): nat
      requires Valid() && i < |all|
      reads this, all
      decreases i
    {
      if i == 0 then 0 else
        assert Placed(i);
        1 + Depth(all[i].parent.id)
    }

    /** The dots inside the names of a component and those above it. */
    ghost function NameDots(i: nat): nat
      requires Valid() && i < |all|
      reads this, all
      decreases i
    {
      if i == 0 then 0 else
        assert Placed(i);
        NameDots(all[i].parent.id) + Dots(all[i].name)
    }

    /** One more than the dots in the full name is the depth and the dots that are parts of names. */
    lemma {:induction false} DepthCountsDots(i: nat)
      requires Valid() && 0 < i < |all|
      ensures all[i].fullName != "" && Dots(all[i].fullName) + 1 == Depth(i) + NameDots(i)
      ensures GoodChain(i) ==> NameDots(i) == 0
      decreases i
    {
      assert Placed(i);
      var c := all[i];
      if GoodName(c.name) { GoodNameHasNoDot(c.name); }
      if c.parent != all[0] {
        assert c.parent == all[c.parent.id];
        DepthCountsDots(c.parent.id);
        var p := c.parent.fullName;
        DotsJoin(p + ".", c.name);
        DotsJoin(p, ".");
        assert Dots(".") == 1;
      }
    }

    /** get_depth is right iff no name of the chain has a dot. */
    lemma DepthIsRight(i: nat)
      requires Valid() && i < |all|
      ensures DepthOf(all[i].fullName) == Depth(i) <==> NameDots(i) == 0
    {
      if i > 0 { DepthCountsDots(i); }
    }

    // ----- Full names are unique

    /** The full name of a component next to the root has no dot, and that of any other ends in a dot and its name. */
    lemma FullNameOf(i: nat)
      requires Valid() && 0 < i < |all| && NameDots(i) == 0
      ensures var c := all[i];
              && Placed(i) && c.fullName != "" && '.' !in c.name && all[c.parent.id] == c.parent && NameDots(c.parent.id) == 0
              && if c.parent == all[0] then '.' !in c.fullName
                 else '.' in c.fullName && c.fullName == c.parent.fullName + "." + c.name
    {
      assert Placed(i);
      var c := all[i];
      DotsCount(c.name);
      if c.parent != all[0] {
        assert c.fullName[|c.parent.fullName|] == '.';
      }
    }

    /** Two components whose names, and those of the components above them, have no dots have different full names. */
    lemma {:induction false} FullNamesAreUnique(i: nat, j: nat)
      requires Valid() && i < |all| && j < |all| && NameDots(i) == 0 && NameDots(j) == 0
      requires all[i].fullName == all[j].fullName
      ensures i == j
      decreases i
    {
      if i > 0 { FullNameOf(i); }
      if j > 0 { FullNameOf(j); }
      if i > 0 && j > 0 {
        var c, d := all[i], all[j];
        if c.parent != all[0] {
          LastName(c.parent.fullName, c.name, d.parent.fullName, d.name);
          FullNamesAreUnique(c.parent.id, d.parent.id);
        }
      }
    }

    // ----- The methods

    /** m_extract_name. */
    static method ExtractName(name: string) returns (leaf: string, remainder: string)
      ensures leaf == Leaf(name) && remainder == Rest(name)
    {
      var i := 0;
      while i < |name| && name[i] != '.'
        invariant i <= |name| && forall j | 0 <= j < i :: name[j] != '.'
      {
        i := i + 1;
      }
      FirstDotIs(name, i);
      if i == |name| { return name, ""; }
      leaf, remainder := name[..i], name[i + 1..];
    }

    /** lookup. */
    method Lookup(c: Component, name: string) returns (r: Component?)
      requires Valid() && Has(c)
      ensures r == Find(c, name)
      decreases |name|
    {
      for i := 0 to |name|
        invariant forall k | 0 <= k < i :: !MalformedAt(name, k)
      {
        assert i + 1 < |name| ==> name[i..i + 2] == [name[i], name[i + 1]];
        if (i + 1 < |name| && name[i..i + 2] == "..") || name[i] == '*' || name[i] == '?' {
          assert MalformedAt(name, i);
          return null;
        }
      }
      var leaf, remainder := ExtractName(name);
      var comp := c;
      if leaf == "" {
        comp := all[0];
        leaf, remainder := ExtractName(remainder);
      }
      if leaf !in comp.children { return null; }
      assert ChildOf(comp.id, leaf);
      r := comp.children[leaf];
      if remainder != "" {
        r := Lookup(r, remainder);
      }
    }

    /** get_depth. */
    method GetDepth(c: Component) returns (depth: nat)
      requires Valid() && Has(c)
      ensures depth == DepthOf(c.fullName)
      ensures depth == Depth(c.id) <==> NameDots(c.id) == 0
    {
      DepthIsRight(c.id);
      if c.fullName == "" { return 0; }
      depth := 1;
      for i := 0 to |c.fullName|
        invariant depth == 1 + Dots(c.fullName[..i])
      {
        assert c.fullName[..i + 1][..i] == c.fullName[..i];
        if c.fullName[i] == '.' {
          depth := depth + 1;
        }
      }
      assert c.fullName[..|c.fullName|] == c.fullName;
    }
  }

  /** A component below the root of a new tree, and another next to it. */
  method TwoSiblings(first: string, second: string) returns (t: Tree)
    requires first != "" && second != "" && first != second
    ensures fresh(t) && fresh(t.all) && t.Valid() && |t.all| == 3
    ensures t.all[1].name == t.all[1].fullName == first && t.all[1].parent == t.all[0]
    ensures t.all[2].name == t.all[2].fullName == second && t.all[2].parent == t.all[0] && t.all[2].children == map[]
  {
    t := new Tree();
    var c := t.New(first, t.all[0], 1);
    var d := t.New(second, t.all[0], 2);
  }

  /**
   * Every name with a dot between two parts shares its full name with another component of
   * some tree: a.b below the root with b below a; where a and b are good, looking it up finds b.
   */
  method DottedNamesCollide(a: string, b: string) returns (t: Tree)
    requires a != "" && b != ""
    ensures t.Valid() && |t.all| == 4
    ensures t.all[1].name == a + "." + b && t.all[1].parent == t.all[0]
    ensures t.all[2].name == a && t.all[2].parent == t.all[0]
    ensures t.all[3].name == b && t.all[3].parent == t.all[2]
    ensures t.all[1].fullName == t.all[3].fullName
    ensures GoodName(a) && GoodName(b) ==> t.Find(t.all[0], t.all[1].fullName) == t.all[3]
  {
    t := TwoSiblings(a + "." + b, a);
    var c := t.New(b, t.all[2], 3);
    if GoodName(a) && GoodName(b) { InnerIsFound(t, a, b); }
  }

  lemma InnerIsFound(t: Tree, outer: string, inner: string)
    requires t.Valid() && |t.all| == 4 && GoodName(outer) && GoodName(inner)
    requires t.all[2].name == outer && t.all[2].parent == t.all[0]
    requires t.all[3].name == inner && t.all[3].parent == t.all[2]
    ensures t.Find(t.all[0], outer + "." + inner) == t.all[3]
  {
    assert t.Placed(2) && t.Placed(3) && t.GoodChain(2) && t.GoodChain(3);
    t.GoodIsFound(3);
  }
}
