/**
 * Extended regular expressions without alternation, groups, bracket expressions and
 * interval expressions, read as IEEE Std 1003.1 Base Definitions, section 9.4, does.
 */
module Ere {
  import opened Options

  datatype Atom = Any | Literal(c: char)

  datatype Count = Once | Many | AtLeastOnce | AtMostOnce

  datatype Node = Begin | End | Piece(atom: Atom, count: Count)

  /** The characters that do not stand for themselves outside a bracket expression. */
  predicate Special(c: char) {
    c == '.' || c == '[' || c == '\\' || c == '(' || c == ')' || c == '*' || c == '+' || c == '?' || c == '{'
    || c == '|' || c == '^' || c == '$'
  }

  function ParseAtom(re: string): (r: Option<(Atom, string)>)
    requires re != ""
    ensures r.Some? ==> |r.value.1| < |re|
  {
    if re[0] == '.' then Some((Any, re[1..]))
    else if re[0] == '\\' && |re| > 1 then Some((Literal(re[1]), re[2..]))
    else if Special(re[0]) then None
    else Some((Literal(re[0]), re[1..]))
  }

  /** A duplication symbol after an atom. */
  function ParseCount(re: string): (r: (Count, string))
    ensures |r.1| <= |re|
  {
    if re == "" then (Once, re)
    else if re[0] == '*' then (Many, re[1..])
    else if re[0] == '+' then (AtLeastOnce, re[1..])
    else if re[0] == '?' then (AtMostOnce, re[1..])
    else (Once, re)
  }

  function Then(node: Node, rest: Option<seq<Node>>): Option<seq<Node>> {
    if rest.None? then None else Some([node] + rest.value)
  }

  /** None for an expression outside the fragment, or one the standard leaves undefined. */
  function Parse(re: string): Option<seq<Node>>
    decreases |re|
  {
    if re == "" then Some([])
    else if re[0] == '^' then Then(Begin, Parse(re[1..]))
    else if re[0] == '$' then Then(End, Parse(re[1..]))
    else
      match ParseAtom(re)
      case None => None
      case Some((atom, rest)) =>
        var (count, rest) := ParseCount(rest);
        Then(Piece(atom, count), Parse(rest))
  }

  predicate Fits(atom: Atom, c: char) {
    atom.Any? || atom.c == c
  }

  /** text[i..k] is as many characters as the count allows, all fitting the atom. */
  predicate Repeats(p: Node, text: string, i: nat, k: nat)
    requires p.Piece?
  {
    && i <= k <= |text|
    && (match p.count case Once => k == i + 1 case Many => true case AtLeastOnce => i < k case AtMostOnce => k <= i + 1)
    && forall j | i <= j < k :: Fits(p.atom, text[j])
  }

  /** The nodes match exactly text[i..j]. */
  ghost predicate Denotes(nodes: seq<Node>, text: string, i: nat, j: nat)
    decreases |nodes|
  {
    if nodes == [] then i == j
    else match nodes[0]
      case Begin => i == 0 && Denotes(nodes[1..], text, i, j)
      case End => i == |text| && Denotes(nodes[1..], text, i, j)
      case Piece(_, _) => exists k: nat :: Repeats(nodes[0], text, i, k) && Denotes(nodes[1..], text, k, j)
  }

  /** Some part of the text matches. */
  ghost predicate Accepts(re: string, text: string) {
    Parse(re).Some? && exists i: nat, j: nat :: i <= j <= |text| && Denotes(Parse(re).value, text, i, j)
  }
}
