/**
 * Glob matching: a recursive reference, and the two-loop matcher with one backtracking
 * point that is used when the foreign regular expression library is compiled out.
 */
module GlobMatcher {

  /** No character of a SystemVerilog string or of a C string is NUL. */
  predicate Text(s: string) {
    forall i | 0 <= i < |s| :: s[i] != '\0'
  }

  /**
   * The reference: '*' stands for any characters and '?' for exactly one; '+' stands for
   * one or more when `plus` is set and for itself otherwise.
   */
  predicate GlobMatch(plus: bool, g: string, s: string)
    decreases |g| + |s|
  {
    if g == "" then s == ""
    else if g[0] == '*' then GlobMatch(plus, g[1..], s) || (s != "" && GlobMatch(plus, g, s[1..]))
    else if g[0] == '+' && plus then s != "" && (GlobMatch(plus, g[1..], s[1..]) || GlobMatch(plus, g, s[1..]))
    else s != "" && (g[0] == '?' || g[0] == s[0]) && GlobMatch(plus, g[1..], s[1..])
  }

  /** What each character of a glob means. */
  lemma GlobMeans(plus: bool, c: char, g: string, s: string)
    ensures c == '*' ==> (GlobMatch(plus, [c] + g, s) <==> exists d | 0 <= d <= |s| :: GlobMatch(plus, g, s[d..]))
    ensures c == '?' ==> (GlobMatch(plus, [c] + g, s) <==> |s| >= 1 && GlobMatch(plus, g, s[1..]))
    ensures c == '+' && plus ==> (GlobMatch(plus, [c] + g, s) <==> exists d | 1 <= d <= |s| :: GlobMatch(plus, g, s[d..]))
    ensures c != '*' && c != '?' && !(c == '+' && plus) ==>
              (GlobMatch(plus, [c] + g, s) <==> |s| >= 1 && s[0] == c && GlobMatch(plus, g, s[1..]))
    ensures GlobMatch(plus, "", s) <==> s == ""
  {
    var e := [c] + g;
    assert e[1..] == g;
    if c == '*' {
      if GlobMatch(plus, e, s) {
        assert s[0..] == s;
        var d := StarMeans(plus, e, s, 0);
      }
      if d: nat :| d <= |s| && GlobMatch(plus, g, s[d..]) {
        StarAbsorbs(plus, e, s, 0, d);
        assert s[0..] == s;
      }
    } else if c == '+' && plus {
      PlusMeans(e, s);
    }
  }

  /** A plus matches exactly when the rest matches some proper suffix. */
  lemma {:induction false} PlusMeans(e: string, s: string)
    requires e != "" && e[0] == '+'
    ensures GlobMatch(true, e, s) <==> exists d | 1 <= d <= |s| :: GlobMatch(true, e[1..], s[d..])
    decreases |s|
  {
    if s != "" {
      PlusMeans(e, s[1..]);
      if d :| 1 <= d <= |s| && GlobMatch(true, e[1..], s[d..]) {
        if d > 1 { assert s[1..][d - 1..] == s[d..]; }
      }
      if d :| 1 <= d <= |s[1..]| && GlobMatch(true, e[1..], s[1..][d..]) {
        assert s[1..][d..] == s[d + 1..];
      }
    }
  }

  /** A glob without wildcards matches itself and nothing else. */
  lemma {:induction false} PlainMatch(g: string, s: string)
    requires '*' !in g && '?' !in g
    ensures GlobMatch(false, g, s) <==> g == s
    decreases |g|
  {
    if g != "" {
      assert g == [g[0]] + g[1..];
      if s != "" {
        assert s == [s[0]] + s[1..];
        PlainMatch(g[1..], s[1..]);
      }
    }
  }

  lemma {:induction false} StarMatchesAll(s: string)
    ensures GlobMatch(false, "*", s)
    decreases |s|
  {
    if s != "" {
      StarMatchesAll(s[1..]);
    } else {
      assert GlobMatch(false, "*"[1..], s);
    }
  }

  /** A literal '^' at the front is dropped. */
  function Strip(re: string): string {
    if re != "" && re[0] == '^' then re[1..] else re
  }

  /** What the matcher accepts; an empty expression accepts everything. */
  predicate Accepts(re: string, s: string) {
    re == "" || GlobMatch(false, Strip(re), s)
  }

  /** SystemVerilog's getc, 0 outside the string. */
  function Getc(s: string, i: nat): char {
    if i < |s| then s[i] else '\0'
  }

  // ----- Star-free blocks

  predicate Fits(g: string, i: nat, s: string, j: nat) {
    i < |g| && j < |s| && g[i] != '*' && (g[i] == '?' || g[i] == s[j])
  }

  predicate StarFree(g: string, a: nat, b: nat) {
    a <= b <= |g| && (a < b ==> g[b - 1] != '*' && StarFree(g, a, b - 1))
  }

  /** g[a..b] holds no star and fits s from c on, character by character. */
  predicate Block(g: string, a: nat, b: nat, s: string, c: nat) {
    a <= b <= |g| && c + b - a <= |s| && (a < b ==> Fits(g, b - 1, s, c + b - 1 - a) && Block(g, a, b - 1, s, c))
  }

  lemma {:induction false} BlockIsStarFree(g: string, a: nat, b: nat, s: string, c: nat)
    requires Block(g, a, b, s, c)
    ensures StarFree(g, a, b)
    decreases b
  {
    if a < b {
      BlockIsStarFree(g, a, b - 1, s, c);
    }
  }

  /** A star-free block consumes its own length, and a match continues behind it. */
  lemma {:induction false} BlockConsumes(g: string, a: nat, b: nat, s: string, c: nat)
    requires StarFree(g, a, b) && c <= |s|
    ensures GlobMatch(false, g[a..], s[c..]) <==>
              Block(g, a, b, s, c) && GlobMatch(false, g[b..], s[c + b - a..])
    decreases b
  {
    if a < b {
      BlockConsumes(g, a, b - 1, s, c);
      assert g[b - 1..][1..] == g[b..];
      var j := c + b - 1 - a;
      if j < |s| {
        assert s[j..][1..] == s[j + 1..];
      }
    }
  }

  /** A star absorbs any further characters in front of what it already matched. */
  lemma {:induction false} StarAbsorbs(plus: bool, g: string, s: string, c: nat, d: nat)
    requires g != "" && g[0] == '*' && c <= d <= |s| && GlobMatch(plus, g, s[d..])
    ensures GlobMatch(plus, g, s[c..])
    decreases d - c
  {
    if c < d {
      StarAbsorbs(plus, g, s, c + 1, d);
      assert s[c..][1..] == s[c + 1..];
    }
  }

  /** A star matches exactly when the rest matches some suffix. */
  lemma {:induction false} StarMeans(plus: bool, g: string, s: string, c: nat) returns (d: nat)
    requires g != "" && g[0] == '*' && c <= |s| && GlobMatch(plus, g, s[c..])
    ensures c <= d <= |s| && GlobMatch(plus, g[1..], s[d..])
    decreases |s| - c
  {
    if GlobMatch(plus, g[1..], s[c..]) {
      d := c;
    } else {
      assert s[c..][1..] == s[c + 1..];
      d := StarMeans(plus, g, s, c + 1);
    }
  }

  /** Behind a star and a fitting block, a second star makes the first choice of place as good as any. */
  lemma SecondStar(g: string, es: nat, e: nat, s: string, base: nat)
    requires 1 <= es <= e < |g| && g[es - 1] == '*' && g[e] == '*' && Block(g, es, e, s, base)
    ensures GlobMatch(false, g[es - 1..], s[base..]) <==> GlobMatch(false, g[e..], s[base + e - es..])
  {
    BlockIsStarFree(g, es, e, s, base);
    assert g[es - 1..][1..] == g[es..];
    if GlobMatch(false, g[es - 1..], s[base..]) {
      var d := StarMeans(false, g[es - 1..], s, base);
      BlockConsumes(g, es, e, s, d);
      StarAbsorbs(false, g[e..], s, base + e - es, d + e - es);
    }
    if GlobMatch(false, g[e..], s[base + e - es..]) {
      BlockConsumes(g, es, e, s, base);
    }
  }

  /** A block that does not go on moves the star's choice by one. */
  lemma Backtrack(g: string, es: nat, e: nat, s: string, base: nat)
    requires 1 <= es <= e <= |g| && g[es - 1] == '*' && Block(g, es, e, s, base) && base + e - es < |s|
    requires e == |g| || (g[e] != '*' && !Fits(g, e, s, base + e - es))
    ensures GlobMatch(false, g[es - 1..], s[base..]) <==> GlobMatch(false, g[es - 1..], s[base + 1..])
  {
    BlockIsStarFree(g, es, e, s, base);
    BlockConsumes(g, es, e, s, base);
    assert !GlobMatch(false, g[es..], s[base..]);
    assert g[es - 1..][1..] == g[es..] && s[base..][1..] == s[base + 1..];
  }

  /** When the text ends with the block, what follows the block has to match nothing. */
  lemma TextEnds(g: string, es: nat, e: nat, s: string, base: nat)
    requires 1 <= es <= e <= |g| && g[es - 1] == '*' && Block(g, es, e, s, base) && base + e - es == |s|
    ensures GlobMatch(false, g[es - 1..], s[base..]) <==> GlobMatch(false, g[e..], "")
  {
    BlockIsStarFree(g, es, e, s, base);
    assert s[|s|..] == "";
    assert g[es - 1..][1..] == g[es..];
    if GlobMatch(false, g[es - 1..], s[base..]) {
      var d := StarMeans(false, g[es - 1..], s, base);
      BlockConsumes(g, es, e, s, d);
    }
    if GlobMatch(false, g[e..], "") {
      BlockConsumes(g, es, e, s, base);
    }
  }

  // ----- The matcher's state

  /** What is left of the expression at i matches what is left of the text at j. */
  predicate From(re: string, i: nat, str: string, j: nat)
    requires i <= |re| && j <= |str|
  {
    GlobMatch(false, re[i..], str[j..])
  }

  lemma PlainStep(re: string, e: nat, str: string, s: nat)
    requires e <= |re| && s < |str| && Text(str) && Getc(re, e) != '*'
    ensures Fits(re, e, str, s) <==> Getc(re, e) == str[s] || Getc(re, e) == '?'
    ensures From(re, e, str, s) <==> Fits(re, e, str, s) && From(re, e + 1, str, s + 1)
  {
    if e < |re| {
      assert re[e..][1..] == re[e + 1..] && str[s..][1..] == str[s + 1..];
    }
  }

  /** Behind the star in front of es the block up to e fits, and that star still decides the outcome. */
  predicate Behind(goal: bool, re: string, e: nat, str: string, s: nat, es: nat, ss: nat) {
    && 0 < es <= e <= |re| && 0 < ss <= |str| + 1 && re[es - 1] == '*' && s == ss - 1 + e - es
    && Block(re, es, e, str, ss - 1) && goal == From(re, es - 1, str, ss - 1)
  }

  /** Before the first star was met, or behind one. */
  predicate Searching(goal: bool, re: string, e: nat, str: string, s: nat, es: nat, ss: nat) {
    && e <= |re| && s <= |str|
    && if es == 0 then ss == 0 && (s == |str| || Getc(re, e) == '*') && goal == From(re, e, str, s)
       else Behind(goal, re, e, str, s, es, ss)
  }

  lemma StarStep(goal: bool, re: string, e: nat, str: string, s: nat, es: nat, ss: nat)
    requires Searching(goal, re, e, str, s, es, ss) && s < |str| && Getc(re, e) == '*' && Text(re)
    ensures e + 1 == |re| ==> goal
    ensures Searching(goal, re, e + 1, str, s, e + 1, s + 1) && ss <= s + 1
  {
    if es > 0 {
      SecondStar(re, es, e, str, ss - 1);
    }
    if e + 1 == |re| {
      assert re[e..] == "*" && str[|str|..] == "" && GlobMatch(false, "*", "");
      StarAbsorbs(false, re[e..], str, s, |str|);
    }
  }

  lemma FitStep(goal: bool, re: string, e: nat, str: string, s: nat, es: nat, ss: nat)
    requires Searching(goal, re, e, str, s, es, ss) && es > 0 && Fits(re, e, str, s)
    ensures Searching(goal, re, e + 1, str, s + 1, es, ss)
  {
  }

  lemma BacktrackStep(goal: bool, re: string, e: nat, str: string, s: nat, es: nat, ss: nat)
    requires Searching(goal, re, e, str, s, es, ss) && s < |str| && Getc(re, e) != '*' && !Fits(re, e, str, s)
    ensures Searching(goal, re, es, str, ss, es, ss + 1)
  {
    Backtrack(re, es, e, str, ss - 1);
  }

  lemma SearchEnds(goal: bool, re: string, e: nat, str: string, es: nat, ss: nat)
    requires Searching(goal, re, e, str, |str|, es, ss)
    ensures goal == GlobMatch(false, re[e..], "")
  {
    assert str[|str|..] == "";
    if es > 0 {
      TextEnds(re, es, e, str, ss - 1);
    }
  }

  /** Against the empty text only stars are left to skip. */
  method SkipStars(re: string, from: nat) returns (e: nat)
    requires from <= |re|
    ensures from <= e <= |re| && (e == |re| <==> GlobMatch(false, re[from..], ""))
  {
    e := from;
    while e < |re| && Getc(re, e) == '*'
      invariant from <= e <= |re| && GlobMatch(false, re[from..], "") == GlobMatch(false, re[e..], "")
    {
      assert re[e..][1..] == re[e + 1..];
      e := e + 1;
    }
  }

  /** The first loop: up to the first star every character has to fit. */
  method MatchPrefix(re: string, str: string) returns (ok: bool, e: nat, s: nat)
    requires Text(str)
    ensures !ok ==> !From(re, 0, str, 0)
    ensures ok ==> Searching(From(re, 0, str, 0), re, e, str, s, 0, 0)
  {
    e, s := 0, 0;
    while s != |str| && Getc(re, e) != '*'
      invariant e == s <= |str| && e <= |re| && From(re, 0, str, 0) == From(re, e, str, s)
      decreases |str| - s
    {
      PlainStep(re, e, str, s);
      if Getc(re, e) != str[s] && Getc(re, e) != '?' { return false, e, s; }
      e, s := e + 1, s + 1;
    }
    ok := true;
  }

  /** uvm_re_match without the foreign library: 0 for a match, 1 otherwise. */
  method ReMatch(expr: string, str: string) returns (r: int)
    requires Text(expr) && Text(str)
    ensures r == 0 || r == 1
    ensures r == 0 <==> Accepts(expr, str)
  {
    var re := expr;
    if |re| == 0 { return 0; }
    if re[0] == '^' {
      re := re[1..];
    }
    ghost var goal := From(re, 0, str, 0);
    assert goal == Accepts(expr, str) by {
      assert re[0..] == Strip(expr) && str[0..] == str;
    }
    var ok: bool, e: nat, s: nat := MatchPrefix(re, str);
    if !ok { return 1; }
    var es: nat, ss: nat := 0, 0;
    while s != |str|
      invariant Searching(goal, re, e, str, s, es, ss)
      decreases |str| + 1 - ss, |re| - es, |re| - e
    {
      if Getc(re, e) == '*' {
        StarStep(goal, re, e, str, s, es, ss);
        e := e + 1;
        if e == |re| { return 0; }
        es, ss := e, s + 1;
      } else {
        PlainStep(re, e, str, s);
        if Getc(re, e) == str[s] || Getc(re, e) == '?' {
          assert Fits(re, e, str, s);
          FitStep(goal, re, e, str, s, es, ss);
          e, s := e + 1, s + 1;
        } else {
          assert !Fits(re, e, str, s);
          BacktrackStep(goal, re, e, str, s, es, ss);
          e := es;
          s := ss;
          ss := ss + 1;
        }
      }
    }
    SearchEnds(goal, re, e, str, es, ss);
    e := SkipStars(re, e);
    r := if e == |re| then 0 else 1;
  }
}
