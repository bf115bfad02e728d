/** Translating a glob to a regular expression. */
module Deglob {
  import opened Options
  import opened Ere
  import GlobMatcher
  import opened Sequences

  const MAX_LENGTH: nat := 2048

  // ----- The translation

  /** Nothing to match: no characters, or a lone bracket. */
  predicate Trivial(glob: string) {
    glob == "" || glob == "/"
  }

  /** Already a regular expression. */
  predicate Bracketed(glob: string) {
    |glob| >= 2 && glob[0] == '/' && glob[|glob| - 1] == '/'
  }

  predicate Wild(c: char) {
    c == '*' || c == '+'
  }

  predicate Escaped(c: char) {
    c == '.' || c == '[' || c == ']' || c == '(' || c == ')'
  }

  function ExpandChar(c: char): string {
    if Wild(c) then ['.', c] else if Escaped(c) then ['\\', c] else if c == '?' then "." else [c]
  }

  function Expand(glob: string): string {
    if glob == "" then "" else ExpandChar(glob[0]) + Expand(glob[1..])
  }

  /** What a character adds to the tracked length, which starts as the glob's. */
  function Charge(c: char): nat {
    if Wild(c) || Escaped(c) then 2 else 0
  }

  function Charged(glob: string): nat {
    if glob == "" then 0 else Charge(glob[0]) + Charged(glob[1..])
  }

  function Opening(glob: string): string {
    if glob != "" && glob[0] == '^' then "" else "^"
  }

  function Closing(glob: string): string {
    if glob != "" && glob[|glob| - 1] == '$' then "" else "$"
  }

  function Bracket(brackets: bool): string {
    if brackets then "/" else ""
  }

  /** The tracked length: an upper bound on the buffer in use, with the final NUL. */
  function Tracked(glob: string, brackets: bool): nat {
    |glob| + Charged(glob) + |Opening(glob)| + |Closing(glob)| + (if brackets then 2 else 0) + 1
  }

  /** The regular expression, or None where the function reports that the limit is exceeded. */
  function Deglobbed(glob: string, brackets: bool): Option<string> {
    if Trivial(glob) then Some(if brackets then "/^$/" else "^$")
    else if Bracketed(glob) then
      if |glob| > MAX_LENGTH then None
      else Some(if brackets then glob else glob[1..|glob| - 1])
    else if Tracked(glob, brackets) > MAX_LENGTH then None
    else Some(Bracket(brackets) + Opening(glob) + Expand(glob) + Closing(glob) + Bracket(brackets))
  }

  // ----- Meaning

  /** No character outside the glob alphabet. */
  predicate Plain(g: string) {
    forall i | 0 <= i < |g| :: Ordinary(g[i])
  }

  predicate Ordinary(c: char) {
    c != '^' && c != '$' && c != '\\' && c != '{' && c != '}' && c != '|'
  }

  function NodeOf(c: char): Node {
    if c == '*' then Piece(Any, Many)
    else if c == '+' then Piece(Any, AtLeastOnce)
    else if c == '?' then Piece(Any, Once)
    else Piece(Literal(c), Once)
  }

  function Nodes(g: string): seq<Node> {
    if g == "" then [End] else [NodeOf(g[0])] + Nodes(g[1..])
  }

  lemma ParseExpandedChar(c: char, tail: string)
    requires Ordinary(c) && tail != "" && !(tail[0] == '*' || tail[0] == '+' || tail[0] == '?')
    ensures Parse(ExpandChar(c) + tail) == Then(NodeOf(c), Parse(tail))
  {
    var re := ExpandChar(c) + tail;
    if |ExpandChar(c)| == 1 {
      assert re[1..] == tail;
    } else {
      assert re[2..] == tail && re[1..] == [c] + tail && (Wild(c) ==> re[1..][1..] == tail);
    }
  }

  /** No expansion starts with a duplication symbol, so what stands before it is left alone. */
  lemma {:induction false} ParseExpanded(g: string)
    requires Plain(g)
    ensures Parse(Expand(g) + "$") == Some(Nodes(g))
  {
    if g == "" {
      assert "" + "$" == "$" && "$"[1..] == "";
      assert Parse("") == Some([]) && [End] + [] == [End];
    } else {
      ParseExpanded(g[1..]);
      var tail := Expand(g[1..]) + "$";
      assert Expand(g) + "$" == ExpandChar(g[0]) + tail;
      if g[1..] != "" {
        assert tail[0] == ExpandChar(g[1])[0];
      }
      ParseExpandedChar(g[0], tail);
    }
  }

  /** '+' matches exactly when the rest matches some proper suffix. */
  lemma {:induction false} PlusMeans(g: string, s: string, c: nat) returns (d: nat)
    requires g != "" && g[0] == '+' && c <= |s| && GlobMatcher.GlobMatch(true, g, s[c..])
    ensures c < d <= |s| && GlobMatcher.GlobMatch(true, g[1..], s[d..])
    decreases |s| - c
  {
    assert s[c..][1..] == s[c + 1..];
    if GlobMatcher.GlobMatch(true, g[1..], s[c + 1..]) {
      d := c + 1;
    } else {
      d := PlusMeans(g, s, c + 1);
    }
  }

  lemma {:induction false} PlusTakes(g: string, s: string, c: nat, d: nat)
    requires g != "" && g[0] == '+' && c < d <= |s| && GlobMatcher.GlobMatch(true, g[1..], s[d..])
    ensures GlobMatcher.GlobMatch(true, g, s[c..])
    decreases d - c
  {
    assert s[c..][1..] == s[c + 1..];
    if c + 1 < d {
      PlusTakes(g, s, c + 1, d);
    }
  }

  /** Some way for the first glob character to match up to d, the rest from there. */
  predicate Split(g: string, s: string, c: nat, d: nat) {
    g != "" && d <= |s| && Repeats(NodeOf(g[0]), s, c, d) && GlobMatcher.GlobMatch(true, g[1..], s[d..])
  }

  lemma MatchSplits(g: string, s: string, c: nat) returns (d: nat)
    requires g != "" && c <= |s| && GlobMatcher.GlobMatch(true, g, s[c..])
    ensures Split(g, s, c, d)
  {
    if g[0] == '*' {
      d := GlobMatcher.StarMeans(true, g, s, c);
    } else if g[0] == '+' {
      d := PlusMeans(g, s, c);
    } else {
      assert s[c..][1..] == s[c + 1..];
      d := c + 1;
    }
  }

  lemma SplitMatches(g: string, s: string, c: nat, d: nat)
    requires Split(g, s, c, d)
    ensures GlobMatcher.GlobMatch(true, g, s[c..])
  {
    if g[0] == '*' {
      GlobMatcher.StarAbsorbs(true, g, s, c, d);
    } else if g[0] == '+' {
      PlusTakes(g, s, c, d);
    } else {
      assert s[c..][1..] == s[c + 1..];
    }
  }

  lemma {:induction false} NodesMean(g: string, s: string, c: nat, j: nat)
    requires c <= |s|
    ensures Denotes(Nodes(g), s, c, j) <==> j == |s| && GlobMatcher.GlobMatch(true, g, s[c..])
    decreases |g|
  {
    if g != "" {
      assert Nodes(g)[1..] == Nodes(g[1..]) && Nodes(g)[0] == NodeOf(g[0]);
      if Denotes(Nodes(g), s, c, j) {
        var d: nat :| Repeats(NodeOf(g[0]), s, c, d) && Denotes(Nodes(g[1..]), s, d, j);
        NodesMean(g[1..], s, d, j);
        SplitMatches(g, s, c, d);
      }
      if j == |s| && GlobMatcher.GlobMatch(true, g, s[c..]) {
        var d := MatchSplits(g, s, c);
        NodesMean(g[1..], s, d, j);
      }
    } else {
      assert Nodes(g)[1..] == [];
    }
  }

  function Front(glob: string): string {
    if glob != "" && glob[0] == '^' then glob[1..] else glob
  }

  function Back(glob: string): string {
    if glob != "" && glob[|glob| - 1] == '$' then glob[..|glob| - 1] else glob
  }

  /** The glob without an explicit anchor at either end. */
  function Inner(glob: string): string {
    Back(Front(glob))
  }

  lemma {:induction false} ExpandJoin(a: string, b: string)
    ensures Expand(a + b) == Expand(a) + Expand(b)
  {
    if a == "" {
      assert a + b == b;
    } else {
      assert (a + b)[1..] == a[1..] + b;
      ExpandJoin(a[1..], b);
    }
  }

  lemma FrontIsAnchored(glob: string)
    ensures Opening(glob) + Expand(glob) == "^" + Expand(Front(glob))
  {
  }

  lemma BackIsAnchored(front: string)
    ensures Expand(front) + Closing(front) == Expand(Back(front)) + "$"
  {
    if front != "" && front[|front| - 1] == '$' {
      assert front == Back(front) + "$";
      ExpandJoin(Back(front), "$");
      assert Expand("$") == "$" by { assert "$"[1..] == ""; }
      assert Expand(front) + "" == Expand(front);
    }
  }

  /** Whether or not the glob has its own anchors, the translation is its inner part between two. */
  lemma BodyIsAnchored(glob: string)
    requires glob != ""
    ensures Opening(glob) + Expand(glob) + Closing(glob) == "^" + (Expand(Inner(glob)) + "$")
  {
    var front, closing := Expand(Front(glob)), Closing(glob);
    FrontIsAnchored(glob);
    assert front + closing == Expand(Inner(glob)) + "$" by {
      BackIsAnchored(Front(glob));
    }
    Assoc("^", front, closing);
  }

  lemma AnchoredMeans(g: string, text: string)
    requires Plain(g)
    ensures Accepts("^" + (Expand(g) + "$"), text) <==> GlobMatcher.GlobMatch(true, g, text)
  {
    var re := "^" + (Expand(g) + "$");
    assert re[1..] == Expand(g) + "$";
    ParseExpanded(g);
    var nodes := [Begin] + Nodes(g);
    assert Parse(re) == Some(nodes) && nodes[1..] == Nodes(g) && text[0..] == text;
    if Accepts(re, text) {
      var i: nat, j: nat :| i <= j <= |text| && Denotes(nodes, text, i, j);
      NodesMean(g, text, 0, j);
    }
    if GlobMatcher.GlobMatch(true, g, text) {
      NodesMean(g, text, 0, |text|);
      assert Denotes(nodes, text, 0, |text|);
    }
  }

  /**
   * The translation preserves meaning: the expression accepts exactly the strings the
   * glob between its anchors matches.
   */
  lemma DeglobPreservesMeaning(glob: string, text: string)
    requires glob != "/" && !Bracketed(glob) && Plain(Inner(glob))
    requires Deglobbed(glob, false).Some?
    ensures Accepts(Deglobbed(glob, false).value, text) <==> GlobMatcher.GlobMatch(true, Inner(glob), text)
  {
    AnchoredMeans(Inner(glob), text);
    if glob == "" {
      EmptyBody();
    } else {
      BodyIsAnchored(glob);
      BracketLast(Opening(glob), Expand(glob), Closing(glob));
    }
  }

  lemma EmptyBody()
    ensures "^" + (Expand("") + "$") == "^$"
  {
    assert "" + "$" == "$";
  }

  /** A lone bracket is translated to the empty text's expression, although as a glob it matches itself. */
  lemma LoneBracketDiffers()
    ensures Deglobbed("/", false) == Deglobbed("", false) == Some("^$")
    ensures GlobMatcher.GlobMatch(true, "/", "/") && !Accepts("^$", "/") && Accepts("^$", "")
  {
    DeglobPreservesMeaning("", "/");
    DeglobPreservesMeaning("", "");
    assert "/"[1..] == "";
  }

  // ----- The two forms

  /** The bracketed form is a fixed point, and the unbracketed form is what stands between its brackets. */
  lemma FormsAgree(glob: string)
    requires Deglobbed(glob, true).Some?
    ensures var re := Deglobbed(glob, true).value;
            && Deglobbed(re, true) == Some(re)
            && Deglobbed(glob, false) == Deglobbed(re, false) == Some(re[1..|re| - 1])
            && re == "/" + re[1..|re| - 1] + "/"
  {
    var re := Deglobbed(glob, true).value;
    if !Trivial(glob) && !Bracketed(glob) {
      var body := Opening(glob) + Expand(glob) + Closing(glob);
      ExpandFits(glob);
      BracketLast(Opening(glob), Expand(glob), Closing(glob));
    } else if Trivial(glob) {
      assert re == "/^$/" && re[1..3] == [re[1], re[2]] == "^$";
    }
  }

  lemma BracketLast(a: string, b: string, c: string)
    ensures Bracket(true) + a + b + c + Bracket(true) == "/" + (a + b + c) + "/"
    ensures Bracket(false) + a + b + c + Bracket(false) == a + b + c
    ensures ("/" + (a + b + c) + "/")[1..|a + b + c| + 1] == a + b + c
  {
  }

  /** The tracked length bounds what is written. */
  lemma {:induction false} ExpandFits(glob: string)
    ensures |glob| <= |Expand(glob)| <= |glob| + Charged(glob)
  {
    if glob != "" {
      ExpandFits(glob[1..]);
    }
  }

  lemma {:induction false} LastExpanded(glob: string)
    requires glob != ""
    ensures Expand(glob) != "" && (Expand(glob)[|Expand(glob)| - 1] == '$' <==> glob[|glob| - 1] == '$')
  {
    if glob[1..] != "" {
      LastExpanded(glob[1..]);
    }
  }

  /** What is written for one character, wherever it stands. */
  lemma Written(before: string, c: char, after: string)
    ensures Expand(before + [c] + after) ==
              Expand(before)
              + (if c == '*' then ".*" else if c == '+' then ".+" else if c == '?' then "."
                 else if c in {'.', '[', ']', '(', ')'} then ['\\', c] else [c])
              + Expand(after)
  {
    ExpandJoin(before + [c], after);
    ExpandJoin(before, [c]);
    assert [c][1..] == "" && ExpandChar(c) + "" == ExpandChar(c);
  }

  /** How many of the characters are written as two. */
  function Doubled(glob: string): nat {
    if glob == "" then 0
    else (if glob[0] in {'*', '+', '.', '[', ']', '(', ')'} then 1 else 0) + Doubled(glob[1..])
  }

  lemma {:induction false} ChargedTwice(glob: string)
    ensures Charged(glob) == 2 * Doubled(glob) && |Expand(glob)| == |glob| + Doubled(glob)
  {
    if glob != "" {
      ChargedTwice(glob[1..]);
    }
  }

  /**
   * What fits: the characters that are written as two count three times against the limit of 2048,
   * the anchors and brackets that are added and the final NUL once each.
   */
  lemma LengthLimit(glob: string, brackets: bool)
    requires glob != "" && glob != "/" && !(|glob| >= 2 && glob[0] == '/' && glob[|glob| - 1] == '/')
    ensures var added := (if glob[0] == '^' then 0 else 1) + (if glob[|glob| - 1] == '$' then 0 else 1) + (if brackets then 2 else 0);
            && (Deglobbed(glob, brackets).Some? <==> |glob| + 2 * Doubled(glob) + added + 1 <= 2048)
            && (Deglobbed(glob, brackets).Some? ==> |Deglobbed(glob, brackets).value| == |glob| + Doubled(glob) + added)
  {
    ChargedTwice(glob);
  }

  /** What comes in brackets is taken as it is, up to 2048 characters with them. */
  lemma BracketedLimit(inner: string, brackets: bool)
    ensures var glob := "/" + inner + "/";
            Deglobbed(glob, brackets) == if |inner| > 2046 then None else Some(if brackets then glob else inner)
  {
    assert ("/" + inner + "/")[1..|inner| + 1] == inner;
  }

  // ----- The two matchers

  lemma {:induction false} PlusIsOptional(g: string, s: string)
    requires forall i | 0 <= i < |g| :: g[i] != '+'
    ensures GlobMatcher.GlobMatch(true, g, s) == GlobMatcher.GlobMatch(false, g, s)
    decreases |g| + |s|
  {
    if g != "" {
      PlusIsOptional(g[1..], s);
      if s != "" {
        PlusIsOptional(g, s[1..]);
        PlusIsOptional(g[1..], s[1..]);
      }
    }
  }

  /** A text the glob matches: nothing for '*', an 'a' for '?' and '+', any other character itself. */
  function Sample(g: string): string {
    if g == "" then ""
    else (if g[0] == '*' then "" else if g[0] == '?' || g[0] == '+' then "a" else [g[0]]) + Sample(g[1..])
  }

  lemma {:induction false} SampleMatches(g: string)
    ensures GlobMatcher.GlobMatch(true, g, Sample(g))
  {
    if g != "" {
      SampleMatches(g[1..]);
      if g[0] == '*' {
        assert Sample(g) == Sample(g[1..]);
      } else {
        assert Sample(g)[1..] == Sample(g[1..]);
      }
    }
  }

  lemma {:induction false} SampleCharacters(g: string, c: char)
    requires c in Sample(g)
    ensures c == 'a' || (c in g && c != '+')
  {
    if g != "" && c in Sample(g[1..]) { SampleCharacters(g[1..], c); }
  }

  /** The native matcher finds every character other than '*' and '?' in the text, '+' and '$' among them. */
  lemma {:induction false} NativeNeeds(g: string, s: string, c: char)
    requires GlobMatcher.GlobMatch(false, g, s) && c in g && c != '*' && c != '?'
    ensures c in s
    decreases |g| + |s|
  {
    if g[0] == '*' && GlobMatcher.GlobMatch(false, g[1..], s) {
      NativeNeeds(g[1..], s, c);
    } else if g[0] == '*' {
      NativeNeeds(g, s[1..], c);
    } else if c != g[0] {
      NativeNeeds(g[1..], s[1..], c);
    }
  }

  /** Both builds of uvm_re_match accept this text, or neither does. */
  ghost predicate MatchersMeet(glob: string, text: string)
    requires Deglobbed(glob, false).Some?
  {
    Accepts(Deglobbed(glob, false).value, text) <==> GlobMatcher.Accepts(glob, text)
  }

  /** Both builds accept the same strings iff the glob has no '+' and no closing anchor. */
  lemma MatchersAgree(glob: string)
    requires glob != "" && glob != "/" && !Bracketed(glob) && Plain(Inner(glob))
    requires Deglobbed(glob, false).Some?
    ensures (forall text :: MatchersMeet(glob, text)) <==> '+' !in glob && glob[|glob| - 1] != '$'
  {
    if '+' !in glob && glob[|glob| - 1] != '$' {
      forall text ensures MatchersMeet(glob, text) {
        DeglobPreservesMeaning(glob, text);
        PlusIsOptional(Inner(glob), text);
      }
    } else {
      MatchersDiffer(glob);
    }
  }

  /** The text on which they differ. */
  lemma MatchersDiffer(glob: string)
    requires glob != "" && glob != "/" && !Bracketed(glob) && Plain(Inner(glob))
    requires Deglobbed(glob, false).Some?
    requires '+' in glob || glob[|glob| - 1] == '$'
    ensures !MatchersMeet(glob, Sample(Inner(glob)))
  {
    var text, g := Sample(Inner(glob)), GlobMatcher.Strip(glob);
    var c := if '+' in glob then '+' else '$';
    DeglobPreservesMeaning(glob, text);
    SampleMatches(Inner(glob));
    assert c in g;
    if c in text { SampleCharacters(Inner(glob), c); }
    if GlobMatcher.GlobMatch(false, g, text) { NativeNeeds(g, text, c); }
  }

  /** On the empty expression they agree on the empty string only. */
  lemma MatchersDifferOnEmpty(text: string)
    ensures GlobMatcher.Accepts("", text)
    ensures Accepts(Deglobbed("", false).value, text) <==> text == ""
  {
    DeglobPreservesMeaning("", text);
  }

  // ----- The conversion loop

  /** Charge for some characters and, if the limit allows, write them. */
  method Append(buffer: array<char>, iter: nat, globLen: nat, charge: nat, s: string) returns (ok: bool, len: nat)
    requires buffer.Length == MAX_LENGTH + 4 && iter + |s| <= globLen + charge
    modifies buffer
    ensures len == globLen + charge && (ok <==> len <= MAX_LENGTH)
    ensures ok ==> buffer[..iter + |s|] == old(buffer[..iter]) + s
    ensures buffer[MAX_LENGTH..] == old(buffer[MAX_LENGTH..])
  {
    len := globLen + charge;
    ok := len <= MAX_LENGTH;
    if ok {
      forall i | 0 <= i < |s| {
        buffer[iter + i] := s[i];
      }
    }
  }

  /** A bracket or an anchor, if it is wanted. */
  method AppendIf(wanted: bool, buffer: array<char>, at: nat, tracked: nat, s: string) returns (ok: bool, iter: nat, globLen: nat)
    requires buffer.Length == MAX_LENGTH + 4 && at <= tracked && at <= buffer.Length && |s| == 1
    modifies buffer
    ensures var t := if wanted then s else "";
            && globLen == tracked + |t| && (ok <==> wanted ==> globLen <= MAX_LENGTH)
            && (ok ==> iter == at + |t| <= buffer.Length && buffer[..iter] == old(buffer[..at]) + t)
    ensures buffer[MAX_LENGTH..] == old(buffer[MAX_LENGTH..])
  {
    ok, iter, globLen := true, at, tracked;
    if wanted {
      ok, globLen := Append(buffer, at, tracked, 1, s);
      iter := at + 1;
    }
  }

  /** What is written and what is still to come make up the whole. */
  predicate Converting(done: string, rest: string, all: string) {
    done + Expand(rest) == all
  }

  lemma ConvertStep(done: string, rest: string, all: string)
    requires rest != "" && Converting(done, rest, all)
    ensures Converting(done + ExpandChar(rest[0]), rest[1..], all)
  {
    Assoc(done, ExpandChar(rest[0]), Expand(rest[1..]));
  }

  lemma ConvertEnd(done: string, all: string)
    requires Converting(done, "", all)
    ensures done == all
  {
    assert done + "" == done;
  }

  /** How far the conversion got: to the end, to a failed length check, or to a write outside the buffer. */
  datatype Status = Fits | TooLong | Overrun

  /** The characters in front of the first that is charged. */
  function Free(glob: string): (n: nat)
    ensures n <= |glob|
  {
    if glob == "" || Charge(glob[0]) > 0 then 0 else 1 + Free(glob[1..])
  }

  /** Only these lengths are not covered by the check that precedes a charged character's write. */
  predicate Unchecked(tracked: nat) {
    tracked > MAX_LENGTH
  }

  /** One character; uncharged ones are written without a check. */
  method ConvertChar(c: char, buffer: array<char>, at: nat, tracked: nat) returns (status: Status, iter: nat, globLen: nat)
    requires buffer.Length == MAX_LENGTH + 4 && at < tracked && at <= buffer.Length
    modifies buffer
    ensures status == if Charge(c) > 0 then (if tracked + 2 <= MAX_LENGTH then Fits else TooLong)
                      else if at < buffer.Length then Fits else Overrun
    ensures globLen == tracked + Charge(c)
    ensures status.Fits? ==> iter == at + |ExpandChar(c)| <= buffer.Length
    ensures status.Fits? ==> buffer[..iter] == old(buffer[..at]) + ExpandChar(c)
    ensures tracked <= MAX_LENGTH ==> buffer[MAX_LENGTH..] == old(buffer[MAX_LENGTH..])
  {
    status, iter, globLen := Fits, at, tracked;
    if Wild(c) || Escaped(c) {
      var ok;
      ok, globLen := Append(buffer, iter, globLen, 2, if Wild(c) then ['.', c] else ['\\', c]);
      if !ok { return TooLong, iter, globLen; }
      iter := iter + 2;
    } else {
      if iter >= buffer.Length { return Overrun, iter, globLen; }
      buffer[iter] := if c == '?' then '.' else c;
      iter := iter + 1;
    }
  }

  /** The loop over the glob's characters. */
  method ConvertAll(glob: string, buffer: array<char>, start: nat, tracked: nat) returns (status: Status, iter: nat, globLen: nat)
    requires buffer.Length == MAX_LENGTH + 4 && start + |glob| <= tracked && start <= buffer.Length
    modifies buffer
    ensures status.Overrun? <==> Unchecked(tracked) && start + Free(glob) > buffer.Length
    ensures !Unchecked(tracked) ==> (status.Fits? <==> tracked + Charged(glob) <= MAX_LENGTH)
    ensures status.Fits? ==> globLen == tracked + Charged(glob) && start + |glob| <= iter <= globLen && iter <= buffer.Length
    ensures status.Fits? && !Unchecked(tracked) ==> buffer[..iter] == old(buffer[..start]) + Expand(glob)
    ensures !Unchecked(tracked) ==> buffer[MAX_LENGTH..] == old(buffer[MAX_LENGTH..])
  {
    iter, globLen := start, tracked;
    ghost var rest, all := glob, buffer[..start] + Expand(glob);
    for p := 0 to |glob|
      invariant rest == glob[p..] && start + p <= iter <= buffer.Length && iter + |rest| <= globLen
      invariant globLen + Charged(rest) == tracked + Charged(glob)
      invariant Unchecked(tracked) ==> globLen == tracked && iter + Free(rest) == start + Free(glob)
      invariant !Unchecked(tracked) ==> globLen <= MAX_LENGTH && Converting(buffer[..iter], rest, all)
      invariant !Unchecked(tracked) ==> buffer[MAX_LENGTH..] == old(buffer[MAX_LENGTH..])
    {
      if !Unchecked(tracked) { ConvertStep(buffer[..iter], rest, all); }
      status, iter, globLen := ConvertChar(glob[p], buffer, iter, globLen);
      if !status.Fits? { return; }
      rest := rest[1..];
    }
    if !Unchecked(tracked) { ConvertEnd(buffer[..iter], all); }
    status := Fits;
  }

  /** The last character written tells whether the glob has its own closing anchor. */
  lemma LastWritten(glob: string, head: string, s: string, n: nat)
    requires glob != "" && 0 < n <= |s| && s[..n] == head + Expand(glob)
    ensures s[n - 1] == '$' <==> Closing(glob) == ""
  {
    LastExpanded(glob);
    assert s[n - 1] == s[..n][n - 1] == Expand(glob)[|Expand(glob)| - 1];
  }

  /** The opening bracket and anchor. */
  method Open(glob: string, withBrackets: bool, buffer: array<char>) returns (ok: bool, iter: nat, globLen: nat)
    requires glob != "" && buffer.Length == MAX_LENGTH + 4
    modifies buffer
    ensures var opening := Bracket(withBrackets) + Opening(glob);
            && (ok <==> opening == "" || |glob| + |opening| <= MAX_LENGTH)
            && (ok ==> iter == |opening| && buffer[..iter] == opening && globLen == |glob| + iter)
    ensures buffer[MAX_LENGTH..] == old(buffer[MAX_LENGTH..])
  {
    ok, iter, globLen := AppendIf(withBrackets, buffer, 0, |glob|, "/");
    if !ok { return; }
    assert buffer[..iter] == Bracket(withBrackets);
    ok, iter, globLen := AppendIf(glob[0] != '^', buffer, iter, globLen, "^");
  }

  /** The closing anchor and bracket and the final NUL. */
  method Close(glob: string, withBrackets: bool, buffer: array<char>, end: nat, tracked: nat, ghost head: string) returns (ok: bool, iter: nat)
    requires glob != "" && 0 < end <= tracked && end <= buffer.Length == MAX_LENGTH + 4
    requires !Unchecked(tracked) ==> buffer[..end] == head + Expand(glob)
    modifies buffer
    ensures ok <==> tracked + |Closing(glob)| + |Bracket(withBrackets)| + 1 <= MAX_LENGTH
    ensures ok ==> 0 < iter <= buffer.Length && buffer[iter - 1] == '\0'
    ensures ok ==> buffer[..iter - 1] == old(buffer[..end]) + Closing(glob) + Bracket(withBrackets)
    ensures buffer[MAX_LENGTH..] == old(buffer[MAX_LENGTH..])
  {
    if !Unchecked(tracked) { LastWritten(glob, head, buffer[..], end); }
    var globLen;
    ok, iter, globLen := AppendIf(buffer[end - 1] != '$', buffer, end, tracked, "$");
    if !ok { return; }
    ok, iter, globLen := AppendIf(withBrackets, buffer, iter, globLen, "/");
    if !ok { return; }
    EndsWithNul(buffer[..iter]);
    ok, globLen := Append(buffer, iter, globLen, 1, ['\0']);
    if !ok { return; }
    iter := iter + 1;
    FrontOf(buffer[..], iter);
  }

  lemma EndsWithNul(s: string)
    ensures (s + ['\0'])[..|s|] == s && (s + ['\0'])[|s|] == '\0'
  {
  }

  lemma FrontOf(s: string, n: nat)
    requires 0 < n <= |s|
    ensures s[..n][..n - 1] == s[..n - 1] && s[..n][n - 1] == s[n - 1]
  {
  }

  /** What a caller of the conversion sees; Overran stands for a write outside the buffer, after which nothing is known. */
  datatype Outcome = Regex(re: string) | Null | Overran

  /**
   * The inputs on which the conversion writes outside its buffer: no brackets are asked for,
   * the glob brings its own '^', and too much precedes the first character that is charged.
   */
  predicate Overruns(glob: string, brackets: bool) {
    !brackets && !Trivial(glob) && !Bracketed(glob) && glob[0] == '^' && Free(glob) > MAX_LENGTH + 4
  }

  lemma {:induction false} UnchargedIsFree(t: string)
    requires Charged(t) == 0
    ensures Free(t) == |t|
  {
    if t != "" { UnchargedIsFree(t[1..]); }
  }

  /** Characters that are not charged behind a '^' overrun the buffer exactly from 2052 on. */
  lemma LongGlobOverruns(t: string)
    requires Charged(t) == 0
    ensures Overruns("^" + t, false) <==> |t| >= 2052
  {
    UnchargedIsFree(t);
    assert ("^" + t)[1..] == t;
  }

  function As(n: nat): (t: string)
    ensures |t| == n && Charged(t) == 0
  {
    if n == 0 then "" else ['a'] + As(n - 1)
  }

  /** The smallest such glob: '^' and 2052 letters. */
  lemma OverrunHappens()
    ensures OutcomeOf("^" + As(2052), false) == Overran
    ensures OutcomeOf("^" + As(2051), false) == Null
  {
    LongGlobOverruns(As(2052));
    LongGlobOverruns(As(2051));
  }

  function OutcomeOf(glob: string, brackets: bool): Outcome {
    if Overruns(glob, brackets) then Overran
    else match Deglobbed(glob, brackets) case None => Null case Some(re) => Regex(re)
  }

  predicate Holds(buffer: string, re: string) {
    |re| < |buffer| && buffer[..|re|] == re && buffer[|re|] == '\0'
  }

  method ConvertGlob(glob: string, withBrackets: bool, buffer: array<char>) returns (r: Outcome)
    requires !Trivial(glob) && !Bracketed(glob) && buffer.Length == MAX_LENGTH + 4
    modifies buffer
    ensures r == OutcomeOf(glob, withBrackets)
    ensures r.Regex? ==> Holds(buffer[..], r.re)
    ensures |glob| <= MAX_LENGTH ==> buffer[MAX_LENGTH..] == old(buffer[MAX_LENGTH..])
  {
    var ok, iter, globLen := Open(glob, withBrackets, buffer);
    if !ok { return Null; }
    var status;
    status, iter, globLen := ConvertAll(glob, buffer, iter, globLen);
    if status.Overrun? { return Overran; }
    if status.TooLong? { return Null; }
    ok, iter := Close(glob, withBrackets, buffer, iter, globLen, Bracket(withBrackets) + Opening(glob));
    if !ok { return Null; }
    r := Regex(buffer[..iter - 1]);
  }

  /** uvm_re_deglobbed, writing the shared buffer. */
  method Convert(glob: string, withBrackets: bool, buffer: array<char>) returns (r: Outcome)
    requires GlobMatcher.Text(glob) && buffer.Length == MAX_LENGTH + 4
    modifies buffer
    ensures r == OutcomeOf(glob, withBrackets)
    ensures !Trivial(glob) && r.Regex? ==> Holds(buffer[..], r.re)
    ensures |glob| <= MAX_LENGTH && !Bracketed(glob) ==> buffer[MAX_LENGTH..] == old(buffer[MAX_LENGTH..])
  {
    var globLen := |glob|;
    if globLen == 0 || (globLen == 1 && glob[0] == '/') {
      return Regex(if withBrackets then "/^$/" else "^$");
    }
    if glob[0] == '/' && glob[globLen - 1] == '/' {
      if globLen > MAX_LENGTH { return Null; }
      var kept := if withBrackets then glob else glob[1..globLen - 1];
      forall i | 0 <= i < |kept| {
        buffer[i] := kept[i];
      }
      buffer[|kept|] := '\0';
      assert buffer[..|kept|] == kept;
      return Regex(buffer[..|kept|]);
    }
    r := ConvertGlob(glob, withBrackets, buffer);
  }
}
