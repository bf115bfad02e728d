/** Splitting a string at a separator, with and without the empty pieces. */
module Splitting {
  import opened Sequences

  /** The pieces between separators; there is always at least one. */
  function Pieces(str: string, sep: char): (ps: seq<string>)
    ensures ps != []
  {
    if str == "" then [""]
    else if str[0] == sep then [""] + Pieces(str[1..], sep)
    else
      var rest := Pieces(str[1..], sep);
      [[str[0]] + rest[0]] + rest[1..]
  }

  function JoinAll(ps: seq<string>, sep: char): string {
    if ps == [] then "" else if |ps| == 1 then ps[0] else ps[0] + [sep] + JoinAll(ps[1..], sep)
  }

  function NonEmpty(ps: seq<string>): seq<string> {
    if ps == [] then [] else (if ps[0] == "" then [] else [ps[0]]) + NonEmpty(ps[1..])
  }

  /** Empty pieces are dropped and all others kept in their order. */
  lemma {:induction false} NonEmptyJoin(ps: seq<string>, qs: seq<string>)
    ensures NonEmpty(ps + qs) == NonEmpty(ps) + NonEmpty(qs)
    ensures |ps| == 1 ==> NonEmpty(ps) == if |ps[0]| == 0 then [] else ps
    decreases |ps|
  {
    if ps == [] {
      assert ps + qs == qs;
    } else {
      assert (ps + qs)[1..] == ps[1..] + qs;
      NonEmptyJoin(ps[1..], qs);
      Assoc(if ps[0] == "" then [] else [ps[0]], NonEmpty(ps[1..]), NonEmpty(qs));
    }
  }

  predicate Free(s: string, sep: char) {
    forall i | 0 <= i < |s| :: s[i] != sep
  }

  predicate AllFree(ps: seq<string>, sep: char) {
    forall i | 0 <= i < |ps| :: Free(ps[i], sep)
  }

  /** Joining the pieces gives the string back, and no piece holds the separator. */
  lemma {:induction false} JoinInvertsSplit(str: string, sep: char)
    ensures JoinAll(Pieces(str, sep), sep) == str && AllFree(Pieces(str, sep), sep)
  {
    if str != "" {
      JoinInvertsSplit(str[1..], sep);
      var rest, ps := Pieces(str[1..], sep), Pieces(str, sep);
      if str[0] == sep {
        assert ps[1..] == rest && "" + [sep] + str[1..] == str;
      } else {
        assert ps[1..] == rest[1..] && str == [str[0]] + str[1..];
        if |rest| > 1 {
          assert [str[0]] + rest[0] + [sep] + JoinAll(rest[1..], sep) == [str[0]] + (rest[0] + [sep] + JoinAll(rest[1..], sep));
        }
      }
    }
  }

  /** The pieces of a string up to the first separator and behind it. */
  lemma {:induction false} PiecesAt(a: string, rest: string, sep: char)
    requires Free(a, sep)
    ensures Pieces(a + [sep] + rest, sep) == [a] + Pieces(rest, sep)
    ensures Pieces(a, sep) == [a]
  {
    var s := a + [sep] + rest;
    if a == "" {
      assert s[1..] == rest;
    } else {
      PiecesAt(a[1..], rest, sep);
      assert s[1..] == a[1..] + [sep] + rest && a == [a[0]] + a[1..];
    }
  }

  /** Splitting a joined list of separator-free pieces gives the list. */
  lemma {:induction false} SplitInvertsJoin(ps: seq<string>, sep: char)
    requires ps != [] && AllFree(ps, sep)
    ensures Pieces(JoinAll(ps, sep), sep) == ps
  {
    assert Free(ps[0], sep);
    if |ps| == 1 {
      PiecesAt(ps[0], "", sep);
    } else {
      SplitInvertsJoin(ps[1..], sep);
      PiecesAt(ps[0], JoinAll(ps[1..], sep), sep);
    }
  }

  /** The end of the piece that starts at s. */
  method PieceEnd(str: string, sep: char, s: nat) returns (e: nat)
    requires s <= |str|
    ensures s <= e <= |str| && Free(str[s..e], sep) && (e < |str| ==> str[e] == sep)
  {
    e := s;
    while e < |str| && str[e] != sep
      invariant s <= e <= |str| && Free(str[s..e], sep)
    {
      assert str[s..e + 1] == str[s..e] + [str[e]];
      e := e + 1;
    }
  }

  /** The pieces from position s on; none when the scan has run past the end. */
  function PiecesFrom(str: string, sep: char, s: nat): seq<string> {
    if s <= |str| then Pieces(str[s..], sep) else []
  }

  lemma PieceAndRest(str: string, sep: char, s: nat, e: nat)
    requires s <= e <= |str| && Free(str[s..e], sep) && (e < |str| ==> str[e] == sep)
    ensures PiecesFrom(str, sep, s) == [str[s..e]] + PiecesFrom(str, sep, e + 1)
  {
    if e < |str| {
      PiecesAt(str[s..e], str[e + 1..], sep);
      assert str[s..] == str[s..e] + [sep] + str[e + 1..];
    } else {
      PiecesAt(str[s..e], "", sep);
      assert str[s..] == str[s..e];
    }
  }

  /** uvm_string_split. */
  method StringSplit(str: string, sep: char) returns (values: seq<string>)
    ensures values == Pieces(str, sep)
  {
    var e := PieceEnd(str, sep, 0);
    PieceAndRest(str, sep, 0, e);
    values := [str[0..e]];
    e := e + 1;
    assert str[0..] == str;
    ghost var rest := PiecesFrom(str, sep, e);
    while e < |str| + 1
      invariant 0 < e <= |str| + 1 && rest == PiecesFrom(str, sep, e) && Pieces(str, sep) == values + rest
      decreases |str| + 1 - e
    {
      var s := e;
      e := PieceEnd(str, sep, s);
      PieceAndRest(str, sep, s, e);
      Assoc(values, [str[s..e]], PiecesFrom(str, sep, e + 1));
      values := values + [str[s..e]];
      e := e + 1;
      rest := PiecesFrom(str, sep, e);
    }
    assert rest == [] && values + rest == values;
  }

  /** The non-empty pieces from position s on. */
  function FullFrom(str: string, sep: char, s: nat): seq<string> {
    NonEmpty(PiecesFrom(str, sep, s))
  }

  lemma FullAndRest(str: string, sep: char, s: nat, e: nat, values: seq<string>)
    requires s <= e <= |str| && Free(str[s..e], sep) && (e < |str| ==> str[e] == sep)
    ensures values + FullFrom(str, sep, s)
         == (if s == e then values else values + [str[s..e]]) + FullFrom(str, sep, e + 1)
  {
    PieceAndRest(str, sep, s, e);
    NonEmptyCons(str[s..e], PiecesFrom(str, sep, e + 1), values);
  }

  lemma NonEmptyCons(p: string, ps: seq<string>, values: seq<string>)
    ensures values + NonEmpty([p] + ps) == (if p == "" then values else values + [p]) + NonEmpty(ps)
  {
    assert ([p] + ps)[1..] == ps;
    Assoc(values, [p], NonEmpty(ps));
  }

  lemma FullEnds(str: string, sep: char, s: nat)
    requires s >= |str|
    ensures FullFrom(str, sep, s) == []
  {
    if s == |str| {
      var ps := PiecesFrom(str, sep, s);
      assert str[s..] == "" && ps == [""];
      assert ps[0] == "" && ps[1..] == [];
      assert NonEmpty(ps) == [] + NonEmpty(ps[1..]) == [];
    }
  }

  lemma FullStarts(str: string, sep: char)
    ensures [] + FullFrom(str, sep, 0) == NonEmpty(Pieces(str, sep))
  {
    assert str[0..] == str;
  }

  /** uvm_split_string: only the pieces that are not empty. */
  method SplitString(str: string, sep: char) returns (values: seq<string>)
    ensures values == NonEmpty(Pieces(str, sep))
  {
    values := [];
    var e := 0;
    FullStarts(str, sep);
    while e < |str|
      invariant e <= |str| + 1 && values + FullFrom(str, sep, e) == NonEmpty(Pieces(str, sep))
      decreases |str| + 1 - e
    {
      var s := e;
      e := PieceEnd(str, sep, s);
      FullAndRest(str, sep, s, e, values);
      if s != e {
        values := values + [str[s..e]];
      }
      e := e + 1;
    }
    FullEnds(str, sep, e);
    assert values + [] == values;
  }
}
