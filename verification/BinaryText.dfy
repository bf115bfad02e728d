/** Numbers as binary strings, and multi-word values as numbers. */
module BinaryText {
  import opened Sequences

  function Pow2(n: nat): (p: nat)
    ensures p >= 1
  {
    if n == 0 then 1 else 2 * Pow2(n - 1)
  }

  const WORD: nat := 0x1_0000_0000

  function Digit(b: nat): char {
    if b == 0 then '0' else '1'
  }

  function Bit(c: char): nat {
    if c == '1' then 1 else 0
  }

  /** The number a binary string denotes. */
  function Num(s: string): nat {
    if s == "" then 0 else 2 * Num(s[..|s| - 1]) + Bit(s[|s| - 1])
  }

  /** Without leading zeros, but not empty. */
  function Bits(n: nat): (s: string)
    ensures s != ""
  {
    if n < 2 then [Digit(n)] else Bits(n / 2) + [Digit(n % 2)]
  }

  /** The lowest `len` binary digits. */
  function Fixed(n: nat, len: nat): (s: string)
    ensures |s| == len
    decreases len
  {
    if len == 0 then "" else Fixed(n / 2, len - 1) + [Digit(n % 2)]
  }

  /** The word width; taking an argument keeps the verifier from evaluating at 32. */
  function Width(n: nat): (w: nat)
    ensures w == 32
  {
    32
  }

  /** All the digits of a word. */
  function WordDigits(n: nat): (s: string)
    ensures |s| == 32
  {
    Fixed(n, Width(n))
  }

  /** The number in words of 32 bits, the lowest first. */
  function Value(ws: seq<nat>): nat {
    if ws == [] then 0 else ws[0] + WORD * Value(ws[1..])
  }

  /** All words but the top one, the highest first, with all their digits. */
  function Lower(ws: seq<nat>): (s: string)
    ensures |s| == 32 * |ws|
  {
    if ws == [] then "" else Lower(ws[1..]) + WordDigits(ws[0])
  }

  predicate AllWords(ws: seq<nat>) {
    forall i | 0 <= i < |ws| :: ws[i] < WORD
  }

  lemma {:induction false} PowAdd(a: nat, b: nat)
    ensures Pow2(a + b) == Pow2(a) * Pow2(b)
    decreases b
  {
    if b > 0 {
      PowAdd(a, b - 1);
      assert Pow2(a + b) == 2 * Pow2(a + (b - 1));
      assert Pow2(a) * (2 * Pow2(b - 1)) == 2 * (Pow2(a) * Pow2(b - 1));
    }
  }

  lemma WordIsPow(n: nat)
    ensures Pow2(Width(n)) == WORD
  {
    assert Pow2(8) == 256;
    PowAdd(8, 8);
    PowAdd(16, 16);
    assert Width(n) == 32;
  }

  lemma NumSnoc(s: string, c: char)
    ensures Num(s + [c]) == 2 * Num(s) + Bit(c)
  {
    assert (s + [c])[..|s|] == s;
  }

  lemma Twice(a: nat, p: nat)
    ensures a * (2 * p) == 2 * (a * p)
  {
  }

  lemma {:induction false} NumJoin(a: string, b: string)
    ensures Num(a + b) == Num(a) * Pow2(|b|) + Num(b)
    decreases |b|
  {
    if b == "" {
      assert a + b == a;
    } else {
      var b', c := b[..|b| - 1], b[|b| - 1];
      assert a + b == (a + b') + [c] && b == b' + [c];
      NumJoin(a, b');
      NumSnoc(a + b', c);
      NumSnoc(b', c);
      Twice(Num(a), Pow2(|b'|));
    }
  }

  lemma {:induction false} NumBits(n: nat)
    ensures Num(Bits(n)) == n
  {
    if n >= 2 {
      NumBits(n / 2);
      NumSnoc(Bits(n / 2), Digit(n % 2));
    } else {
      NumSnoc("", Digit(n));
      assert "" + [Digit(n)] == [Digit(n)];
    }
  }

  lemma {:induction false} NumFixed(n: nat, len: nat)
    requires n < Pow2(len)
    ensures Num(Fixed(n, len)) == n
    decreases len
  {
    if len > 0 {
      NumFixed(n / 2, len - 1);
      NumSnoc(Fixed(n / 2, len - 1), Digit(n % 2));
    }
  }

  lemma NumWordDigits(n: nat)
    requires n < WORD
    ensures Num(WordDigits(n)) == n && Pow2(|WordDigits(n)|) == WORD
  {
    WordIsPow(n);
    NumFixed(n, Width(n));
  }

  lemma {:induction false} NumLower(ws: seq<nat>)
    requires AllWords(ws)
    ensures Num(Lower(ws)) == Value(ws)
    decreases |ws|
  {
    if ws != [] {
      NumLower(ws[1..]);
      NumWordDigits(ws[0]);
      NumJoin(Lower(ws[1..]), WordDigits(ws[0]));
    }
  }

  lemma {:induction false} ValueSnoc(ws: seq<nat>, top: nat)
    ensures Value(ws + [top]) == top * Pow2(32 * |ws|) + Value(ws)
    decreases |ws|
  {
    if ws == [] {
      assert ws + [top] == [top] && [top][1..] == [];
    } else {
      assert (ws + [top])[1..] == ws[1..] + [top];
      ValueSnoc(ws[1..], top);
      WordIsPow(top);
      PowAdd(32 * |ws[1..]|, Width(top));
      assert WORD * (top * Pow2(32 * |ws[1..]|)) == top * (Pow2(32 * |ws[1..]|) * WORD);
    }
  }

  /** A minimal binary string has at most `len` digits exactly when the number is below 2 to the len. */
  lemma {:induction false} BitsLength(n: nat, len: nat)
    requires len > 0
    ensures |Bits(n)| <= len <==> n < Pow2(len)
    decreases len
  {
    if len == 1 {
      assert Pow2(1) == 2;
    } else if n >= 2 {
      BitsLength(n / 2, len - 1);
    } else {
      assert Pow2(len) == 2 * Pow2(len - 1);
    }
  }

  lemma {:induction false} ZerosLead(n: nat, len: nat)
    requires |Bits(n)| <= len
    ensures Fixed(n, len) == Fixed(0, len - |Bits(n)|) + Bits(n)
    decreases len
  {
    if n >= 2 {
      ZerosLead(n / 2, len - 1);
      assert Fixed(0, len - |Bits(n)|) + Bits(n) == Fixed(0, len - |Bits(n)|) + Bits(n / 2) + [Digit(n % 2)];
    } else {
      assert n / 2 == 0 && Bits(n) == [Digit(n % 2)];
    }
  }

  /** The leading digits of a longer minimal string denote less than the number. */
  lemma {:induction false} PrefixIsLess(s: string, len: nat)
    requires 1 <= len < |s| && s[0] == '1'
    ensures Num(s[..len]) < Num(s)
    decreases |s|
  {
    var s' := s[..|s| - 1];
    NumPositive(s');
    if len < |s'| {
      PrefixIsLess(s', len);
      assert s'[..len] == s[..len];
    }
  }

  lemma {:induction false} LeadingOne(n: nat)
    requires n >= 1
    ensures Bits(n)[0] == '1'
  {
    if n >= 2 {
      LeadingOne(n / 2);
    }
  }

  lemma {:induction false} NumPositive(s: string)
    requires s != "" && s[0] == '1'
    ensures Num(s) >= 1
    decreases |s|
  {
    if |s| > 1 {
      NumPositive(s[..|s| - 1]);
    }
  }

  /** Higher words come first. */
  lemma {:induction false} LowerSplit(ws: seq<nat>, j: nat)
    requires j <= |ws|
    ensures Lower(ws) == Lower(ws[j..]) + Lower(ws[..j])
    decreases |ws|
  {
    if j == 0 {
      assert ws[0..] == ws && ws[..0] == [] && Lower(ws) + "" == Lower(ws);
    } else {
      LowerSplit(ws[1..], j - 1);
      assert ws[1..][j - 1..] == ws[j..] && ws[1..][..j - 1] == ws[..j][1..];
      Assoc(Lower(ws[j..]), Lower(ws[..j][1..]), WordDigits(ws[0]));
    }
  }

  lemma Middle(a: string, b: string, c: string)
    ensures ((a + b) + c)[|a|..|a| + |b|] == b
  {
  }

  /** Where the digits of each word stand, counted from the end. */
  lemma LowerSlice(ws: seq<nat>, j: nat)
    requires j < |ws|
    ensures var n := |Lower(ws)|; Lower(ws)[n - 32 * (j + 1)..n - 32 * j] == WordDigits(ws[j])
  {
    LowerSplit(ws, j);
    assert ws[j..][1..] == ws[j + 1..];
    Middle(Lower(ws[j + 1..]), WordDigits(ws[j]), Lower(ws[..j]));
  }

  // ----- Bit by bit

  /** Bit k of a number, 1 or 0. */
  function BitAt(n: nat, k: nat): (b: nat)
    ensures b <= 1
    decreases k
  {
    if k == 0 then n % 2 else BitAt(n / 2, k - 1)
  }

  lemma HalfOfCut(n: nat, p: nat)
    requires p >= 1
    ensures n % (2 * p) / 2 == n / 2 % p && n % (2 * p) % 2 == n % 2
  {
    var q, t := n / 2 / p, n / 2 % p;
    var r := 2 * t + n % 2;
    assert n == 2 * (p * q + t) + n % 2;
    assert n == (2 * p) * q + r;
    CutUnique(n, 2 * p, q, r);
  }

  lemma CutUnique(x: nat, n: nat, q: nat, r: nat)
    requires x == n * q + r && r < n
    ensures x % n == r
  {
    var d := x / n - q;
    assert x == n * (x / n) + x % n;
    assert n * d == r - x % n;
    assert d < 1 && d > -1;
  }

  /** Cutting a number at m bits keeps those below m. */
  lemma {:induction false} CutKeepsBits(n: nat, m: nat, k: nat)
    requires k < m
    ensures BitAt(n % Pow2(m), k) == BitAt(n, k)
    decreases m
  {
    HalfOfCut(n, Pow2(m - 1));
    if k > 0 {
      CutKeepsBits(n / 2, m - 1, k - 1);
    }
  }

  /** The character for bit k. */
  function BitChar(n: nat, k: nat): char {
    if BitAt(n, k) == 1 then '1' else '0'
  }

  /** The digits of a number, the highest first. */
  lemma {:induction false} FixedBit(n: nat, len: nat, k: nat)
    requires k < len
    ensures Fixed(n, len)[len - 1 - k] == BitChar(n, k)
    decreases k
  {
    if k > 0 {
      FixedBit(n / 2, len - 1, k - 1);
    }
  }

  /** The minimal digits of a number, the highest first; it is 1 unless the number is 0. */
  lemma {:induction false} BitsBit(n: nat, k: nat)
    ensures k < |Bits(n)| ==> Bits(n)[|Bits(n)| - 1 - k] == BitChar(n, k)
    ensures k >= |Bits(n)| ==> BitAt(n, k) == 0
    ensures Bits(n)[0] == if n == 0 then '0' else '1'
    decreases k
  {
    if n >= 1 {
      LeadingOne(n);
    }
    if n < 2 {
      assert Bits(n) == [Digit(n)];
      if k > 0 {
        NoBits(k - 1);
      }
    } else if k > 0 {
      BitsBit(n / 2, k - 1);
    }
  }

  lemma {:induction false} NoBits(k: nat)
    ensures BitAt(0, k) == 0
    decreases k
  {
    if k > 0 {
      NoBits(k - 1);
    }
  }

  lemma SliceAt(s: string, from: nat, to: nat, i: nat)
    requires from <= to <= |s| && i < to - from
    ensures s[from..to][i] == s[from + i]
  {
  }

  /** Bit k of word j stands 32 * j + k places from the end. */
  lemma LowerBit(ws: seq<nat>, j: nat, k: nat)
    requires j < |ws| && k < 32
    ensures Lower(ws)[|Lower(ws)| - 1 - (32 * j + k)] == BitChar(ws[j], k)
  {
    var n := |Lower(ws)|;
    LowerSlice(ws, j);
    FixedBit(ws[j], Width(ws[j]), k);
    SliceAt(Lower(ws), n - 32 * (j + 1), n - 32 * j, 31 - k);
  }
}
