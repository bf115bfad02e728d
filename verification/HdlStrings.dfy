/** Printing a multi-word value for a force, and parsing the string read back. */
module HdlStrings {
  import opened BinaryText
  import opened Sequences

  /** A four-state word: its value plane and its unknown plane. */
  datatype VecVal = VecVal(aval: nat, bval: nat)

  const EMPTY := VecVal(0, 0)

  /** The words a value of `size` bits takes. */
  function Chunks(size: nat): (n: nat)
    requires size >= 1
    ensures n >= 1 && 32 * (n - 1) < size <= 32 * n
  {
    if size <= 32 then 1 else 1 + Chunks(size - 32)
  }

  method CountChunks(size: nat) returns (n: nat)
    requires size >= 1
    ensures n == Chunks(size)
  {
    n := (size - 1) / 32 + 1;
  }

  // ----- The string that is forced

  /** strncat's share of a string. */
  function Take(s: string, n: nat): string {
    if |s| <= n then s else s[..n]
  }

  function TopShare(size: nat): (sz: nat)
    requires size >= 1
    ensures 1 <= sz <= 32
  {
    size - 32 * (Chunks(size) - 1)
  }

  function ForceString(ws: seq<nat>, size: nat): string
    requires size >= 1 && |ws| == Chunks(size)
  {
    Take(Bits(ws[|ws| - 1]), TopShare(size)) + Lower(ws[..|ws| - 1])
  }

  /** The string denotes the value exactly when the top word fits its share; otherwise low bits of that word are cut off. */
  lemma ForceStringDenotes(ws: seq<nat>, size: nat)
    requires size >= 1 && |ws| == Chunks(size) && AllWords(ws)
    ensures Num(ForceString(ws, size)) == Value(ws) <==> ws[|ws| - 1] < Pow2(TopShare(size))
    ensures |ForceString(ws, size)| <= size
  {
    var low, top, sz := ws[..|ws| - 1], ws[|ws| - 1], TopShare(size);
    assert ws == low + [top];
    NumLower(low);
    ValueSnoc(low, top);
    NumBits(top);
    BitsLength(top, sz);
    var head := Take(Bits(top), sz);
    NumJoin(head, Lower(low));
    if |Bits(top)| > sz {
      LeadingOne(top);
      PrefixIsLess(Bits(top), sz);
      Larger(Num(head), top, Pow2(32 * |low|));
    }
  }

  /**
   * The forced string character by character: bit k of a lower word stands 32 * j + k places from
   * the end, and in front of the lower words are the leading digits of the top word, as many as its share.
   */
  lemma ForcedBits(ws: seq<nat>, size: nat)
    requires size >= 1 && |ws| == Chunks(size) && AllWords(ws)
    ensures var f, low, digits := ForceString(ws, size), |ws| - 1, Bits(ws[|ws| - 1]);
            && |f| == 32 * low + (if |digits| < size - 32 * low then |digits| else size - 32 * low)
            && f[..|f| - 32 * low] == digits[..|f| - 32 * low]
            && forall j: nat, k: nat | j < low && k < 32 :: ForcedBit(ws, f, j, k)
  {
    var head := Take(Bits(ws[|ws| - 1]), TopShare(size));
    ForcedHead(head, Lower(ws[..|ws| - 1]));
    ForcedLower(ws, head, ForceString(ws, size));
  }

  lemma ForcedLower(ws: seq<nat>, head: string, f: string)
    requires ws != [] && f == head + Lower(ws[..|ws| - 1])
    ensures forall j: nat, k: nat | j < |ws| - 1 && k < 32 :: ForcedBit(ws, f, j, k)
  {
    var low := ws[..|ws| - 1];
    forall j: nat, k: nat | j < |ws| - 1 && k < 32 ensures ForcedBit(ws, f, j, k) {
      LowerBit(low, j, k);
      ForcedAt(ws, head, Lower(low), j, k, 32 * j + k);
    }
  }

  lemma ForcedAt(ws: seq<nat>, head: string, tail: string, j: nat, k: nat, n: nat)
    requires j < |ws| && n == 32 * j + k < |tail| && tail[|tail| - 1 - n] == BitChar(ws[j], k)
    ensures ForcedBit(ws, head + tail, j, k)
  {
    ForcedTail(head, tail, n);
  }

  lemma ForcedHead(head: string, tail: string)
    ensures (head + tail)[..|head + tail| - |tail|] == head
  {
  }

  lemma ForcedTail(head: string, tail: string, n: nat)
    requires n < |tail|
    ensures (head + tail)[|head + tail| - 1 - n] == tail[|tail| - 1 - n]
  {
  }

  predicate ForcedBit(ws: seq<nat>, f: string, j: nat, k: nat)
    requires j < |ws|
  {
    32 * j + k < |f| && f[|f| - 1 - (32 * j + k)] == BitChar(ws[j], k)
  }

  lemma Larger(a: nat, b: nat, p: nat)
    requires a < b && p >= 1
    ensures a * p < b * p
  {
  }

  /** The value as the simulator gives it back: all `size` digits. */
  function Padded(s: string, size: nat): (r: string)
    requires |s| <= size
    ensures |r| == size
  {
    Fixed(0, size - |s|) + s
  }

  // ----- Parsing

  predicate Binary(s: string) {
    forall i | 0 <= i < |s| :: s[i] == '0' || s[i] == '1'
  }

  function ABit(c: char): nat {
    if c == '0' || c == 'Z' then 0 else 1
  }

  function BBit(c: char): nat {
    if c == '0' || c == '1' then 0 else 1
  }

  /** One character shifted into a word of 32 bits. */
  function ShiftIn(w: VecVal, c: char): VecVal {
    VecVal((2 * w.aval + ABit(c)) % WORD, (2 * w.bval + BBit(c)) % WORD)
  }

  function ShiftAll(w: VecVal, s: string): VecVal {
    if s == "" then w else ShiftIn(ShiftAll(w, s[..|s| - 1]), s[|s| - 1])
  }

  lemma ShiftedBit(a: nat, b: nat, k: nat)
    requires b <= 1 && k < 32
    ensures BitAt((2 * a + b) % WORD, k) == if k == 0 then b else BitAt(a, k - 1)
  {
    WordIsPow(a);
    CutKeepsBits(2 * a + b, Width(a), k);
    assert (2 * a + b) / 2 == a && (2 * a + b) % 2 == b;
  }

  /** The planes of one character, at bit k of a word. */
  predicate CharAt(v: VecVal, k: nat, c: char) {
    && BitAt(v.aval, k) == (if c == '0' || c == 'Z' then 0 else 1)
    && BitAt(v.bval, k) == (if c == '0' || c == '1' then 0 else 1)
  }

  /** Each of the last 32 characters shifted in is at its place, and what was there before has moved up. */
  lemma {:induction false} ShiftedInBits(w: VecVal, s: string, k: nat)
    requires k < 32
    ensures var v := ShiftAll(w, s);
            if k < |s| then CharAt(v, k, s[|s| - 1 - k])
            else BitAt(v.aval, k) == BitAt(w.aval, k - |s|) && BitAt(v.bval, k) == BitAt(w.bval, k - |s|)
    decreases |s|
  {
    if s != "" {
      var before, c := ShiftAll(w, s[..|s| - 1]), s[|s| - 1];
      ShiftedBit(before.aval, ABit(c), k);
      ShiftedBit(before.bval, BBit(c), k);
      if k > 0 {
        ShiftedInBits(w, s[..|s| - 1], k - 1);
      }
    }
  }

  /** The characters that go into word j. */
  function Share(s: string, j: nat): string
    requires |s| >= 1 && j < Chunks(|s|)
  {
    if j == Chunks(|s|) - 1 then s[..TopShare(|s|)] else s[|s| - 32 * (j + 1)..|s| - 32 * j]
  }

  /** Bit k of word j is read from the character 32 * j + k places from the end. */
  lemma ParsedBit(w: VecVal, s: string, j: nat, k: nat)
    requires k < 32 && 32 * j + k < |s|
    ensures j < Chunks(|s|) && CharAt(ShiftAll(w, Share(s, j)), k, s[|s| - 1 - (32 * j + k)])
  {
    var share := Share(s, j);
    assert k < |share| && share[|share| - 1 - k] == s[|s| - 1 - (32 * j + k)];
    ShiftedInBits(w, share, k);
  }

  /** The planes of a string of four-state characters, as binary strings. */
  function Planes(s: string): (p: (string, string))
    ensures |p.0| == |p.1| == |s|
  {
    if s == "" then ("", "")
    else
      var (a, b) := Planes(s[..|s| - 1]);
      (a + [Digit(ABit(s[|s| - 1]))], b + [Digit(BBit(s[|s| - 1]))])
  }

  /** One plane of the shifting. */
  function ShiftPlane(w: nat, s: string): nat {
    if s == "" then w else (2 * ShiftPlane(w, s[..|s| - 1]) + Bit(s[|s| - 1])) % WORD
  }

  lemma {:induction false} ShiftAllByPlane(w: VecVal, s: string)
    ensures ShiftAll(w, s) == VecVal(ShiftPlane(w.aval, Planes(s).0), ShiftPlane(w.bval, Planes(s).1))
  {
    if s != "" {
      var s', c := s[..|s| - 1], s[|s| - 1];
      ShiftAllByPlane(w, s');
      PlaneSnoc(w.aval, Planes(s').0, ABit(c));
      PlaneSnoc(w.bval, Planes(s').1, BBit(c));
    }
  }

  lemma PlaneSnoc(w: nat, p: string, b: nat)
    requires b <= 1
    ensures ShiftPlane(w, p + [Digit(b)]) == (2 * ShiftPlane(w, p) + b) % WORD
  {
    assert (p + [Digit(b)])[..|p|] == p;
  }

  lemma ShiftMod(x: nat, b: nat)
    ensures (2 * (x % WORD) + b) % WORD == (2 * x + b) % WORD
  {
  }

  /** A word moved up by some digits, with a number in their place, cut at 32 bits. */
  function MovedUp(w: nat, digits: nat, n: nat): nat {
    (w * Pow2(digits) + n) % WORD
  }

  lemma {:induction false} ShiftPlaneIs(w: nat, s: string)
    requires w < WORD
    ensures ShiftPlane(w, s) == MovedUp(w, |s|, Num(s))
  {
    if s != "" {
      var s', b := s[..|s| - 1], Bit(s[|s| - 1]);
      ShiftPlaneIs(w, s');
      MoveUpOnce(w, |s'|, Num(s'), b);
    } else {
      EmptyString(w);
    }
  }

  lemma MoveUpOnce(w: nat, digits: nat, n: nat, b: nat)
    ensures (2 * MovedUp(w, digits, n) + b) % WORD == MovedUp(w, digits + 1, 2 * n + b)
  {
    ShiftMod(w * Pow2(digits) + n, b);
    Twice(w, Pow2(digits));
  }

  lemma EmptyString(w: nat)
    requires w < WORD
    ensures MovedUp(w, |""|, 0) == w
  {
    assert Pow2(|""|) == 1;
  }

  /** Shifting in a string leaves its number in each plane, with what was in the word before moved up and cut at 32 bits. */
  lemma ShiftAllIs(w: VecVal, s: string)
    requires w.aval < WORD && w.bval < WORD
    ensures ShiftAll(w, s) == VecVal(MovedUp(w.aval, |s|, Num(Planes(s).0)), MovedUp(w.bval, |s|, Num(Planes(s).1)))
  {
    ShiftAllByPlane(w, s);
    ShiftPlaneIs(w.aval, Planes(s).0);
    ShiftPlaneIs(w.bval, Planes(s).1);
  }

  lemma {:induction false} BinaryPlanes(s: string)
    requires Binary(s)
    ensures Planes(s).0 == s && Num(Planes(s).1) == 0
  {
    if s != "" {
      var s', c := s[..|s| - 1], s[|s| - 1];
      BinaryPlanes(s');
      assert c == '0' || c == '1';
      assert [Digit(ABit(c))] == [c] && [Digit(BBit(c))] == ['0'];
      assert Planes(s) == (s' + [c], Planes(s').1 + ['0']);
      NumSnoc(Planes(s').1, '0');
    }
  }

  lemma FullMovedUp(w: nat, digits: nat, n: nat)
    requires Pow2(digits) == WORD
    ensures MovedUp(w, digits, n) == n % WORD
  {
  }

  lemma EmptyMovedUp(w: nat, digits: nat, n: nat)
    requires w == 0 && n < WORD
    ensures MovedUp(w, digits, n) == n
  {
  }

  /** A full share of 32 characters leaves nothing of what was in the word before. */
  lemma FullShareForgets(w: VecVal, s: string)
    requires w.aval < WORD && w.bval < WORD && |s| == 32
    ensures ShiftAll(w, s) == VecVal(Num(Planes(s).0) % WORD, Num(Planes(s).1) % WORD)
  {
    ShiftAllIs(w, s);
    WordIsPow(w.aval);
    assert |s| == Width(w.aval);
    FullMovedUp(w.aval, |s|, Num(Planes(s).0));
    FullMovedUp(w.bval, |s|, Num(Planes(s).1));
  }

  lemma FixedIsBinary(n: nat, len: nat)
    ensures Binary(Fixed(n, len))
    decreases len
  {
    if len > 0 {
      FixedIsBinary(n / 2, len - 1);
    }
  }

  /** Shifting a word's digits into an empty word gives the word, with nothing unknown. */
  lemma DigitsReadBack(n: nat, len: nat)
    requires n < Pow2(len) && n < WORD
    ensures ShiftAll(EMPTY, Fixed(n, len)) == VecVal(n, 0)
  {
    var s := Fixed(n, len);
    ShiftAllByPlane(EMPTY, s);
    FixedIsBinary(n, len);
    BinaryPlanes(s);
    NumFixed(n, len);
    ShiftPlaneIs(EMPTY.aval, s);
    ShiftPlaneIs(EMPTY.bval, Planes(s).1);
    EmptyMovedUp(EMPTY.aval, |s|, n);
    EmptyMovedUp(EMPTY.bval, |s|, 0);
  }

  lemma PaddedIs(ws: seq<nat>, size: nat)
    requires size >= 1 && |ws| == Chunks(size) && AllWords(ws) && ws[|ws| - 1] < Pow2(TopShare(size))
    ensures |ForceString(ws, size)| <= size
    ensures Padded(ForceString(ws, size), size) == Fixed(ws[|ws| - 1], TopShare(size)) + Lower(ws[..|ws| - 1])
  {
    var low, top, sz := ws[..|ws| - 1], ws[|ws| - 1], TopShare(size);
    BitsLength(top, sz);
    ZerosLead(top, sz);
    Assoc(Fixed(0, sz - |Bits(top)|), Bits(top), Lower(low));
  }

  lemma TailSlice(head: string, tail: string, from: nat, to: nat)
    requires from <= to <= |tail|
    ensures (head + tail)[|head| + from..|head| + to] == tail[from..to]
  {
  }

  /** The share of each word in such a string is that word's digits. */
  lemma LowShareIs(low: seq<nat>, head: string, size: nat, j: nat)
    requires size >= 1 && |low| == Chunks(size) - 1 && j < |low| && |head| == TopShare(size)
    ensures |head + Lower(low)| == size && Share(head + Lower(low), j) == WordDigits(low[j])
  {
    var n := |Lower(low)|;
    LowerSlice(low, j);
    TailSlice(head, Lower(low), n - 32 * (j + 1), n - 32 * j);
  }

  lemma TopShareIs(low: seq<nat>, head: string, size: nat)
    requires size >= 1 && |low| == Chunks(size) - 1 && |head| == TopShare(size)
    ensures |head + Lower(low)| == size && Share(head + Lower(low), |low|) == head
  {
    HeadSlice(head, Lower(low));
  }

  lemma HeadSlice(head: string, tail: string)
    ensures (head + tail)[..|head|] == head
  {
  }

  lemma ReadBackFits(ws: seq<nat>, size: nat, j: nat)
    requires size >= 1 && |ws| == Chunks(size) && AllWords(ws) && ws[|ws| - 1] < Pow2(TopShare(size)) && j < |ws|
    ensures |ForceString(ws, size)| <= size
    ensures ShiftAll(EMPTY, Share(Padded(ForceString(ws, size), size), j)) == VecVal(ws[j], 0)
  {
    PaddedIs(ws, size);
    var low, head := ws[..|ws| - 1], Fixed(ws[|ws| - 1], TopShare(size));
    if j == |ws| - 1 {
      TopShareIs(low, head, size);
      DigitsReadBack(ws[j], TopShare(size));
    } else {
      LowShareIs(low, head, size, j);
      WordIsPow(ws[j]);
      DigitsReadBack(ws[j], Width(ws[j]));
    }
  }

  lemma {:induction false} BitsAreBinary(n: nat)
    ensures Binary(Bits(n))
  {
    if n >= 2 {
      BitsAreBinary(n / 2);
    }
  }

  /** Only the leading digits of a top word that does not fit are kept, and they denote less. */
  lemma CutWordReadsLess(top: nat, sz: nat)
    requires sz >= 1 && sz < |Bits(top)| && top < WORD
    ensures ShiftAll(EMPTY, Bits(top)[..sz]) != VecVal(top, 0)
  {
    var head := Bits(top)[..sz];
    LeadingOne(top);
    PrefixIsLess(Bits(top), sz);
    NumBits(top);
    BitsAreBinary(top);
    BinaryPlanes(head);
    ShiftAllByPlane(EMPTY, head);
    ShiftPlaneIs(EMPTY.aval, head);
    EmptyMovedUp(EMPTY.aval, |head|, Num(head));
  }

  lemma ReadBackCut(ws: seq<nat>, size: nat, j: nat)
    requires size >= 1 && |ws| == Chunks(size) && AllWords(ws) && ws[|ws| - 1] >= Pow2(TopShare(size)) && j < |ws|
    ensures |ForceString(ws, size)| == size
    ensures ShiftAll(EMPTY, Share(Padded(ForceString(ws, size), size), j)) == VecVal(ws[j], 0) <==> j < |ws| - 1
  {
    var low, top, sz := ws[..|ws| - 1], ws[|ws| - 1], TopShare(size);
    BitsLength(top, sz);
    var head := Bits(top)[..sz];
    NoPadding(head + Lower(low));
    if j == |ws| - 1 {
      TopShareIs(low, head, size);
      CutWordReadsLess(top, sz);
    } else {
      LowShareIs(low, head, size, j);
      WordIsPow(ws[j]);
      DigitsReadBack(ws[j], Width(ws[j]));
    }
  }

  lemma NoPadding(s: string)
    ensures Padded(s, |s|) == s
  {
    assert Fixed(0, 0) + s == s;
  }

  /**
   * Print and parse: for every size, reading the forced string back, padded to the full size,
   * into empty words gives every word with nothing unknown, the top one exactly if it fits its share.
   */
  lemma ForceReadBack(ws: seq<nat>, size: nat, j: nat)
    requires size >= 1 && |ws| == Chunks(size) && AllWords(ws) && j < |ws|
    ensures |ForceString(ws, size)| <= size
    ensures ShiftAll(EMPTY, Share(Padded(ForceString(ws, size), size), j)) == VecVal(ws[j], 0)
            <==> j < |ws| - 1 || ws[j] < Pow2(TopShare(size))
  {
    if ws[|ws| - 1] < Pow2(TopShare(size)) {
      ReadBackFits(ws, size, j);
    } else {
      ReadBackCut(ws, size, j);
    }
  }

  // ----- The routines

  function Backward(digits: seq<nat>): (s: string)
    ensures |s| == |digits|
  {
    if digits == [] then "" else Backward(digits[1..]) + [Digit(digits[0])]
  }

  lemma {:induction false} BackwardSnoc(digits: seq<nat>, d: nat)
    ensures Backward(digits + [d]) == [Digit(d)] + Backward(digits)
  {
    if digits == [] {
      assert digits + [d] == [d] && [d][1..] == [];
    } else {
      assert (digits + [d])[1..] == digits[1..] + [d];
      BackwardSnoc(digits[1..], d);
    }
  }

  /** What is still to be printed of the quotient, minimal or to a fixed length, then the digits so far. */
  predicate Printing(v: nat, q: nat, digits: seq<nat>, length: nat) {
    && |digits| <= length
    && Bits(v) == (if q == 0 then "" else Bits(q)) + Backward(digits)
    && Fixed(v, length) == Fixed(q, length - |digits|) + Backward(digits)
    && q < Pow2(length - |digits|)
  }

  lemma PrintDigit(v: nat, q: nat, digits: seq<nat>, length: nat)
    requires q != 0 && Printing(v, q, digits, length)
    ensures |digits| < length && Printing(v, q / 2, digits + [q % 2], length)
  {
    BackwardSnoc(digits, q % 2);
    var n := length - |digits|;
    if q < 2 {
      assert Bits(q) == [Digit(q)];
    } else {
      Assoc(Bits(q / 2), [Digit(q % 2)], Backward(digits));
    }
    Assoc(Fixed(q / 2, n - 1), [Digit(q % 2)], Backward(digits));
  }

  lemma PrintFirst(v: nat, length: nat)
    requires v < Pow2(length) && length >= 1
    ensures Printing(v, v / 2, [v % 2], length)
  {
    assert Backward([v % 2]) == [Digit(v % 2)] by {
      BackwardSnoc([], v % 2);
      assert [] + [v % 2] == [v % 2] && [Digit(v % 2)] + "" == [Digit(v % 2)];
    }
  }

  lemma {:induction false} TrailingZeros(digits: seq<nat>, n: nat)
    ensures Backward(digits + seq(n, _ => 0)) == Fixed(0, n) + Backward(digits)
    decreases n
  {
    if n == 0 {
      assert digits + seq(0, _ => 0) == digits;
    } else {
      TrailingZeros(digits + [0], n - 1);
      assert digits + [0] + seq(n - 1, _ => 0) == digits + seq(n, _ => 0);
      BackwardSnoc(digits, 0);
      ZerosSnoc(n - 1);
      Assoc(Fixed(0, n - 1), ['0'], Backward(digits));
    }
  }

  lemma ZerosSnoc(n: nat)
    ensures Fixed(0, n + 1) == Fixed(0, n) + ['0']
  {
  }

  /** uvm_hdl_dtob: the top word without leading zeros, any other word with all 32 digits. */
  method Dtob(decimalNumber: nat, msb: bool) returns (binaryNumber: string)
    requires decimalNumber < WORD
    ensures binaryNumber == if msb then Bits(decimalNumber) else WordDigits(decimalNumber)
  {
    var binN, i := Divide(decimalNumber);
    ghost var digits := binN[..i];
    assert binN[..32] == digits + seq(32 - i, _ => 0);
    TrailingZeros(digits, 32 - i);
    assert "" + Backward(digits) == Backward(digits);
    binaryNumber := PrintBackward(binN, if msb then i else 32);
  }

  /** The division loop: the digits, the lowest first, and how many there are. */
  method Divide(decimalNumber: nat) returns (binN: array<nat>, i: nat)
    requires decimalNumber < WORD
    ensures fresh(binN) && binN.Length == 65 && 1 <= i <= 32 && Printing(decimalNumber, 0, binN[..i], Width(decimalNumber))
    ensures forall k | i <= k < 65 :: binN[k] == 0
  {
    binN := new nat[65](_ => 0);
    ghost var width := Width(decimalNumber);
    WordIsPow(decimalNumber);
    var quotient: nat := decimalNumber / 2;
    binN[0] := decimalNumber % 2;
    i := 1;
    PrintFirst(decimalNumber, width);
    assert binN[..1] == [decimalNumber % 2];
    while quotient != 0
      invariant 1 <= i <= 32 && Printing(decimalNumber, quotient, binN[..i], width)
      invariant forall k | i <= k < 65 :: binN[k] == 0
    {
      ghost var digits := binN[..i];
      PrintDigit(decimalNumber, quotient, digits, width);
      binN[i] := quotient % 2;
      quotient := quotient / 2;
      i := i + 1;
      assert binN[..i] == digits + [binN[i - 1]];
    }
  }

  method PrintBackward(binN: array<nat>, length: nat) returns (binaryNumber: string)
    requires length <= binN.Length
    ensures binaryNumber == Backward(binN[..length])
  {
    binaryNumber := "";
    ghost var all, rest := Backward(binN[..length]), binN[..length];
    for i := length downto 0
      invariant rest == binN[..i] && binaryNumber + Backward(rest) == all
    {
      assert rest == binN[..i] + [binN[i]];
      BackwardSnoc(binN[..i], binN[i]);
      Assoc(binaryNumber, [Digit(binN[i])], Backward(binN[..i]));
      binaryNumber := binaryNumber + [if binN[i] != 0 then '1' else '0'];
      rest := binN[..i];
    }
  }

  function Avals(vs: seq<VecVal>): (ws: seq<nat>)
    ensures |ws| == |vs| && forall i | 0 <= i < |vs| :: ws[i] == vs[i].aval
  {
    if vs == [] then [] else [vs[0].aval] + Avals(vs[1..])
  }

  /** The string built when the words from i up are done. */
  predicate Built(low: seq<nat>, head: string, i: nat, buf: string) {
    i <= |low| + 1 && buf == if i == |low| + 1 then "" else head + Lower(low[i..])
  }

  lemma BuildTop(low: seq<nat>, head: string, buf: string)
    requires Built(low, head, |low| + 1, buf)
    ensures Built(low, head, |low|, buf + head)
  {
    assert low[|low|..] == [] && "" + head == head + "";
  }

  lemma BuildNext(low: seq<nat>, head: string, i: nat, buf: string)
    requires i < |low| && Built(low, head, i + 1, buf)
    ensures Built(low, head, i, buf + WordDigits(low[i]))
  {
    assert low[i..][1..] == low[i + 1..];
    Assoc(head, Lower(low[i + 1..]), WordDigits(low[i]));
  }

  lemma BuildEnd(ws: seq<nat>, size: nat, buf: string)
    requires size >= 1 && |ws| == Chunks(size) && |ws| >= 1
    requires Built(ws[..|ws| - 1], Take(Bits(ws[|ws| - 1]), TopShare(size)), 0, buf)
    ensures buf == ForceString(ws, size)
  {
    var low := ws[..|ws| - 1];
    assert low[0..] == low;
  }

  /** strncat of a word's digits. */
  method AppendWord(buf: string, aval: nat, msb: bool, sz: nat) returns (r: string)
    requires aval < WORD && (!msb ==> sz == 32)
    ensures r == buf + if msb then Take(Bits(aval), sz) else WordDigits(aval)
  {
    var forceValue := Dtob(aval, msb);
    r := buf + if |forceValue| <= sz then forceValue else forceValue[..sz];
  }

  /** The loop of uvm_hdl_set_mhdl that builds the string, from the top word down. */
  method BuildForceString(value: array<VecVal>, size: nat) returns (buf: string)
    requires size >= 1 && value.Length >= Chunks(size)
    requires AllWords(Avals(value[..Chunks(size)]))
    ensures buf == ForceString(Avals(value[..Chunks(size)]), size)
  {
    var maxI := CountChunks(size);
    ghost var ws := Avals(value[..maxI]);
    ghost var low, head := ws[..maxI - 1], Take(Bits(ws[maxI - 1]), TopShare(size));
    buf := "";
    for i := maxI downto 0
      invariant Built(low, head, i, buf)
    {
      assert ws[i] == value[i].aval < WORD;
      if i == maxI - 1 {
        BuildTop(low, head, buf);
      } else {
        BuildNext(low, head, i, buf);
      }
      buf := AppendWord(buf, value[i].aval, i == maxI - 1, if i == maxI - 1 then size - 32 * (maxI - 1) else 32);
    }
    BuildEnd(ws, size, buf);
  }

  /** The loops of uvm_hdl_get_mhdl over the words, the top word first, and over their characters. */
  method ParseWords(str: string, value: array<VecVal>)
    requires |str| >= 1 && value.Length >= Chunks(|str|)
    modifies value
    ensures forall j | 0 <= j < Chunks(|str|) :: value[j] == ShiftAll(old(value[j]), Share(str, j))
    ensures forall j | Chunks(|str|) <= j < value.Length :: value[j] == old(value[j])
  {
    var size := |str|;
    var maxI := CountChunks(size);
    var binVal := 0;
    for i := 0 to maxI
      invariant binVal == if i == 0 then 0 else size - 32 * (maxI - i)
      invariant forall j | maxI - i <= j < maxI :: value[j] == ShiftAll(old(value[j]), Share(str, j))
      invariant forall j | 0 <= j < value.Length && !(maxI - i <= j < maxI) :: value[j] == old(value[j])
    {
      var bits := if i == 0 then size - (maxI - 1) * 32 else 32;
      var sub := str[binVal..binVal + bits];
      var w := maxI - i - 1;
      assert sub == Share(str, w);
      ParseWord(sub, value, w);
      binVal := binVal + bits;
    }
  }

  method ParseWord(sub: string, value: array<VecVal>, w: nat)
    requires w < value.Length
    modifies value
    ensures value[w] == ShiftAll(old(value[w]), sub)
    ensures forall k | 0 <= k < value.Length && k != w :: value[k] == old(value[k])
  {
    for j := 0 to |sub|
      invariant value[w] == ShiftAll(old(value[w]), sub[..j])
      invariant forall k | 0 <= k < value.Length && k != w :: value[k] == old(value[k])
    {
      assert sub[..j + 1][..j] == sub[..j];
      var a, b := value[w].aval, value[w].bval;
      if sub[j] == '0' {
        value[w] := VecVal(2 * a % WORD, 2 * b % WORD);
      } else if sub[j] == '1' {
        value[w] := VecVal((2 * a + 1) % WORD, 2 * b % WORD);
      } else if sub[j] == 'Z' {
        value[w] := VecVal(2 * a % WORD, (2 * b + 1) % WORD);
      } else {
        value[w] := VecVal((2 * a + 1) % WORD, (2 * b + 1) % WORD);
      }
    }
    assert sub[..|sub|] == sub;
  }
}
