/** Where the bits of fields, arrays, words and characters lie, stated position by position. */
module PackerLayout {
  import opened Arithmetic
  import opened PackerCodec
  import opened Sequences

  /** Where element q of an array starts. */
  function Offset(width: nat, q: nat): nat {
    if q == 0 then 0 else width + Offset(width, q - 1)
  }

  lemma {:induction false} OffsetTimes(width: nat, i: nat)
    ensures Offset(width, i) == i * width
  {
    if i > 0 {
      OffsetTimes(width, i - 1);
    }
  }

  lemma {:induction false} Inside(k: nat, n: nat, width: nat)
    requires k < n
    ensures Offset(width, k) + width <= Offset(width, n)
    decreases n
  {
    if k < n - 1 {
      Inside(k, n - 1, width);
    }
  }

  /** Bit k of w is bit `at + k`, or with big_endian counted from the other end; behind the bits there are zeros. */
  predicate WordBit(bits: Vec, at: nat, be: bool, w: Vec, k: nat)
    requires k < |w|
  {
    var p := at + if be then |w| - 1 - k else k;
    w[k] == (p < |bits| && bits[p])
  }

  predicate WordAt(bits: Vec, at: nat, be: bool, w: Vec) {
    forall k: nat | k < |w| :: WordBit(bits, at, be, w, k)
  }

  /** Consecutive words of one width from position `at` on. */
  predicate WordsAt(bits: Vec, at: nat, be: bool, width: nat, ws: seq<Vec>)
    decreases |ws|
  {
    ws == [] || (|ws[0]| == width && WordAt(bits, at, be, ws[0]) && WordsAt(bits, at + width, be, width, ws[1..]))
  }

  /** As many words as it takes to hold the bits from position `at` on. */
  predicate JustEnough(bits: Vec, at: nat, width: nat, ws: seq<Vec>) {
    |bits| - at <= |ws| * width < |bits| - at + width
  }

  /** Bit r of element q, of an array whose first n bits lie from position `at` on, with big_endian in reverse. */
  predicate BitAt(bits: Vec, at: nat, be: bool, n: nat, width: nat, vs: seq<Vec>, q: nat, r: nat)
    requires q < |vs| && r < |vs[q]| && q * width + r < n && at + n <= |bits|
  {
    vs[q][r] == bits[at + if be then n - 1 - (q * width + r) else q * width + r]
  }

  /** The first n bits of an array lie from position `at` on. */
  predicate ArrayAt(bits: Vec, at: nat, be: bool, n: nat, width: nat, vs: seq<Vec>)
    requires AllWide(vs, width) && at + n <= |bits|
  {
    forall q: nat, r: nat | q < |vs| && r < width && q * width + r < n :: BitAt(bits, at, be, n, width, vs, q, r)
  }

  /** Bit r of element q was taken from the first n of the bits, or is still what it was. */
  predicate TakenOrKept(be: bool, bits: Vec, n: nat, width: nat, was: seq<Vec>, vs: seq<Vec>, q: nat, r: nat)
    requires q < |vs| == |was| && r < |vs[q]| && r < |was[q]| && n <= |bits|
  {
    if q * width + r < n then BitAt(bits, 0, be, n, width, vs, q, r) else vs[q][r] == was[q][r]
  }

  /** The first n bits of an array were taken off the bits, the others are as they were. */
  predicate ArrayFilled(be: bool, bits: Vec, n: nat, width: nat, was: seq<Vec>, vs: seq<Vec>)
    requires AllWide(vs, width) && AllWide(was, width) && |vs| == |was| && n <= |bits|
  {
    forall q: nat, r: nat | q < |vs| && r < width :: TakenOrKept(be, bits, n, width, was, vs, q, r)
  }

  /** Characters read off a stream, each with some bit set, up to 8 zeros that are skipped or to fewer than 8 bits. */
  predicate TextRead(be: bool, bits: Vec, chars: seq<Vec>, rest: Vec) {
    var n := |chars| * 8;
    && n <= |bits| && WordsAt(bits, 0, be, 8, chars) && (forall i: nat | i < |chars| :: true in chars[i])
    && (if |bits| < n + 8 then rest == bits[n..] else true !in bits[n..n + 8] && rest == bits[n + 8..])
  }

  // ----- The codec lays bits out in this way

  lemma {:induction false} BitOfElement(vs: seq<Vec>, width: nat, q: nat, r: nat)
    requires AllWide(vs, width) && q < |vs| && r < width
    ensures Offset(width, q) + r < |Flatten(vs)| && Flatten(vs)[Offset(width, q) + r] == vs[q][r]
    decreases q
  {
    if q > 0 {
      BitOfElement(vs[1..], width, q - 1, r);
    }
  }

  lemma BitOfArray(vs: seq<Vec>, width: nat, q: nat, r: nat)
    requires AllWide(vs, width) && q < |vs| && r < width
    ensures q * width + r < |Flatten(vs)| && Flatten(vs)[q * width + r] == vs[q][r]
  {
    OffsetTimes(width, q);
    BitOfElement(vs, width, q, r);
  }

  /** Bit i of a field that was laid down as its n bits. */
  lemma LaidBit(be: bool, before: Vec, flat: Vec, laid: Vec, n: nat, i: nat)
    requires i < n <= |flat| && laid == Laid(be, flat[..n])
    ensures flat[i] == (before + laid)[|before| + if be then n - 1 - i else i]
  {
    LaidOrder(be, flat[..n], if be then n - 1 - i else i);
  }

  lemma LaidArrayBit(be: bool, before: Vec, width: nat, vs: seq<Vec>, n: nat, laid: Vec, q: nat, r: nat)
    requires AllWide(vs, width) && n <= |Flatten(vs)| && laid == Laid(be, Flatten(vs)[..n])
    requires q < |vs| && r < width && q * width + r < n
    ensures BitAt(before + laid, |before|, be, n, width, vs, q, r)
  {
    BitOfArray(vs, width, q, r);
    LaidBit(be, before, Flatten(vs), laid, n, q * width + r);
  }

  lemma LaidArray(be: bool, before: Vec, width: nat, vs: seq<Vec>, n: nat, laid: Vec)
    requires AllWide(vs, width) && n <= |Flatten(vs)| && laid == Laid(be, Flatten(vs)[..n])
    ensures ArrayAt(before + laid, |before|, be, n, width, vs)
  {
    forall q: nat, r: nat | q < |vs| && r < width && q * width + r < n
      ensures BitAt(before + laid, |before|, be, n, width, vs, q, r)
    {
      LaidArrayBit(be, before, width, vs, n, laid, q, r);
    }
  }

  lemma FilledBit(be: bool, bits: Vec, laid: Vec, flat: Vec, n: nat, i: nat)
    requires n <= |bits| && n <= |flat| && laid == Laid(be, bits[..n]) && i < |flat|
    ensures (laid + flat[n..])[i] == if i < n then bits[if be then n - 1 - i else i] else flat[i]
  {
    if i < n {
      LaidOrder(be, bits[..n], i);
    }
  }

  lemma FilledArrayBit(be: bool, bits: Vec, width: nat, was: seq<Vec>, vs: seq<Vec>, n: nat, q: nat, r: nat, o: nat)
    requires AllWide(was, width) && AllWide(vs, width) && |vs| == |was| && q < |vs| && r < width && o == q * width + r
    requires n <= |bits| && n <= |Flatten(was)| && o < |Flatten(was)| == |Flatten(vs)|
    requires Flatten(vs)[o] == if o < n then bits[if be then n - 1 - o else o] else Flatten(was)[o]
    ensures TakenOrKept(be, bits, n, width, was, vs, q, r)
  {
    BitOfArray(vs, width, q, r);
    if o >= n {
      BitOfArray(was, width, q, r);
    }
  }

  lemma FilledArrayStep(be: bool, bits: Vec, width: nat, was: seq<Vec>, vs: seq<Vec>, n: nat, laid: Vec, q: nat, r: nat)
    requires AllWide(was, width) && AllWide(vs, width) && |vs| == |was| && n <= |bits| && n <= |Flatten(was)|
    requires laid == Laid(be, bits[..n]) && Flatten(vs) == laid + Flatten(was)[n..] && q < |vs| && r < width
    ensures TakenOrKept(be, bits, n, width, was, vs, q, r)
  {
    var o := q * width + r;
    BitOfArray(was, width, q, r);
    FilledBit(be, bits, laid, Flatten(was), n, o);
    FilledArrayBit(be, bits, width, was, vs, n, q, r, o);
  }

  lemma FilledArray(be: bool, bits: Vec, width: nat, was: seq<Vec>, vs: seq<Vec>, n: nat, laid: Vec)
    requires AllWide(was, width) && AllWide(vs, width) && |vs| == |was| && n <= |bits| && n <= |Flatten(was)|
    requires laid == Laid(be, bits[..n]) && Flatten(vs) == laid + Flatten(was)[n..]
    ensures ArrayFilled(be, bits, n, width, was, vs)
  {
    forall q: nat, r: nat | q < |vs| && r < width ensures TakenOrKept(be, bits, n, width, was, vs, q, r) {
      FilledArrayStep(be, bits, width, was, vs, n, laid, q, r);
    }
  }

  /** Bit p of v is bit p of a stream, or zero behind its end. */
  predicate PaddedAt(bits: Vec, v: Vec, p: nat)
    requires p < |v|
  {
    v[p] == (p < |bits| && bits[p])
  }

  predicate Padded(bits: Vec, v: Vec) {
    forall p: nat | p < |v| :: PaddedAt(bits, v, p)
  }

  lemma PaddedWord(bits: Vec, v: Vec)
    requires if |bits| < |v| then v == bits + Zeros(|v| - |bits|) else v == bits[..|v|]
    ensures Padded(bits, v)
  {
  }

  lemma SameBit(be: bool, bits: Vec, v: Vec, w: Vec, k: nat, p: nat)
    requires k < |w| == |v| && p == (if be then |w| - 1 - k else k) && w[k] == v[p] && PaddedAt(bits, v, p)
    ensures WordBit(bits, 0, be, w, k)
  {
  }

  lemma PaddedLaid(be: bool, bits: Vec, v: Vec)
    requires Padded(bits, v)
    ensures WordAt(bits, 0, be, Laid(be, v))
  {
    var w := Laid(be, v);
    forall k: nat | k < |w| ensures WordBit(bits, 0, be, w, k) {
      LaidOrder(be, v, k);
      SameBit(be, bits, v, w, k, if be then |w| - 1 - k else k);
    }
  }

  lemma LaidWord(be: bool, bits: Vec, v: Vec)
    requires if |bits| < |v| then v == bits + Zeros(|v| - |bits|) else v == bits[..|v|]
    ensures WordAt(bits, 0, be, Laid(be, v))
  {
    PaddedWord(bits, v);
    PaddedLaid(be, bits, v);
  }

  lemma LaterWord(first: Vec, bits: Vec, at: nat, be: bool, w: Vec)
    requires WordAt(bits, at, be, w)
    ensures WordAt(first + bits, |first| + at, be, w)
  {
    var all, from := first + bits, |first| + at;
    forall k: nat | k < |w| ensures WordBit(all, from, be, w, k) {
      assert WordBit(bits, at, be, w, k);
    }
  }

  lemma {:induction false} LaterWords(first: Vec, bits: Vec, at: nat, be: bool, width: nat, ws: seq<Vec>)
    requires WordsAt(bits, at, be, width, ws)
    ensures WordsAt(first + bits, |first| + at, be, width, ws)
    decreases |ws|
  {
    if ws != [] {
      LaterWord(first, bits, at, be, ws[0]);
      LaterWords(first, bits, at + width, be, width, ws[1..]);
    }
  }

  /** The exported words hold the stream and the zeros that fill the last one. */
  lemma {:induction false} ExportLays(be: bool, width: nat, bits: Vec)
    requires width > 0
    ensures WordsAt(bits, 0, be, width, Export(be, width, bits))
    ensures |Export(be, width, bits)| * width == |bits| + Padding(width, |bits|)
    decreases |bits|
  {
    if bits != [] && |bits| < width {
      LaidWord(be, bits, bits + Zeros(width - |bits|));
    } else if bits != [] {
      var first, rest := bits[..width], bits[width..];
      ExportLays(be, width, rest);
      LaidWord(be, bits, first);
      LaterWords(first, rest, 0, be, width, Export(be, width, rest));
      assert first + rest == bits;
      assert Export(be, width, bits)[1..] == Export(be, width, rest);
      Scaled(|Export(be, width, bits)|, width);
    }
  }

  lemma {:induction false} ImportLays(be: bool, width: nat, ws: seq<Vec>, tail: Vec)
    requires AllWide(ws, width)
    ensures WordsAt(Import(be, ws) + tail, 0, be, width, ws) && |Import(be, ws)| == |ws| * width
    decreases |ws|
  {
    if ws != [] {
      var first, rest := Laid(be, ws[0]), Import(be, ws[1..]) + tail;
      ImportLays(be, width, ws[1..], tail);
      Assoc(first, Import(be, ws[1..]), tail);
      LaidTwice(be, ws[0]);
      LaidWord(be, first + rest, first);
      LaterWords(first, rest, 0, be, width, ws[1..]);
      Scaled(|ws|, width);
    }
  }

  /** A stream that starts at position 64, seen from the whole of the bits. */
  lemma WordsExported(be: bool, width: nat, bits: Vec)
    requires width > 0 && |bits| >= 64
    ensures var ws := Export(be, width, bits[64..]);
            WordsAt(bits, 64, be, width, ws) && JustEnough(bits, 64, width, ws)
  {
    ExportLays(be, width, bits[64..]);
    LaterWords(bits[..64], bits[64..], 0, be, width, Export(be, width, bits[64..]));
    assert bits[..64] + bits[64..] == bits;
  }

  lemma WordsImported(be: bool, width: nat, ws: seq<Vec>)
    requires AllWide(ws, width)
    ensures WordsAt(Import(be, ws), 0, be, width, ws)
  {
    ImportLays(be, width, ws, []);
    assert Import(be, ws) + [] == Import(be, ws);
  }

  lemma {:induction false} TextIsImport(be: bool, chars: seq<Vec>)
    ensures TextBits(be, chars) == Import(be, chars)
    decreases |chars|
  {
    if chars != [] {
      TextIsImport(be, chars[1..]);
    }
  }

  lemma TextLays(be: bool, before: Vec, chars: seq<Vec>, tail: Vec)
    requires AllWide(chars, 8)
    ensures WordsAt(before + TextBits(be, chars) + tail, |before|, be, 8, chars)
    ensures |TextBits(be, chars)| == |chars| * 8
  {
    TextIsImport(be, chars);
    ImportLays(be, 8, chars, tail);
    Assoc(before, Import(be, chars), tail);
    LaterWords(before, Import(be, chars) + tail, 0, be, 8, chars);
  }

  lemma NotNul(be: bool, c: Vec)
    requires |c| == 8
    ensures c == NUL <==> true !in c
    ensures c != NUL ==> true in Laid(be, c)
  {
    if c != NUL {
      var k: nat :| k < 8 && c[k];
      assert Laid(be, c)[if be then 7 - k else k];
    }
  }

  lemma TextReadCons(be: bool, first: Vec, c: Vec, bits: Vec, chars: seq<Vec>, rest: Vec)
    requires |first| == |c| == 8 && WordAt(first + bits, 0, be, c) && true in c && TextRead(be, bits, chars, rest)
    ensures TextRead(be, first + bits, [c] + chars, rest)
  {
    LaterWords(first, bits, 0, be, 8, chars);
    assert ([c] + chars)[1..] == chars;
    var n := |chars| * 8;
    assert (first + bits)[n + 8..] == bits[n..];
    if |bits| >= n + 8 {
      assert (first + bits)[n + 8..n + 16] == bits[n..n + 8] && (first + bits)[n + 16..] == bits[n + 8..];
    }
  }

  lemma {:induction false} TextDecoded(be: bool, bits: Vec)
    ensures var (chars, rest) := DecodeText(be, bits); TextRead(be, bits, chars, rest)
    decreases |bits|
  {
    if |bits| >= 8 {
      NotNul(be, bits[..8]);
      if bits[..8] != NUL {
        var (chars, rest) := DecodeText(be, bits[8..]);
        TextDecoded(be, bits[8..]);
        LaidWord(be, bits, bits[..8]);
        assert bits[..8] + bits[8..] == bits;
        TextReadCons(be, bits[..8], Laid(be, bits[..8]), bits[8..], chars, rest);
      }
    }
  }
}
