/** The compatibility packer: a bit array with a pack and an unpack position. */
module Packer {
  import opened PackerCodec
  import opened PackerLayout
  import opened Sequences

  /** The element widths of bytes, ints and longints. */
  predicate WordWidth(width: nat) {
    width == 8 || width == 32 || width == 64
  }

  /** The element widths of the arrays that are packed: bits, bytes and ints. */
  predicate ElementWidth(width: nat) {
    width == 1 || WordWidth(width)
  }

  lemma NextElement(width: nat, idx: nat)
    requires ElementWidth(width) && width <= idx
    ensures (idx - width) / width == idx / width - 1 && (idx - width) % width == idx % width
  {
  }

  lemma {:induction false} OffsetOf(width: nat, idx: nat)
    requires ElementWidth(width)
    ensures idx == Offset(width, idx / width) + idx % width
  {
    if idx >= width {
      NextElement(width, idx);
      OffsetOf(width, idx - width);
    }
  }

  lemma {:induction false} ElementInside(vs: seq<Vec>, width: nat, q: nat, r: nat)
    requires AllWide(vs, width) && r < width && Offset(width, q) + r < |Flatten(vs)|
    ensures q < |vs|
    decreases q
  {
    if q > 0 {
      ElementInside(vs[1..], width, q - 1, r);
    }
  }

  lemma UpdateLeft(a: Vec, c: Vec, i: nat, b: bool)
    requires i < |a|
    ensures a[i := b] + c == (a + c)[i := b]
  {
  }

  lemma UpdateRight(a: Vec, c: Vec, i: nat, b: bool)
    requires |a| <= i < |a| + |c|
    ensures a + c[i - |a| := b] == (a + c)[i := b]
  {
  }

  lemma {:induction false} FlattenUpdate(vs: seq<Vec>, width: nat, q: nat, r: nat, idx: nat, b: bool)
    requires AllWide(vs, width) && q < |vs| && r < width && idx == Offset(width, q) + r && idx < |Flatten(vs)|
    ensures Flatten(WithBit(vs, q, r, b)) == Flatten(vs)[idx := b]
    decreases q
  {
    if q > 0 {
      FlattenUpdate(vs[1..], width, q - 1, r, idx - width, b);
      WithBitTail(vs, q, r, b);
      UpdateRight(vs[0], Flatten(vs[1..]), idx, b);
    } else {
      WithBitHead(vs, r, b);
      UpdateLeft(vs[0], Flatten(vs[1..]), r, b);
    }
  }

  /** The array with bit r of element q replaced. */
  function WithBit(vs: seq<Vec>, q: nat, r: nat, b: bool): seq<Vec>
    requires q < |vs| && r < |vs[q]|
  {
    vs[q := vs[q][r := b]]
  }

  lemma WithBitTail(vs: seq<Vec>, q: nat, r: nat, b: bool)
    requires 0 < q < |vs| && r < |vs[q]|
    ensures WithBit(vs, q, r, b)[1..] == WithBit(vs[1..], q - 1, r, b) && WithBit(vs, q, r, b)[0] == vs[0]
  {
  }

  lemma WithBitHead(vs: seq<Vec>, r: nat, b: bool)
    requires vs != [] && r < |vs[0]|
    ensures WithBit(vs, 0, r, b)[1..] == vs[1..] && WithBit(vs, 0, r, b)[0] == vs[0][r := b]
  {
  }

  /** flat with its first i bits taken from laid. */
  function Blend(laid: Vec, flat: Vec, i: nat): (r: Vec)
    requires i <= |laid| <= |flat|
    ensures |r| == |flat|
  {
    laid[..i] + flat[i..]
  }

  lemma FillStep(laid: Vec, flat: Vec, i: nat, b: bool)
    requires i < |laid| <= |flat| && b == laid[i]
    ensures Blend(laid, flat, i)[i := b] == Blend(laid, flat, i + 1)
  {
  }

  /** value.size() * $bits(element). */
  method MaxSize(vs: seq<Vec>, width: nat) returns (n: nat)
    requires AllWide(vs, width)
    ensures n == |Flatten(vs)|
  {
    FlattenLength(vs, width);
    n := |vs| * width;
  }

  lemma Element(vs: seq<Vec>, width: nat, idx: nat)
    requires ElementWidth(width) && AllWide(vs, width) && idx < |Flatten(vs)|
    ensures idx / width < |vs| && Flatten(vs)[idx] == vs[idx / width][idx % width]
  {
    OffsetOf(width, idx);
    ElementInside(vs, width, idx / width, idx % width);
    BitOfElement(vs, width, idx / width, idx % width);
  }

  /** Bit idx of an array, counted through its elements. */
  method ElementBit(vs: seq<Vec>, width: nat, idx: nat) returns (b: bool)
    requires ElementWidth(width) && AllWide(vs, width) && idx < |Flatten(vs)|
    ensures b == Flatten(vs)[idx]
  {
    Element(vs, width, idx);
    b := vs[idx / width][idx % width];
  }

  method SetElementBit(vs: seq<Vec>, width: nat, idx: nat, b: bool) returns (vs': seq<Vec>)
    requires ElementWidth(width) && AllWide(vs, width) && idx < |Flatten(vs)|
    ensures |vs'| == |vs| && AllWide(vs', width) && Flatten(vs') == Flatten(vs)[idx := b]
  {
    Element(vs, width, idx);
    OffsetOf(width, idx);
    FlattenUpdate(vs, width, idx / width, idx % width, idx, b);
    vs' := vs[idx / width := vs[idx / width][idx % width := b]];
  }

  lemma Bytes(n: nat, i: nat)
    ensures i < (n + 7) / 8 <==> i * 8 < n
    ensures i * 8 < n ==> (i == (n + 7) / 8 - 1 <==> n <= i * 8 + 8)
    ensures i * 8 < n <= i * 8 + 8 ==> (64 + n) % 8 == if n == i * 8 + 8 then 0 else n - i * 8
  {
  }

  lemma Ints(n: nat, i: nat)
    ensures i < (n + 31) / 32 <==> i * 32 < n
    ensures i * 32 < n ==> (i == (n + 31) / 32 - 1 <==> n <= i * 32 + 32)
    ensures i * 32 < n <= i * 32 + 32 ==> (64 + n) % 32 == if n == i * 32 + 32 then 0 else n - i * 32
  {
  }

  lemma Longints(n: nat, i: nat)
    ensures i < (n + 63) / 64 <==> i * 64 < n
    ensures i * 64 < n ==> (i == (n + 63) / 64 - 1 <==> n <= i * 64 + 64)
    ensures i * 64 < n <= i * 64 + 64 ==> (64 + n) % 64 == if n == i * 64 + 64 then 0 else n - i * 64
  {
  }

  function Count(n: nat, width: nat): (bits: nat)
    ensures bits == Offset(width, n)
  {
    OffsetTimes(width, n);
    n * width
  }

  /** How the words of a stream of n bits, exported from position 64 on, fall on the bit array. */
  lemma WordPosition(n: nat, width: nat, i: nat)
    requires WordWidth(width)
    ensures i < (n + width - 1) / width <==> Offset(width, i) < n
    ensures (i + 64 / width) * width == 64 + Offset(width, i)
    ensures Offset(width, i) < n ==> (i == (n + width - 1) / width - 1 <==> n <= Offset(width, i) + width)
    ensures Offset(width, i) < n <= Offset(width, i) + width ==>
              (64 + n) % width == if n == Offset(width, i) + width then 0 else n - Offset(width, i)
  {
    OffsetTimes(width, i);
    if width == 8 {
      Bytes(n, i);
    } else if width == 32 {
      Ints(n, i);
    } else {
      Longints(n, i);
    }
  }

  lemma WordFits(n: nat, length: nat, width: nat, i: nat)
    requires WordWidth(width) && length % 64 == 0 && 64 + Offset(width, i) < n <= length
    ensures 64 + Offset(width, i) + width <= length
  {
    OffsetTimes(width, i);
    var q := length / 64;
    if width == 8 {
      assert 8 + i < 8 * q;
    } else if width == 32 {
      assert 2 + i < 2 * q;
    } else {
      assert 1 + i < q;
    }
  }

  /** v with all but its low n bits cleared. */
  function Mask(v: Vec, n: nat): Vec
    requires n <= |v|
  {
    v[..n] + Zeros(|v| - n)
  }

  function After(at: nat, v: Vec): Vec {
    if at < |v| then v[at..] else []
  }

  function FirstWord(width: nat, rest: Vec): Vec {
    if |rest| < width then rest + Zeros(width - |rest|) else rest[..width]
  }

  /** The next word of a stream that ends at `end`, read off the array with whatever follows. */
  lemma FirstWordIs(all: Vec, at: nat, end: nat, width: nat)
    requires at < end <= |all| && at + width <= |all|
    ensures FirstWord(width, all[at..end]) ==
              if at + width <= end then all[at..at + width] else Mask(all[at..at + width], end - at)
  {
    if at + width <= end {
      SliceParts(all, at, end, width);
    } else {
      SliceParts(all, at, at + width, end - at);
    }
  }

  /** The words so far, and those of the stream from `at` on, are all the words. */
  ghost predicate Exporting(be: bool, width: nat, all: Vec, at: nat, words: seq<Vec>)
    requires width > 0
  {
    words + Export(be, width, After(at, all)) == Export(be, width, all)
  }

  lemma ExportStart(be: bool, width: nat, all: Vec)
    requires width > 0
    ensures Exporting(be, width, all, 0, [])
  {
    assert After(0, all) == all;
  }

  lemma ExportStep(be: bool, width: nat, all: Vec, at: nat, words: seq<Vec>)
    requires width > 0 && at < |all| && Exporting(be, width, all, at, words)
    ensures Exporting(be, width, all, at + width, words + [Laid(be, FirstWord(width, all[at..]))])
  {
    var rest := all[at..];
    if width <= |rest| {
      assert After(at + width, all) == rest[width..];
    }
    var word, later := Laid(be, FirstWord(width, rest)), Export(be, width, After(at + width, all));
    assert words + ([word] + later) == words + [word] + later;
  }

  lemma ExportEnd(be: bool, width: nat, all: Vec, at: nat, words: seq<Vec>)
    requires width > 0 && at >= |all| && Exporting(be, width, all, at, words)
    ensures words == Export(be, width, all)
  {
    assert words + [] == words;
  }

  lemma NothingBefore(a: Vec, v: Vec)
    requires a == []
    ensures a + v == v
  {
  }

  lemma SliceParts(all: Vec, from: nat, to: nat, n: nat)
    requires from + n <= to <= |all|
    ensures all[from..to][..n] == all[from..from + n] && all[from..to][n..] == all[from + n..to]
  {
  }

  lemma LaidSoFar(before: Vec, laid: Vec)
    ensures before == before + laid[..0] && before + laid[..|laid|] == before + laid
  {
    assert laid[..|laid|] == laid;
  }

  lemma LayNext(before: Vec, laid: Vec, i: nat)
    requires i < |laid|
    ensures before + laid[..i + 1] == (before + laid[..i]) + [laid[i]]
  {
  }

  /** The bits so far and those of the remaining words are all the bits. */
  ghost predicate Importing(be: bool, done: Vec, rest: seq<Vec>, all: Vec) {
    done + Import(be, rest) == all
  }

  lemma ImportStart(be: bool, done: Vec, rest: seq<Vec>)
    requires done == []
    ensures Importing(be, done, rest, Import(be, rest))
  {
  }

  lemma ImportStep(be: bool, done: Vec, rest: seq<Vec>, all: Vec)
    requires rest != [] && Importing(be, done, rest, all)
    ensures Importing(be, done + Laid(be, rest[0]), rest[1..], all)
  {
    Assoc(done, Laid(be, rest[0]), Import(be, rest[1..]));
  }

  lemma ImportEnd(be: bool, done: Vec, all: Vec)
    requires Importing(be, done, [], all)
    ensures done == all
  {
    assert done + [] == done;
  }

  /** A decoded text with characters put in front. */
  function Prefixed(chars: seq<Vec>, d: (seq<Vec>, Vec)): (seq<Vec>, Vec) {
    (chars + d.0, d.1)
  }

  lemma NoChars(cs: seq<Vec>)
    ensures [] + cs == cs
  {
  }

  lemma TextStep(be: bool, chars: seq<Vec>, was: Vec)
    requires |was| >= 8 && was[..8] != NUL
    ensures Prefixed(chars, DecodeText(be, was)) == Prefixed(chars + [Laid(be, was[..8])], DecodeText(be, was[8..]))
  {
    var d := DecodeText(be, was[8..]);
    assert chars + ([Laid(be, was[..8])] + d.0) == chars + [Laid(be, was[..8])] + d.0;
  }

  lemma TextEnd(be: bool, chars: seq<Vec>, was: Vec)
    requires |was| < 8 || was[..8] == NUL
    ensures Prefixed(chars, DecodeText(be, was)) == (chars, if |was| < 8 then was else was[8..])
  {
    assert chars + [] == chars;
  }

  lemma FillStart(laid: Vec, flat: Vec)
    ensures |laid| <= |flat| ==> Blend(laid, flat, 0) == flat
  {
  }

  lemma FillEnd(laid: Vec, flat: Vec)
    requires |laid| <= |flat|
    ensures Blend(laid, flat, |laid|) == laid + flat[|laid|..]
  {
    assert laid[..|laid|] == laid;
  }

  lemma WholeBits(v: Vec, laid: Vec)
    requires |v| == |laid| && v[..|v|] == laid[..|v|]
    ensures v == laid
  {
    assert v[..|v|] == v && laid[..|v|] == laid;
  }

  /** n bits were taken off a stream and laid into the first n bits of an array, the others unchanged. */
  ghost predicate Filled(be: bool, value: seq<Vec>, result: seq<Vec>, n: nat, before: Vec, after: Vec)
    requires n <= |before| && n <= |Flatten(value)|
  {
    Flatten(result) == Laid(be, before[..n]) + Flatten(value)[n..] && after == before[n..]
  }

  /** Filling a whole array is what the codec's decoding of an array does. */
  lemma WholeArrayIsDecoded(be: bool, width: nat, value: seq<Vec>, result: seq<Vec>, before: Vec, after: Vec)
    requires AllWide(value, width) && AllWide(result, width) && |result| == |value| && |Flatten(value)| <= |before|
    requires Filled(be, value, result, |Flatten(value)|, before, after)
    ensures (result, after) == DecodeElements(be, width, value, before)
  {
    var n := |Flatten(value)|;
    FlattenLength(value, width);
    UnflattenFlatten(result, width);
    assert Laid(be, before[..n]) + Flatten(value)[n..] == Laid(be, before[..n]);
  }

  lemma NextBit(v: Vec, laid: Vec, i: nat, b: bool)
    requires i < |v| == |laid| && v[..i] == laid[..i] && b == laid[i]
    ensures v[i := b][..i + 1] == laid[..i + 1]
  {
  }

  class Packer {
    const bigEndian: bool
    const useMetadata: bool
    const bits: array<bool>
    var packIter: nat
    var unpackIter: nat

    ghost predicate Valid()
      reads this, bits
    {
      unpackIter <= packIter <= bits.Length && bits.Length % 64 == 0
    }

    /** What is still to be unpacked. */
    ghost function Remaining(): Vec
      requires Valid()
      reads this, bits
    {
      bits[unpackIter..packIter]
    }

    constructor (bigEndian: bool, useMetadata: bool, capacity: nat)
      requires capacity >= 64 && capacity % 64 == 0
      ensures Valid() && fresh(bits) && bits.Length == capacity
      ensures this.bigEndian == bigEndian && this.useMetadata == useMetadata
      ensures packIter == 64 && unpackIter == 64
    {
      this.bigEndian, this.useMetadata := bigEndian, useMetadata;
      bits := new bool[capacity](_ => false);
      packIter, unpackIter := 64, 64;
    }

    // ----- Packing

    /** A slice assignment. */
    method Write(at: nat, v: Vec)
      requires at + |v| <= bits.Length
      modifies bits
      ensures bits[..at + |v|] == old(bits[..at]) + v
    {
      forall i | 0 <= i < |v| {
        bits[at + i] := v[i];
      }
    }

    /** pack_field and pack_field_int: the low `size` bits of a value. */
    method PackField(value: Vec, size: nat)
      requires Valid() && size <= |value| && packIter + size <= bits.Length
      modifies this`packIter, bits
      ensures Valid() && packIter == old(packIter) + size && unpackIter == old(unpackIter)
      ensures bits[..packIter] == old(bits[..packIter]) + Laid(bigEndian, value[..size])
      ensures forall i: nat | i < size :: bits[old(packIter) + i] == if bigEndian then value[size - 1 - i] else value[i]
    {
      ghost var before, laid := bits[..packIter], Laid(bigEndian, value[..size]);
      var p := packIter;
      LaidSoFar(before, laid);
      for i := 0 to size
        modifies bits
        invariant bits[..p + i] == before + laid[..i]
      {
        LayNext(before, laid, i);
        Write(p + i, [if bigEndian then value[size - 1 - i] else value[i]]);
      }
      packIter := p + size;
    }

    /** pack_bits, pack_bytes and pack_ints: the first `size` bits of an array, all of it by default; too large a size packs nothing. */
    method PackElements(value: seq<Vec>, width: nat, size: int)
      requires Valid() && ElementWidth(width) && AllWide(value, width)
      requires size > |Flatten(value)| || packIter + (if size < 0 then |Flatten(value)| else size) <= bits.Length
      modifies this`packIter, bits
      ensures Valid() && unpackIter == old(unpackIter)
      ensures var n := if size < 0 then |Flatten(value)| else size;
              if n > |Flatten(value)| then packIter == old(packIter) && bits[..] == old(bits[..])
              else bits[..packIter] == old(bits[..packIter]) + Laid(bigEndian, Flatten(value)[..n])
      ensures var n := if size < 0 then |value| * width else size;
              n <= |value| * width ==>
                packIter == old(packIter) + n && ArrayAt(bits[..packIter], old(packIter), bigEndian, n, width, value)
    {
      var maxSize := MaxSize(value, width);
      var n := if size < 0 then maxSize else size;
      FlattenLength(value, width);
      if n > maxSize { return; }
      ghost var before := bits[..packIter];
      PutElements(value, width, n);
      LaidArray(bigEndian, before, width, value, n, Laid(bigEndian, Flatten(value)[..n]));
    }

    /** The loop over the array's first n bits. */
    method PutElements(value: seq<Vec>, width: nat, n: nat)
      requires Valid() && ElementWidth(width) && AllWide(value, width) && n <= |Flatten(value)| && packIter + n <= bits.Length
      modifies this`packIter, bits
      ensures Valid() && unpackIter == old(unpackIter)
      ensures bits[..packIter] == old(bits[..packIter]) + Laid(bigEndian, Flatten(value)[..n])
    {
      ghost var before, laid := bits[..packIter], Laid(bigEndian, Flatten(value)[..n]);
      var p := packIter;
      LaidSoFar(before, laid);
      for i := 0 to n
        modifies bits
        invariant bits[..p + i] == before + laid[..i]
      {
        var idxSelect := if bigEndian then n - 1 - i else i;
        var b := ElementBit(value, width, idxSelect);
        LayNext(before, laid, i);
        assert b == Flatten(value)[..n][idxSelect];
        Write(p + i, [b]);
      }
      packIter := p + n;
    }

    /** pack_string: each character laid down, then a NUL if metadata is used. */
    method PackString(value: seq<Vec>)
      requires Valid() && AllWide(value, 8)
      requires packIter + |TextBits(bigEndian, value)| + (if useMetadata then 8 else 0) <= bits.Length
      modifies this`packIter, bits
      ensures Valid() && unpackIter == old(unpackIter)
      ensures bits[..packIter] == old(bits[..packIter]) + TextBits(bigEndian, value) + (if useMetadata then NUL else [])
      ensures packIter == old(packIter) + |value| * 8 + (if useMetadata then 8 else 0)
      ensures WordsAt(bits[..packIter], old(packIter), bigEndian, 8, value)
      ensures useMetadata ==> true !in bits[packIter - 8..packIter]
    {
      TextLays(bigEndian, bits[..packIter], value, if useMetadata then NUL else []);
      ghost var target := bits[..packIter] + TextBits(bigEndian, value);
      ghost var rest := value;
      for k := 0 to |value|
        invariant Valid() && unpackIter == old(unpackIter) && rest == value[k..]
        invariant packIter + |TextBits(bigEndian, rest)| + (if useMetadata then 8 else 0) <= bits.Length
        invariant bits[..packIter] + TextBits(bigEndian, rest) == target
      {
        ghost var done := bits[..packIter];
        assert rest[0] == value[k] && value[k][..8] == value[k];
        PackField(value[k], 8);
        Assoc(done, Laid(bigEndian, value[k]), TextBits(bigEndian, rest[1..]));
        rest := rest[1..];
      }
      assert bits[..packIter] == target;
      if useMetadata {
        assert NUL[..8] == NUL && Laid(bigEndian, NUL) == NUL;
        PackField(NUL, 8);
        assert bits[packIter - 8..packIter] == NUL;
      }
    }

    // ----- Unpacking

    function EnoughBits(needed: nat): bool
      requires Valid()
      reads this, bits
    {
      packIter - unpackIter >= needed
    }

    /** Bit i of a value of `size` bits that ends before position `at`. */
    method UnpackBit(at: nat, size: nat, i: nat) returns (b: bool)
      requires i < size <= at <= bits.Length
      ensures b == Laid(bigEndian, bits[at - size..at])[i]
    {
      b := if bigEndian then bits[at - i - 1] else bits[at - size + i];
      assert b == bits[at - size..at][if bigEndian then size - 1 - i else i];
    }

    /** unpack_field and unpack_field_int: the low `size` bits of the result; the bits above are zero. */
    method UnpackField(size: nat) returns (value: Vec)
      requires Valid()
      modifies this`unpackIter
      ensures Valid()
      ensures (value, Remaining()) == DecodeField(bigEndian, size, old(Remaining()))
      ensures var before := old(Remaining());
              && |value| == size && Remaining() == (if |before| < size then before else before[size..])
              && forall i: nat | i < size ::
                   value[i] == (size <= |before| && before[if bigEndian then size - 1 - i else i])
    {
      value := Zeros(size);
      if EnoughBits(size) {
        value := TakeField(size);
      }
    }

    method TakeField(size: nat) returns (value: Vec)
      requires Valid() && size <= |Remaining()|
      modifies this`unpackIter
      ensures Valid()
      ensures value == Laid(bigEndian, old(Remaining())[..size]) && Remaining() == old(Remaining())[size..]
    {
      ghost var laid := Laid(bigEndian, Remaining()[..size]);
      SliceParts(bits[..], unpackIter, packIter, size);
      var at := unpackIter + size;
      unpackIter := at;
      value := Zeros(size);
      for i := 0 to size
        invariant unpackIter == at && |value| == size && value[..i] == laid[..i]
      {
        var b := UnpackBit(at, size, i);
        NextBit(value, laid, i, b);
        value := value[i := b];
      }
      WholeBits(value, laid);
    }

    /** unpack_bits, unpack_bytes and unpack_ints into the first `size` bits of an array, all of it by default. */
    method UnpackElements(value: seq<Vec>, width: nat, size: int) returns (result: seq<Vec>)
      requires Valid() && ElementWidth(width) && AllWide(value, width)
      modifies this`unpackIter
      ensures Valid() && |result| == |value| && AllWide(result, width)
      ensures var n := if size < 0 then |Flatten(value)| else size;
              if n > |Flatten(value)| || n > |old(Remaining())|
              then result == value && Remaining() == old(Remaining())
              else Filled(bigEndian, value, result, n, old(Remaining()), Remaining())
      ensures var n := if size < 0 then |value| * width else size;
              n <= |value| * width && n <= |old(Remaining())| ==>
                ArrayFilled(bigEndian, old(Remaining()), n, width, value, result) && Remaining() == old(Remaining())[n..]
    {
      result := value;
      var maxSize := MaxSize(value, width);
      var n := if size < 0 then maxSize else size;
      FlattenLength(value, width);
      if n > maxSize { return; }
      if EnoughBits(n) {
        ghost var before := Remaining();
        result := TakeElements(value, width, n);
        FilledArray(bigEndian, before, width, value, result, n, Laid(bigEndian, before[..n]));
      }
    }

    method TakeElements(value: seq<Vec>, width: nat, n: nat) returns (result: seq<Vec>)
      requires Valid() && ElementWidth(width) && AllWide(value, width) && n <= |Flatten(value)| && n <= |Remaining()|
      modifies this`unpackIter
      ensures Valid() && |result| == |value| && AllWide(result, width)
      ensures Filled(bigEndian, value, result, n, old(Remaining()), Remaining())
    {
      ghost var laid, flat := Laid(bigEndian, Remaining()[..n]), Flatten(value);
      SliceParts(bits[..], unpackIter, packIter, n);
      var at := unpackIter + n;
      unpackIter := at;
      result := value;
      FillStart(laid, flat);
      for i := 0 to n
        invariant unpackIter == at && |result| == |value| && AllWide(result, width)
        invariant Flatten(result) == Blend(laid, flat, i)
      {
        var b := UnpackBit(at, n, i);
        FillStep(laid, flat, i, b);
        result := SetElementBit(result, width, i, b);
      }
      FillEnd(laid, flat);
    }

    /** Whether another character follows. */
    method HasCharacter() returns (more: bool)
      requires Valid()
      ensures more <==> |Remaining()| >= 8 && Remaining()[..8] != NUL
    {
      more := false;
      if EnoughBits(8) {
        SliceParts(bits[..], unpackIter, packIter, 8);
        more := bits[unpackIter..unpackIter + 8] != NUL;
      }
    }

    method UnpackString() returns (chars: seq<Vec>)
      requires Valid()
      modifies this`unpackIter
      ensures Valid()
      ensures (chars, Remaining()) == DecodeText(bigEndian, old(Remaining()))
      ensures TextRead(bigEndian, old(Remaining()), chars, Remaining())
    {
      TextDecoded(bigEndian, Remaining());
      chars := [];
      ghost var target := DecodeText(bigEndian, Remaining());
      NoChars(target.0);
      var more := HasCharacter();
      while more
        invariant Valid() && (more <==> |Remaining()| >= 8 && Remaining()[..8] != NUL)
        invariant target == Prefixed(chars, DecodeText(bigEndian, Remaining()))
        decreases |Remaining()|
      {
        TextStep(bigEndian, chars, Remaining());
        var c := TakeField(8);
        chars := chars + [c];
        more := HasCharacter();
      }
      TextEnd(bigEndian, chars, Remaining());
      if EnoughBits(8) {
        SliceParts(bits[..], unpackIter, packIter, 8);
        unpackIter := unpackIter + 8;
      }
    }

    // ----- The stream as words

    method Flush()
      requires Valid() && bits.Length >= 64
      modifies this`packIter, this`unpackIter, bits
      ensures Valid() && packIter == 64 && unpackIter == 64
      ensures forall i | 0 <= i < bits.Length :: !bits[i]
    {
      packIter, unpackIter := 64, 64;
      forall i | 0 <= i < bits.Length {
        bits[i] := false;
      }
    }

    method GetPackedBits() returns (stream: Vec)
      requires Valid() && packIter >= 64
      ensures stream == bits[64..packIter]
    {
      stream := [];
      for i := 0 to packIter - 64
        invariant stream == bits[64..64 + i]
      {
        stream := stream + [bits[i + 64]];
      }
    }

    /** Word i of the stream, the bits after the last one cleared. */
    method PackedWord(width: nat, i: nat) returns (v: Vec)
      requires Valid() && packIter >= 64 && WordWidth(width) && Offset(width, i) < packIter - 64
      ensures v == FirstWord(width, bits[64..packIter][Offset(width, i)..])
    {
      var n := packIter - 64;
      WordPosition(n, width, i);
      WordFits(packIter, bits.Length, width, i);
      var sz := (n + width - 1) / width;
      var offset := i + 64 / width;
      var at: nat := offset * width;
      SliceParts(bits[..], 64, packIter, at - 64);
      FirstWordIs(bits[..], at, packIter, width);
      v := ReadSlice(at, width);
      if i == sz - 1 && packIter % width != 0 {
        v := Mask(v, packIter % width);
      }
    }

    method ReadSlice(at: nat, width: nat) returns (v: Vec)
      requires at + width <= bits.Length
      ensures v == bits[at..at + width]
    {
      v := bits[at..at + width];
    }

    /** get_packed_bytes, get_packed_ints and get_packed_longints. */
    method GetPackedWords(width: nat) returns (stream: seq<Vec>)
      requires Valid() && packIter >= 64 && WordWidth(width)
      ensures stream == Export(bigEndian, width, bits[64..packIter])
      ensures WordsAt(bits[..packIter], 64, bigEndian, width, stream) && JustEnough(bits[..packIter], 64, width, stream)
    {
      var n := packIter - 64;
      var sz := (n + width - 1) / width;
      stream := [];
      ghost var all := bits[64..packIter];
      ExportStart(bigEndian, width, all);
      for i := 0 to sz
        invariant Exporting(bigEndian, width, all, Offset(width, i), stream)
      {
        WordPosition(n, width, i);
        var v := PackedWord(width, i);
        ExportStep(bigEndian, width, all, Offset(width, i), stream);
        if bigEndian {
          v := Reverse(v);
        }
        stream := stream + [v];
      }
      WordPosition(n, width, sz);
      ExportEnd(bigEndian, width, all, Offset(width, sz), stream);
      assert bits[..packIter][64..] == all;
      WordsExported(bigEndian, width, bits[..packIter]);
    }

    method SetPackedBits(stream: Vec)
      requires Valid() && |stream| <= bits.Length
      modifies this`packIter, this`unpackIter, bits
      ensures Valid() && unpackIter == 0 && bits[..packIter] == stream
    {
      NothingBefore(bits[..0], stream);
      Write(0, stream);
      packIter, unpackIter := |stream|, 0;
    }

    /** set_packed_bytes, set_packed_ints and set_packed_longints. */
    method SetPackedWords(stream: seq<Vec>, width: nat)
      requires Valid() && WordWidth(width) && AllWide(stream, width) && Offset(width, |stream|) <= bits.Length
      modifies this`packIter, this`unpackIter, bits
      ensures Valid() && unpackIter == 0 && bits[..packIter] == Import(bigEndian, stream)
      ensures packIter == |stream| * width && WordsAt(bits[..packIter], 0, bigEndian, width, stream)
    {
      var count := 0;
      ghost var rest, all := stream, Import(bigEndian, stream);
      ImportStart(bigEndian, bits[..0], stream);
      for k := 0 to |stream|
        modifies bits
        invariant count == Offset(width, k) <= bits.Length && rest == stream[k..]
        invariant Importing(bigEndian, bits[..count], rest, all)
      {
        Inside(k, |stream|, width);
        ImportStep(bigEndian, bits[..count], rest, all);
        Write(count, Laid(bigEndian, stream[k]));
        count := count + width;
        rest := rest[1..];
      }
      ImportEnd(bigEndian, bits[..count], all);
      packIter, unpackIter := Count(|stream|, width), 0;
      WordsImported(bigEndian, width, stream);
    }
  }
}
