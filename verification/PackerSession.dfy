/** Packer objects used together: what one packs and exports another imports and unpacks. */
module PackerSession {
  import opened Sequences
  import opened PackerCodec
  import opened PackerLayout
  import opened Packer

  /** A value that one of the pack methods takes: arrays are of bits, bytes or ints. */
  predicate Packable(x: Value) {
    WellFormed(x) && (x.Elements? ==> ElementWidth(x.width))
  }

  method PackValue(p: Packer, x: Value)
    requires p.Valid() && p.useMetadata && Packable(x) && p.packIter + |Encode(p.bigEndian, x)| <= p.bits.Length
    modifies p, p.bits
    ensures p.Valid() && p.unpackIter == old(p.unpackIter)
    ensures p.bits[..p.packIter] == old(p.bits[..p.packIter]) + Encode(p.bigEndian, x)
  {
    match x {
      case Field(v) =>
        assert v[..|v|] == v;
        p.PackField(v, |v|);
      case Elements(width, vs) =>
        ghost var flat := Flatten(vs);
        assert flat[..|flat|] == flat;
        p.PackElements(vs, width, -1);
      case Text(chars) =>
        Assoc(p.bits[..p.packIter], TextBits(p.bigEndian, chars), NUL);
        p.PackString(chars);
    }
  }

  method PackAll(p: Packer, xs: seq<Value>)
    requires p.Valid() && p.useMetadata && forall x | x in xs :: Packable(x)
    requires p.packIter + |EncodeAll(p.bigEndian, xs)| <= p.bits.Length
    modifies p, p.bits
    ensures p.Valid() && p.unpackIter == old(p.unpackIter)
    ensures p.bits[..p.packIter] == old(p.bits[..p.packIter]) + EncodeAll(p.bigEndian, xs)
  {
    ghost var be, rest, target := p.bigEndian, xs, p.bits[..p.packIter] + EncodeAll(p.bigEndian, xs);
    for k := 0 to |xs|
      invariant p.Valid() && p.unpackIter == old(p.unpackIter) && rest == xs[k..]
      invariant p.bits[..p.packIter] + EncodeAll(be, rest) == target && |target| <= p.bits.Length
    {
      Assoc(p.bits[..p.packIter], Encode(be, rest[0]), EncodeAll(be, rest[1..]));
      PackValue(p, xs[k]);
      rest := rest[1..];
    }
    assert p.bits[..p.packIter] + [] == p.bits[..p.packIter];
  }

  method UnpackValue(p: Packer, s: Shape) returns (x: Value)
    requires p.Valid() && (s.ElementsOf? ==> ElementWidth(s.width) && AllWide(s.current, s.width))
    modifies p`unpackIter
    ensures p.Valid() && (x, p.Remaining()) == Decode(p.bigEndian, s, old(p.Remaining()))
  {
    match s {
      case FieldOf(size) =>
        var v := p.UnpackField(size);
        x := Field(v);
      case ElementsOf(width, current) =>
        ghost var before := p.Remaining();
        FlattenLength(current, width);
        var vs := p.UnpackElements(current, width, -1);
        if |Flatten(current)| <= |before| {
          WholeArrayIsDecoded(p.bigEndian, width, current, vs, before, p.Remaining());
        }
        x := Elements(width, vs);
      case AnyText =>
        var chars := p.UnpackString();
        x := Text(chars);
    }
  }

  /** What unpacking leaves of the stream. */
  function RestAll(be: bool, ss: seq<Shape>, bits: Vec): Vec
    requires forall s | s in ss :: s.ElementsOf? ==> AllWide(s.current, s.width)
    decreases |ss|
  {
    if ss == [] then bits else RestAll(be, ss[1..], Decode(be, ss[0], bits).1)
  }

  lemma {:induction false} RestOfEncoded(be: bool, ss: seq<Shape>, xs: seq<Value>, rest: Vec)
    requires AllFit(ss, xs)
    ensures RestAll(be, ss, EncodeAll(be, xs) + rest) == rest
    decreases |xs|
  {
    if xs == [] {
      assert EncodeAll(be, xs) + rest == rest;
    } else {
      var later := EncodeAll(be, xs[1..]) + rest;
      Assoc(Encode(be, xs[0]), EncodeAll(be, xs[1..]), rest);
      DecodeEncoded(be, ss[0], xs[0], later);
      RestOfEncoded(be, ss[1..], xs[1..], rest);
    }
  }

  method UnpackAll(p: Packer, ss: seq<Shape>) returns (xs: seq<Value>)
    requires p.Valid() && forall s | s in ss :: s.ElementsOf? ==> ElementWidth(s.width) && AllWide(s.current, s.width)
    modifies p`unpackIter
    ensures p.Valid() && xs == DecodeAll(p.bigEndian, ss, old(p.Remaining()))
    ensures p.Remaining() == RestAll(p.bigEndian, ss, old(p.Remaining()))
  {
    xs := [];
    ghost var be, rest, target := p.bigEndian, ss, DecodeAll(p.bigEndian, ss, p.Remaining());
    ghost var end := RestAll(be, ss, p.Remaining());
    for k := 0 to |ss|
      invariant p.Valid() && rest == ss[k..] && xs + DecodeAll(be, rest, p.Remaining()) == target
      invariant RestAll(be, rest, p.Remaining()) == end
    {
      ghost var before := p.Remaining();
      var x := UnpackValue(p, ss[k]);
      Assoc(xs, [x], DecodeAll(be, rest[1..], p.Remaining()));
      xs, rest := xs + [x], rest[1..];
    }
    assert xs + [] == xs;
  }

  /** The exported words hold the stream and the zeros that fill the last one. */
  lemma ExportedSize(be: bool, width: nat, bits: Vec)
    requires width > 0
    ensures Offset(width, |Export(be, width, bits)|) == |bits| + Padding(width, |bits|)
  {
    ExportLays(be, width, bits);
    OffsetTimes(width, |Export(be, width, bits)|);
  }

  /** How a packer's contents are taken over by another: as single bits, or in words. */
  datatype Form = AsBits | AsWords(width: nat)

  predicate FormOk(f: Form) {
    f.AsWords? ==> WordWidth(f.width)
  }

  /** The zeros that come after the stream. */
  function Tail(f: Form, n: nat): Vec
    requires FormOk(f)
  {
    if f.AsBits? then [] else Zeros(Padding(f.width, n))
  }

  /** Another packer of the same kind takes over what p has packed. */
  method Transfer(p: Packer, f: Form, capacity: nat) returns (q: Packer)
    requires p.Valid() && p.packIter >= 64 && FormOk(f) && capacity % 64 == 0 && p.packIter <= capacity
    ensures fresh(q) && fresh(q.bits) && q.Valid() && q.bigEndian == p.bigEndian && q.useMetadata == p.useMetadata
    ensures q.Remaining() == p.bits[64..p.packIter] + Tail(f, p.packIter - 64)
  {
    q := new Packer(p.bigEndian, p.useMetadata, capacity);
    ghost var all := p.bits[64..p.packIter];
    if f.AsBits? {
      var stream := p.GetPackedBits();
      q.SetPackedBits(stream);
      assert all + [] == all;
    } else {
      var words := p.GetPackedWords(f.width);
      ExportedSize(p.bigEndian, f.width, all);
      q.SetPackedWords(words, f.width);
      ImportExported(p.bigEndian, f.width, all);
    }
  }

  /** Values the packer takes, and requests that fit them. */
  predicate Sendable(ss: seq<Shape>, xs: seq<Value>) {
    AllFit(ss, xs) && forall x | x in xs :: Packable(x)
  }

  lemma SendableShapes(ss: seq<Shape>, xs: seq<Value>)
    requires Sendable(ss, xs)
    ensures forall s | s in ss :: s.ElementsOf? ==> ElementWidth(s.width) && AllWide(s.current, s.width)
  {
    forall s | s in ss ensures s.ElementsOf? ==> ElementWidth(s.width) && AllWide(s.current, s.width) {
      var i :| 0 <= i < |ss| && ss[i] == s;
      assert Fits(ss[i], xs[i]) && Packable(xs[i]);
    }
  }

  lemma PackedStream(bits: Vec, before: Vec, all: Vec)
    requires |before| == 64 && bits == before + all
    ensures bits[64..] == all
  {
  }

  /**
   * The packer's law on objects: whatever values are packed, in either bit order and exported
   * as bits or in words of any width, a second packer that imports them unpacks the same values.
   */
  method RoundTrip(be: bool, f: Form, capacity: nat, ss: seq<Shape>, xs: seq<Value>) returns (ys: seq<Value>)
    requires FormOk(f) && Sendable(ss, xs)
    requires capacity % 64 == 0 && 64 + |EncodeAll(be, xs)| <= capacity
    ensures ys == xs
  {
    ghost var all := EncodeAll(be, xs);
    var p := new Packer(be, true, capacity);
    ghost var before := p.bits[..64];
    PackAll(p, xs);
    PackedStream(p.bits[..p.packIter], before, all);
    assert p.bits[..p.packIter][64..] == p.bits[64..p.packIter];
    var q := Transfer(p, f, capacity);
    DecodeEncodedAll(be, ss, xs, Tail(f, |all|));
    SendableShapes(ss, xs);
    ys := UnpackAll(q, ss);
  }

  /** The bits of a stream with a sized array between two lists of values. */
  function SizedStream(be: bool, xs: seq<Value>, value: seq<Vec>, size: nat, xs': seq<Value>): Vec
    requires size <= |Flatten(value)|
  {
    EncodeAll(be, xs) + Laid(be, Flatten(value)[..size]) + EncodeAll(be, xs')
  }

  /** An array of which only the first `size` bits are packed, between other values. */
  method PackSized(p: Packer, xs: seq<Value>, value: seq<Vec>, width: nat, size: nat, xs': seq<Value>)
    requires p.Valid() && p.useMetadata && (forall x | x in xs :: Packable(x)) && (forall x | x in xs' :: Packable(x))
    requires ElementWidth(width) && AllWide(value, width) && size <= |Flatten(value)|
    requires p.packIter + |SizedStream(p.bigEndian, xs, value, size, xs')| <= p.bits.Length
    modifies p, p.bits
    ensures p.Valid() && p.bits[..p.packIter] == old(p.bits[..p.packIter]) + SizedStream(p.bigEndian, xs, value, size, xs')
  {
    ghost var be, before := p.bigEndian, p.bits[..p.packIter];
    ghost var a, b, c := EncodeAll(be, xs), Laid(be, Flatten(value)[..size]), EncodeAll(be, xs');
    PackAll(p, xs);
    p.PackElements(value, width, size);
    PackAll(p, xs');
    Assoc(before, a, b);
    Assoc(before, a + b, c);
  }

  method UnpackSized(q: Packer, ss: seq<Shape>, ghost xs: seq<Value>, ghost part: Vec, width: nat, size: nat,
                     current: seq<Vec>, ss': seq<Shape>, ghost xs': seq<Value>, ghost padding: Vec)
    returns (ys: seq<Value>, result: seq<Vec>, ys': seq<Value>)
    requires q.Valid() && Sendable(ss, xs) && Sendable(ss', xs') && ElementWidth(width) && AllWide(current, width)
    requires size == |part| <= |Flatten(current)|
    requires q.Remaining() ==
               EncodeAll(q.bigEndian, xs) + (Laid(q.bigEndian, part) + (EncodeAll(q.bigEndian, xs') + padding))
    modifies q`unpackIter
    ensures ys == xs && ys' == xs' && |result| == |current| && AllWide(result, width)
    ensures Flatten(result) == part + Flatten(current)[size..]
  {
    ghost var be := q.bigEndian;
    ghost var later := EncodeAll(be, xs') + padding;
    SendableShapes(ss, xs);
    SendableShapes(ss', xs');
    DecodeEncodedAll(be, ss, xs, Laid(be, part) + later);
    RestOfEncoded(be, ss, xs, Laid(be, part) + later);
    ys := UnpackAll(q, ss);
    PartTaken(be, part, later);
    result := q.UnpackElements(current, width, size);
    DecodeEncodedAll(be, ss', xs', padding);
    ys' := UnpackAll(q, ss');
  }

  /**
   * The same law with an explicit size: between other values the first bits of an array
   * arrive in another array, whose further bits stay as they were.
   */
  method SizedRoundTrip(be: bool, f: Form, capacity: nat, ss: seq<Shape>, xs: seq<Value>, value: seq<Vec>, width: nat, size: nat,
                        current: seq<Vec>, ss': seq<Shape>, xs': seq<Value>)
    returns (ys: seq<Value>, result: seq<Vec>, ys': seq<Value>)
    requires FormOk(f) && Sendable(ss, xs) && Sendable(ss', xs') && ElementWidth(width)
    requires AllWide(value, width) && AllWide(current, width) && size <= |Flatten(value)| && size <= |Flatten(current)|
    requires capacity % 64 == 0 && 64 + |SizedStream(be, xs, value, size, xs')| <= capacity
    ensures ys == xs && ys' == xs' && |result| == |current| && AllWide(result, width)
    ensures Flatten(result) == Flatten(value)[..size] + Flatten(current)[size..]
  {
    ghost var part, all := Flatten(value)[..size], SizedStream(be, xs, value, size, xs');
    var p := new Packer(be, true, capacity);
    PackSized(p, xs, value, width, size, xs');
    assert p.bits[64..p.packIter] == all;
    var q := Transfer(p, f, capacity);
    SizedParts(EncodeAll(be, xs), Laid(be, part), EncodeAll(be, xs'), Tail(f, |all|));
    ys, result, ys' := UnpackSized(q, ss, xs, part, width, size, current, ss', xs', Tail(f, |all|));
  }

  lemma SizedParts(a: Vec, b: Vec, c: Vec, d: Vec)
    ensures a + b + c + d == a + (b + (c + d))
  {
    Assoc(a + b, c, d);
    Assoc(a, b, c + d);
  }

  lemma PartTaken(be: bool, part: Vec, later: Vec)
    ensures var bits := Laid(be, part) + later; Laid(be, bits[..|part|]) == part && bits[|part|..] == later
  {
    LaidTwice(be, part);
    assert (Laid(be, part) + later)[..|part|] == Laid(be, part);
  }
}
