/**
 * The bit layout of the packer as functions.  A vector lists its bits from bit 0 up; a
 * byte is a vector of 8, an int of 32, a longint of 64.
 */
module PackerCodec {
  import opened Sequences

  type Vec = seq<bool>

  function Reverse(v: Vec): (r: Vec)
    ensures |r| == |v| && forall i | 0 <= i < |v| :: r[i] == v[|v| - 1 - i]
  {
    if v == [] then [] else Reverse(v[1..]) + [v[0]]
  }

  /** The order in which a field's bits are laid down. */
  function Laid(be: bool, v: Vec): (r: Vec)
    ensures |r| == |v|
  {
    if be then Reverse(v) else v
  }

  /** Bit 0 first, or with big_endian the top bit first. */
  lemma LaidOrder(be: bool, v: Vec, i: nat)
    requires i < |v|
    ensures Laid(be, v)[i] == if be then v[|v| - 1 - i] else v[i]
  {
  }

  lemma LaidTwice(be: bool, v: Vec)
    ensures Laid(be, Laid(be, v)) == v
  {
  }

  function Zeros(n: nat): (v: Vec)
    ensures |v| == n && forall i | 0 <= i < n :: !v[i]
  {
    if n == 0 then [] else [false] + Zeros(n - 1)
  }

  /** The bits of an array, element 0 first. */
  function Flatten(vs: seq<Vec>): Vec {
    if vs == [] then [] else vs[0] + Flatten(vs[1..])
  }

  /** n elements of the given width. */
  function Unflatten(v: Vec, width: nat, n: nat): (vs: seq<Vec>)
    requires |v| == width * n
    ensures |vs| == n
    decreases n
  {
    if n == 0 then []
    else
      assert width * n == width + width * (n - 1);
      [v[..width]] + Unflatten(v[width..], width, n - 1)
  }

  predicate AllWide(vs: seq<Vec>, width: nat) {
    forall i | 0 <= i < |vs| :: |vs[i]| == width
  }

  lemma {:induction false} FlattenLength(vs: seq<Vec>, width: nat)
    requires AllWide(vs, width)
    ensures |Flatten(vs)| == width * |vs|
    decreases |vs|
  {
    if vs != [] {
      FlattenLength(vs[1..], width);
      assert width * |vs| == width + width * |vs[1..]|;
    }
  }

  lemma {:induction false} UnflattenFlatten(vs: seq<Vec>, width: nat)
    requires AllWide(vs, width)
    ensures |Flatten(vs)| == width * |vs| && Unflatten(Flatten(vs), width, |vs|) == vs
    decreases |vs|
  {
    FlattenLength(vs, width);
    if vs != [] {
      FlattenLength(vs[1..], width);
      UnflattenFlatten(vs[1..], width);
      assert Flatten(vs)[..width] == vs[0] && Flatten(vs)[width..] == Flatten(vs[1..]);
    }
  }

  // ----- Typed values

  datatype Value = Field(v: Vec) | Elements(width: nat, vs: seq<Vec>) | Text(chars: seq<Vec>)

  /** What a caller asks for; an array argument already has its size and contents. */
  datatype Shape = FieldOf(size: nat) | ElementsOf(width: nat, current: seq<Vec>) | AnyText

  const NUL: Vec := [false, false, false, false, false, false, false, false]

  /** Array elements have their declared width; characters are non-NUL bytes. */
  predicate WellFormed(x: Value) {
    match x
    case Field(_) => true
    case Elements(width, vs) => AllWide(vs, width)
    case Text(chars) => forall c | c in chars :: |c| == 8 && c != NUL
  }

  /** The request a caller makes to read x back. */
  predicate Fits(s: Shape, x: Value) {
    match x
    case Field(v) => s == FieldOf(|v|)
    case Elements(width, vs) => s.ElementsOf? && s.width == width && |s.current| == |vs| && AllWide(s.current, width)
    case Text(_) => s == AnyText
  }

  function TextBits(be: bool, chars: seq<Vec>): Vec {
    if chars == [] then [] else Laid(be, chars[0]) + TextBits(be, chars[1..])
  }

  /** A value's bits, strings being closed by a NUL as with use_metadata. */
  function Encode(be: bool, x: Value): Vec {
    match x
    case Field(v) => Laid(be, v)
    case Elements(_, vs) => Laid(be, Flatten(vs))
    case Text(chars) => TextBits(be, chars) + NUL
  }

  function EncodeAll(be: bool, xs: seq<Value>): Vec {
    if xs == [] then [] else Encode(be, xs[0]) + EncodeAll(be, xs[1..])
  }

  /** size bits, or zeros and no progress when the stream is too short. */
  function DecodeField(be: bool, size: nat, bits: Vec): (Vec, Vec) {
    if |bits| < size then (Zeros(size), bits) else (Laid(be, bits[..size]), bits[size..])
  }

  /** Characters up to a NUL, which is skipped, or to the last whole byte. */
  function DecodeText(be: bool, bits: Vec): (seq<Vec>, Vec)
    decreases |bits|
  {
    if |bits| < 8 then ([], bits)
    else if bits[..8] == NUL then ([], bits[8..])
    else
      var (chars, rest) := DecodeText(be, bits[8..]);
      ([Laid(be, bits[..8])] + chars, rest)
  }

  /** An array is filled from bit 0 of its first element up, or left as it was when the stream is too short. */
  function DecodeElements(be: bool, width: nat, current: seq<Vec>, bits: Vec): (seq<Vec>, Vec)
    requires AllWide(current, width)
  {
    FlattenLength(current, width);
    var size := width * |current|;
    if |bits| < size then (current, bits) else (Unflatten(Laid(be, bits[..size]), width, |current|), bits[size..])
  }

  function Decode(be: bool, s: Shape, bits: Vec): (Value, Vec)
    requires s.ElementsOf? ==> AllWide(s.current, s.width)
  {
    match s
    case FieldOf(size) =>
      var (v, rest) := DecodeField(be, size, bits);
      (Field(v), rest)
    case ElementsOf(width, current) =>
      var (vs, rest) := DecodeElements(be, width, current, bits);
      (Elements(width, vs), rest)
    case AnyText =>
      var (chars, rest) := DecodeText(be, bits);
      (Text(chars), rest)
  }

  function DecodeAll(be: bool, ss: seq<Shape>, bits: Vec): seq<Value>
    requires forall s | s in ss :: s.ElementsOf? ==> AllWide(s.current, s.width)
    decreases |ss|
  {
    if ss == [] then []
    else
      var (x, rest) := Decode(be, ss[0], bits);
      [x] + DecodeAll(be, ss[1..], rest)
  }

  predicate AllFit(ss: seq<Shape>, xs: seq<Value>) {
    |ss| == |xs| && forall i | 0 <= i < |xs| :: WellFormed(xs[i]) && Fits(ss[i], xs[i])
  }

  lemma LaidNul(be: bool, c: Vec)
    requires |c| == 8 && c != NUL
    ensures Laid(be, c) != NUL
  {
    LaidTwice(be, c);
    assert Laid(be, NUL) == NUL;
  }

  lemma DecodeOneCharacter(be: bool, c: Vec, tail: Vec)
    requires |c| == 8 && c != NUL
    ensures DecodeText(be, Laid(be, c) + tail) == ([c] + DecodeText(be, tail).0, DecodeText(be, tail).1)
  {
    LaidNul(be, c);
    LaidTwice(be, c);
    var bits := Laid(be, c) + tail;
    assert bits[..8] == Laid(be, c) && bits[8..] == tail;
  }

  lemma {:induction false} DecodeEncodedText(be: bool, chars: seq<Vec>, rest: Vec)
    requires forall c | c in chars :: |c| == 8 && c != NUL
    ensures DecodeText(be, TextBits(be, chars) + (NUL + rest)) == (chars, rest)
    decreases |chars|
  {
    if chars == [] {
      assert TextBits(be, chars) + (NUL + rest) == NUL + rest;
      assert (NUL + rest)[..8] == NUL && (NUL + rest)[8..] == rest;
    } else {
      Assoc(Laid(be, chars[0]), TextBits(be, chars[1..]), NUL + rest);
      DecodeOneCharacter(be, chars[0], TextBits(be, chars[1..]) + (NUL + rest));
      DecodeEncodedText(be, chars[1..], rest);
      assert chars == [chars[0]] + chars[1..];
    }
  }

  lemma DecodeLaidField(be: bool, v: Vec, rest: Vec)
    ensures DecodeField(be, |v|, Laid(be, v) + rest) == (v, rest)
  {
    var bits := Laid(be, v) + rest;
    assert bits[..|v|] == Laid(be, v) && bits[|v|..] == rest;
    LaidTwice(be, v);
  }

  lemma DecodeEncoded(be: bool, s: Shape, x: Value, rest: Vec)
    requires WellFormed(x) && Fits(s, x)
    ensures Decode(be, s, Encode(be, x) + rest) == (x, rest)
  {
    match x
    case Field(v) => DecodeLaidField(be, v, rest);
    case Elements(width, vs) =>
      UnflattenFlatten(vs, width);
      DecodeLaidField(be, Flatten(vs), rest);
    case Text(chars) =>
      Assoc(TextBits(be, chars), NUL, rest);
      DecodeEncodedText(be, chars, rest);
  }

  /** Unpacking the same shapes gives back every value, whatever padding follows. */
  lemma {:induction false} DecodeEncodedAll(be: bool, ss: seq<Shape>, xs: seq<Value>, padding: Vec)
    requires AllFit(ss, xs)
    ensures DecodeAll(be, ss, EncodeAll(be, xs) + padding) == xs
    decreases |xs|
  {
    if xs != [] {
      var rest := EncodeAll(be, xs[1..]) + padding;
      Assoc(Encode(be, xs[0]), EncodeAll(be, xs[1..]), padding);
      DecodeEncoded(be, ss[0], xs[0], rest);
      DecodeEncodedAll(be, ss[1..], xs[1..], padding);
    }
  }

  // ----- Exporting and importing the stream in words

  /** The stream cut into words, the last one padded with zeros, each word in laid order. */
  function Export(be: bool, width: nat, bits: Vec): (ws: seq<Vec>)
    requires width > 0
    ensures AllWide(ws, width)
    decreases |bits|
  {
    if bits == [] then []
    else if |bits| < width then [Laid(be, bits + Zeros(width - |bits|))]
    else [Laid(be, bits[..width])] + Export(be, width, bits[width..])
  }

  function Import(be: bool, ws: seq<Vec>): Vec {
    if ws == [] then [] else Laid(be, ws[0]) + Import(be, ws[1..])
  }

  /** The number of zeros that fill the last word. */
  function Padding(width: nat, n: nat): (p: nat)
    requires width > 0
    ensures p < width
    decreases n
  {
    if n == 0 then 0 else if n < width then width - n else Padding(width, n - width)
  }

  /** Importing undoes exporting, up to that padding. */
  lemma {:induction false} ImportExported(be: bool, width: nat, bits: Vec)
    requires width > 0
    ensures Import(be, Export(be, width, bits)) == bits + Zeros(Padding(width, |bits|))
    decreases |bits|
  {
    if bits == [] {
      assert Zeros(0) == [];
    } else if |bits| < width {
      ImportWord(be, bits + Zeros(width - |bits|), []);
    } else {
      ImportWord(be, bits[..width], Export(be, width, bits[width..]));
      ImportExported(be, width, bits[width..]);
      JoinAt(bits, width, Zeros(Padding(width, |bits|)));
    }
  }

  lemma ImportWord(be: bool, v: Vec, ws: seq<Vec>)
    ensures Import(be, [Laid(be, v)] + ws) == v + Import(be, ws)
    ensures ws == [] ==> Import(be, [Laid(be, v)]) == v
  {
    LaidTwice(be, v);
    assert ([Laid(be, v)] + ws)[1..] == ws && [Laid(be, v)][1..] == [];
  }

  lemma JoinAt(bits: Vec, n: nat, tail: Vec)
    requires n <= |bits|
    ensures bits[..n] + (bits[n..] + tail) == bits + tail
  {
  }

  /**
   * The packer's law: packing any list of values, exporting the stream in words of any
   * width, importing it into another packer and unpacking the same types gives every value.
   */
  lemma PackerRoundTrip(be: bool, width: nat, ss: seq<Shape>, xs: seq<Value>)
    requires width > 0 && AllFit(ss, xs)
    ensures DecodeAll(be, ss, Import(be, Export(be, width, EncodeAll(be, xs)))) == xs
    ensures DecodeAll(be, ss, EncodeAll(be, xs)) == xs
  {
    var bits := EncodeAll(be, xs);
    ImportExported(be, width, bits);
    DecodeEncodedAll(be, ss, xs, Zeros(Padding(width, |bits|)));
    DecodeEncodedAll(be, ss, xs, []);
    assert bits + [] == bits;
  }
}
