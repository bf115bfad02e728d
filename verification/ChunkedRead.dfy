/** Reading a signal's value 32 bits at a time, extended beyond its last bit. */
module ChunkedRead {
  import opened Options

  /** A word of 32 bits, bit 0 first. */
  type Word = w: seq<bool> | |w| == 32 witness ZERO

  const ZERO: seq<bool> := [false, false, false, false, false, false, false, false,
                            false, false, false, false, false, false, false, false,
                            false, false, false, false, false, false, false, false,
                            false, false, false, false, false, false, false, false]

  /** A word of the two planes of a four-state value. */
  datatype VecVal = VecVal(aval: Word, bval: Word)

  // ----- Unsigned arithmetic and logic on words

  function And(a: Word, b: Word): (r: Word)
    ensures forall i | 0 <= i < 32 :: r[i] == (a[i] && b[i])
  {
    seq(32, i requires 0 <= i < 32 => a[i] && b[i])
  }

  function Or(a: Word, b: Word): (r: Word)
    ensures forall i | 0 <= i < 32 :: r[i] == (a[i] || b[i])
  {
    seq(32, i requires 0 <= i < 32 => a[i] || b[i])
  }

  function Not(a: Word): (r: Word)
    ensures forall i | 0 <= i < 32 :: r[i] == !a[i]
  {
    seq(32, i requires 0 <= i < 32 => !a[i])
  }

  /** 1 shifted left k times. */
  function OneAt(k: nat): (r: Word)
    requires k < 32
    ensures forall i | 0 <= i < 32 :: r[i] == (i == k)
  {
    seq(32, i => i == k)
  }

  /** Twice the number, the carry lost. */
  function Double(a: Word): Word {
    [false] + a[..31]
  }

  /** One less, the borrow going up through the zeros; less than zero is all ones. */
  function Decrement(a: seq<bool>): (r: seq<bool>)
    ensures |r| == |a|
  {
    if a == [] then [] else if a[0] then [false] + a[1..] else [true] + Decrement(a[1..])
  }

  /** 2 * msb - 1. */
  function MaskOf(msb: Word): Word {
    Decrement(Double(msb))
  }

  lemma {:induction false} Borrows(a: seq<bool>, k: nat)
    requires k <= |a| && forall i | 0 <= i < |a| :: a[i] == (i == k)
    ensures forall i | 0 <= i < |a| :: Decrement(a)[i] == (i < k)
    decreases |a|
  {
    if a != [] && k > 0 {
      Borrows(a[1..], k - 1);
    }
  }

  /** The mask has the bits up to its most significant one, also when that is the last of the word. */
  lemma MaskBits(k: nat, j: nat)
    requires k < 32 && j < 32
    ensures MaskOf(OneAt(k))[j] <==> j <= k
  {
    Borrows(Double(OneAt(k)), k + 1);
  }

  predicate NonZero(a: Word) {
    exists i | 0 <= i < 32 :: a[i]
  }

  /** What the masking and sign extension leave of a word. */
  function Extend(w: Word, msb: Word, mask: Word, signed: bool): Word {
    var v := And(w, mask);
    if signed && NonZero(And(v, msb)) then Or(v, Not(mask)) else v
  }

  /** Up to bit k the word is unchanged, beyond it every bit is bit k of a signed value and 0 of an unsigned one. */
  lemma ExtendBits(w: Word, k: nat, signed: bool, j: nat)
    requires k < 32 && j < 32
    ensures Extend(w, OneAt(k), MaskOf(OneAt(k)), signed)[j] <==> if j <= k then w[j] else signed && w[k]
  {
    MaskBits(k, j);
    MaskBits(k, k);
    var v := And(w, MaskOf(OneAt(k)));
    assert And(v, OneAt(k))[k] == w[k];
  }

  // ----- The value as one vector

  /** Bit n of a plane stored in words. */
  predicate BitOf(ws: seq<Word>, n: nat)
    requires n < 32 * |ws|
  {
    ws[n / 32][n % 32]
  }

  /** Bit n of the plane of a value of `size` bits, zero-extended or sign-extended without end. */
  predicate Extended(ws: seq<Word>, size: nat, signed: bool, n: nat)
    requires 0 < size <= 32 * |ws|
  {
    if n < size then BitOf(ws, n) else signed && BitOf(ws, size - 1)
  }

  /** What a probe remembers of its signal. */
  datatype Probe = Probe(size: nat, isSigned: bool, topMsb: Word, topMask: Word)

  /** The chunk with the most significant bit. */
  function LastChunk(size: nat): (c: nat)
    requires size > 0
    ensures 32 * c < size <= 32 * c + 32
  {
    if size <= 32 then 0 else 1 + LastChunk(size - 32)
  }

  method FindLastChunk(size: nat) returns (c: nat)
    requires size > 0
    ensures c == LastChunk(size)
  {
    c := (size - 1) / 32;
  }

  lemma BitIndex(c: nat, j: nat)
    requires j < 32
    ensures (32 * c + j) / 32 == c && (32 * c + j) % 32 == j
  {
  }

  function NewProbe(size: nat, isSigned: bool): Probe
    requires size > 0
  {
    var topMsb := OneAt(size - 1 - 32 * LastChunk(size));
    Probe(size, isSigned, topMsb, MaskOf(topMsb))
  }

  /** The fields set when the signal's record is created. */
  method MakeProbe(size: nat, isSigned: bool) returns (p: Probe)
    requires size > 0
    ensures p == NewProbe(size, isSigned)
  {
    BitIndex(LastChunk(size), size - 1 - 32 * LastChunk(size));
    var topMsb := OneAt((size - 1) % 32);
    p := Probe(size, isSigned, topMsb, MaskOf(topMsb));
  }

  /** One plane of the word that is returned for a chunk. */
  function ReadPlane(p: Probe, ws: seq<Word>, chunk: nat): Word
    requires p.size > 0 && |ws| == LastChunk(p.size) + 1
  {
    var c := if 32 * chunk >= p.size then LastChunk(p.size) else chunk;
    if 32 * chunk + 32 > p.size then Extend(ws[c], p.topMsb, p.topMask, p.isSigned) else ws[c]
  }

  /**
   * For every size, a full last word included, each bit returned for a chunk is that bit of
   * the extended vector; a chunk beyond the end reads the last one instead.
   */
  lemma ChunkIsExtension(size: nat, signed: bool, ws: seq<Word>, chunk: nat, j: nat)
    requires size > 0 && |ws| == LastChunk(size) + 1 && j < 32
    ensures var last := LastChunk(size);
            ReadPlane(NewProbe(size, signed), ws, chunk)[j]
            <==> Extended(ws, size, signed, 32 * (if chunk <= last then chunk else last) + j)
  {
    var last := LastChunk(size);
    var k := size - 1 - 32 * last;
    var c := if chunk <= last then chunk else last;
    BitIndex(c, j);
    BitIndex(last, k);
    if 32 * chunk + 32 > size {
      assert c == last;
      ExtendBits(ws[c], k, signed, j);
    }
  }

  /** One plane of a value: the avals, or the bvals that mark x and z. */
  function Plane(vs: seq<VecVal>, unknown: bool): (ws: seq<Word>)
    ensures |ws| == |vs| && forall i | 0 <= i < |vs| :: ws[i] == if unknown then vs[i].bval else vs[i].aval
  {
    seq(|vs|, i requires 0 <= i < |vs| => if unknown then vs[i].bval else vs[i].aval)
  }

  lemma TopChunk(size: nat)
    requires size > 0
    ensures (size - 1) / 32 == LastChunk(size)
  {
    BitIndex(LastChunk(size), size - 1 - 32 * LastChunk(size));
  }

  lemma StoredBit(ws: seq<Word>, c: nat, j: nat)
    requires c < |ws| && j < 32
    ensures BitOf(ws, 32 * c + j) == ws[c][j]
  {
    BitIndex(c, j);
  }

  lemma ExtendedBit(ws: seq<Word>, size: nat, signed: bool, c: nat, j: nat)
    requires 0 < size <= 32 * |ws| && c < |ws| && j < 32
    ensures Extended(ws, size, signed, 32 * c + j) == if 32 * c + j < size then ws[c][j] else signed && BitOf(ws, size - 1)
  {
    if 32 * c + j < size {
      StoredBit(ws, c, j);
    }
  }

  lemma PlaneBit(size: nat, signed: bool, ws: seq<Word>, chunk: nat, j: nat, c: nat)
    requires size > 0 && |ws| == LastChunk(size) + 1 && j < 32 && c == if chunk <= LastChunk(size) then chunk else LastChunk(size)
    ensures ReadPlane(NewProbe(size, signed), ws, chunk)[j]
            == if 32 * c + j < size then ws[c][j] else signed && BitOf(ws, size - 1)
  {
    ExtendedBit(ws, size, signed, c, j);
    ChunkIsExtension(size, signed, ws, chunk, j);
  }

  /** Both planes of a chunk, bit by bit of the value. */
  lemma ChunkBits(size: nat, signed: bool, vs: seq<VecVal>, chunk: nat, j: nat)
    requires size > 0 && |vs| == LastChunk(size) + 1 && j < 32
    ensures var top, p := (size - 1) / 32, NewProbe(size, signed);
            var c := if chunk <= top then chunk else top;
            && top < |vs|
            && ReadPlane(p, Plane(vs, false), chunk)[j]
               == (if 32 * c + j < size then vs[c].aval[j] else signed && vs[top].aval[(size - 1) % 32])
            && ReadPlane(p, Plane(vs, true), chunk)[j]
               == (if 32 * c + j < size then vs[c].bval[j] else signed && vs[top].bval[(size - 1) % 32])
  {
    TopChunk(size);
    var c := if chunk <= LastChunk(size) then chunk else LastChunk(size);
    PlaneBit(size, signed, Plane(vs, false), chunk, j, c);
    PlaneBit(size, signed, Plane(vs, true), chunk, j, c);
  }

  /** uvm_polling_getValue32 on the value that the simulator gives; None for a negative chunk. */
  method GetValue32(p: Probe, vector: seq<VecVal>, chunk: int) returns (result: Option<VecVal>)
    requires p.size > 0 && |vector| == LastChunk(p.size) + 1
    ensures chunk < 0 ==> result == None
    ensures chunk >= 0 ==>
              result == Some(VecVal(ReadPlane(p, Plane(vector, false), chunk), ReadPlane(p, Plane(vector, true), chunk)))
  {
    var c, chunkLsb := chunk, chunk * 32;
    if chunk < 0 { return None; }
    if chunkLsb >= p.size {
      c := FindLastChunk(p.size);
    }
    var aval, bval := vector[c].aval, vector[c].bval;
    if chunkLsb + 32 > p.size {
      aval := And(aval, p.topMask);
      bval := And(bval, p.topMask);
      if p.isSigned {
        if NonZero(And(bval, p.topMsb)) {
          bval := Or(bval, Not(p.topMask));
        }
        if NonZero(And(aval, p.topMsb)) {
          aval := Or(aval, Not(p.topMask));
        }
      }
    }
    result := Some(VecVal(aval, bval));
  }
}
