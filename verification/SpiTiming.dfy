/** The timing diagram of a chip-select window: the pins in every clk period. */
module SpiTiming {
  import opened Arithmetic
  import opened Bits
  import opened SpiSlave
  import opened SpiDriver

  /**
   * The pins j clk periods into a bit: SCLK rests for half of it and is inverted for the
   * other half; MOSI has the bit throughout in modes 0 and 2, in the second half in modes 1 and 3.
   */
  function BitPins(c: Config, cs: bool, s: bool, m: bool, b: bool, j: nat): Pins {
    Pins(cs, s != (j >= c.half), if c.mode % 2 == 1 && j < c.half then m else b)
  }

  lemma BitTiming(c: Config, cs: bool, s: bool, m: bool, b: bool, j: nat)
    requires j < 2 * c.half
    ensures |BitWave(c, cs, s, m, b)| == 2 * c.half && BitWave(c, cs, s, m, b)[j] == BitPins(c, cs, s, m, b, j)
  {
  }

  lemma {:induction false} BitsLength(c: Config, cs: bool, s: bool, m: bool, bs: seq<bool>)
    ensures |BitsWave(c, cs, s, m, bs)| == |bs| * (2 * c.half)
    decreases |bs|
  {
    if bs != [] {
      BitsLength(c, cs, s, bs[0], bs[1..]);
      Scaled(|bs|, 2 * c.half);
    }
  }

  /** The level of MOSI before bit i. */
  function Before(m: bool, bs: seq<bool>, i: nat): bool
    requires i < |bs|
  {
    if i == 0 then m else bs[i - 1]
  }

  /** The pins at position `at`, j clk periods into bit i. */
  predicate BitIn(c: Config, cs: bool, s: bool, m: bool, bs: seq<bool>, i: nat, j: nat, w: Wave, at: nat) {
    i < |bs| && at < |w| && w[at] == BitPins(c, cs, s, Before(m, bs, i), bs[i], j)
  }

  lemma FirstBitTiming(c: Config, cs: bool, s: bool, m: bool, bs: seq<bool>, j: nat)
    requires bs != [] && j < 2 * c.half
    ensures BitIn(c, cs, s, m, bs, 0, j, BitsWave(c, cs, s, m, bs), j)
  {
    BitTiming(c, cs, s, m, bs[0], j);
  }

  lemma LaterBitTiming(c: Config, cs: bool, s: bool, m: bool, bs: seq<bool>, i: nat, j: nat, first: Wave, w: Wave, at: nat)
    requires i > 0 && bs != [] && BitIn(c, cs, s, bs[0], bs[1..], i - 1, j, w, at)
    ensures BitIn(c, cs, s, m, bs, i, j, first + w, |first| + at)
  {
  }

  lemma {:induction false} BitsTiming(c: Config, cs: bool, s: bool, m: bool, bs: seq<bool>, i: nat, j: nat, n: nat)
    requires i < |bs| && j < n == 2 * c.half
    ensures BitIn(c, cs, s, m, bs, i, j, BitsWave(c, cs, s, m, bs), i * n + j)
    decreases i
  {
    if i == 0 {
      FirstBitTiming(c, cs, s, m, bs, j);
    } else {
      BitsTiming(c, cs, s, bs[0], bs[1..], i - 1, j, n);
      Scaled(i, n);
      LaterBitTiming(c, cs, s, m, bs, i, j, BitWave(c, cs, s, m, bs[0]), BitsWave(c, cs, s, bs[0], bs[1..]), (i - 1) * n + j);
    }
  }

  /** The clk periods of one word with the gap after it. */
  function WordPeriods(c: Config): nat {
    c.bits * (2 * c.half) + c.gap
  }

  /** The pins p clk periods into the k-th word: its bits from bit `bits - 1` down, then rest with the last bit held. */
  predicate WordPins(c: Config, s: bool, m: bool, ds: seq<Byte>, k: nat, w: Wave, at: nat)
    requires c.Valid() && k < |ds|
  {
    && at + WordPeriods(c) <= |w|
    && (forall i: nat, j: nat | i < c.bits && j < 2 * c.half :: BitAt(c, s, m, ds, k, w, at, i, j))
    && Holds(w, at + c.bits * (2 * c.half), at + WordPeriods(c), Pins(false, s, ds[k][7]))
  }

  /** The pins do not change from position lo to before hi. */
  predicate Holds(w: Wave, lo: nat, hi: nat, pins: Pins) {
    hi <= |w| && forall p: nat | lo <= p < hi :: w[p] == pins
  }

  lemma HoldsLater(first: Wave, w: Wave, last: Wave, lo: nat, hi: nat, pins: Pins)
    requires Holds(w, lo, hi, pins)
    ensures Holds(first + w + last, |first| + lo, |first| + hi, pins)
  {
  }

  predicate BitAt(c: Config, s: bool, m: bool, ds: seq<Byte>, k: nat, w: Wave, at: nat, i: nat, j: nat)
    requires c.Valid() && k < |ds| && i < c.bits
  {
    var before := if i > 0 then ds[k][8 - c.bits + i - 1] else if k > 0 then ds[k - 1][7] else m;
    var p := at + i * (2 * c.half) + j;
    p < |w| && w[p] == BitPins(c, false, s, before, ds[k][8 - c.bits + i], j)
  }

  lemma FirstWordTiming(c: Config, s: bool, m: bool, ds: seq<Byte>)
    requires c.Valid() && ds != []
    ensures WordStartsAt(c, s, m, ds, 0, 0)
  {
    var bs, w := WordBits(c, ds[0]), WordsWave(c, s, m, ds);
    BitsLength(c, false, s, m, bs);
    forall i: nat, j: nat | i < c.bits && j < 2 * c.half ensures BitAt(c, s, m, ds, 0, w, 0, i, j) {
      BitsTiming(c, false, s, m, bs, i, j, 2 * c.half);
    }
  }

  lemma BitAtLater(c: Config, s: bool, m: bool, ds: seq<Byte>, k: nat, first: Wave, w: Wave, last: Wave, at: nat, i: nat, j: nat)
    requires c.Valid() && k < |ds| && i < c.bits && BitAt(c, s, m, ds, k, w, at, i, j)
    ensures BitAt(c, s, m, ds, k, first + w + last, |first| + at, i, j)
  {
  }

  /** The same word with something in front of it and something behind it. */
  lemma WordPinsLater(c: Config, s: bool, m: bool, ds: seq<Byte>, k: nat, first: Wave, w: Wave, last: Wave, at: nat, from: nat)
    requires c.Valid() && k < |ds| && WordPins(c, s, m, ds, k, w, at) && from == |first| + at
    ensures WordPins(c, s, m, ds, k, first + w + last, from)
  {
    var all := first + w + last;
    forall i: nat, j: nat | i < c.bits && j < 2 * c.half ensures BitAt(c, s, m, ds, k, all, from, i, j) {
      BitAtLater(c, s, m, ds, k, first, w, last, at, i, j);
    }
    HoldsLater(first, w, last, at + c.bits * (2 * c.half), at + WordPeriods(c), Pins(false, s, ds[k][7]));
  }

  /** The same word as one of a longer list. */
  lemma WordPinsCons(c: Config, s: bool, m: bool, ds: seq<Byte>, k: nat, w: Wave, at: nat)
    requires c.Valid() && 0 < k < |ds| && WordPins(c, s, ds[0][7], ds[1..], k - 1, w, at)
    ensures WordPins(c, s, m, ds, k, w, at)
  {
    forall i: nat, j: nat | i < c.bits && j < 2 * c.half ensures BitAt(c, s, m, ds, k, w, at, i, j) {
      assert BitAt(c, s, ds[0][7], ds[1..], k - 1, w, at, i, j);
    }
  }

  /** One word with the gap after it. */
  function WordWave(c: Config, s: bool, m: bool, d: Byte): Wave
    requires c.Valid()
  {
    BitsWave(c, false, s, m, WordBits(c, d)) + Hold(Pins(false, s, d[7]), c.gap)
  }

  lemma WordsSplit(c: Config, s: bool, m: bool, ds: seq<Byte>)
    requires c.Valid() && ds != []
    ensures WordsWave(c, s, m, ds) == WordWave(c, s, m, ds[0]) + WordsWave(c, s, ds[0][7], ds[1..])
    ensures |WordWave(c, s, m, ds[0])| == WordPeriods(c)
  {
    BitsLength(c, false, s, m, WordBits(c, ds[0]));
  }

  /** The k-th word of a list of words starts at position `at`. */
  ghost predicate WordStartsAt(c: Config, s: bool, m: bool, ds: seq<Byte>, k: nat, at: nat)
    requires c.Valid() && k < |ds|
  {
    WordPins(c, s, m, ds, k, WordsWave(c, s, m, ds), at)
  }

  lemma LaterWordTiming(c: Config, s: bool, m: bool, ds: seq<Byte>, k: nat, at: nat, n: nat)
    requires c.Valid() && 0 < k < |ds| && WordStartsAt(c, s, ds[0][7], ds[1..], k - 1, at) && n == WordPeriods(c)
    ensures WordStartsAt(c, s, m, ds, k, n + at)
  {
    var rest := WordsWave(c, s, ds[0][7], ds[1..]);
    WordPinsCons(c, s, m, ds, k, rest, at);
    WordsSplit(c, s, m, ds);
    WordPinsLater(c, s, m, ds, k, WordWave(c, s, m, ds[0]), rest, [], at, n + at);
    assert WordsWave(c, s, m, ds) + [] == WordsWave(c, s, m, ds);
  }

  lemma {:induction false} WordTiming(c: Config, s: bool, m: bool, ds: seq<Byte>, k: nat, n: nat)
    requires c.Valid() && k < |ds| && n == WordPeriods(c)
    ensures WordStartsAt(c, s, m, ds, k, k * n)
    decreases k
  {
    if k == 0 {
      FirstWordTiming(c, s, m, ds);
    } else {
      WordTiming(c, s, ds[0][7], ds[1..], k - 1, n);
      Scaled(k, n);
      LaterWordTiming(c, s, m, ds, k, (k - 1) * n, n);
    }
  }

  lemma {:induction false} WordsLength(c: Config, s: bool, m: bool, ds: seq<Byte>)
    requires c.Valid()
    ensures |WordsWave(c, s, m, ds)| == |ds| * WordPeriods(c)
    decreases |ds|
  {
    if ds != [] {
      WordsLength(c, s, ds[0][7], ds[1..]);
      WordsSplit(c, s, m, ds);
      Scaled(|ds|, WordPeriods(c));
    }
  }

  function WordStart(c: Config, k: nat): nat {
    2 * c.half + c.lead + k * (c.bits * (2 * c.half) + c.gap)
  }

  /** Every word of a window stands where it should. */
  ghost predicate WordsInPlace(c: Config, s: bool, m: bool, ds: seq<Byte>, w: Wave)
    requires c.Valid()
  {
    forall k: nat | k < |ds| :: WordPins(c, s, m, ds, k, w, WordStart(c, k))
  }

  lemma WindowWords(c: Config, m: bool, ds: seq<Byte>, first: Wave, last: Wave)
    requires c.Valid() && |first| == 2 * c.half + c.lead
    ensures WordsInPlace(c, c.Cpol(), m, ds, first + WordsWave(c, c.Cpol(), m, ds) + last)
  {
    var s, words := c.Cpol(), WordsWave(c, c.Cpol(), m, ds);
    forall k: nat | k < |ds| ensures WordPins(c, s, m, ds, k, first + words + last, WordStart(c, k)) {
      WordTiming(c, s, m, ds, k, WordPeriods(c));
      WordPinsLater(c, s, m, ds, k, first, words, last, k * WordPeriods(c), WordStart(c, k));
    }
  }

  /**
   * A window in every clk period: SCLK at rest for one bit time with chip select as it was,
   * then with chip select low for the lead, the words one after the other, and rest again
   * for the lead.  SCLK rests high in modes 2 and 3.
   */
  lemma WindowTiming(c: Config, cs: bool, m: bool, ds: seq<Byte>)
    requires c.Valid()
    ensures var w, s, n := WindowWave(c, cs, m, ds), c.mode == 2 || c.mode == 3, |ds| * (c.bits * (2 * c.half) + c.gap);
            && |w| == 2 * c.half + c.lead + n + c.lead
            && Holds(w, 0, 2 * c.half, Pins(cs, s, m))
            && Holds(w, 2 * c.half, 2 * c.half + c.lead, Pins(false, s, m))
            && WordsInPlace(c, s, m, ds, w)
            && Holds(w, 2 * c.half + c.lead + n, |w|, Pins(false, s, if ds == [] then m else ds[|ds| - 1][7]))
  {
    var first := Hold(Pins(cs, c.Cpol(), m), 2 * c.half) + Hold(Pins(false, c.Cpol(), m), c.lead);
    WordsLength(c, c.Cpol(), m, ds);
    WindowWords(c, m, ds, first, Hold(Pins(false, c.Cpol(), LastBit(m, ds)), c.lead));
  }
}
