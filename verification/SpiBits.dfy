/** From sampled pins to window events: how mode-0 words of the driver look to the slave. */
module SpiBits {
  import opened Bits
  import opened SpiSlave
  import opened SpiWindow
  import opened SpiDriver

  predicate Mode0(c: Config) {
    c.Valid() && c.mode == 0 && c.bits == 8
  }

  /** The trace samples the wave w from edge o on. */
  predicate Carries(t: seq<Sample>, o: nat, w: Wave) {
    o + |w| <= |t| && forall i: nat | i < |w| :: Carried(t, o, w, i)
  }

  predicate Carried(t: seq<Sample>, o: nat, w: Wave, i: nat) {
    i < |w| && o + i < |t| && t[o + i].pins == w[i]
  }

  lemma CarriesIndex(t: seq<Sample>, o: nat, w: Wave, i: nat)
    requires Carries(t, o, w) && i < |w|
    ensures t[o + i].pins == w[i]
  {
    assert Carried(t, o, w, i);
  }

  /** One sample with CS low and SCLK at the given level. */
  predicate SampleAt(t: seq<Sample>, i: nat, sclk: bool) {
    i < |t| && !t[i].pins.cs && t[i].pins.sclk == sclk
  }

  predicate LowAt(t: seq<Sample>, i: nat) {
    SampleAt(t, i, false)
  }

  /** Samples lo .. hi - 1 are all like that. */
  predicate Level(t: seq<Sample>, lo: nat, hi: nat, sclk: bool) {
    hi <= |t| && forall i: nat | lo <= i < hi :: SampleAt(t, i, sclk)
  }

  lemma CarriesSplit(t: seq<Sample>, o: nat, a: Wave, b: Wave)
    requires Carries(t, o, a + b)
    ensures Carries(t, o, a) && Carries(t, o + |a|, b)
  {
    forall i: nat | i < |a| ensures Carried(t, o, a, i) {
      assert Carried(t, o, a + b, i);
    }
    var o' := o + |a|;
    forall i: nat | i < |b| ensures Carried(t, o', b, i) {
      assert Carried(t, o, a + b, |a| + i);
    }
  }

  lemma CarriesParts(t: seq<Sample>, o: nat, a: Wave, b: Wave, c: Wave, d: Wave)
    requires Carries(t, o, a + b + c + d)
    ensures Carries(t, o, a) && Carries(t, o + |a|, b)
    ensures Carries(t, o + |a| + |b|, c) && Carries(t, o + |a| + |b| + |c|, d)
  {
    CarriesSplit(t, o, a + b + c, d);
    CarriesSplit(t, o, a + b, c);
    CarriesSplit(t, o, a, b);
  }

  /** Samples lo .. hi - 1 all show the pins p. */
  predicate Held(t: seq<Sample>, lo: nat, hi: nat, p: Pins) {
    hi <= |t| && forall i: nat | lo <= i < hi :: Shows(t, i, p)
  }

  predicate Shows(t: seq<Sample>, i: nat, p: Pins) {
    i < |t| && t[i].pins == p
  }

  lemma HeldLevel(t: seq<Sample>, lo: nat, hi: nat, p: Pins)
    requires Held(t, lo, hi, p) && !p.cs
    ensures Level(t, lo, hi, p.sclk)
  {
    forall i: nat | lo <= i < hi ensures SampleAt(t, i, p.sclk) {
      assert Shows(t, i, p);
    }
  }

  lemma CarriesHold(t: seq<Sample>, o: nat, p: Pins, n: nat)
    requires Carries(t, o, Hold(p, n))
    ensures Held(t, o, o + n, p)
  {
    forall i: nat | o <= i < o + n ensures Shows(t, i, p) {
      CarriesIndex(t, o, Hold(p, n), i - o);
    }
  }

  /** A stretch of words between two stretches of constant pins and one after it. */
  lemma CarriesFrame(t: seq<Sample>, o: nat, p: Pins, n: nat, p': Pins, n': nat, w: Wave, p'': Pins, n'': nat)
    requires Carries(t, o, Hold(p, n) + Hold(p', n') + w + Hold(p'', n''))
    ensures Held(t, o, o + n, p) && Held(t, o + n, o + n + n', p')
    ensures Carries(t, o + n + n', w) && Held(t, o + n + n' + |w|, o + n + n' + |w| + n'', p'')
  {
    CarriesParts(t, o, Hold(p, n), Hold(p', n'), w, Hold(p'', n''));
    CarriesHold(t, o, p, n);
    CarriesHold(t, o + n, p', n');
    CarriesHold(t, o + n + n' + |w|, p'', n'');
  }

  lemma {:induction false} QuietLevel(t: seq<Sample>, ws: seq<Window>, lo: nat, hi: nat, sclk: bool)
    requires History(t, ws) && 2 <= lo <= hi <= |t| && Level(t, lo - 2, hi - 1, sclk)
    ensures ws[hi] == ws[lo]
    decreases hi
  {
    if lo < hi {
      QuietLevel(t, ws, lo, hi - 1, sclk);
      assert SampleAt(t, hi - 2, sclk) && SampleAt(t, hi - 3, sclk);
      assert EventAt(t, hi - 1).Quiet?;
    }
  }

  /** The samples of one bit: low with the bit on MOSI, then high. */
  predicate BitAt(t: seq<Sample>, o: nat, h: nat, b: bool) {
    && h >= 1
    && Level(t, o, o + h, false) && Level(t, o + h, o + 2 * h, true)
    && t[o + h - 1].pins.mosi == b
  }

  lemma CarriesBit(t: seq<Sample>, o: nat, c: Config, m: bool, b: bool)
    requires Mode0(c) && Carries(t, o, BitWave(c, false, false, m, b))
    ensures BitAt(t, o, c.half, b)
  {
    CarriesSplit(t, o, Hold(Pins(false, false, b), c.half), Hold(Pins(false, true, b), c.half));
    CarriesHold(t, o, Pins(false, false, b), c.half);
    CarriesHold(t, o + c.half, Pins(false, true, b), c.half);
    HeldLevel(t, o, o + c.half, Pins(false, false, b));
    HeldLevel(t, o + c.half, o + 2 * c.half, Pins(false, true, b));
    assert Shows(t, o + c.half - 1, Pins(false, false, b));
  }

  /** One bit gives one rising and one falling event, each seen two edges after its last sample. */
  lemma BitEvents(t: seq<Sample>, ws: seq<Window>, o: nat, h: nat, b: bool)
    requires History(t, ws) && BitAt(t, o, h, b) && LowAt(t, o + 2 * h) && o + 2 * h + 1 < |t|
    ensures ws[o + h + 1] == ws[o + 2]
    ensures ws[o + 2 * h + 1] == Next(ws[o + 2], Rise(b, t[o + h + 1].gpioIn))
    ensures ws[o + 2 * h + 2] == Next(ws[o + 2 * h + 1], Fall)
    ensures ws[o + 2 * h].miso == ws[o + 2].miso
  {
    assert SampleAt(t, o + h - 1, false) && SampleAt(t, o + h, true) && SampleAt(t, o + 2 * h - 1, true);
    QuietLevel(t, ws, o + 2, o + h + 1, false);
    assert EventAt(t, o + h + 1) == Rise(b, t[o + h + 1].gpioIn);
    QuietLevel(t, ws, o + h + 2, o + 2 * h + 1, true);
    if h >= 2 { QuietLevel(t, ws, o + h + 2, o + 2 * h, true); }
    assert EventAt(t, o + 2 * h + 1) == Fall;
  }

  /**
   * w' is w with the bits bs clocked in, each followed by its falling edge; gpioIn is the
   * GPIO input at the last rising edge.  At most that edge completes the address or data byte.
   */
  ghost predicate Clocked(w: Window, w': Window, bs: seq<bool>, gpioIn: Byte) {
    var g := w.group + bs;
    && w'.group == g
    && w'.regs == WriteBack(w.regs, g)
    && if EndsReadAddress(g)
       then w'.value == ReadRegister(w.regs, g[8..16], gpioIn) && w'.shifts == 1 && w'.miso == w'.value[0]
       else w'.value == w.value && w'.shifts == w.shifts + |bs|
  }

  lemma BitClocked(t: seq<Sample>, ws: seq<Window>, o: nat, h: nat, b: bool)
    requires History(t, ws) && BitAt(t, o, h, b) && LowAt(t, o + 2 * h) && o + 2 * h + 1 < |t|
    requires |ws[o + 2].group| < 31
    ensures Clocked(ws[o + 2], ws[o + 2 * h + 2], [b], t[o + h + 1].gpioIn)
    ensures EndsReadAddress(ws[o + 2].group + [b])
            || ws[o + 2 * h + 2].miso == ShiftedBit(ws[o + 2].value, ws[o + 2].shifts)
  {
    BitEvents(t, ws, o, h, b);
  }

  lemma ClockedCompose(w: Window, w1: Window, w2: Window, bs: seq<bool>, g1: Byte, g2: Byte)
    requires |bs| >= 2 && Clocked(w, w1, [bs[0]], g1) && Clocked(w1, w2, bs[1..], g2)
    requires |w.group| + 1 != 16 && |w.group| + 1 != 24
    ensures Clocked(w, w2, bs, g2)
  {
    assert w.group + [bs[0]] + bs[1..] == w.group + bs;
  }

  /** The samples of successive bits from edge o on, the sample after them being low. */
  predicate BitsAt(t: seq<Sample>, o: nat, h: nat, bs: seq<bool>)
    decreases |bs|
  {
    if bs == [] then LowAt(t, o) && o + 1 < |t|
    else BitAt(t, o, h, bs[0]) && BitsAt(t, o + 2 * h, h, bs[1..])
  }

  /** The edge after those samples. */
  function EndOf(o: nat, h: nat, bs: seq<bool>): (e: nat)
    ensures e >= o && (bs != [] ==> e >= o + 2 * h)
    decreases |bs|
  {
    if bs == [] then o else EndOf(o + 2 * h, h, bs[1..])
  }

  lemma NextIsLow(t: seq<Sample>, o: nat, h: nat, bs: seq<bool>)
    requires h >= 1 && BitsAt(t, o, h, bs)
    ensures LowAt(t, o) && o + 1 < |t|
  {
    if bs != [] { assert SampleAt(t, o, false); }
  }

  /** The window once the bits of one word have been clocked in. */
  lemma {:induction false} WordClocked(t: seq<Sample>, ws: seq<Window>, o: nat, h: nat, bs: seq<bool>)
    requires History(t, ws) && h >= 1 && bs != [] && BitsAt(t, o, h, bs)
    requires o + 2 <= |t| && |bs| <= 8
    requires var n := |ws[o + 2].group| + |bs|; n == 8 || n == 16 || n == 24
    ensures var e := EndOf(o, h, bs);
            e + 2 <= |t| && Clocked(ws[o + 2], ws[e + 2], bs, t[e - h + 1].gpioIn)
    decreases |bs|
  {
    if |bs| == 1 {
      OneBitClocked(t, ws, o, h, bs);
    } else {
      var o', e := o + 2 * h, EndOf(o, h, bs);
      NextIsLow(t, o', h, bs[1..]);
      BitClocked(t, ws, o, h, bs[0]);
      WordClocked(t, ws, o', h, bs[1..]);
      ClockedCompose(ws[o + 2], ws[o' + 2], ws[e + 2], bs, t[o + h + 1].gpioIn, t[e - h + 1].gpioIn);
    }
  }

  lemma OneBitClocked(t: seq<Sample>, ws: seq<Window>, o: nat, h: nat, bs: seq<bool>)
    requires History(t, ws) && h >= 1 && |bs| == 1 && BitsAt(t, o, h, bs)
    requires o + 2 <= |t| && |ws[o + 2].group| < 24
    ensures var e := EndOf(o, h, bs);
            e + 2 <= |t| && Clocked(ws[o + 2], ws[e + 2], bs, t[e - h + 1].gpioIn)
  {
    NextIsLow(t, o + 2 * h, h, bs[1..]);
    BitClocked(t, ws, o, h, bs[0]);
    assert bs == [bs[0]];
  }

  /** The driver's words have that shape. */
  lemma {:induction false} CarriesBits(t: seq<Sample>, o: nat, c: Config, m: bool, bs: seq<bool>)
    requires Mode0(c) && Carries(t, o, BitsWave(c, false, false, m, bs))
    requires var e := o + |BitsWave(c, false, false, m, bs)|; LowAt(t, e) && e + 1 < |t|
    ensures BitsAt(t, o, c.half, bs) && EndOf(o, c.half, bs) == o + |BitsWave(c, false, false, m, bs)|
    decreases |bs|
  {
    if bs != [] {
      CarriesSplit(t, o, BitWave(c, false, false, m, bs[0]), BitsWave(c, false, false, bs[0], bs[1..]));
      CarriesBit(t, o, c, m, bs[0]);
      CarriesBits(t, o + 2 * c.half, c, bs[0], bs[1..]);
    }
  }
}
