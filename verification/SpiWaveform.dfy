/** Reading a waveform back: a receiver that samples MOSI at the mode's capture edge. */
module SpiWaveform {
  import opened Bits
  import opened SpiSlave
  import opened SpiDriver
  import opened Sequences

  /** Leading edges leave the resting level; CPHA picks leading (0) or trailing (1) edges. */
  function EdgeBit(c: Config, a: Pins, b: Pins): seq<bool> {
    if !a.cs && !b.cs && a.sclk != b.sclk && (a.sclk == c.Cpol()) == !c.Cpha() then [a.mosi] else []
  }

  function Captured(c: Config, w: Wave): seq<bool> {
    if |w| < 2 then [] else EdgeBit(c, w[0], w[1]) + Captured(c, w[1..])
  }

  function AllBits(c: Config, ds: seq<Byte>): seq<bool>
    requires c.Valid()
  {
    if ds == [] then [] else WordBits(c, ds[0]) + AllBits(c, ds[1..])
  }

  lemma {:induction false} CapturedHold(c: Config, p: Pins, n: nat, rest: Wave)
    requires n >= 1 && rest != []
    ensures Captured(c, Hold(p, n) + rest) == EdgeBit(c, p, rest[0]) + Captured(c, rest)
    decreases n
  {
    var w := Hold(p, n) + rest;
    assert w[0] == p;
    if n == 1 {
      assert w[1..] == rest;
    } else {
      assert w[1..] == Hold(p, n - 1) + rest;
      assert w[1] == p;
      CapturedHold(c, p, n - 1, rest);
    }
  }

  lemma CapturedBit(c: Config, m: bool, b: bool, rest: Wave)
    requires c.Valid() && rest != [] && !rest[0].cs && rest[0].sclk == c.Cpol()
    ensures Captured(c, BitWave(c, false, c.Cpol(), m, b) + rest) == [b] + Captured(c, rest)
  {
    var s := c.Cpol();
    var first, second := Pins(false, s, if c.Cpha() then m else b), Pins(false, !s, b);
    TwoHalves(c, first, second, rest);
    assert BitWave(c, false, s, m, b) == Hold(first, c.half) + Hold(second, c.half);
    assert EdgeBit(c, first, second) + EdgeBit(c, second, rest[0]) == [b];
  }

  lemma TwoHalves(c: Config, first: Pins, second: Pins, rest: Wave)
    requires c.half >= 1 && rest != []
    ensures Captured(c, Hold(first, c.half) + Hold(second, c.half) + rest)
         == EdgeBit(c, first, second) + EdgeBit(c, second, rest[0]) + Captured(c, rest)
  {
    var later := Hold(second, c.half) + rest;
    Assoc(Hold(first, c.half), Hold(second, c.half), rest);
    CapturedHold(c, first, c.half, later);
    CapturedHold(c, second, c.half, rest);
    Assoc(EdgeBit(c, first, second), EdgeBit(c, second, rest[0]), Captured(c, rest));
  }

  lemma {:induction false} CapturedBits(c: Config, m: bool, bs: seq<bool>, rest: Wave)
    requires c.Valid() && rest != [] && !rest[0].cs && rest[0].sclk == c.Cpol()
    ensures Captured(c, BitsWave(c, false, c.Cpol(), m, bs) + rest) == bs + Captured(c, rest)
    decreases |bs|
  {
    var s := c.Cpol();
    var w := BitsWave(c, false, s, m, bs);
    if bs == [] {
      assert w + rest == rest;
    } else {
      var b, later := bs[0], bs[1..];
      var after := BitsWave(c, false, s, b, later);
      BitsStartAtRest(c, b, later, rest);
      CapturedBits(c, b, later, rest);
      CapturedBit(c, m, b, after + rest);
      Assoc(BitWave(c, false, s, m, b), after, rest);
      assert bs == [b] + later;
      Assoc([b], later, Captured(c, rest));
    }
  }

  lemma BitsStartAtRest(c: Config, m: bool, bs: seq<bool>, rest: Wave)
    requires c.Valid() && rest != [] && !rest[0].cs && rest[0].sclk == c.Cpol()
    ensures var w := BitsWave(c, false, c.Cpol(), m, bs) + rest; !w[0].cs && w[0].sclk == c.Cpol()
  {
    if bs != [] {
      assert BitWave(c, false, c.Cpol(), m, bs[0])[0].sclk == c.Cpol();
    }
  }

  lemma CapturedWord(c: Config, m: bool, d: Byte, rest: Wave)
    requires c.Valid() && rest != [] && !rest[0].cs && rest[0].sclk == c.Cpol()
    ensures Captured(c, BitsWave(c, false, c.Cpol(), m, WordBits(c, d)) + Hold(Pins(false, c.Cpol(), d[7]), c.gap) + rest)
         == WordBits(c, d) + Captured(c, rest)
  {
    var p := Pins(false, c.Cpol(), d[7]);
    GapCaptures(c, p, rest);
    CapturedBits(c, m, WordBits(c, d), Hold(p, c.gap) + rest);
    Assoc(BitsWave(c, false, c.Cpol(), m, WordBits(c, d)), Hold(p, c.gap), rest);
  }

  /** Nothing is captured while the clock rests. */
  lemma GapCaptures(c: Config, p: Pins, rest: Wave)
    requires c.Valid() && rest != [] && rest[0].sclk == c.Cpol() && p.sclk == c.Cpol()
    ensures var w := Hold(p, c.gap) + rest; w != [] && w[0] == p && Captured(c, w) == Captured(c, rest)
  {
    CapturedHold(c, p, c.gap, rest);
  }

  lemma {:induction false} CapturedWords(c: Config, m: bool, ds: seq<Byte>, rest: Wave)
    requires c.Valid() && rest != [] && !rest[0].cs && rest[0].sclk == c.Cpol()
    ensures Captured(c, WordsWave(c, c.Cpol(), m, ds) + rest) == AllBits(c, ds) + Captured(c, rest)
    decreases |ds|
  {
    var s := c.Cpol();
    if ds == [] {
      assert WordsWave(c, s, m, ds) + rest == rest;
    } else {
      var last := ds[0][7];
      var first := BitsWave(c, false, s, m, WordBits(c, ds[0])) + Hold(Pins(false, s, last), c.gap);
      var words := WordsWave(c, s, last, ds[1..]);
      StartsAtRest(c, last, ds[1..], rest);
      CapturedWords(c, last, ds[1..], rest);
      CapturedWord(c, m, ds[0], words + rest);
      Assoc(first, words, rest);
      Assoc(WordBits(c, ds[0]), AllBits(c, ds[1..]), Captured(c, rest));
    }
  }

  lemma StartsAtRest(c: Config, m: bool, ds: seq<Byte>, rest: Wave)
    requires c.Valid() && rest != [] && !rest[0].cs && rest[0].sclk == c.Cpol()
    ensures var w := WordsWave(c, c.Cpol(), m, ds) + rest; !w[0].cs && w[0].sclk == c.Cpol()
  {
    if ds != [] {
      BitsStartAtRest(c, m, WordBits(c, ds[0]), rest);
    }
  }

  /** In every mode and word length, the window's capture edges give back exactly the words' low bits. */
  lemma WaveformInverse(c: Config, cs: bool, m: bool, ds: seq<Byte>)
    requires c.Valid()
    ensures Captured(c, WindowWave(c, cs, m, ds)) == AllBits(c, ds)
  {
    var s := c.Cpol();
    var idle, lead := Hold(Pins(cs, s, m), 2 * c.half), Hold(Pins(false, s, m), c.lead);
    var words, trail := WordsWave(c, s, m, ds), Hold(Pins(false, s, LastBit(m, ds)), c.lead);
    StartsAtRest(c, m, ds, trail);
    CapturedConstant(c, Pins(false, s, LastBit(m, ds)), c.lead);
    CapturedWords(c, m, ds, trail);
    CapturedHold(c, Pins(false, s, m), c.lead, words + trail);
    CapturedHold(c, Pins(cs, s, m), 2 * c.half, lead + (words + trail));
    Assoc(idle + lead, words, trail);
    Assoc(idle, lead, words + trail);
  }

  lemma {:induction false} CapturedConstant(c: Config, p: Pins, n: nat)
    ensures Captured(c, Hold(p, n)) == []
    decreases n
  {
    if n >= 2 {
      assert Hold(p, n)[1..] == Hold(p, n - 1);
      CapturedConstant(c, p, n - 1);
    }
  }
}
