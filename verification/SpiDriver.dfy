/**
 * The low-level SPI driver.  Delays are whole numbers of clk periods, and the waveform
 * is the sequence of pin values that successive clk edges sample.
 */
module SpiDriver {
  import opened Bits
  import opened SpiSlave
  import opened Sequences

  type Wave = seq<Pins>

  /** mode 0..3, word length, and the three delays: half an SCLK period, the gap after a word, and after a CS edge. */
  datatype Config = Config(mode: nat, bits: nat, half: nat, gap: nat, lead: nat) {
    predicate Valid() {
      mode < 4 && 1 <= bits <= 8 && half >= 1 && gap >= 1 && lead >= 1
    }

    function Cpol(): bool { mode >= 2 }

    function Cpha(): bool { mode % 2 == 1 }
  }

  function Hold(p: Pins, n: nat): (w: Wave)
    ensures |w| == n && forall i | 0 <= i < n :: w[i] == p
  {
    seq(n, _ => p)
  }

  /** One bit; s is the resting level of SCLK and m the level MOSI has before it. */
  function BitWave(c: Config, cs: bool, s: bool, m: bool, b: bool): Wave {
    if c.Cpha() then Hold(Pins(cs, s, m), c.half) + Hold(Pins(cs, !s, b), c.half)
    else Hold(Pins(cs, s, b), c.half) + Hold(Pins(cs, !s, b), c.half)
  }

  function BitsWave(c: Config, cs: bool, s: bool, m: bool, bs: seq<bool>): Wave
    decreases |bs|
  {
    if bs == [] then [] else BitWave(c, cs, s, m, bs[0]) + BitsWave(c, cs, s, bs[0], bs[1..])
  }

  /** The low bits of a byte, the ones a word of the given length sends. */
  function WordBits(c: Config, d: Byte): (bs: seq<bool>)
    requires c.Valid()
    ensures |bs| == c.bits
  {
    d[8 - c.bits..]
  }

  function WordsWave(c: Config, s: bool, m: bool, ds: seq<Byte>): Wave
    requires c.Valid()
    decreases |ds|
  {
    if ds == [] then []
    else
      var last := ds[0][7];
      BitsWave(c, false, s, m, WordBits(c, ds[0])) + Hold(Pins(false, s, last), c.gap) + WordsWave(c, s, last, ds[1..])
  }

  function LastBit(m: bool, ds: seq<Byte>): bool {
    if ds == [] then m else ds[|ds| - 1][7]
  }

  /** One chip-select window: idle clock, CS low, the words, CS high again. */
  function WindowWave(c: Config, cs: bool, m: bool, ds: seq<Byte>): Wave
    requires c.Valid()
  {
    Hold(Pins(cs, c.Cpol(), m), 2 * c.half) + Hold(Pins(false, c.Cpol(), m), c.lead)
    + WordsWave(c, c.Cpol(), m, ds) + Hold(Pins(false, c.Cpol(), LastBit(m, ds)), c.lead)
  }

  class Driver {
    const config: Config
    var sclk: bool
    var mosi: bool
    var cs: bool
    var wave: Wave

    constructor (config: Config)
      requires config.Valid()
      ensures this.config == config && cs && !sclk && !mosi && wave == []
    {
      this.config := config;
      sclk, mosi, cs, wave := false, false, true, [];
    }

    function Now(): Pins
      reads this
    {
      Pins(cs, sclk, mosi)
    }

    method Delay(n: nat)
      modifies `wave
      ensures wave == old(wave) + Hold(Now(), n)
    {
      wave := wave + Hold(Now(), n);
    }

    method InitSpiClock()
      modifies `sclk, `wave
      ensures sclk == config.Cpol() && (config.Valid() ==> sclk == (config.mode == 2 || config.mode == 3))
      ensures wave == old(wave) + Hold(Pins(cs, config.Cpol(), mosi), 2 * config.half)
    {
      sclk := config.mode >= 2;
      Delay(2 * config.half);
    }

    method SendBit(bit: bool)
      modifies `sclk, `mosi, `wave
      ensures sclk == old(sclk) && mosi == bit
      ensures wave == old(wave) + BitWave(config, cs, old(sclk), old(mosi), bit)
      ensures Pulsed(config, old(wave), wave, cs, old(sclk), if config.mode % 2 == 0 then bit else old(mosi), bit)
    {
      BitIsPulsed(config, wave, cs, sclk, mosi, bit);
      if config.mode % 2 == 0 {
        mosi := bit;
        Delay(config.half);
        sclk := !sclk;
        Delay(config.half);
        sclk := !sclk;
      } else {
        Delay(config.half);
        sclk := !sclk;
        mosi := bit;
        Delay(config.half);
        sclk := !sclk;
      }
    }

    method SendByte(data: Byte)
      requires config.Valid()
      modifies `sclk, `mosi, `wave
      ensures sclk == old(sclk) && mosi == data[7]
      ensures wave == old(wave) + BitsWave(config, cs, old(sclk), old(mosi), WordBits(config, data))
    {
      var i := config.bits;
      ghost var s, rest := sclk, WordBits(config, data);
      ghost var all := wave + BitsWave(config, cs, s, mosi, rest);
      while i > 0
        invariant 0 <= i <= config.bits && sclk == s
        invariant rest == data[8 - i..] && (i == 0 ==> mosi == data[7])
        invariant SendingBits(config, cs, s, mosi, rest, wave, all)
      {
        ghost var m, sent := mosi, wave;
        i := i - 1;
        SendBit(data[7 - i]); // data[i], counted from the least significant bit
        BitSent(config, cs, s, m, rest, sent, wave, all);
        rest := rest[1..];
      }
      assert wave + [] == wave;
    }

    /** The loop over the words of a window. */
    method SendWords(data: seq<Byte>)
      requires config.Valid() && !cs
      modifies `sclk, `mosi, `wave
      ensures sclk == old(sclk) && mosi == LastBit(old(mosi), data)
      ensures wave == old(wave) + WordsWave(config, old(sclk), old(mosi), data)
    {
      ghost var s, m0, todo, target := sclk, mosi, data, wave + WordsWave(config, sclk, mosi, data);
      for i := 0 to |data|
        invariant sclk == s && todo == data[i..] && LastBit(mosi, todo) == LastBit(m0, data)
        invariant Sending(config, s, mosi, todo, wave, target)
      {
        ghost var m, sent := mosi, wave;
        SendByte(data[i]);
        Delay(config.gap);
        WordSent(config, cs, s, m, todo, sent, wave, target);
        todo := todo[1..];
      }
      assert wave + [] == wave;
    }

    method SendMultiByte(data: seq<Byte>)
      requires config.Valid()
      modifies `sclk, `mosi, `cs, `wave
      ensures cs && sclk == config.Cpol() && mosi == LastBit(old(mosi), data)
      ensures wave == old(wave) + WindowWave(config, old(cs), old(mosi), data)
    {
      ghost var w0, cs0, m0, cpol := wave, cs, mosi, config.Cpol();
      InitSpiClock();
      cs := false;
      Delay(config.lead);
      SendWords(data);
      Delay(config.lead);
      cs := true;
      Join(w0, Hold(Pins(cs0, cpol, m0), 2 * config.half), Hold(Pins(false, cpol, m0), config.lead),
           WordsWave(config, cpol, m0, data), Hold(Pins(false, cpol, mosi), config.lead));
    }
  }

  /** Half a bit time with SCLK at level s and one value on MOSI, then half with SCLK inverted and another. */
  predicate Pulsed(c: Config, before: Wave, after: Wave, cs: bool, s: bool, first: bool, second: bool) {
    var n := |before|;
    && |after| == n + 2 * c.half
    && (forall i | 0 <= i < n :: after[i] == before[i])
    && (forall i | n <= i < n + c.half :: after[i] == Pins(cs, s, first))
    && (forall i | n + c.half <= i < n + 2 * c.half :: after[i] == Pins(cs, !s, second))
  }

  lemma BitIsPulsed(c: Config, before: Wave, cs: bool, s: bool, m: bool, b: bool)
    ensures Pulsed(c, before, before + BitWave(c, cs, s, m, b), cs, s, if c.mode % 2 == 0 then b else m, b)
    ensures before + BitWave(c, cs, s, m, b)
         == before + Hold(Pins(cs, s, if c.mode % 2 == 0 then b else m), c.half) + Hold(Pins(cs, !s, b), c.half)
  {
    Assoc(before, Hold(Pins(cs, s, if c.mode % 2 == 0 then b else m), c.half), Hold(Pins(cs, !s, b), c.half));
  }

  /** What has been sent and the bits still to be sent make up the whole. */
  predicate SendingBits(c: Config, cs: bool, s: bool, m: bool, bs: seq<bool>, sent: Wave, all: Wave) {
    sent + BitsWave(c, cs, s, m, bs) == all
  }

  lemma BitSent(c: Config, cs: bool, s: bool, m: bool, bs: seq<bool>, before: Wave, after: Wave, all: Wave)
    requires bs != [] && SendingBits(c, cs, s, m, bs, before, all) && after == before + BitWave(c, cs, s, m, bs[0])
    ensures SendingBits(c, cs, s, bs[0], bs[1..], after, all)
  {
    Assoc(before, BitWave(c, cs, s, m, bs[0]), BitsWave(c, cs, s, bs[0], bs[1..]));
  }

  /** What has been sent and the words still to be sent make up the whole. */
  predicate Sending(c: Config, s: bool, m: bool, ds: seq<Byte>, sent: Wave, all: Wave)
    requires c.Valid()
  {
    sent + WordsWave(c, s, m, ds) == all
  }

  lemma WordSent(c: Config, cs: bool, s: bool, m: bool, ds: seq<Byte>, before: Wave, after: Wave, all: Wave)
    requires c.Valid() && !cs && ds != [] && Sending(c, s, m, ds, before, all)
    requires after == before + BitsWave(c, cs, s, m, WordBits(c, ds[0])) + Hold(Pins(cs, s, ds[0][7]), c.gap)
    ensures Sending(c, s, ds[0][7], ds[1..], after, all)
  {
    var a, b := BitsWave(c, cs, s, m, WordBits(c, ds[0])), Hold(Pins(cs, s, ds[0][7]), c.gap);
    Assoc(before, a, b);
    Assoc(before, a + b, WordsWave(c, s, ds[0][7], ds[1..]));
  }

  lemma Join(w: Wave, a: Wave, b: Wave, c: Wave, d: Wave)
    ensures w + a + b + c + d == w + (a + b + c + d)
  {
    Assoc(w, a, b);
    Assoc(w, a + b, c);
    Assoc(w, a + b + c, d);
  }
}
