/**
 * Driver, slave and monitor together, in mode 0 with 8-bit words: whatever GPIO inputs the
 * slave sees, the bus behaves as a plain register map.
 */
module SpiSystem {
  import opened Bits
  import opened SpiSlave
  import opened SpiWindow
  import opened SpiDriver
  import opened SpiBits
  import opened SpiMonitor
  import opened Sequences

  const WRITE_COMMAND: Byte := [false, false, false, false, false, false, false, true]

  function TxBytes(tr: Txn): (bs: seq<Byte>)
    ensures |bs| == 3
  {
    [CommandByte(tr.isWrite), tr.addr, tr.data]
  }

  /** The write command or zero: bit 0, the last to be sent, tells. */
  function CommandByte(isWrite: bool): Byte {
    ZERO[7 := isWrite]
  }

  lemma CommandBytes()
    ensures CommandByte(true) == WRITE_COMMAND && CommandByte(false) == ZERO
  {
  }

  /** The pins while a list of transactions is driven back to back. */
  function SessionWave(c: Config, m: bool, trs: seq<Txn>): Wave
    requires c.Valid()
    decreases |trs|
  {
    if trs == [] then []
    else WindowWave(c, true, m, TxBytes(trs[0])) + SessionWave(c, trs[0].data[7], trs[1..])
  }

  lemma SessionStep(c: Config, m: bool, trs: seq<Txn>, sent: Wave)
    requires c.Valid() && trs != []
    ensures sent + WindowWave(c, true, m, TxBytes(trs[0])) + SessionWave(c, trs[0].data[7], trs[1..])
         == sent + SessionWave(c, m, trs)
  {
    Assoc(sent, WindowWave(c, true, m, TxBytes(trs[0])), SessionWave(c, trs[0].data[7], trs[1..]));
  }

  /** The three bytes of a transaction. */
  method Encode(tr: Txn) returns (txBytes: seq<Byte>)
    ensures txBytes == TxBytes(tr)
    ensures |txBytes| == 3 && Index(txBytes[0]) == (if tr.isWrite then 1 else 0) && txBytes[1..] == [tr.addr, tr.data]
  {
    CommandBytes();
    txBytes := [];
    txBytes := txBytes + [if tr.isWrite then WRITE_COMMAND else ZERO];
    txBytes := txBytes + [tr.addr];
    txBytes := txBytes + [tr.data];
  }

  method DriveAll(d: Driver, items: seq<Txn>)
    requires d.config.Valid() && d.cs
    modifies d
    ensures d.cs && d.wave == old(d.wave) + SessionWave(d.config, old(d.mosi), items)
  {
    ghost var todo, target := items, d.wave + SessionWave(d.config, d.mosi, items);
    for k := 0 to |items|
      invariant d.cs && todo == items[k..]
      invariant d.wave + SessionWave(d.config, d.mosi, todo) == target
    {
      var tr := items[k];
      var txBytes := Encode(tr);
      assert todo[0] == tr;
      SessionStep(d.config, d.mosi, todo, d.wave);
      d.SendMultiByte(txBytes);
      todo := todo[1..];
    }
    assert todo == [];
  }

  // ----- The reference: a register map

  /** A write to any address but the two read-only ones replaces that register. */
  function Applied(regs: Registers, tr: Txn): Registers {
    if tr.isWrite && Index(tr.addr) != ADDR_ID && Index(tr.addr) != ADDR_GPIO_IN
    then regs[Index(tr.addr) := tr.data] else regs
  }

  function AppliedAll(regs: Registers, trs: seq<Txn>): Registers
    decreases |trs|
  {
    if trs == [] then regs else AppliedAll(Applied(regs, trs[0]), trs[1..])
  }

  /** A read publishes the register, the constant 8'hA5, or the GPIO input when its address was complete. */
  function Answered(regs: Registers, tr: Txn, gpioIn: Byte): Txn {
    if tr.isWrite then tr else tr.(data := ReadRegister(regs, tr.addr, gpioIn))
  }

  /** The clk periods one word and its gap take. */
  function WordLength(c: Config): nat {
    16 * c.half + c.gap
  }

  function WordsLength(c: Config, ds: seq<Byte>): nat {
    if ds == [] then 0 else WordLength(c) + WordsLength(c, ds[1..])
  }

  /** The clk periods one transaction takes. */
  function Length(c: Config): nat {
    2 * c.half + c.lead + 3 * WordLength(c) + c.lead
  }

  /** The clk edge, counted from the transaction's first, that completes the address byte. */
  function AddressEdge(c: Config): nat {
    2 * c.half + c.lead + WordLength(c) + 15 * c.half + 1
  }

  function AnsweredAll(c: Config, t: seq<Sample>, o: nat, regs: Registers, trs: seq<Txn>): seq<Txn>
    decreases |trs|
  {
    if trs == [] then []
    else [AnsweredAt(c, t, o, regs, trs[0])] + AnsweredAll(c, t, o + Length(c), Applied(regs, trs[0]), trs[1..])
  }

  /** The answer to a transaction driven from edge o on. */
  function AnsweredAt(c: Config, t: seq<Sample>, o: nat, regs: Registers, tr: Txn): Txn {
    Answered(regs, tr, if o + AddressEdge(c) < |t| then t[o + AddressEdge(c)].gpioIn else ZERO)
  }

  // ----- The samples of one transaction

  lemma EndOfByte(o: nat, h: nat, b: Byte)
    ensures EndOf(o, h, b) == o + 16 * h
  {
    EndOfFour(o, h, b);
    EndOfFour(o + 8 * h, h, b[4..]);
    assert b[4..][4..] == [];
  }

  lemma EndOfFour(o: nat, h: nat, b: seq<bool>)
    requires |b| >= 4
    ensures EndOf(o, h, b) == EndOf(o + 8 * h, h, b[4..])
  {
    assert b[1..][1..] == b[2..] && b[2..][1..] == b[3..] && b[3..][1..] == b[4..];
    assert EndOf(o, h, b) == EndOf(o + 2 * h, h, b[1..]) == EndOf(o + 4 * h, h, b[2..]);
    assert EndOf(o + 4 * h, h, b[2..]) == EndOf(o + 6 * h, h, b[3..]) == EndOf(o + 8 * h, h, b[4..]);
  }

  /** One word followed by its gap: the bits, then SCLK low. */
  predicate WordAt(t: seq<Sample>, o: nat, c: Config, b: Byte) {
    BitsAt(t, o, c.half, b) && Level(t, o + 16 * c.half, o + 16 * c.half + c.gap, false)
  }

  /** The idle clock before chip select falls. */
  predicate IdleAt(t: seq<Sample>, lo: nat, hi: nat) {
    hi <= |t| && forall i: nat | lo <= i < hi :: IdleSample(t, i)
  }

  predicate IdleSample(t: seq<Sample>, i: nat) {
    i < |t| && t[i].pins.cs && !t[i].pins.sclk
  }

  predicate WordsAt(t: seq<Sample>, o: nat, c: Config, ds: seq<Byte>)
    decreases |ds|
  {
    ds == [] || (WordAt(t, o, c, ds[0]) && WordsAt(t, o + WordLength(c), c, ds[1..]))
  }

  /** The edges at which a transaction's parts start: chip select falls, the words, the trailing hold. */
  function SelectAt(o: nat, c: Config): nat {
    o + 2 * c.half
  }

  function WordsStart(o: nat, c: Config): nat {
    o + 2 * c.half + c.lead
  }

  function WordsEnd(o: nat, c: Config): nat {
    o + 2 * c.half + c.lead + 3 * WordLength(c)
  }

  /** A whole transaction from edge o on, CS being high at o + Length. */
  predicate TxnAt(t: seq<Sample>, o: nat, c: Config, bs: seq<Byte>) {
    && o + Length(c) < |t| && t[o + Length(c)].pins.cs
    && IdleAt(t, o, SelectAt(o, c)) && Level(t, SelectAt(o, c), WordsStart(o, c), false)
    && WordsAt(t, WordsStart(o, c), c, bs) && Level(t, WordsEnd(o, c), o + Length(c), false)
  }

  lemma CarriesWord(t: seq<Sample>, o: nat, c: Config, m: bool, ds: seq<Byte>)
    requires Mode0(c) && ds != [] && Carries(t, o, WordsWave(c, false, m, ds))
    requires o + |WordsWave(c, false, m, ds)| < |t|
    ensures WordAt(t, o, c, ds[0])
    ensures Carries(t, o + WordLength(c), WordsWave(c, false, ds[0][7], ds[1..]))
    ensures |WordsWave(c, false, m, ds)| == WordLength(c) + |WordsWave(c, false, ds[0][7], ds[1..])|
  {
    var b := ds[0];
    assert WordBits(c, b) == b;
    CarriesSplit(t, o, BitsWave(c, false, false, m, b) + Hold(Pins(false, false, b[7]), c.gap), WordsWave(c, false, b[7], ds[1..]));
    CarriesOneWord(t, o, c, m, b);
  }

  lemma CarriesOneWord(t: seq<Sample>, o: nat, c: Config, m: bool, b: Byte)
    requires Mode0(c) && Carries(t, o, BitsWave(c, false, false, m, b) + Hold(Pins(false, false, b[7]), c.gap))
    requires o + |BitsWave(c, false, false, m, b)| + c.gap < |t|
    ensures WordAt(t, o, c, b) && |BitsWave(c, false, false, m, b)| == 16 * c.half
  {
    var p, e := Pins(false, false, b[7]), o + |BitsWave(c, false, false, m, b)|;
    CarriesSplit(t, o, BitsWave(c, false, false, m, b), Hold(p, c.gap));
    assert Level(t, e, e + c.gap, false) by {
      CarriesHold(t, e, p, c.gap);
      HeldLevel(t, e, e + c.gap, p);
    }
    assert SampleAt(t, e, false);
    CarriesBits(t, o, c, m, b);
    EndOfByte(o, c.half, b);
  }

  lemma {:induction false} CarriesWords(t: seq<Sample>, o: nat, c: Config, m: bool, ds: seq<Byte>)
    requires Mode0(c) && Carries(t, o, WordsWave(c, false, m, ds))
    requires o + |WordsWave(c, false, m, ds)| < |t|
    ensures WordsAt(t, o, c, ds) && |WordsWave(c, false, m, ds)| == WordsLength(c, ds)
    decreases |ds|
  {
    if ds != [] {
      CarriesWord(t, o, c, m, ds);
      CarriesWords(t, o + WordLength(c), c, ds[0][7], ds[1..]);
      WordsCons(t, o, c, ds);
    }
  }

  lemma WordsCons(t: seq<Sample>, o: nat, c: Config, ds: seq<Byte>)
    requires ds != [] && WordAt(t, o, c, ds[0]) && WordsAt(t, o + WordLength(c), c, ds[1..])
    ensures WordsAt(t, o, c, ds) && WordsLength(c, ds) == WordLength(c) + WordsLength(c, ds[1..])
  {
  }

  lemma HeldIdle(t: seq<Sample>, lo: nat, hi: nat, m: bool)
    requires Held(t, lo, hi, Pins(true, false, m))
    ensures IdleAt(t, lo, hi)
  {
    forall i: nat | lo <= i < hi ensures IdleSample(t, i) {
      assert Shows(t, i, Pins(true, false, m));
    }
  }

  lemma TxnParts(t: seq<Sample>, o: nat, c: Config, m: bool, m': bool, words: Wave)
    requires Mode0(c)
    requires Carries(t, o, Hold(Pins(true, false, m), 2 * c.half) + Hold(Pins(false, false, m), c.lead) + words
                           + Hold(Pins(false, false, m'), c.lead))
    ensures IdleAt(t, o, SelectAt(o, c)) && Level(t, SelectAt(o, c), WordsStart(o, c), false)
    ensures Carries(t, WordsStart(o, c), words)
    ensures |words| == 3 * WordLength(c) ==> Level(t, WordsEnd(o, c), o + Length(c), false)
  {
    var s, q := o + 2 * c.half, o + 2 * c.half + c.lead;
    CarriesFrame(t, o, Pins(true, false, m), 2 * c.half, Pins(false, false, m), c.lead, words, Pins(false, false, m'), c.lead);
    HeldIdle(t, o, s, m);
    HeldLevel(t, s, q, Pins(false, false, m));
    HeldLevel(t, q + |words|, q + |words| + c.lead, Pins(false, false, m'));
  }

  lemma CarriesTxn(t: seq<Sample>, o: nat, c: Config, m: bool, bs: seq<Byte>)
    requires Mode0(c) && |bs| == 3 && Carries(t, o, WindowWave(c, true, m, bs))
    requires var e := o + |WindowWave(c, true, m, bs)|; e < |t| && t[e].pins.cs
    ensures TxnAt(t, o, c, bs) && |WindowWave(c, true, m, bs)| == Length(c)
  {
    TxnParts(t, o, c, m, LastBit(m, bs), WordsWave(c, false, m, bs));
    CarriesWords(t, WordsStart(o, c), c, m, bs);
    ThreeWords(t, WordsStart(o, c), c, bs);
  }

  // ----- The slave's window over one transaction

  lemma {:induction false} InactiveRange(t: seq<Sample>, ws: seq<Window>, lo: nat, hi: nat)
    requires History(t, ws) && lo < hi <= |t| && forall n: nat | lo <= n < hi :: EventAt(t, n).Inactive?
    ensures ws[hi] == ws[lo].(group := [])
    decreases hi
  {
    assert EventAt(t, hi - 1).Inactive?;
    if lo + 1 < hi { InactiveRange(t, ws, lo, hi - 1); }
  }

  /** What precedes a transaction: reset, or another one's trailing low samples. */
  predicate Settled(t: seq<Sample>, o: nat) {
    o == 0 || (o >= 2 && LowAt(t, o - 1) && LowAt(t, o - 2))
  }

  lemma IdleWindow(t: seq<Sample>, ws: seq<Window>, o: nat, s: nat)
    requires History(t, ws) && Settled(t, o) && o + 2 <= s && s + 2 <= |t| && IdleAt(t, o, s)
    ensures ws[s + 2] == ws[o].(group := [])
  {
    assert ws[o + 2] == ws[o] by {
      var e, e' := EventAt(t, o), EventAt(t, o + 1);
      assert IdleSample(t, o);
    }
    forall n: nat | o + 2 <= n < s + 2 ensures EventAt(t, n).Inactive? {
      assert IdleSample(t, n - 2);
    }
    InactiveRange(t, ws, o + 2, s + 2);
  }

  /** One word, up to any edge u before which SCLK stays low. */
  lemma WordWindow(t: seq<Sample>, ws: seq<Window>, o: nat, h: nat, b: Byte, u: nat)
    requires History(t, ws) && h >= 1 && BitsAt(t, o, h, b)
    requires o + 16 * h + 2 <= u <= |t| && Level(t, o + 16 * h, u - 1, false)
    requires var n := |ws[o + 2].group| + 8; n == 8 || n == 16 || n == 24
    ensures Clocked(ws[o + 2], ws[u], b, t[o + 15 * h + 1].gpioIn)
  {
    EndOfByte(o, h, b);
    WordClocked(t, ws, o, h, b);
    QuietLevel(t, ws, o + 16 * h + 2, u, false);
  }

  lemma WordStartsLow(t: seq<Sample>, o: nat, c: Config, b: Byte)
    requires c.half >= 1 && WordAt(t, o, c, b)
    ensures LowAt(t, o) && o + 1 < |t|
  {
    NextIsLow(t, o, c.half, b);
  }

  lemma ThreeWords(t: seq<Sample>, q: nat, c: Config, bs: seq<Byte>)
    requires |bs| == 3 && WordsAt(t, q, c, bs)
    ensures var n := WordLength(c);
            WordAt(t, q, c, bs[0]) && WordAt(t, q + n, c, bs[1]) && WordAt(t, q + 2 * n, c, bs[2])
    ensures WordsLength(c, bs) == 3 * WordLength(c)
  {
    var two, one := [bs[1], bs[2]], [bs[2]];
    assert bs[1..] == two && two[1..] == one;
    assert WordsAt(t, q + WordLength(c), c, two);
    assert WordsAt(t, q + 2 * WordLength(c), c, one);
    assert one[1..] == [] && WordsLength(c, one) == WordLength(c) && WordsLength(c, two) == 2 * WordLength(c);
  }

  /** A word followed by another. */
  lemma InnerWord(t: seq<Sample>, ws: seq<Window>, o: nat, c: Config, b: Byte, b': Byte)
    requires c.half >= 1 && History(t, ws) && WordAt(t, o, c, b) && WordAt(t, o + WordLength(c), c, b')
    requires |ws[o + 2].group| == 0 || |ws[o + 2].group| == 8
    ensures o + WordLength(c) + 2 <= |t|
    ensures Clocked(ws[o + 2], ws[o + WordLength(c) + 2], b, t[o + 15 * c.half + 1].gpioIn)
    ensures |ws[o + WordLength(c) + 2].group| == |ws[o + 2].group| + 8
  {
    WordStartsLow(t, o + WordLength(c), c, b');
    WordWindow(t, ws, o, c.half, b, o + WordLength(c) + 2);
  }

  /** The data word, up to the edge where chip select rises. */
  lemma LastWord(t: seq<Sample>, ws: seq<Window>, o: nat, c: Config, b: Byte)
    requires Mode0(c) && History(t, ws) && WordAt(t, o, c, b) && |ws[o + 2].group| == 16
    requires var e := o + WordLength(c) + c.lead; e <= |t| && Level(t, e - c.lead, e, false)
    ensures Clocked(ws[o + 2], ws[o + WordLength(c) + c.lead], b, t[o + 15 * c.half + 1].gpioIn)
  {
    WordWindow(t, ws, o, c.half, b, o + WordLength(c) + c.lead);
  }

  /** The three words one after the other, from the window at q + 2 on. */
  lemma WordsWindow(t: seq<Sample>, ws: seq<Window>, q: nat, c: Config, tr: Txn)
    requires Mode0(c) && History(t, ws) && WordsAt(t, q, c, TxBytes(tr))
    requires var e := q + 3 * WordLength(c) + c.lead; e <= |t| && Level(t, e - c.lead, e, false)
    requires q + 2 <= |t| && ws[q + 2].group == []
    ensures ws[q + 3 * WordLength(c) + c.lead].regs == Applied(ws[q + 2].regs, tr)
    ensures var a, n := q + WordLength(c) + 15 * c.half + 1, WordLength(c);
            && a < |t| && q + 2 * n + 2 <= |t|
            && (tr.isWrite || Shifting(ws[q + 2 * n + 2], ReadRegister(ws[q + 2].regs, tr.addr, t[a].gpioIn), 0))
  {
    var n, bs := WordLength(c), TxBytes(tr);
    ThreeWords(t, q, c, bs);
    InnerWord(t, ws, q, c, bs[0], bs[1]);
    InnerWord(t, ws, q + n, c, bs[1], bs[2]);
    LastWord(t, ws, q + 2 * n, c, bs[2]);
    TransactionGroup(ws[q + 2], ws[q + n + 2], ws[q + 2 * n + 2], ws[q + 3 * n + c.lead], tr,
                     t[q + n + 15 * c.half + 1].gpioIn);
  }

  /** k bits of v have been sampled: MISO shows bit k, the rest are still to be shifted. */
  ghost predicate Shifting(w: Window, v: Byte, k: nat) {
    (k < 8 ==> |w.group| == 16 + k) && w.value == v && w.shifts == k + 1 && w.miso == ShiftedBit(v, k)
  }

  /** Command, address and data bytes clocked in from an empty group. */
  lemma TransactionGroup(w0: Window, w1: Window, w2: Window, w3: Window, tr: Txn, gpioIn: Byte)
    requires w0.group == []
    requires exists g :: Clocked(w0, w1, TxBytes(tr)[0], g)
    requires Clocked(w1, w2, tr.addr, gpioIn)
    requires exists g :: Clocked(w2, w3, tr.data, g)
    ensures w3.regs == Applied(w0.regs, tr)
    ensures tr.isWrite || Shifting(w2, ReadRegister(w0.regs, tr.addr, gpioIn), 0)
  {
    var command := TxBytes(tr)[0];
    assert w1.group == command;
    assert w2.group == command + tr.addr;
    assert w2.group[7] == tr.isWrite && w2.group[8..16] == tr.addr;
    assert w3.group == command + tr.addr + tr.data;
    assert w3.group[7] == tr.isWrite && w3.group[8..16] == tr.addr && w3.group[16..24] == tr.data;
  }

  // ----- What the monitor collects

  lemma {:induction false} NextFallIs(w: seq<Wire>, p: nat, f: nat)
    requires p < f < |w| && EdgeAt(w, false, f) && forall i | p < i < f :: !EdgeAt(w, false, i)
    ensures NextEdge(w, false, p) == f
    decreases f - p
  {
    if p + 1 < f { NextFallIs(w, p + 1, f); }
  }

  lemma {:induction false} NextSelectIs(w: seq<Wire>, p: nat, q: nat)
    requires p <= q < |w| && !w[q].cs && forall i | p <= i < q :: w[i].cs
    ensures NextSelect(w, p) == q
    decreases q - p
  {
    if p < q { NextSelectIs(w, p + 1, q); }
  }

  lemma {:induction false} NextWordIs(w: seq<Wire>, p: nat, q: nat)
    requires p <= q < |w| && (w[q].cs || w[q].sclk) && forall i | p <= i < q :: !w[i].cs && !w[i].sclk
    ensures NextWord(w, false, p) == q
    decreases q - p
  {
    if p < q { NextWordIs(w, p + 1, q); }
  }

  /** w shows the pins of the trace t. */
  predicate ShowsPins(w: seq<Wire>, t: seq<Sample>) {
    |w| == |t| && forall i: nat | i < |t| :: SamePins(w, t, i)
  }

  predicate SamePins(w: seq<Wire>, t: seq<Sample>, i: nat) {
    i < |w| && i < |t| && w[i].sclk == t[i].pins.sclk && w[i].cs == t[i].pins.cs
  }

  /** What the monitor sees at a sample with CS low. */
  lemma WireAt(t: seq<Sample>, w: seq<Wire>, i: nat, sclk: bool)
    requires ShowsPins(w, t) && SampleAt(t, i, sclk)
    ensures i < |w| && !w[i].cs && w[i].sclk == sclk
  {
    assert SamePins(w, t, i);
  }

  /** w shows MISO as the slave drives it. */
  predicate ShowsMiso(w: seq<Wire>, t: seq<Sample>) {
    |w| == |t| && forall i: nat | i < |t| :: MisoAt(w, t, i)
  }

  predicate MisoAt(w: seq<Wire>, t: seq<Sample>, i: nat) {
    i < |w| && i < |t| && w[i].miso == Run(t[..i]).core.miso
  }

  /** MISO as sampled at the falling edge of each bit. */
  function SampledBits(w: seq<Wire>, o: nat, h: nat, bs: seq<bool>): (r: seq<bool>)
    ensures |r| == |bs|
    decreases |bs|
  {
    if bs == [] then []
    else [o + 2 * h < |w| && w[o + 2 * h].miso] + SampledBits(w, o + 2 * h, h, bs[1..])
  }

  /** MISO sampled over a whole word. */
  function SampledByte(w: seq<Wire>, o: nat, h: nat, b: Byte): Byte {
    SampledBits(w, o, h, b)
  }

  lemma BitFall(t: seq<Sample>, w: seq<Wire>, p: nat, o: nat, h: nat, b: bool)
    requires ShowsPins(w, t) && BitAt(t, o, h, b) && LowAt(t, o + 2 * h)
    requires p <= o + h && Level(t, p, o, false)
    ensures NextEdge(w, false, p) == o + 2 * h
  {
    forall i | p < i < o + 2 * h ensures !EdgeAt(w, false, i) {
      if i <= o + h { WireAt(t, w, i - 1, false); } else { WireAt(t, w, i, true); }
    }
    WireAt(t, w, o + 2 * h - 1, true);
    WireAt(t, w, o + 2 * h, false);
    NextFallIs(w, p, o + 2 * h);
  }

  /** From p, a point before SCLK's next falling edge, the monitor collects one word. */
  lemma {:induction false} ReceiveWord(t: seq<Sample>, w: seq<Wire>, p: nat, o: nat, h: nat, bs: seq<bool>, places: seq<bool>)
    requires ShowsPins(w, t) && h >= 1 && BitsAt(t, o, h, bs) && bs != [] && |places| == |bs|
    requires p <= o + h && Level(t, p, o, false)
    ensures p < |w| && ReceiveBits(w, false, p, places) == Done(SampledBits(w, o, h, bs), EndOf(o, h, bs))
    decreases |bs|
  {
    var o', later := o + 2 * h, bs[1..];
    NextIsLow(t, o', h, later);
    BitFall(t, w, p, o, h, bs[0]);
    ReceiveFirst(w, p, places, o');
    if later != [] {
      ReceiveWord(t, w, o', o', h, later, places[1..]);
    }
  }

  lemma ReceiveFirst(w: seq<Wire>, p: nat, places: seq<bool>, q: nat)
    requires p < |w| && places != [] && NextEdge(w, false, p) == q < |w|
    ensures ReceiveBits(w, false, p, places) == Prepend(w[q].miso, ReceiveBits(w, false, q, places[1..]))
  {
  }

  /** One bit of a read: MISO at its falling edge is the value's next bit. */
  lemma ShiftOneBit(t: seq<Sample>, ws: seq<Window>, o: nat, h: nat, b: bool, v: Byte, k: nat)
    requires History(t, ws) && BitAt(t, o, h, b) && LowAt(t, o + 2 * h) && o + 2 * h + 1 < |t|
    requires k < 8 && Shifting(ws[o + 2], v, k)
    ensures Run(t[..o + 2 * h]).core.miso == v[k] && Shifting(ws[o + 2 * h + 2], v, k + 1)
  {
    BitEvents(t, ws, o, h, b);
    BitClocked(t, ws, o, h, b);
    SlaveRefinesWindow(t, o + 2 * h);
    HistoryIsWindowAt(t, ws, o + 2 * h);
  }

  lemma TailOf(v: Byte, k: nat, hi: nat)
    requires k < hi <= 8
    ensures v[k..hi] == [v[k]] + v[k + 1..hi]
  {
  }

  lemma ReadBit(t: seq<Sample>, w: seq<Wire>, ws: seq<Window>, o: nat, h: nat, b: bool, v: Byte, k: nat)
    requires History(t, ws) && ShowsMiso(w, t) && BitAt(t, o, h, b) && LowAt(t, o + 2 * h) && o + 2 * h + 1 < |t|
    requires k < 8 && Shifting(ws[o + 2], v, k)
    ensures o + 2 * h < |w| && w[o + 2 * h].miso == v[k] && Shifting(ws[o + 2 * h + 2], v, k + 1)
  {
    ShiftOneBit(t, ws, o, h, b, v, k);
    assert MisoAt(w, t, o + 2 * h);
  }

  /** The third word of a read: the bits sampled are those of the value fetched. */
  lemma {:induction false} ReadBits(t: seq<Sample>, w: seq<Wire>, ws: seq<Window>, o: nat, h: nat, bs: seq<bool>, v: Byte, k: nat)
    requires History(t, ws) && ShowsMiso(w, t) && BitsAt(t, o, h, bs) && o + 2 <= |t| && h >= 1
    requires k + |bs| == 8 && Shifting(ws[o + 2], v, k)
    ensures SampledBits(w, o, h, bs) == v[k..8]
    decreases |bs|
  {
    if bs != [] {
      NextIsLow(t, o + 2 * h, h, bs[1..]);
      ReadBit(t, w, ws, o, h, bs[0], v, k);
      ReadBits(t, w, ws, o + 2 * h, h, bs[1..], v, k + 1);
      TailOf(v, k, 8);
    }
  }

  /** A word that another follows: the monitor goes on at the next rising edge. */
  lemma InnerReceive(t: seq<Sample>, w: seq<Wire>, p: nat, o: nat, c: Config, b: Byte, b': Byte)
    requires Mode0(c) && ShowsPins(w, t) && WordAt(t, o, c, b) && WordAt(t, o + WordLength(c), c, b')
    requires p <= o + c.half && Level(t, p, o, false)
    ensures var q := o + WordLength(c) + c.half;
            p < |w| && q < |w| && ReceiveBytes(w, false, p) == Prepend(SampledByte(w, o, c.half, b), ReceiveBytes(w, false, q))
  {
    WordReceived(t, w, p, o, c, b);
    NextWordRises(t, w, o, c, b, b');
    AnotherByte(w, p, SampledByte(w, o, c.half, b), o + 16 * c.half, o + WordLength(c) + c.half);
  }

  lemma WordReceived(t: seq<Sample>, w: seq<Wire>, p: nat, o: nat, c: Config, b: Byte)
    requires Mode0(c) && ShowsPins(w, t) && WordAt(t, o, c, b) && p <= o + c.half && Level(t, p, o, false)
    ensures p < |w| && ReceiveByte(w, false, p) == Done(SampledByte(w, o, c.half, b), o + 16 * c.half)
  {
    EndOfByte(o, c.half, b);
    ReceiveWord(t, w, p, o, c.half, b, Places(w));
  }

  lemma AnotherByte(w: seq<Wire>, p: nat, byte: Byte, after: nat, q: nat)
    requires p < |w| && ReceiveByte(w, false, p) == Done(byte, after)
    requires NextWord(w, false, after) == q < |w| && !w[q].cs
    ensures ReceiveBytes(w, false, p) == Prepend(byte, ReceiveBytes(w, false, q))
  {
  }

  lemma LastByte(w: seq<Wire>, p: nat, byte: Byte, after: nat, q: nat)
    requires p < |w| && ReceiveByte(w, false, p) == Done(byte, after)
    requires NextWord(w, false, after) == q < |w| && w[q].cs
    ensures ReceiveBytes(w, false, p) == Done([byte], q)
  {
  }

  lemma NextWordRises(t: seq<Sample>, w: seq<Wire>, o: nat, c: Config, b: Byte, b': Byte)
    requires Mode0(c) && ShowsPins(w, t) && WordAt(t, o, c, b) && WordAt(t, o + WordLength(c), c, b')
    ensures var q := o + WordLength(c) + c.half;
            q < |w| && !w[q].cs && NextWord(w, false, o + 16 * c.half) == q
  {
    var h, o' := c.half, o + WordLength(c);
    assert BitAt(t, o', h, b'[0]);
    WireAt(t, w, o' + h, true);
    forall i | o + 16 * h <= i < o' + h ensures !w[i].cs && !w[i].sclk {
      WireAt(t, w, i, false);
    }
    NextWordIs(w, o + 16 * h, o' + h);
  }

  /** The last word: the monitor stops where chip select rises. */
  lemma LastReceive(t: seq<Sample>, w: seq<Wire>, p: nat, o: nat, c: Config, b: Byte, r: nat, e: nat)
    requires Mode0(c) && ShowsPins(w, t) && WordAt(t, o, c, b)
    requires p <= o + c.half && Level(t, p, o, false)
    requires r == o + WordLength(c) <= e < |t| && Level(t, r, e, false) && t[e].pins.cs
    ensures p < |w| && ReceiveBytes(w, false, p) == Done([SampledByte(w, o, c.half, b)], e)
  {
    WordReceived(t, w, p, o, c, b);
    forall i | o + 16 * c.half <= i < e ensures !w[i].cs && !w[i].sclk {
      WireAt(t, w, i, false);
    }
    assert SamePins(w, t, e);
    NextWordIs(w, o + 16 * c.half, e);
    LastByte(w, p, SampledByte(w, o, c.half, b), o + 16 * c.half, e);
  }

  /** The bytes sampled from successive words. */
  function SampledWords(w: seq<Wire>, o: nat, c: Config, ds: seq<Byte>): (bytes: seq<Byte>)
    ensures |bytes| == |ds|
    decreases |ds|
  {
    if ds == [] then []
    else [SampledByte(w, o, c.half, ds[0])] + SampledWords(w, o + WordLength(c), c, ds[1..])
  }

  lemma ThirdWord(w: seq<Wire>, o: nat, c: Config, ds: seq<Byte>)
    requires |ds| == 3
    ensures SampledWords(w, o, c, ds)[2] == SampledByte(w, o + 2 * WordLength(c), c.half, ds[2])
  {
    var n, later := WordLength(c), ds[1..];
    assert SampledWords(w, o, c, ds)[2] == SampledWords(w, o + n, c, later)[1] == SampledWords(w, o + 2 * n, c, later[1..])[0];
  }

  lemma {:induction false} ReceiveWords(t: seq<Sample>, w: seq<Wire>, p: nat, o: nat, c: Config, ds: seq<Byte>, r: nat, e: nat)
    requires Mode0(c) && ShowsPins(w, t) && ds != [] && WordsAt(t, o, c, ds)
    requires p <= o + c.half && Level(t, p, o, false)
    requires r == o + WordsLength(c, ds) <= e < |t| && Level(t, r, e, false) && t[e].pins.cs
    ensures p < |w| && ReceiveBytes(w, false, p) == Done(SampledWords(w, o, c, ds), e)
    decreases |ds|
  {
    var o' := o + WordLength(c);
    SampledCons(w, o, c, ds);
    if |ds| == 1 {
      assert ds[1..] == [] && r == o';
      LastReceive(t, w, p, o, c, ds[0], r, e);
    } else {
      TwoWords(t, o, c, ds);
      ReceiveWords(t, w, o' + c.half, o', c, ds[1..], r, e);
      assert ReceiveBytes(w, false, p) == Prepend(SampledByte(w, o, c.half, ds[0]), ReceiveBytes(w, false, o' + c.half)) by {
        InnerReceive(t, w, p, o, c, ds[0], ds[1]);
      }
    }
  }

  lemma TwoWords(t: seq<Sample>, o: nat, c: Config, ds: seq<Byte>)
    requires |ds| >= 2 && WordsAt(t, o, c, ds)
    ensures var o' := o + WordLength(c);
            WordAt(t, o, c, ds[0]) && WordAt(t, o', c, ds[1]) && WordsAt(t, o', c, ds[1..])
    ensures WordsLength(c, ds) == WordLength(c) + WordsLength(c, ds[1..])
  {
    assert ds[1..][0] == ds[1];
  }

  lemma SampledCons(w: seq<Wire>, o: nat, c: Config, ds: seq<Byte>)
    requires ds != []
    ensures SampledWords(w, o, c, ds) == [SampledByte(w, o, c.half, ds[0])] + SampledWords(w, o + WordLength(c), c, ds[1..])
    ensures |ds| == 1 ==> SampledWords(w, o, c, ds) == [SampledByte(w, o, c.half, ds[0])]
  {
    var s := SampledByte(w, o, c.half, ds[0]);
    assert [s] + [] == [s];
  }

  /** The bytes the monitor collects from one transaction. */
  lemma ReceiveTxn(t: seq<Sample>, w: seq<Wire>, o: nat, c: Config, bs: seq<Byte>)
    requires Mode0(c) && ShowsPins(w, t) && |bs| == 3 && TxnAt(t, o, c, bs)
    ensures ReceiveWindow(w, false, o) == Done(SampledWords(w, WordsStart(o, c), c, bs), o + Length(c))
  {
    var s, q := SelectAt(o, c), WordsStart(o, c);
    assert SampleAt(t, s, false);
    WindowOpens(t, w, o, s);
    ThreeWords(t, q, c, bs);
    ReceiveWords(t, w, s, q, c, bs, WordsEnd(o, c), o + Length(c));
  }

  /** The monitor waits for chip select to fall. */
  lemma WindowOpens(t: seq<Sample>, w: seq<Wire>, o: nat, s: nat)
    requires ShowsPins(w, t) && o <= s && IdleAt(t, o, s) && SampleAt(t, s, false)
    ensures s < |w| && NextSelect(w, o) == s
  {
    forall i | o <= i < s ensures w[i].cs {
      assert IdleSample(t, i) && SamePins(w, t, i);
    }
    WireAt(t, w, s, false);
    NextSelectIs(w, o, s);
  }

  // ----- End to end

  /** From the end of one transaction to the first word of the next: only the group is emptied. */
  lemma LeadIn(t: seq<Sample>, ws: seq<Window>, o: nat, c: Config, bs: seq<Byte>)
    requires Mode0(c) && History(t, ws) && Settled(t, o) && |bs| == 3 && TxnAt(t, o, c, bs)
    ensures var q := o + 2 * c.half + c.lead;
            q + 2 <= |t| && ws[q + 2] == ws[o].(group := [])
  {
    var s, q := o + 2 * c.half, o + 2 * c.half + c.lead;
    WordStartsLow(t, q, c, bs[0]);
    IdleWindow(t, ws, o, s);
    LeadWindow(t, ws, s, q);
  }

  /** One transaction: the registers change as the map says, and a read fetches what it should. */
  lemma OneTransaction(t: seq<Sample>, ws: seq<Window>, o: nat, c: Config, tr: Txn)
    requires Mode0(c) && History(t, ws) && Settled(t, o) && TxnAt(t, o, c, TxBytes(tr))
    ensures ws[o + Length(c)].regs == Applied(ws[o].regs, tr)
    ensures o + AddressEdge(c) < |t| && ThirdWordStart(o, c) + 2 <= |t|
    ensures var v := ReadRegister(ws[o].regs, tr.addr, t[o + AddressEdge(c)].gpioIn);
            tr.isWrite || Shifting(ws[ThirdWordStart(o, c) + 2], v, 0)
  {
    AddressEdgeInside(t, o, c, TxBytes(tr));
    LeadIn(t, ws, o, c, TxBytes(tr));
    WordsWindow(t, ws, o + 2 * c.half + c.lead, c, tr);
    assert o + AddressEdge(c) == o + 2 * c.half + c.lead + WordLength(c) + 15 * c.half + 1;
  }

  function ThirdWordStart(o: nat, c: Config): nat {
    o + 2 * c.half + c.lead + 2 * WordLength(c)
  }

  /** The third byte collected from a read is the value fetched. */
  lemma ShiftedAnswer(t: seq<Sample>, w: seq<Wire>, ws: seq<Window>, o: nat, c: Config, bs: seq<Byte>, v: Byte)
    requires Mode0(c) && History(t, ws) && ShowsMiso(w, t) && |bs| == 3 && TxnAt(t, o, c, bs)
    requires ThirdWordStart(o, c) + 2 <= |t| && Shifting(ws[ThirdWordStart(o, c) + 2], v, 0)
    ensures SampledWords(w, WordsStart(o, c), c, bs)[2] == v
  {
    var q := WordsStart(o, c);
    ThreeWords(t, q, c, bs);
    ThirdWord(w, q, c, bs);
    ReadBits(t, w, ws, q + 2 * WordLength(c), c.half, bs[2], v, 0);
    assert v[0..8] == v;
  }

  lemma AddressEdgeInside(t: seq<Sample>, o: nat, c: Config, bs: seq<Byte>)
    requires Mode0(c) && |bs| == 3 && TxnAt(t, o, c, bs)
    ensures o + AddressEdge(c) < o + Length(c) < |t|
  {
    ThreeWords(t, o + 2 * c.half + c.lead, c, bs);
  }

  lemma LeadWindow(t: seq<Sample>, ws: seq<Window>, s: nat, q: nat)
    requires History(t, ws) && s <= q && q + 2 <= |t| && Level(t, s, q, false) && LowAt(t, q)
    ensures ws[q + 2] == ws[s + 2]
  {
    QuietLevel(t, ws, s + 2, q + 2, false);
  }

  lemma EndsSettled(t: seq<Sample>, o: nat, c: Config, bs: seq<Byte>)
    requires Mode0(c) && |bs| == 3 && TxnAt(t, o, c, bs)
    ensures Settled(t, o + Length(c))
  {
    var q, n, e := o + 2 * c.half + c.lead, WordLength(c), o + Length(c);
    ThreeWords(t, q, c, bs);
    assert SampleAt(t, e - 1, false);
    assert SampleAt(t, e - 2, false);
  }

  /** Transactions back to back from edge o on. */
  predicate SessionAt(t: seq<Sample>, o: nat, c: Config, trs: seq<Txn>)
    decreases |trs|
  {
    trs == [] || (TxnAt(t, o, c, TxBytes(trs[0])) && SessionAt(t, o + Length(c), c, trs[1..]))
  }

  function SessionEnd(o: nat, c: Config, trs: seq<Txn>): nat
    decreases |trs|
  {
    if trs == [] then o else SessionEnd(o + Length(c), c, trs[1..])
  }

  /** The trace samples the session's wave in edges o .. e - 1, and chip select is high at e. */
  ghost predicate Driven(t: seq<Sample>, o: nat, c: Config, m: bool, trs: seq<Txn>, e: nat)
    requires c.Valid()
  {
    Carries(t, o, SessionWave(c, m, trs)) && e == o + |SessionWave(c, m, trs)| && e < |t| && t[e].pins.cs
  }

  lemma {:induction false} CarriesSession(t: seq<Sample>, o: nat, c: Config, m: bool, trs: seq<Txn>, e: nat)
    requires Mode0(c) && Driven(t, o, c, m, trs, e)
    ensures SessionAt(t, o, c, trs) && SessionEnd(o, c, trs) == e
    decreases |trs|
  {
    if trs != [] {
      SessionShape(t, o, c, m, trs, e);
      CarriesSession(t, o + Length(c), c, trs[0].data[7], trs[1..], e);
      SessionCons(t, o, c, trs);
    }
  }

  lemma SessionCons(t: seq<Sample>, o: nat, c: Config, trs: seq<Txn>)
    requires trs != [] && TxnAt(t, o, c, TxBytes(trs[0])) && SessionAt(t, o + Length(c), c, trs[1..])
    ensures SessionAt(t, o, c, trs) && SessionEnd(o, c, trs) == SessionEnd(o + Length(c), c, trs[1..])
  {
  }

  /** The samples of a session start with those of its first transaction. */
  lemma SessionShape(t: seq<Sample>, o: nat, c: Config, m: bool, trs: seq<Txn>, e: nat)
    requires Mode0(c) && trs != [] && Driven(t, o, c, m, trs, e)
    ensures TxnAt(t, o, c, TxBytes(trs[0])) && Driven(t, o + Length(c), c, trs[0].data[7], trs[1..], e)
  {
    SessionHead(t, o, WindowWave(c, true, m, TxBytes(trs[0])), c, trs[0].data[7], trs[1..], e);
    CarriesTxn(t, o, c, m, TxBytes(trs[0]));
  }

  lemma SessionHead(t: seq<Sample>, o: nat, first: Wave, c: Config, m: bool, trs: seq<Txn>, e: nat)
    requires Mode0(c) && Carries(t, o, first + SessionWave(c, m, trs))
    requires e == o + |first| + |SessionWave(c, m, trs)| && e < |t| && t[e].pins.cs
    ensures Carries(t, o, first) && Carries(t, o + |first|, SessionWave(c, m, trs))
    ensures o + |first| < |t| && t[o + |first|].pins.cs
  {
    CarriesSplit(t, o, first, SessionWave(c, m, trs));
    if trs == [] {
      assert e == o + |first|;
    } else {
      SessionHigh(t, o + |first|, c, m, trs);
    }
  }

  /** A session starts with chip select high. */
  lemma SessionHigh(t: seq<Sample>, o: nat, c: Config, m: bool, trs: seq<Txn>)
    requires Mode0(c) && trs != [] && Carries(t, o, SessionWave(c, m, trs))
    ensures o < |t| && t[o].pins.cs
  {
    var rest := SessionWave(c, trs[0].data[7], trs[1..]);
    CarriesSplit(t, o, WindowWave(c, true, m, TxBytes(trs[0])), rest);
    WindowHigh(t, o, c, m, TxBytes(trs[0]));
  }

  lemma WindowHigh(t: seq<Sample>, o: nat, c: Config, m: bool, bs: seq<Byte>)
    requires Mode0(c) && Carries(t, o, WindowWave(c, true, m, bs))
    ensures o < |t| && t[o].pins.cs
  {
    CarriesParts(t, o, Hold(Pins(true, false, m), 2 * c.half), Hold(Pins(false, false, m), c.lead),
                 WordsWave(c, false, m, bs), Hold(Pins(false, false, LastBit(m, bs)), c.lead));
    CarriesIndex(t, o, Hold(Pins(true, false, m), 2 * c.half), 0);
  }

  lemma {:induction false} SessionRegisters(t: seq<Sample>, ws: seq<Window>, o: nat, c: Config, trs: seq<Txn>)
    requires Mode0(c) && History(t, ws) && Settled(t, o) && o <= |t| && SessionAt(t, o, c, trs)
    ensures var e := SessionEnd(o, c, trs); e <= |t| && ws[e].regs == AppliedAll(ws[o].regs, trs)
    decreases |trs|
  {
    if trs != [] {
      OneTransaction(t, ws, o, c, trs[0]);
      EndsSettled(t, o, c, TxBytes(trs[0]));
      SessionRegisters(t, ws, o + Length(c), c, trs[1..]);
    }
  }

  lemma {:induction false} SessionAnswers(t: seq<Sample>, w: seq<Wire>, ws: seq<Window>, o: nat, c: Config, trs: seq<Txn>)
    requires Mode0(c) && History(t, ws) && ShowsPins(w, t) && ShowsMiso(w, t)
    requires Settled(t, o) && o <= |t| && SessionAt(t, o, c, trs)
    ensures MonitorAll(w, false, o, trs) == Done(AnsweredAll(c, t, o, ws[o].regs, trs), SessionEnd(o, c, trs))
    decreases |trs|
  {
    if trs != [] {
      var o' := o + Length(c);
      OnePublished(t, w, ws, o, c, trs[0]);
      SessionAnswers(t, w, ws, o', c, trs[1..]);
      MonitorsFirst(w, o, trs, AnsweredAt(c, t, o, ws[o].regs, trs[0]), o');
      AnswersFirst(c, t, o, ws[o].regs, trs);
    }
  }

  lemma AnswersFirst(c: Config, t: seq<Sample>, o: nat, regs: Registers, trs: seq<Txn>)
    requires trs != []
    ensures AnsweredAll(c, t, o, regs, trs)
         == [AnsweredAt(c, t, o, regs, trs[0])] + AnsweredAll(c, t, o + Length(c), Applied(regs, trs[0]), trs[1..])
    ensures SessionEnd(o, c, trs) == SessionEnd(o + Length(c), c, trs[1..])
  {
  }

  lemma MonitorsFirst(w: seq<Wire>, o: nat, trs: seq<Txn>, answer: Txn, next: nat)
    requires trs != [] && o <= |w| && ReceiveWindow(w, false, o).Done?
    requires ReceiveWindow(w, false, o).next == next && Published(trs[0], ReceiveWindow(w, false, o).value) == answer
    ensures MonitorAll(w, false, o, trs) == Prepend(answer, MonitorAll(w, false, next, trs[1..]))
  {
  }

  lemma OnePublished(t: seq<Sample>, w: seq<Wire>, ws: seq<Window>, o: nat, c: Config, tr: Txn)
    requires Mode0(c) && History(t, ws) && ShowsPins(w, t) && ShowsMiso(w, t)
    requires Settled(t, o) && TxnAt(t, o, c, TxBytes(tr))
    ensures o + AddressEdge(c) < |t| && o + Length(c) <= |t| && Settled(t, o + Length(c))
    ensures ws[o + Length(c)].regs == Applied(ws[o].regs, tr)
    ensures var r := ReceiveWindow(w, false, o);
            && r.Done? && r.next == o + Length(c)
            && Published(tr, r.value) == AnsweredAt(c, t, o, ws[o].regs, tr)
  {
    var bs := TxBytes(tr);
    OneTransaction(t, ws, o, c, tr);
    EndsSettled(t, o, c, bs);
    ReceiveTxn(t, w, o, c, bs);
    var collected := SampledWords(w, WordsStart(o, c), c, bs);
    assert tr.isWrite || collected[2] == ReadRegister(ws[o].regs, tr.addr, t[o + AddressEdge(c)].gpioIn) by {
      if !tr.isWrite {
        ShiftedAnswer(t, w, ws, o, c, bs, ReadRegister(ws[o].regs, tr.addr, t[o + AddressEdge(c)].gpioIn));
      }
    }
  }

  /**
   * The whole testbench as a register map: for every half period, gap and lead of at least
   * one clk period, every list of transactions and every GPIO input, the register file ends
   * as the map says and the monitor publishes exactly the map's answers.
   */
  lemma EndToEnd(c: Config, t: seq<Sample>, trs: seq<Txn>)
    requires Mode0(c) && Carries(t, 0, SessionWave(c, false, trs))
    requires var e := |SessionWave(c, false, trs)|; e < |t| && t[e].pins.cs
    ensures var e := |SessionWave(c, false, trs)|;
            && Run(t[..e]).core.regs == AppliedAll(Cleared(), trs)
            && MonitorAll(Wires(t), false, 0, trs) == Done(AnsweredAll(c, t, 0, Cleared(), trs), e)
  {
    var e := |SessionWave(c, false, trs)|;
    var ws := seq(|t| + 1, i requires 0 <= i <= |t| => WindowAt(t, i));
    var w := Wires(t);
    assert History(t, ws);
    forall i: nat | i < |t| ensures MisoAt(w, t, i) && SamePins(w, t, i) {
    }
    CarriesSession(t, 0, c, false, trs, e);
    SessionRegisters(t, ws, 0, c, trs);
    SessionAnswers(t, w, ws, 0, c, trs);
    RegistersOfWindow(t, e);
  }
}
