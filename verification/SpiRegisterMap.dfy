/**
 * What the register map means to software: an address answers with the byte last written
 * to it.  The testbench at the end runs the driver, the slave and the monitor together.
 */
module SpiRegisterMap {
  import opened Arithmetic
  import opened Bits
  import opened SpiSlave
  import opened SpiWindow
  import opened SpiDriver
  import opened SpiBits
  import opened SpiMonitor
  import opened SpiSystem

  /** The byte last written to address a; zero, as after reset, if there is none. */
  function LastWritten(trs: seq<Txn>, a: Byte): Byte {
    if trs == [] then ZERO
    else
      var last := trs[|trs| - 1];
      if last.isWrite && last.addr == a then last.data else LastWritten(trs[..|trs| - 1], a)
  }

  /** What a read of address a should give after the transactions trs. */
  function Expected(trs: seq<Txn>, a: Byte, gpioIn: Byte): Byte {
    if a == [false, false, false, false, false, false, false, false] then [true, false, true, false, false, true, false, true]
    else if a == [false, false, false, false, false, false, false, true] then gpioIn
    else LastWritten(trs, a)
  }

  /** A write shows at its own address and at no other, and never at the two read-only ones. */
  lemma WriteIsLocal(regs: Registers, tr: Txn, a: Byte, gpioIn: Byte)
    ensures ReadRegister(Applied(regs, tr), a, gpioIn)
         == if tr.isWrite && tr.addr == a
               && a != [false, false, false, false, false, false, false, false]
               && a != [false, false, false, false, false, false, false, true] then tr.data
            else ReadRegister(regs, a, gpioIn)
  {
    AddressNumbers(a);
    if Index(tr.addr) == Index(a) { IndexInjective(tr.addr, a); }
  }

  lemma {:induction false} AppliedLast(regs: Registers, trs: seq<Txn>)
    requires trs != []
    ensures AppliedAll(regs, trs) == Applied(AppliedAll(regs, trs[..|trs| - 1]), trs[|trs| - 1])
    decreases |trs|
  {
    var front := trs[..|trs| - 1];
    if |trs| > 1 {
      AppliedLast(Applied(regs, trs[0]), trs[1..]);
      assert trs[1..][..|trs| - 2] == front[1..] && front[0] == trs[0];
    } else {
      assert trs[1..] == [] && front == [];
    }
  }

  /** The map answers a read with the byte last written to the address. */
  lemma {:induction false} ReadsLastWritten(trs: seq<Txn>, a: Byte, gpioIn: Byte)
    ensures ReadRegister(AppliedAll(Cleared(), trs), a, gpioIn) == Expected(trs, a, gpioIn)
    decreases |trs|
  {
    AddressNumbers(a);
    if trs != [] {
      var front := trs[..|trs| - 1];
      ReadsLastWritten(front, a, gpioIn);
      AppliedLast(Cleared(), trs);
      WriteIsLocal(AppliedAll(Cleared(), front), trs[|trs| - 1], a, gpioIn);
    }
  }

  /** The edge that completes the address byte of the k-th transaction from edge o on. */
  function AddressEdgeOf(c: Config, o: nat, k: nat): nat
    decreases k
  {
    if k == 0 then o + AddressEdge(c) else AddressEdgeOf(c, o + Length(c), k - 1)
  }

  lemma FirstAnswer(c: Config, t: seq<Sample>, o: nat, regs: Registers, trs: seq<Txn>)
    requires Mode0(c) && SessionAt(t, o, c, trs) && trs != []
    ensures o + AddressEdge(c) < |t| && |AnsweredAll(c, t, o, regs, trs)| > 0
    ensures AnsweredAll(c, t, o, regs, trs)[0] == Answered(regs, trs[0], t[o + AddressEdge(c)].gpioIn)
  {
    AddressEdgeInside(t, o, c, TxBytes(trs[0]));
  }

  /** The k-th answer is that of the registers before it, with the GPIO input at its own address edge. */
  ghost predicate AnswerIs(c: Config, t: seq<Sample>, o: nat, regs: Registers, trs: seq<Txn>, k: nat)
    requires k < |trs|
  {
    var e, answers := AddressEdgeOf(c, o, k), AnsweredAll(c, t, o, regs, trs);
    e < |t| && k < |answers| && answers[k] == Answered(AppliedAll(regs, trs[..k]), trs[k], t[e].gpioIn)
  }

  lemma LaterAnswer(c: Config, t: seq<Sample>, o: nat, regs: Registers, trs: seq<Txn>, k: nat)
    requires 0 < k < |trs| && AnswerIs(c, t, o + Length(c), Applied(regs, trs[0]), trs[1..], k - 1)
    ensures AnswerIs(c, t, o, regs, trs, k)
  {
    AnswersFirst(c, t, o, regs, trs);
    AppliedCons(regs, trs, k);
  }

  lemma {:induction false} AnswerAt(c: Config, t: seq<Sample>, o: nat, regs: Registers, trs: seq<Txn>, k: nat)
    requires Mode0(c) && SessionAt(t, o, c, trs) && k < |trs|
    ensures AnswerIs(c, t, o, regs, trs, k)
    decreases k
  {
    if k > 0 {
      AnswerAt(c, t, o + Length(c), Applied(regs, trs[0]), trs[1..], k - 1);
      LaterAnswer(c, t, o, regs, trs, k);
    } else {
      FirstAnswer(c, t, o, regs, trs);
    }
  }

  /** When the address of the k-th transaction is complete, in clk periods. */
  lemma {:induction false} AddressEdgeTime(c: Config, o: nat, k: nat)
    ensures AddressEdgeOf(c, o, k)
         == o + k * (50 * c.half + 2 * c.lead + 3 * c.gap) + 33 * c.half + c.lead + c.gap + 1
    decreases k
  {
    if k > 0 {
      AddressEdgeTime(c, o + Length(c), k - 1);
      Scaled(k, Length(c));
    }
  }

  lemma AppliedCons(regs: Registers, trs: seq<Txn>, k: nat)
    requires 0 < k <= |trs|
    ensures AppliedAll(regs, trs[..k]) == AppliedAll(Applied(regs, trs[0]), trs[1..][..k - 1])
  {
    assert trs[1..][..k - 1] == trs[..k][1..];
  }

  lemma {:induction false} AnswerCount(c: Config, t: seq<Sample>, o: nat, regs: Registers, trs: seq<Txn>)
    ensures |AnsweredAll(c, t, o, regs, trs)| == |trs|
    decreases |trs|
  {
    if trs != [] { AnswerCount(c, t, o + Length(c), Applied(regs, trs[0]), trs[1..]); }
  }

  /** tr as it should be published: a read carries the byte last written to its address by the transactions before it. */
  function Answer(before: seq<Txn>, tr: Txn, gpioIn: Byte): Txn {
    if tr.isWrite then tr else tr.(data := Expected(before, tr.addr, gpioIn))
  }

  lemma OneAnswer(c: Config, t: seq<Sample>, trs: seq<Txn>, k: nat)
    requires Mode0(c) && SessionAt(t, 0, c, trs) && k < |trs|
    ensures var e, answers := AddressEdgeOf(c, 0, k), AnsweredAll(c, t, 0, Cleared(), trs);
            e < |t| && k < |answers| && answers[k] == Answer(trs[..k], trs[k], t[e].gpioIn)
  {
    AnswerAt(c, t, 0, Cleared(), trs, k);
    ReadsLastWritten(trs[..k], trs[k].addr, t[AddressEdgeOf(c, 0, k)].gpioIn);
  }

  /** One answer for each transaction, with the GPIO input at its own address edge. */
  ghost predicate Answers(c: Config, t: seq<Sample>, trs: seq<Txn>, published: seq<Txn>) {
    && |published| == |trs|
    && forall k: nat | k < |trs| ::
         var e := AddressEdgeOf(c, 0, k);
         e < |t| && published[k] == Answer(trs[..k], trs[k], t[e].gpioIn)
  }

  /**
   * Over a whole driven session the monitor publishes every write as it was sent, and every
   * read with the byte last written to its address before it.
   */
  lemma ReadYourWrites(c: Config, t: seq<Sample>, trs: seq<Txn>)
    requires Mode0(c) && Carries(t, 0, SessionWave(c, false, trs))
    requires var e := |SessionWave(c, false, trs)|; e < |t| && t[e].pins.cs
    ensures var r := MonitorAll(Wires(t), false, 0, trs); r.Done? && Answers(c, t, trs, r.value)
  {
    var published := AnsweredAll(c, t, 0, Cleared(), trs);
    EndToEnd(c, t, trs);
    CarriesSession(t, 0, c, false, trs, |SessionWave(c, false, trs)|);
    AnswerCount(c, t, 0, Cleared(), trs);
    forall k: nat | k < |trs|
      ensures var e := AddressEdgeOf(c, 0, k);
              e < |t| && published[k] == Answer(trs[..k], trs[k], t[e].gpioIn)
    {
      OneAnswer(c, t, trs, k);
    }
  }

  // ----- The three components together

  /** The samples of a wave, with a GPIO input at each edge. */
  function Samples(w: Wave, gpio: nat -> Byte): (t: seq<Sample>)
    ensures |t| == |w| && forall i: nat | i < |w| :: t[i] == Sample(w[i], gpio(i))
  {
    seq(|w|, i requires 0 <= i < |w| => Sample(w[i], gpio(i)))
  }

  /** What the monitor sees once one more edge follows. */
  lemma WiresSnoc(t: seq<Sample>, x: Sample)
    ensures Wires(t + [x]) == Wires(t) + [Wire(x.pins.cs, x.pins.sclk, Run(t).core.miso)]
  {
    var t' := t + [x];
    assert t'[..|t|] == t;
    forall i | 0 <= i < |t| ensures Wires(t')[i] == Wires(t)[i] {
      assert t'[..i] == t[..i];
    }
  }

  /** Clocks a slave that comes out of reset over a trace, recording what the monitor sees. */
  method Observe(s: Slave, t: seq<Sample>) returns (w: seq<Wire>)
    requires s.Valid() && s.Abs() == RESET_STATE
    modifies s, s.regfile
    ensures s.Valid() && s.Abs() == Run(t) && w == Wires(t)
  {
    w := [];
    for i := 0 to |t|
      invariant s.Valid() && s.Abs() == Run(t[..i]) && w == Wires(t[..i])
    {
      assert t[..i + 1] == t[..i] + [t[i]];
      WiresSnoc(t[..i], t[i]);
      RunSnoc(t, i);
      w := w + [Wire(t[i].pins.cs, t[i].pins.sclk, s.miso)];
      s.Clock(t[i].pins, t[i].gpioIn);
    }
    assert t[..|t|] == t;
  }

  /** Every address answers as it should after the transactions trs. */
  ghost predicate Remembers(regs: Registers, trs: seq<Txn>) {
    forall a: Byte, gpioIn: Byte :: ReadRegister(regs, a, gpioIn) == Expected(trs, a, gpioIn)
  }

  lemma SessionRemembers(c: Config, t: seq<Sample>, trs: seq<Txn>, e: nat)
    requires Mode0(c) && Carries(t, 0, SessionWave(c, false, trs))
    requires e == |SessionWave(c, false, trs)| < |t| && t[e].pins.cs
    ensures Remembers(Run(t[..e]).core.regs, trs)
  {
    EndToEnd(c, t, trs);
    forall a: Byte, gpioIn: Byte
      ensures ReadRegister(Run(t[..e]).core.regs, a, gpioIn) == Expected(trs, a, gpioIn)
    {
      ReadsLastWritten(trs, a, gpioIn);
    }
  }

  /** The trace of a session: the samples of its wave, then one with chip select high. */
  ghost predicate Recorded(c: Config, gpio: nat -> Byte, trs: seq<Txn>, samples: seq<Sample>, last: Sample)
    requires Mode0(c)
  {
    samples == Samples(SessionWave(c, false, trs), gpio) && last.pins.cs
  }

  lemma RecordedSession(c: Config, gpio: nat -> Byte, trs: seq<Txn>, samples: seq<Sample>, last: Sample)
    requires Mode0(c) && Recorded(c, gpio, trs, samples, last)
    ensures Remembers(Run(samples).core.regs, trs)
    ensures var r := MonitorAll(Wires(samples + [last]), false, 0, trs); r.Done? && Answers(c, samples + [last], trs, r.value)
  {
    var w, t := SessionWave(c, false, trs), samples + [last];
    forall i: nat | i < |w| ensures Carried(t, 0, w, i) {
    }
    assert t[..|w|] == samples;
    ReadYourWrites(c, t, trs);
    SessionRemembers(c, t, trs, |w|);
  }

  /** The samples a driver leaves when it has sent the transactions. */
  method Stimulate(c: Config, items: seq<Txn>, gpio: nat -> Byte) returns (samples: seq<Sample>, last: Sample)
    requires Mode0(c)
    ensures Recorded(c, gpio, items, samples, last)
  {
    var d := new Driver(c);
    DriveAll(d, items);
    assert d.wave == [] + SessionWave(c, false, items);
    samples := Samples(d.wave, gpio);
    last := Sample(d.Now(), gpio(|samples|));
  }

  lemma RemembersOutput(regs: Registers, trs: seq<Txn>, a: Byte)
    requires Remembers(regs, trs) && Index(a) == ADDR_GPIO_OUT
    ensures regs[2] == LastWritten(trs, a) && a == [false, false, false, false, false, false, true, false]
  {
    AddressNumbers(a);
    assert ReadRegister(regs, a, ZERO) == Expected(trs, a, ZERO);
  }

  /**
   * A driver, a slave and a monitor on one list of transactions: in the end every address,
   * the GPIO output among them, holds what was last written to it, and the monitor has
   * published the right answers.
   */
  method Testbench(c: Config, items: seq<Txn>, gpio: nat -> Byte)
    returns (s: Slave, published: seq<Txn>, samples: seq<Sample>, last: Sample)
    requires Mode0(c)
    ensures Recorded(c, gpio, items, samples, last) && Answers(c, samples + [last], items, published)
    ensures s.Valid() && Remembers(s.regfile[..], items)
    ensures forall a: Byte | Index(a) == ADDR_GPIO_OUT :: s.GpioOut() == LastWritten(items, a)
    ensures s.GpioOut() == LastWritten(items, [false, false, false, false, false, false, true, false]) // 8'h02
  {
    samples, last := Stimulate(c, items, gpio);
    RecordedSession(c, gpio, items, samples, last);
    s := new Slave();
    var w := Observe(s, samples);
    WiresSnoc(samples, last);
    w := w + [Wire(last.pins.cs, last.pins.sclk, s.miso)];
    var r := MonitorRunPhase(w, c.mode, 0, items);
    published := r.value;
    forall a: Byte | Index(a) == ADDR_GPIO_OUT ensures s.GpioOut() == LastWritten(items, a) {
      RemembersOutput(s.regfile[..], items, a);
    }
    AddressNumbers([false, false, false, false, false, false, true, false]);
  }
}
