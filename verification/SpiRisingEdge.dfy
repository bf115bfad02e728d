/**
 * A master that samples MISO on rising edges, as the slave's mode-0 description suggests,
 * needs two clk periods per half SCLK period: the slave shifts one edge after it sees SCLK fall.
 */
module SpiRisingEdge {
  import opened Bits
  import opened SpiSlave
  import opened SpiWindow
  import opened SpiDriver
  import opened SpiBits
  import opened SpiMonitor
  import opened SpiSystem

  /** All bits are equal: a shift by one goes unnoticed. */
  predicate Uniform(v: Byte) {
    forall k | 0 <= k < 8 :: v[k] == v[0]
  }

  /** MISO as sampled at the rising edge of each bit. */
  function RisingBits(w: seq<Wire>, o: nat, h: nat, bs: seq<bool>): (r: seq<bool>)
    ensures |r| == |bs|
    decreases |bs|
  {
    if bs == [] then [] else [o + h < |w| && w[o + h].miso] + RisingBits(w, o + 2 * h, h, bs[1..])
  }

  lemma MisoOfWindow(t: seq<Sample>, w: seq<Wire>, ws: seq<Window>, i: nat)
    requires History(t, ws) && ShowsMiso(w, t) && i < |t|
    ensures w[i].miso == ws[i].miso
  {
    assert MisoAt(w, t, i);
    SlaveRefinesWindow(t, i);
    HistoryIsWindowAt(t, ws, i);
  }

  lemma SlowBit(t: seq<Sample>, w: seq<Wire>, ws: seq<Window>, o: nat, h: nat, b: bool, v: Byte, k: nat)
    requires History(t, ws) && ShowsMiso(w, t) && BitAt(t, o, h, b) && LowAt(t, o + 2 * h) && o + 2 * h + 1 < |t|
    requires h >= 2 && k < 8 && Shifting(ws[o + 2], v, k)
    ensures o + h < |w| && w[o + h].miso == v[k] && Shifting(ws[o + 2 * h + 2], v, k + 1)
  {
    QuietLevel(t, ws, o + 2, o + h, false);
    MisoOfWindow(t, w, ws, o + h);
    ShiftOneBit(t, ws, o, h, b, v, k);
  }

  /** With two or more clk periods per half period the bit is already there. */
  lemma {:induction false} SlowBits(t: seq<Sample>, w: seq<Wire>, ws: seq<Window>, o: nat, h: nat, bs: seq<bool>, v: Byte, k: nat)
    requires History(t, ws) && ShowsMiso(w, t) && BitsAt(t, o, h, bs) && o + 2 <= |t| && h >= 2
    requires k + |bs| == 8 && Shifting(ws[o + 2], v, k)
    ensures RisingBits(w, o, h, bs) == v[k..8]
    decreases |bs|
  {
    if bs != [] {
      NextIsLow(t, o + 2 * h, h, bs[1..]);
      SlowBit(t, w, ws, o, h, bs[0], v, k);
      SlowBits(t, w, ws, o + 2 * h, h, bs[1..], v, k + 1);
      TailOf(v, k, 8);
    }
  }

  lemma FastBit(t: seq<Sample>, w: seq<Wire>, ws: seq<Window>, o: nat, b: bool, v: Byte, k: nat)
    requires History(t, ws) && ShowsMiso(w, t) && BitAt(t, o, 1, b) && LowAt(t, o + 2) && o + 3 < |t|
    requires k < 8 && Shifting(ws[o + 2], v, k)
    ensures o + 1 < |w| && w[o + 1].miso == ws[o + 1].miso
    ensures ws[o + 3].miso == v[k] && Shifting(ws[o + 4], v, k + 1)
  {
    BitEvents(t, ws, o, 1, b);
    MisoOfWindow(t, w, ws, o + 1);
    ShiftOneBit(t, ws, o, 1, b, v, k);
  }

  /** With one, every bit after the first is seen one bit late. */
  lemma {:induction false} FastBits(t: seq<Sample>, w: seq<Wire>, ws: seq<Window>, o: nat, bs: seq<bool>, v: Byte, k: nat)
    requires History(t, ws) && ShowsMiso(w, t) && BitsAt(t, o, 1, bs) && o + 2 <= |t|
    requires k + 1 + |bs| == 8 && ws[o + 1].miso == v[k] && Shifting(ws[o + 2], v, k + 1)
    ensures RisingBits(w, o, 1, bs) == v[k..7]
    decreases |bs|
  {
    if bs != [] {
      NextIsLow(t, o + 2, 1, bs[1..]);
      FastBit(t, w, ws, o, bs[0], v, k + 1);
      FastBits(t, w, ws, o + 2, bs[1..], v, k + 1);
      TailOf(v, k, 7);
    }
  }

  lemma FastByte(t: seq<Sample>, w: seq<Wire>, ws: seq<Window>, o: nat, bs: Byte, v: Byte)
    requires History(t, ws) && ShowsMiso(w, t) && BitsAt(t, o, 1, bs) && o + 2 <= |t|
    requires o >= 1 && LowAt(t, o - 1) && Shifting(ws[o + 2], v, 0)
    ensures RisingBits(w, o, 1, bs) == [ws[o + 2].miso] + v[0..7]
  {
    NextIsLow(t, o, 1, bs);
    NextIsLow(t, o + 2, 1, bs[1..]);
    QuietLevel(t, ws, o + 1, o + 2, false) by {
      assert SampleAt(t, o - 1, false) && SampleAt(t, o, false);
    }
    FastBit(t, w, ws, o, bs[0], v, 0);
    FastBits(t, w, ws, o + 2, bs[1..], v, 0);
  }

  /** The byte a rising-edge master reads is the value fetched iff there is time, or nothing to see. */
  lemma RisingMaster(t: seq<Sample>, w: seq<Wire>, ws: seq<Window>, o: nat, h: nat, bs: Byte, v: Byte)
    requires History(t, ws) && ShowsMiso(w, t) && BitsAt(t, o, h, bs) && o + 2 <= |t| && h >= 1
    requires o >= 1 && LowAt(t, o - 1) && Shifting(ws[o + 2], v, 0)
    ensures RisingBits(w, o, h, bs) == v <==> h >= 2 || Uniform(v)
  {
    if h >= 2 {
      SlowBits(t, w, ws, o, h, bs, v, 0);
      assert v[0..8] == v;
    } else {
      FastByte(t, w, ws, o, bs, v);
      LateByte(v, RisingBits(w, o, 1, bs));
    }
  }

  lemma LateByte(v: Byte, r: seq<bool>)
    requires r == [v[0]] + v[0..7]
    ensures r == v <==> Uniform(v)
  {
    assert r[0] == v[0] && r[1] == v[0] && r[2] == v[1] && r[3] == v[2];
    assert r[4] == v[3] && r[5] == v[4] && r[6] == v[5] && r[7] == v[6];
    if Uniform(v) {
      assert forall k | 0 <= k < 8 :: r[k] == v[k];
    }
  }

  /**
   * A driven read seen by a rising-edge master: the third byte it samples is the value the
   * read fetched iff SCLK is slow enough or all bits of that value are equal.
   */
  lemma RisingTransaction(t: seq<Sample>, w: seq<Wire>, ws: seq<Window>, o: nat, c: Config, tr: Txn)
    requires Mode0(c) && History(t, ws) && ShowsMiso(w, t) && Settled(t, o)
    requires TxnAt(t, o, c, TxBytes(tr)) && !tr.isWrite
    ensures o + AddressEdge(c) < |t|
    ensures var v := ReadRegister(ws[o].regs, tr.addr, t[o + AddressEdge(c)].gpioIn);
            RisingBits(w, ThirdWordStart(o, c), c.half, tr.data) == v
            <==> c.half >= 2 || Uniform(v)
  {
    OneTransaction(t, ws, o, c, tr);
    ThreeWords(t, WordsStart(o, c), c, TxBytes(tr));
    var third := ThirdWordStart(o, c);
    assert SampleAt(t, third - 1, false);
    RisingMaster(t, w, ws, third, c.half, tr.data, ReadRegister(ws[o].regs, tr.addr, t[o + AddressEdge(c)].gpioIn));
  }

  /** The identification register is the witness: 8'hA5 is read iff half a period takes two clk periods. */
  lemma RisingIdentification(t: seq<Sample>, w: seq<Wire>, ws: seq<Window>, o: nat, c: Config, tr: Txn)
    requires Mode0(c) && History(t, ws) && ShowsMiso(w, t) && Settled(t, o)
    requires TxnAt(t, o, c, TxBytes(tr)) && !tr.isWrite && tr.addr == ZERO
    ensures RisingBits(w, ThirdWordStart(o, c), c.half, tr.data) == ID_VALUE <==> c.half >= 2
  {
    RisingTransaction(t, w, ws, o, c, tr);
    assert ID_VALUE[0] != ID_VALUE[1];
  }

  /** A rising-edge master reads what the register map answers. */
  predicate RisingReads(c: Config, t: seq<Sample>, w: seq<Wire>, o: nat, regs: Registers, tr: Txn) {
    tr.isWrite || RisingBits(w, ThirdWordStart(o, c), c.half, tr.data) == AnsweredAt(c, t, o, regs, tr).data
  }

  predicate UniformAnswer(c: Config, t: seq<Sample>, o: nat, regs: Registers, tr: Txn) {
    tr.isWrite || Uniform(AnsweredAt(c, t, o, regs, tr).data)
  }

  /** It does so at every read of the session. */
  predicate RisingAgrees(c: Config, t: seq<Sample>, w: seq<Wire>, o: nat, regs: Registers, trs: seq<Txn>)
    decreases |trs|
  {
    trs == [] || (RisingReads(c, t, w, o, regs, trs[0])
                  && RisingAgrees(c, t, w, o + Length(c), Applied(regs, trs[0]), trs[1..]))
  }

  predicate AnswersUniform(c: Config, t: seq<Sample>, o: nat, regs: Registers, trs: seq<Txn>)
    decreases |trs|
  {
    trs == [] || (UniformAnswer(c, t, o, regs, trs[0])
                  && AnswersUniform(c, t, o + Length(c), Applied(regs, trs[0]), trs[1..]))
  }

  lemma RisingStep(t: seq<Sample>, w: seq<Wire>, ws: seq<Window>, o: nat, c: Config, tr: Txn)
    requires Mode0(c) && History(t, ws) && ShowsMiso(w, t) && Settled(t, o) && TxnAt(t, o, c, TxBytes(tr))
    ensures RisingReads(c, t, w, o, ws[o].regs, tr) <==> tr.isWrite || c.half >= 2 || UniformAnswer(c, t, o, ws[o].regs, tr)
  {
    if !tr.isWrite { RisingTransaction(t, w, ws, o, c, tr); }
  }

  lemma {:induction false} RisingSession(t: seq<Sample>, w: seq<Wire>, ws: seq<Window>, o: nat, c: Config, trs: seq<Txn>)
    requires Mode0(c) && History(t, ws) && ShowsMiso(w, t) && Settled(t, o) && o <= |t| && SessionAt(t, o, c, trs)
    ensures RisingAgrees(c, t, w, o, ws[o].regs, trs) <==> c.half >= 2 || AnswersUniform(c, t, o, ws[o].regs, trs)
    decreases |trs|
  {
    if trs != [] {
      RisingStep(t, w, ws, o, c, trs[0]);
      OneTransaction(t, ws, o, c, trs[0]);
      EndsSettled(t, o, c, TxBytes(trs[0]));
      RisingSession(t, w, ws, o + Length(c), c, trs[1..]);
      RisingCons(c, t, w, o, ws[o].regs, trs);
    }
  }

  lemma RisingCons(c: Config, t: seq<Sample>, w: seq<Wire>, o: nat, regs: Registers, trs: seq<Txn>)
    requires trs != []
    ensures var o', regs' := o + Length(c), Applied(regs, trs[0]);
            && (RisingAgrees(c, t, w, o, regs, trs)
                <==> RisingReads(c, t, w, o, regs, trs[0]) && RisingAgrees(c, t, w, o', regs', trs[1..]))
            && (AnswersUniform(c, t, o, regs, trs)
                <==> UniformAnswer(c, t, o, regs, trs[0]) && AnswersUniform(c, t, o', regs', trs[1..]))
  {
  }

  /** Sampling on rising edges works for a whole driven session iff half a period is two clk periods or nothing shows. */
  lemma RisingEndToEnd(c: Config, t: seq<Sample>, trs: seq<Txn>)
    requires Mode0(c) && Carries(t, 0, SessionWave(c, false, trs))
    requires var e := |SessionWave(c, false, trs)|; e < |t| && t[e].pins.cs
    ensures RisingAgrees(c, t, Wires(t), 0, Cleared(), trs) <==> c.half >= 2 || AnswersUniform(c, t, 0, Cleared(), trs)
  {
    var ws := seq(|t| + 1, i requires 0 <= i <= |t| => WindowAt(t, i));
    assert History(t, ws);
    forall i: nat | i < |t| ensures MisoAt(Wires(t), t, i) {
    }
    CarriesSession(t, 0, c, false, trs, |SessionWave(c, false, trs)|);
    RisingSession(t, Wires(t), ws, 0, c, trs);
  }
}
