/**
 * What the slave computes from an arbitrary input trace, stated on the bits clocked in
 * since chip select went active: no counter, shift register or latched field of the
 * slave appears in `Window`.
 */
module SpiWindow {
  import opened Bits
  import opened SpiSlave

  datatype Sample = Sample(pins: Pins, gpioIn: Byte)

  /** The state after every edge of the trace. */
  function Run(t: seq<Sample>): State {
    if t == [] then RESET_STATE
    else Step(Run(t[..|t| - 1]), t[|t| - 1].pins, t[|t| - 1].gpioIn)
  }

  lemma RunSnoc(t: seq<Sample>, i: nat)
    requires i < |t|
    ensures Run(t[..i + 1]) == Step(Run(t[..i]), t[i].pins, t[i].gpioIn)
  {
    assert t[..i + 1][..i] == t[..i];
  }

  function PinsAt(t: seq<Sample>, i: int): Pins
    requires i < |t|
  {
    if i < 0 then RESET_PINS else t[i].pins
  }

  /** Edge n acts on the samples of the two edges before it. */
  function EventAt(t: seq<Sample>, n: nat): Event
    requires n < |t|
  {
    EventOf(PinsAt(t, n - 1), PinsAt(t, n - 2), t[n].gpioIn)
  }

  /** The bits of an incomplete group of four bytes: command, address, data and one ignored. */
  type Group = g: seq<bool> | |g| < 32

  /** The open group, the register file, the value last fetched by a read with the number of falls since, and MISO. */
  datatype Window = Window(group: Group, regs: Registers, value: Byte, shifts: nat, miso: bool)

  const EMPTY_WINDOW: Window := Window([], Cleared(), ZERO, 0, false)

  /** g ends the address byte of a read. */
  predicate EndsReadAddress(g: seq<bool>) {
    |g| == 16 && !g[7]
  }

  /** The register file once the group g has been clocked in: only a write's last data bit changes it. */
  function WriteBack(regs: Registers, g: seq<bool>): Registers {
    if |g| == 24 && g[7] && Index(g[8..16]) >= 2 then regs[Index(g[8..16]) := g[16..24]] else regs
  }

  /** The k-th bit, most significant first, of a value shifted out with zero fill. */
  function ShiftedBit(v: Byte, k: nat): bool {
    k < 8 && v[k]
  }

  function Next(w: Window, e: Event): Window {
    match e
    case Inactive => w.(group := [])
    case Rise(b, gpioIn) =>
      var g := w.group + [b];
      var w' := w.(group := if |g| == 32 then [] else g, regs := WriteBack(w.regs, g));
      if EndsReadAddress(g) then w'.(value := ReadRegister(w.regs, g[8..16], gpioIn), shifts := 0) else w'
    case Fall => w.(miso := ShiftedBit(w.value, w.shifts), shifts := w.shifts + 1)
    case Quiet => w
  }

  /** The window after edges 0 .. n - 1. */
  function WindowAt(t: seq<Sample>, n: nat): Window
    requires n <= |t|
  {
    if n == 0 then EMPTY_WINDOW else Next(WindowAt(t, n - 1), EventAt(t, n - 1))
  }

  predicate Shifted(r: Byte, v: Byte, n: nat) {
    forall k: nat | k < 8 :: r[k] == ShiftedBit(v, n + k)
  }

  /** How the flip-flops of the main logic stand for a window. */
  ghost predicate Represents(c: Core, w: Window) {
    && c.bitCnt < 8 && c.byteCnt < 4
    && 8 * c.byteCnt + c.bitCnt == |w.group|
    && c.shiftIn[8 - c.bitCnt..] == w.group[8 * c.byteCnt..]
    && (|w.group| >= 8 ==> c.rw == w.group[7])
    && (|w.group| >= 16 ==> c.addr == w.group[8..16])
    && c.regs == w.regs
    && Shifted(c.shiftOut, w.value, w.shifts)
    && c.miso == w.miso
  }

  lemma FallRepresents(c: Core, w: Window)
    requires Represents(c, w)
    ensures Represents(CoreStep(c, Fall), Next(w, Fall))
  {
    var r := ShiftLeft(c.shiftOut, false);
    forall k: nat | k < 8 ensures r[k] == ShiftedBit(w.value, w.shifts + 1 + k) {
      if k < 7 { assert r[k] == c.shiftOut[k + 1]; }
    }
    assert c.shiftOut[0] == ShiftedBit(w.value, w.shifts + 0);
  }

  lemma ShiftedTail(r: Byte, b: bool, n: nat, g: seq<bool>, base: nat)
    requires n < 8 && base + n == |g| && r[8 - n..] == g[base..]
    ensures ShiftLeft(r, b)[7 - n..] == (g + [b])[base..]
  {
    assert ShiftLeft(r, b)[7 - n..] == r[8 - n..] + [b];
  }

  /** A rising edge that does not complete a byte changes only the shift register. */
  lemma BitRepresents(c: Core, w: Window, b: bool, gpioIn: Byte)
    requires Represents(c, w) && c.bitCnt < 7
    ensures Represents(CoreStep(c, Rise(b, gpioIn)), Next(w, Rise(b, gpioIn)))
  {
    var g := w.group + [b];
    ShiftedTail(c.shiftIn, b, c.bitCnt, w.group, 8 * c.byteCnt);
    assert |g| !in {16, 24, 32};
    assert |w.group| >= 8 ==> g[7] == w.group[7];
    assert |w.group| >= 16 ==> g[8..16] == w.group[8..16];
  }

  lemma ByteRepresents(c: Core, w: Window, b: bool, gpioIn: Byte)
    requires Represents(c, w) && c.bitCnt == 7
    ensures Represents(CoreStep(c, Rise(b, gpioIn)), Next(w, Rise(b, gpioIn)))
  {
    var full, g := ShiftLeft(c.shiftIn, b), w.group + [b];
    ShiftedTail(c.shiftIn, b, 7, w.group, 8 * c.byteCnt);
    assert full == full[0..] == g[8 * c.byteCnt..];
    if c.byteCnt == 3 {
      LastRepresents(c, w, full, g, gpioIn);
    } else if c.byteCnt == 2 {
      DataRepresents(c, w, full, g, gpioIn);
    } else if c.byteCnt == 1 {
      AddressRepresents(c, w, full, g, gpioIn);
    } else {
      CommandRepresents(c, w, full, g, gpioIn);
    }
  }

  lemma CommandRepresents(c: Core, w: Window, full: Byte, g: Group, gpioIn: Byte)
    requires Represents(c, w) && c.bitCnt == 7 && c.byteCnt == 0
    requires |g| == 8 && w.group == g[..7] && full == g
    ensures Represents(CompleteByte(c, full, gpioIn), w.(group := g, regs := WriteBack(w.regs, g)))
  {
  }

  lemma AddressRepresents(c: Core, w: Window, full: Byte, g: Group, gpioIn: Byte)
    requires Represents(c, w) && c.bitCnt == 7 && c.byteCnt == 1
    requires |g| == 16 && w.group == g[..15] && full == g[8..]
    ensures var w' := w.(group := g, regs := WriteBack(w.regs, g));
            Represents(CompleteByte(c, full, gpioIn),
                       if g[7] then w' else w'.(value := ReadRegister(w.regs, g[8..16], gpioIn), shifts := 0))
  {
    assert g[8..16] == full && g[7] == w.group[7];
  }

  lemma LastRepresents(c: Core, w: Window, full: Byte, g: seq<bool>, gpioIn: Byte)
    requires Represents(c, w) && c.bitCnt == 7 && c.byteCnt == 3
    requires |g| == 32 && w.group == g[..31] && full == g[24..]
    ensures Represents(CompleteByte(c, full, gpioIn), w.(group := [], regs := WriteBack(w.regs, g)))
  {
  }

  lemma DataRepresents(c: Core, w: Window, full: Byte, g: Group, gpioIn: Byte)
    requires Represents(c, w) && c.bitCnt == 7 && c.byteCnt == 2
    requires |g| == 24 && w.group == g[..23] && full == g[16..]
    ensures Represents(CompleteByte(c, full, gpioIn), w.(group := g, regs := WriteBack(w.regs, g)))
  {
    assert g[16..24] == full && g[8..16] == w.group[8..16] && g[7] == w.group[7];
  }

  lemma StepRepresents(c: Core, w: Window, e: Event)
    requires Represents(c, w)
    ensures Represents(CoreStep(c, e), Next(w, e))
  {
    match e {
      case Rise(b, gpioIn) =>
        if c.bitCnt == 7 { ByteRepresents(c, w, b, gpioIn); } else { BitRepresents(c, w, b, gpioIn); }
      case Fall => FallRepresents(c, w);
      case _ =>
    }
  }

  /**
   * The slave, on any input whatsoever, holds what the window says: registers change only
   * by write commands, reads shift out what they fetched, and nothing left over from an
   * earlier window has any effect.
   */
  lemma {:induction false} SlaveRefinesWindow(t: seq<Sample>, n: nat)
    requires n <= |t|
    ensures var s := Run(t[..n]);
            && Represents(s.core, WindowAt(t, n))
            && s.d1 == PinsAt(t, n - 1) && s.d2 == PinsAt(t, n - 2)
  {
    if n != 0 {
      SlaveRefinesWindow(t, n - 1);
      assert t[..n][..n - 1] == t[..n - 1];
      StepRepresents(Run(t[..n - 1]).core, WindowAt(t, n - 1), EventAt(t, n - 1));
    }
  }

  /** Out of reset chip select counts as high, the counters and shift registers are clear, and so are MISO and all 256 registers. */
  lemma OutOfReset(a: nat)
    requires a < 256
    ensures var s := Run([]);
            var low := [false, false, false, false, false, false, false, false];
            && s.d1 == s.d2 == Pins(true, false, false) && s.core.regs[a] == low
            && s.core == Core(0, 0, low, low, false, low, false, s.core.regs)
  {
  }

  /**
   * One clk edge on the wires: the slave acts on the pins of two edges before, and on how
   * SCLK changed from there to the edge before.
   */
  lemma EdgeEffect(t: seq<Sample>, n: nat)
    requires n < |t|
    ensures var c, d := Run(t[..n]).core, Run(t[..n + 1]).core;
            if n < 2 || t[n - 2].pins.cs then d == c.(bitCnt := 0, byteCnt := 0)
            else if !t[n - 2].pins.sclk && t[n - 1].pins.sclk then
              && d.shiftIn == c.shiftIn[1..] + [t[n - 2].pins.mosi] && d.miso == c.miso
              && (c.bitCnt < 7 ==> d == c.(shiftIn := d.shiftIn, bitCnt := c.bitCnt + 1))
              && (c.bitCnt == 7 ==> d.bitCnt == 0 && d.byteCnt == if c.byteCnt == 3 then 0 else c.byteCnt + 1)
            else if t[n - 2].pins.sclk && !t[n - 1].pins.sclk then
              d == c.(miso := c.shiftOut[0], shiftOut := c.shiftOut[1..] + [false])
            else d == c
  {
    SlaveRefinesWindow(t, n);
    RunSnoc(t, n);
  }

  /** The eighth rising edge of a byte: bit 0 of the command, the address with the fetch of a read, or the data of a write. */
  lemma ByteEffect(t: seq<Sample>, n: nat)
    requires 2 <= n < |t| && !t[n - 2].pins.cs && !t[n - 2].pins.sclk && t[n - 1].pins.sclk
    requires Run(t[..n]).core.bitCnt == 7
    ensures var c, d := Run(t[..n]).core, Run(t[..n + 1]).core;
            var b: Byte := c.shiftIn[1..] + [t[n - 2].pins.mosi];
            && d.rw == (if c.byteCnt == 0 then t[n - 2].pins.mosi else c.rw)
            && d.addr == (if c.byteCnt == 1 then b else c.addr)
            && d.shiftOut == (if c.byteCnt == 1 && !c.rw then Fetched(c.regs, b, t[n].gpioIn) else c.shiftOut)
            && Written(c.regs, d.regs, c.byteCnt == 2 && c.rw, c.addr, b)
  {
    SlaveRefinesWindow(t, n);
    RunSnoc(t, n);
    var c := Run(t[..n]).core;
    var b: Byte := c.shiftIn[1..] + [t[n - 2].pins.mosi];
    AddressNumbers(b);
    AddressNumbers(c.addr);
    forall a: Byte ensures Index(a) == Index(c.addr) <==> a == c.addr {
      if Index(a) == Index(c.addr) { IndexInjective(a, c.addr); }
    }
  }

  /** What a read finds: 8'hA5 at 8'h00, the GPIO input at 8'h01, a register anywhere else. */
  function Fetched(regs: Registers, a: Byte, gpioIn: Byte): Byte {
    if a == [false, false, false, false, false, false, false, false] then [true, false, true, false, false, true, false, true]
    else if a == [false, false, false, false, false, false, false, true] then gpioIn
    else regs[Index(a)]
  }

  /** A write reaches its own address and no other, and neither 8'h00 nor 8'h01. */
  ghost predicate Written(before: Registers, after: Registers, writes: bool, addr: Byte, data: Byte) {
    forall a: Byte ::
      after[Index(a)] ==
        if writes && a == addr && a != [false, false, false, false, false, false, false, false]
           && a != [false, false, false, false, false, false, false, true] then data
        else before[Index(a)]
  }

  /** The two read-only addresses, by their numbers. */
  lemma AddressNumbers(a: Byte)
    ensures Index(a) == 0 <==> a == [false, false, false, false, false, false, false, false]
    ensures Index(a) == 1 <==> a == [false, false, false, false, false, false, false, true]
    ensures Index(a) == 2 <==> a == [false, false, false, false, false, false, true, false]
  {
    if Index(a) == 0 { IndexInjective(a, [false, false, false, false, false, false, false, false]); }
    if Index(a) == 1 { IndexInjective(a, [false, false, false, false, false, false, false, true]); }
    if Index(a) == 2 { IndexInjective(a, [false, false, false, false, false, false, true, false]); }
  }

  lemma RegistersOfWindow(t: seq<Sample>, n: nat)
    requires n <= |t|
    ensures Run(t[..n]).core.regs == WindowAt(t, n).regs
  {
    SlaveRefinesWindow(t, n);
  }

  /** Rising edges since chip select was last seen inactive. */
  function RisesSince(t: seq<Sample>, n: nat): nat
    requires n <= |t|
  {
    if n == 0 then 0
    else
      match EventAt(t, n - 1)
      case Inactive => 0
      case Rise(_, _) => RisesSince(t, n - 1) + 1
      case _ => RisesSince(t, n - 1)
  }

  /** The counters hold the number of rising edges since chip select was last inactive, modulo 32. */
  lemma CountersCountRises(t: seq<Sample>, n: nat)
    requires n <= |t|
    ensures var c := Run(t[..n]).core;
            8 * c.byteCnt + c.bitCnt == RisesSince(t, n) % 32
  {
    SlaveRefinesWindow(t, n);
    GroupCountsRises(t, n);
  }

  lemma NextModulo(r: nat)
    ensures (r + 1) % 32 == if r % 32 == 31 then 0 else r % 32 + 1
  {
  }

  lemma {:induction false} GroupCountsRises(t: seq<Sample>, n: nat)
    requires n <= |t|
    ensures |WindowAt(t, n).group| == RisesSince(t, n) % 32
  {
    if n != 0 {
      GroupCountsRises(t, n - 1);
      NextModulo(RisesSince(t, n - 1));
    }
  }

  /** A chip-select window with fewer than 24 rising edges changes no register. */
  lemma ShortWindowWritesNothing(t: seq<Sample>, lo: nat, hi: nat)
    requires lo < hi <= |t| && EventAt(t, lo).Inactive?
    requires forall n | lo < n < hi :: !EventAt(t, n).Inactive?
    requires RisesSince(t, hi) < 24
    ensures Run(t[..hi]).core.regs == Run(t[..lo]).core.regs
  {
    RegistersOfWindow(t, lo);
    RegistersOfWindow(t, hi);
    ShortWindow(t, lo, hi);
  }

  lemma {:induction false} ShortWindow(t: seq<Sample>, lo: nat, hi: nat)
    requires lo < hi <= |t| && EventAt(t, lo).Inactive?
    requires forall n | lo < n < hi :: !EventAt(t, n).Inactive?
    requires RisesSince(t, hi) < 24
    ensures WindowAt(t, hi).regs == WindowAt(t, lo).regs && |WindowAt(t, hi).group| == RisesSince(t, hi)
  {
    if hi > lo + 1 {
      ShortWindow(t, lo, hi - 1);
    }
  }

  predicate SameEvents(t: seq<Sample>, t': seq<Sample>, lo: nat, lo': nat, n: nat)
    requires lo + n < |t| && lo' + n < |t'|
  {
    forall i {:trigger EventAt(t, i)} | lo <= i <= lo + n :: EventAt(t, i) == EventAt(t', i - lo + lo')
  }

  /** The open group and the registers of the next window depend on nothing else of this one. */
  lemma NextAgrees(w: Window, w': Window, e: Event)
    requires w.regs == w'.regs && (w.group == w'.group || e.Inactive?)
    ensures Next(w, e).regs == Next(w', e).regs && Next(w, e).group == Next(w', e).group
  {
  }

  lemma {:induction false} SameEventsSameWindow(t: seq<Sample>, t': seq<Sample>, lo: nat, lo': nat, n: nat)
    requires lo + n < |t| && lo' + n < |t'|
    requires WindowAt(t, lo).regs == WindowAt(t', lo').regs
    requires EventAt(t, lo).Inactive?
    requires SameEvents(t, t', lo, lo', n)
    ensures WindowAt(t, lo + n + 1).regs == WindowAt(t', lo' + n + 1).regs
    ensures WindowAt(t, lo + n + 1).group == WindowAt(t', lo' + n + 1).group
  {
    var e := EventAt(t, lo + n);
    assert e == EventAt(t', lo' + n);
    if n != 0 {
      SameEventsSameWindow(t, t', lo, lo', n - 1);
    }
    NextAgrees(WindowAt(t, lo + n), WindowAt(t', lo' + n), e);
  }

  /**
   * Two slaves with equal registers that see the same inactive edge and the same events
   * after it keep equal registers, whatever else they held before.
   */
  lemma StaleStateIsForgotten(t: seq<Sample>, t': seq<Sample>, lo: nat, lo': nat, n: nat)
    requires lo + n < |t| && lo' + n < |t'|
    requires Run(t[..lo]).core.regs == Run(t'[..lo']).core.regs
    requires EventAt(t, lo).Inactive?
    requires SameEvents(t, t', lo, lo', n)
    ensures Run(t[..lo + n + 1]).core.regs == Run(t'[..lo' + n + 1]).core.regs
    ensures WindowAt(t, lo + n + 1).group == WindowAt(t', lo' + n + 1).group
  {
    SameRegisters(t, t', lo, lo');
    SameEventsSameWindow(t, t', lo, lo', n);
    SameRegisters(t, t', lo + n + 1, lo' + n + 1);
  }

  lemma SameRegisters(t: seq<Sample>, t': seq<Sample>, n: nat, n': nat)
    requires n <= |t| && n' <= |t'|
    ensures Run(t[..n]).core.regs == Run(t'[..n']).core.regs <==> WindowAt(t, n).regs == WindowAt(t', n').regs
  {
    RegistersOfWindow(t, n);
    RegistersOfWindow(t', n');
  }

  /** ws lists the windows after 0, 1, .. |t| edges. */
  ghost predicate History(t: seq<Sample>, ws: seq<Window>) {
    && |ws| == |t| + 1 && ws[0] == EMPTY_WINDOW
    && forall n: nat {:trigger EventAt(t, n)} | n < |t| :: ws[n + 1] == Next(ws[n], EventAt(t, n))
  }

  lemma {:induction false} HistoryIsWindowAt(t: seq<Sample>, ws: seq<Window>, n: nat)
    requires History(t, ws) && n <= |t|
    ensures ws[n] == WindowAt(t, n)
  {
    if n != 0 { HistoryIsWindowAt(t, ws, n - 1); }
  }
}
