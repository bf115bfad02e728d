/**
 * The synchronous SPI slave with its 256-entry register file.  `Step` is what one
 * rising edge of clk does; the class below does it on fields, one branch at a time.
 */
module SpiSlave {
  import opened Bits

  const ID_VALUE: Byte := [true, false, true, false, false, true, false, true] // 8'hA5
  const ADDR_ID := 0
  const ADDR_GPIO_IN := 1
  const ADDR_GPIO_OUT := 2

  /** The three SPI inputs, as sampled by one clk edge; cs is active low. */
  datatype Pins = Pins(cs: bool, sclk: bool, mosi: bool)

  /** What the synchronisers hold after reset. */
  const RESET_PINS := Pins(true, false, false)

  type Registers = r: seq<Byte> | |r| == 256 witness seq(256, _ => ZERO)

  /** The register file after reset. */
  function Cleared(): Registers {
    seq(256, _ => ZERO)
  }

  datatype Core = Core(bitCnt: nat, byteCnt: nat, shiftIn: Byte, shiftOut: Byte,
                       rw: bool, addr: Byte, miso: bool, regs: Registers)

  datatype State = State(d1: Pins, d2: Pins, core: Core)

  const RESET_STATE: State :=
    State(RESET_PINS, RESET_PINS, Core(0, 0, ZERO, ZERO, false, ZERO, false, Cleared()))

  /** What the synchronised pins amount to at one clk edge. */
  datatype Event = Inactive | Rise(mosi: bool, gpio: Byte) | Fall | Quiet

  /** {b[6:0], bit}: the oldest bit, at index 0, falls out. */
  function ShiftLeft(b: Byte, bit: bool): Byte {
    b[1..] + [bit]
  }

  function EventOf(d1: Pins, d2: Pins, gpioIn: Byte): Event {
    if d2.cs then Inactive
    else if d1.sclk && !d2.sclk then Rise(d2.mosi, gpioIn)
    else if !d1.sclk && d2.sclk then Fall
    else Quiet
  }

  /** read_reg: the constant, the GPIO input, or the register. */
  function ReadRegister(regs: Registers, a: Byte, gpioIn: Byte): Byte {
    if Index(a) == ADDR_ID then ID_VALUE
    else if Index(a) == ADDR_GPIO_IN then gpioIn
    else regs[Index(a)]
  }

  function CompleteByte(c: Core, full: Byte, gpioIn: Byte): Core {
    var d := c.(shiftIn := full, bitCnt := 0, byteCnt := (c.byteCnt + 1) % 4);
    match c.byteCnt
    case 0 => d.(rw := full[7])
    case 1 => d.(addr := full, shiftOut := if c.rw then c.shiftOut else ReadRegister(c.regs, full, gpioIn))
    case 2 => if c.rw && Index(c.addr) != ADDR_ID && Index(c.addr) != ADDR_GPIO_IN
              then d.(regs := c.regs[Index(c.addr) := full]) else d
    case _ => d
  }

  function CoreStep(c: Core, e: Event): Core {
    match e
    case Inactive => c.(bitCnt := 0, byteCnt := 0)
    case Rise(b, gpioIn) =>
      var full := ShiftLeft(c.shiftIn, b);
      if c.bitCnt == 7 then CompleteByte(c, full, gpioIn)
      else c.(shiftIn := full, bitCnt := c.bitCnt + 1)
    case Fall => c.(miso := c.shiftOut[0], shiftOut := ShiftLeft(c.shiftOut, false))
    case Quiet => c
  }

  function Step(s: State, pins: Pins, gpioIn: Byte): State {
    State(pins, s.d1, CoreStep(s.core, EventOf(s.d1, s.d2, gpioIn)))
  }

  /** The flip-flops of the slave.  Every update reads the values before the edge. */
  class Slave {
    var sclkD1: bool
    var sclkD2: bool
    var csD1: bool
    var csD2: bool
    var mosiD1: bool
    var mosiD2: bool
    var bitCnt: nat
    var byteCnt: nat
    var shiftIn: Byte
    var shiftOut: Byte
    var rw: bool
    var addr: Byte
    var miso: bool
    const regfile: array<Byte>

    ghost predicate Valid()
      reads this, regfile
    {
      regfile.Length == 256 && bitCnt < 8 && byteCnt < 4
    }

    ghost function Abs(): State
      requires Valid()
      reads this, regfile
    {
      State(Pins(csD1, sclkD1, mosiD1), Pins(csD2, sclkD2, mosiD2),
            Flops())
    }

    /** The registers of the main logic. */
    ghost function Flops(): Core
      requires Valid()
      reads this, regfile
    {
      Core(bitCnt, byteCnt, shiftIn, shiftOut, rw, addr, miso, regfile[..])
    }

    constructor ()
      ensures Valid() && fresh(regfile) && Abs() == RESET_STATE
    {
      regfile := new Byte[256](_ => ZERO);
      bitCnt, byteCnt := 0, 0;
      new;
      Reset();
    }

    /** Asynchronous reset, rst_n low. */
    method Reset()
      requires regfile.Length == 256
      modifies this, regfile
      ensures Valid() && Abs() == RESET_STATE
    {
      sclkD1, sclkD2, csD1, csD2, mosiD1, mosiD2 := false, false, true, true, false, false;
      bitCnt, byteCnt, shiftIn, shiftOut, rw, addr, miso := 0, 0, ZERO, ZERO, false, ZERO, false;
      for i := 0 to 256
        modifies regfile
        invariant forall k :: 0 <= k < i ==> regfile[k] == ZERO
      {
        regfile[i] := ZERO;
      }
      assert regfile[..] == Cleared();
    }

    /** The output port follows register 2. */
    function GpioOut(): Byte
      requires Valid()
      reads this, regfile
    {
      regfile[ADDR_GPIO_OUT]
    }

    /** read_reg on the register file of this slave. */
    function ReadReg(a: Byte, gpioIn: Byte): Byte
      requires Valid()
      reads this, regfile
    {
      ReadRegister(regfile[..], a, gpioIn)
    }

    /** The two-flop synchronisers. */
    method Synchronise(pins: Pins)
      modifies `sclkD1, `sclkD2, `csD1, `csD2, `mosiD1, `mosiD2
      ensures Pins(csD1, sclkD1, mosiD1) == pins
      ensures Pins(csD2, sclkD2, mosiD2) == old(Pins(csD1, sclkD1, mosiD1))
    {
      sclkD2, csD2, mosiD2 := sclkD1, csD1, mosiD1;
      sclkD1, csD1, mosiD1 := pins.sclk, pins.cs, pins.mosi;
    }

    /** The action of the eighth rising edge of a byte, by its position in the window. */
    method TakeByte(fullByte: Byte, gpioIn: Byte)
      requires Valid()
      modifies `rw, `addr, `shiftOut, `byteCnt, `bitCnt, `shiftIn, regfile
      ensures Valid()
      ensures Flops() == CompleteByte(old(Flops()), fullByte, gpioIn)
    {
      match byteCnt {
        case 0 => rw := fullByte[7];
        case 1 =>
          if !rw { shiftOut := ReadReg(fullByte, gpioIn); }
          addr := fullByte;
        case 2 =>
          if rw && Index(addr) != ADDR_ID && Index(addr) != ADDR_GPIO_IN {
            regfile[Index(addr)] := fullByte;
          }
        case _ =>
      }
      shiftIn, byteCnt, bitCnt := fullByte, (byteCnt + 1) % 4, 0;
    }

    method MainLogic(gpioIn: Byte)
      requires Valid()
      modifies `rw, `addr, `shiftOut, `byteCnt, `bitCnt, `shiftIn, `miso, regfile
      ensures Valid()
      ensures Flops() == CoreStep(old(Flops()), EventOf(old(Abs()).d1, old(Abs()).d2, gpioIn))
    {
      var sclkRise := sclkD1 && !sclkD2;
      var sclkFall := !sclkD1 && sclkD2;
      var csActive := !csD2;
      if !csActive {
        bitCnt, byteCnt := 0, 0;
      }
      if csActive && sclkRise {
        var shifted := ShiftLeft(shiftIn, mosiD2);
        if bitCnt == 7 {
          TakeByte(shifted, gpioIn);
        } else {
          shiftIn, bitCnt := shifted, bitCnt + 1;
        }
      }
      if csActive && sclkFall {
        miso, shiftOut := shiftOut[0], ShiftLeft(shiftOut, false);
      }
    }

    /** One rising edge of clk: both blocks read the state before the edge. */
    method Clock(pins: Pins, gpioIn: Byte)
      requires Valid()
      modifies this, regfile
      ensures Valid() && Abs() == Step(old(Abs()), pins, gpioIn)
    {
      MainLogic(gpioIn);
      Synchronise(pins);
    }
  }
}
