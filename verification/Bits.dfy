/** Eight-bit vectors as sequences of bits, most significant bit first. */
module Bits {

  type Byte = b: seq<bool> | |b| == 8 witness [false, false, false, false, false, false, false, false]

  const ZERO: Byte := [false, false, false, false, false, false, false, false]

  function Digit(b: bool): nat {
    if b then 1 else 0
  }

  /** Four bits of a byte from position i on, as a number. */
  function Nibble(b: Byte, i: nat): (n: nat)
    requires i <= 4
    ensures n < 16
  {
    8 * Digit(b[i]) + 4 * Digit(b[i + 1]) + 2 * Digit(b[i + 2]) + Digit(b[i + 3])
  }

  /** The unsigned number a byte denotes, as an index into a 256-entry table. */
  function Index(b: Byte): (n: nat)
    ensures n < 256
  {
    16 * Nibble(b, 0) + Nibble(b, 4)
  }

  /** The number a list of bits denotes, most significant bit first. */
  function Value(bits: seq<bool>): nat {
    if bits == [] then 0 else 2 * Value(bits[..|bits| - 1]) + Digit(bits[|bits| - 1])
  }

  lemma ValueStep(bits: seq<bool>, n: nat)
    requires n < |bits|
    ensures Value(bits[..n + 1]) == 2 * Value(bits[..n]) + Digit(bits[n])
  {
    assert bits[..n + 1][..n] == bits[..n];
  }

  lemma ValueNibble(b: Byte, i: nat)
    requires i <= 4
    ensures Value(b[..i + 4]) == 16 * Value(b[..i]) + Nibble(b, i)
  {
    ValueStep(b, i);
    ValueStep(b, i + 1);
    ValueStep(b, i + 2);
    ValueStep(b, i + 3);
  }

  lemma IndexIsValue(b: Byte)
    ensures Index(b) == Value(b)
  {
    ValueNibble(b, 0);
    ValueNibble(b, 4);
    assert b[..8] == b && b[..0] == [];
  }

  lemma NibbleShifted(b: Byte, r: Byte, i: nat, next: bool)
    requires i <= 4 && r[i] == b[i + 1] && r[i + 1] == b[i + 2] && r[i + 2] == b[i + 3] && r[i + 3] == next
    ensures Nibble(r, i) == 2 * Nibble(b, i) + Digit(next) - 16 * Digit(b[i])
  {
  }

  lemma Wrapped(x: nat, r: nat, top: bool)
    requires r < 256 && x == r + 256 * Digit(top)
    ensures x % 256 == r
  {
  }

  /** Clocking one more bit into a byte doubles its number, modulo 256. */
  lemma IndexShifted(b: Byte, bit: bool)
    ensures Index(b[1..] + [bit]) == (2 * Index(b) + (if bit then 1 else 0)) % 256
  {
    var r: Byte := b[1..] + [bit];
    NibbleShifted(b, r, 0, b[4]);
    NibbleShifted(b, r, 4, bit);
    Wrapped(2 * Index(b) + Digit(bit), Index(r), b[0]);
  }

  lemma NibbleInjective(a: Byte, b: Byte, i: nat)
    requires i <= 4 && Nibble(a, i) == Nibble(b, i)
    ensures a[i..i + 4] == b[i..i + 4]
  {
    assert a[i] == b[i] && a[i + 1] == b[i + 1];
    assert a[i + 2] == b[i + 2] && a[i + 3] == b[i + 3];
  }

  /** Distinct addresses are distinct entries of the register file. */
  lemma IndexInjective(a: Byte, b: Byte)
    requires Index(a) == Index(b)
    ensures a == b
  {
    NibbleInjective(a, b, 0);
    NibbleInjective(a, b, 4);
    assert a == a[0..4] + a[4..8] && b == b[0..4] + b[4..8];
  }
}
