/**
 The compile-time configuration of the driver: the clock defaults, the
 bit-rate divisor TWBR_VAL and the read/write direction bits of the
 address byte.

 The clock constants are `unsigned long`, which is 32 bits wide on the AVR,
 so every step of the divisor formula is evaluated modulo 2^32 with
 truncating division.
 */
module I2cConfig {
  import opened TwiHw

  /** C `unsigned long`, 32 bits wide on the AVR: arithmetic wraps modulo 2^32
      and division truncates. */
  type Ulong = bv32

  const DEFAULT_F_CPU: Ulong := 16000000  // core clock, Hz
  const DEFAULT_F_SCL: Ulong := 100000    // bus clock, Hz
  const PRESCALER: Ulong := 1

  // Direction bit of the address byte.
  const I2C_RD: Byte := 0x01
  const I2C_WR: Byte := 0x00

  /** The two clock frequencies the divisor is computed from; either may be overridden at build time. */
  datatype Clocks = Clocks(fCpu: Ulong, fScl: Ulong)

  /** The bus clock is a valid divisor. */
  predicate ValidClocks(c: Clocks)
  {
    c.fScl != 0
  }

  const DEFAULT_CLOCKS: Clocks := Clocks(DEFAULT_F_CPU, DEFAULT_F_SCL)

  /** The core-clock cycles per bus-clock cycle after the prescaler, `(F_CPU / F_SCL) / PRESCALER`. */
  function CyclesPerBit(c: Clocks): Ulong
    requires ValidClocks(c)
  {
    (c.fCpu / c.fScl) / PRESCALER
  }

  /** The last two steps of TWBR_VAL, `(q - 16) / 2` in unsigned long arithmetic,
      for a cycle count q. When q reaches 16 the result v is the largest bit-rate
      value whose SCL period `16 + 2 * v` (with prescaler 1) does not exceed q;
      below 16 the subtraction wraps and the result is far beyond one byte. */
  function DivisorFromCycles(q: Ulong): (v: Ulong)
    ensures q >= 16 ==> v < 0x8000_0000 && 16 + 2 * v <= q && q - (16 + 2 * v) <= 1
    ensures q < 16 ==> v >= 0x7FFF_FFF8
  {
    (q - 16) / 2
  }

  /** TWBR_VAL, `(((F_CPU / F_SCL) / PRESCALER) - 16) / 2`. Its range is stated
      by TwbrFitsByte and its default value by DefaultTwbr. */
  function TwbrValue(c: Clocks): Ulong
    requires ValidClocks(c)
  {
    DivisorFromCycles(CyclesPerBit(c))
  }

  /** The divisor is a byte exactly when the cycle count per bit lies in 16..527. */
  lemma DivisorFitsByte(q: Ulong)
    ensures DivisorFromCycles(q) < 256 <==> 16 <= q <= 527
  {
  }

  /** TWBR_VAL fits the 8-bit TWBR exactly when the cycle count per bit,
      `(F_CPU / F_SCL) / PRESCALER`, lies in 16..527. */
  lemma TwbrFitsByte(c: Clocks)
    requires ValidClocks(c)
    ensures TwbrValue(c) < 256 <==> 16 <= CyclesPerBit(c) <= 527
  {
    var q := CyclesPerBit(c);
    forall x: Ulong | x == q
      ensures DivisorFromCycles(x) < 256 <==> 16 <= x <= 527
    {
      DivisorFitsByte(x);
    }
  }

  /** The defaults, 16 MHz core clock and 100 kHz bus clock, give TWBR_VAL = 72. */
  lemma DefaultTwbr()
    ensures ValidClocks(DEFAULT_CLOCKS)
    ensures CyclesPerBit(DEFAULT_CLOCKS) == 160
    ensures TwbrValue(DEFAULT_CLOCKS) == 72 && TwbrValue(DEFAULT_CLOCKS) < 256
  {
  }

  /** The direction constants differ in bit 0 only, and READ is the one with bit 0 set. */
  lemma DirectionBits()
    ensures I2C_RD ^ I2C_WR == Bit(0)
    ensures HasBit(I2C_RD, 0) && !HasBit(I2C_WR, 0)
  {
  }
}
