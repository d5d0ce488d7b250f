/**
 The ATmega328P two-wire interface (TWI) peripheral as the driver sees it:
 four byte-wide registers, the bit positions of the control register and
 the status codes the peripheral reports in the upper five bits of TWSR.

 The bit positions and status codes come from the device headers
 (<avr/io.h>, <util/twi.h>), which are not part of this model; they are
 pinned here to the values of the ATmega328P datasheet TWI chapter.
 */
module TwiHw {

  /** An 8-bit register or C `uint8_t` / `unsigned char` value. */
  type Byte = bv8

  /** The four TWI registers of the peripheral. */
  datatype Registers = Registers(
    twbr: Byte,  // bit-rate register
    twsr: Byte,  // status register: status code in bits 7..3, prescaler in bits 1..0
    twcr: Byte,  // control register
    twdr: Byte   // data shift register
  )

  // Bit positions in TWCR.
  const TWINT: nat := 7  // operation complete flag; writing one starts the next operation
  const TWEA: nat := 6   // enable acknowledge
  const TWSTA: nat := 5  // START condition
  const TWSTO: nat := 4  // STOP condition
  const TWEN: nat := 2   // TWI enable

  // Bit positions of the prescaler field in TWSR.
  const TWPS0: nat := 0
  const TWPS1: nat := 1

  // Master status codes (upper five bits of TWSR, lower three bits zero).
  const TW_START: Byte := 0x08        // START transmitted
  const TW_REP_START: Byte := 0x10    // repeated START transmitted
  const TW_MT_SLA_ACK: Byte := 0x18   // SLA+W transmitted, ACK received
  const TW_MT_DATA_ACK: Byte := 0x28  // data transmitted, ACK received
  const TW_MR_SLA_ACK: Byte := 0x40   // SLA+R transmitted, ACK received

  /** The mask that keeps the status field of TWSR and drops the prescaler bits. */
  const STATUS_MASK: Byte := 0xF8

  /** The mask that keeps the prescaler bits TWPS1..0, the only bits of TWSR software can write. */
  const PRESCALER_MASK: Byte := 0x03

  /** `1 << pos` as a byte. */
  function Bit(pos: nat): Byte
    requires pos < 8
  {
    (1 as Byte) << pos
  }

  /** True when bit `pos` of `b` is one. */
  predicate HasBit(b: Byte, pos: nat)
    requires pos < 8
  {
    b & Bit(pos) != 0
  }

  /** The positions of the one bits of `b`. */
  function BitsOf(b: Byte): set<nat>
  {
    set pos: nat | pos < 8 && HasBit(b, pos)
  }

  /** A position is among the one bits exactly when that bit is set. */
  lemma InBitsOf(b: Byte, pos: nat)
    requires pos < 8
    ensures pos in BitsOf(b) <==> HasBit(b, pos)
  {
  }

  /** The TWSR value with the prescaler and reserved bits masked off, as the driver compares it. */
  function StatusOf(twsr: Byte): Byte
  {
    twsr & STATUS_MASK
  }

  /** The five-bit status field of TWSR, read independently of the mask. */
  function StatusField(twsr: Byte): Byte
  {
    twsr >> 3
  }

  /** A status code as the datasheet tables list them: its lower three bits are zero. */
  predicate IsStatusCode(code: Byte)
  {
    code & 0x07 == 0
  }

  /** The prescaler bits TWPS1..0 of TWSR. */
  function PrescalerBits(twsr: Byte): Byte
  {
    twsr & PRESCALER_MASK
  }

  /** The prescaler factor 4^TWPS that the TWPS1..0 bits of TWSR select. */
  function PrescalerFactor(twsr: Byte): (f: bv32)
    ensures f == 1 <==> !HasBit(twsr, TWPS0) && !HasBit(twsr, TWPS1)
  {
    match PrescalerBits(twsr)
    case 0 => 1
    case 1 => 4
    case 2 => 16
    case _ => 64
  }

  /** The prescaler factor depends on the prescaler bits alone. */
  lemma SamePrescalerSameFactor(s: Byte, t: Byte)
    requires PrescalerBits(s) == PrescalerBits(t)
    ensures PrescalerFactor(s) == PrescalerFactor(t)
  {
  }

  /** TWSR once the peripheral reports `status`: the status field is the
      peripheral's, the prescaler bits are the software's and keep their value,
      and the reserved bit 2 reads as zero. */
  function ReportStatus(twsr: Byte, status: Byte): (r: Byte)
    ensures StatusOf(r) == StatusOf(status) && StatusField(r) == StatusField(status)
    ensures PrescalerBits(r) == PrescalerBits(twsr)
    ensures PrescalerFactor(r) == PrescalerFactor(twsr)
    ensures !HasBit(r, 2)
  {
    (status & STATUS_MASK) | (twsr & PRESCALER_MASK)
  }

  /** TWSR after the software writes `value` to it: the status field is read-only
      and keeps the peripheral's code, only the prescaler bits take the written value. */
  function WriteStatusRegister(twsr: Byte, value: Byte): (r: Byte)
    ensures StatusOf(r) == StatusOf(twsr)
    ensures PrescalerBits(r) == PrescalerBits(value)
    ensures !HasBit(r, 2)
  {
    (twsr & STATUS_MASK) | (value & PRESCALER_MASK)
  }

  /** Masking with 0xF8 keeps exactly the status field: two TWSR values pass the
      same masked comparison if and only if their upper five bits agree. */
  lemma StatusOfIsField(s: Byte, t: Byte)
    ensures StatusOf(s) == StatusOf(t) <==> StatusField(s) == StatusField(t)
    ensures StatusField(StatusOf(s)) == StatusField(s)
    ensures IsStatusCode(StatusOf(s))
  {
  }

  /** A masked status equals a status code exactly when the status fields agree. */
  lemma MaskedEqualsCode(s: Byte, code: Byte)
    requires IsStatusCode(code)
    ensures StatusOf(s) == code <==> StatusField(s) == StatusField(code)
  {
  }

  /** The masked status, read as a number, is the status register rounded down to a multiple of eight. */
  lemma StatusOfArithmetic(s: Byte)
    ensures StatusOf(s) == (s / 8) * 8
    ensures StatusOf(s) <= s && s - StatusOf(s) < 8
  {
  }
}
