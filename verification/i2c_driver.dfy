/**
 The nine operations of the TWI bus-master driver (src/i2c/i2c.c) as pure
 functions. InitMaster maps the clocks and the registers to the registers
 after the call. The seven operations that wait on TWINT take the registers
 and the peripheral's response and give an Outcome: the control word written,
 the registers once the wait exits, and the `uint8_t` returned. Stop takes the
 registers and gives an Issued: the control word written and the registers as
 its poll reads them.

 i2c_init_master only loads TWBR and TWSR. Every other operation writes one
 control word to TWCR and then busy-waits on a TWCR bit (TWINT, or TWSTO for
 i2c_stop). The wait is not modelled as a loop: the peripheral is assumed to
 finish, and what it presents when it does (the status it reports in TWSR,
 and for a read the received byte in TWDR) is a parameter of the operation.
 */
module I2cDriver {
  import opened TwiHw
  import opened I2cConfig

  /** The control word an operation wrote to TWCR, the registers once its wait
      exits, and the `uint8_t` it returns. */
  datatype Outcome = Outcome(control: Byte, regs: Registers, ret: Byte)

  /** The control word i2c_stop wrote to TWCR and the registers once its wait exits. */
  datatype Issued = Issued(control: Byte, regs: Registers)

  /** The peripheral finishing the operation started by the last control
      write: it sets the completion flag TWINT again and reports the status
      code of `status` in TWSR, whose prescaler bits it leaves alone. */
  function AwaitCompletion(regs: Registers, status: Byte): (done: Registers)
    ensures HasBit(done.twcr, TWINT)
    ensures StatusOf(done.twsr) == StatusOf(status) && StatusField(done.twsr) == StatusField(status)
    ensures PrescalerBits(done.twsr) == PrescalerBits(regs.twsr)
    ensures done.twbr == regs.twbr && done.twdr == regs.twdr
    ensures HasBit(regs.twcr, TWINT) ==> done.twcr == regs.twcr
  {
    regs.(twcr := regs.twcr | Bit(TWINT), twsr := ReportStatus(regs.twsr, status))
  }

  /** As AwaitCompletion, for a reception: the received byte lands in TWDR. */
  function AwaitReception(regs: Registers, status: Byte, received: Byte): (done: Registers)
    ensures HasBit(done.twcr, TWINT)
    ensures StatusOf(done.twsr) == StatusOf(status) && done.twdr == received
    ensures PrescalerBits(done.twsr) == PrescalerBits(regs.twsr)
    ensures done.twbr == regs.twbr
    ensures HasBit(regs.twcr, TWINT) ==> done.twcr == regs.twcr
  {
    AwaitCompletion(regs, status).(twdr := received)
  }

  /** The status decision shared by the checking operations: 0 when the masked
      status equals the expected code, 1 otherwise. For a status code (lower
      three bits zero) only the five-bit status field of TWSR matters. */
  function StatusCheck(twsr: Byte, expected: Byte): (r: Byte)
    ensures r == 0 || r == 1
    ensures IsStatusCode(expected) ==> (r == 0 <==> StatusField(twsr) == StatusField(expected))
    ensures !IsStatusCode(expected) ==> r == 1
  {
    if twsr & STATUS_MASK != expected then 1 else 0
  }

  /** The address byte `(addr << 1) | dir` truncated to eight bits: in 8-bit
      wrap-around arithmetic, 2 * addr + dir, that is (2 * addr + dir) mod 256. */
  function AddressByte(addr: Byte, dir: Byte): (b: Byte)
    requires dir == I2C_WR || dir == I2C_RD
    ensures b == 2 * addr + dir
    ensures HasBit(b, 0) <==> dir == I2C_RD
  {
    (addr << 1) | dir
  }

  /** Assignment of an unsigned long to an 8-bit register keeps its low eight bits. */
  function TruncateToByte(v: Ulong): (b: Byte)
    ensures b as Ulong == v % 256
    ensures v < 256 ==> b as Ulong == v
  {
    (v & 0xFF) as Byte
  }

  /** i2c_init_master: TWBR := TWBR_VAL (truncated to the register's eight
      bits) and TWSR := 0, which clears the prescaler bits and so selects
      prescaler factor 1; the status field of TWSR is read-only and keeps its code. */
  function InitMaster(c: Clocks, regs: Registers): (r: Registers)
    requires ValidClocks(c)
    ensures r.twbr as Ulong == TwbrValue(c) % 256
    ensures 16 <= CyclesPerBit(c) <= 527 ==> r.twbr as Ulong == TwbrValue(c)
    ensures c == DEFAULT_CLOCKS ==> r.twbr == 72
    ensures PrescalerBits(r.twsr) == 0 && PrescalerFactor(r.twsr) == PRESCALER
    ensures StatusOf(r.twsr) == StatusOf(regs.twsr)
    ensures r.twcr == regs.twcr && r.twdr == regs.twdr
  {
    TwbrFitsByte(c);
    DefaultTwbr();
    regs.(twbr := TruncateToByte(TwbrValue(c)), twsr := WriteStatusRegister(regs.twsr, 0x00))
  }

  /** i2c_start: send a START condition and check for TW_START. */
  function Start(regs: Registers, status: Byte): (o: Outcome)
    ensures BitsOf(o.control) == {TWINT, TWSTA, TWEN} && o.regs.twcr == o.control
    ensures StatusOf(o.regs.twsr) == StatusOf(status) && PrescalerBits(o.regs.twsr) == PrescalerBits(regs.twsr)
    ensures o.regs.twbr == regs.twbr && o.regs.twdr == regs.twdr
    ensures o.ret == 0 || o.ret == 1
    ensures o.ret == 0 <==> StatusField(status) == StatusField(TW_START)
  {
    var written := regs.(twcr := Bit(TWINT) | Bit(TWSTA) | Bit(TWEN));
    var done := AwaitCompletion(written, status);
    Outcome(written.twcr, done, StatusCheck(done.twsr, TW_START))
  }

  /** i2c_repeated_start: send a START condition while holding the bus and
      check for TW_REP_START. */
  function RepeatedStart(regs: Registers, status: Byte): (o: Outcome)
    ensures BitsOf(o.control) == {TWINT, TWSTA, TWEN} && o.regs.twcr == o.control
    ensures StatusOf(o.regs.twsr) == StatusOf(status) && PrescalerBits(o.regs.twsr) == PrescalerBits(regs.twsr)
    ensures o.regs.twbr == regs.twbr && o.regs.twdr == regs.twdr
    ensures o.ret == 0 || o.ret == 1
    ensures o.ret == 0 <==> StatusField(status) == StatusField(TW_REP_START)
  {
    var written := regs.(twcr := Bit(TWINT) | Bit(TWSTA) | Bit(TWEN));
    var done := AwaitCompletion(written, status);
    Outcome(written.twcr, done, StatusCheck(done.twsr, TW_REP_START))
  }

  /** i2c_WR_addr: transmit SLA+W and check for TW_MT_SLA_ACK. */
  function WriteAddr(regs: Registers, addr: Byte, status: Byte): (o: Outcome)
    ensures o.regs.twdr == 2 * addr + 0
    ensures !HasBit(o.regs.twdr, 0)
    ensures BitsOf(o.control) == {TWINT, TWEN} && o.regs.twcr == o.control
    ensures StatusOf(o.regs.twsr) == StatusOf(status) && PrescalerBits(o.regs.twsr) == PrescalerBits(regs.twsr)
    ensures o.regs.twbr == regs.twbr
    ensures o.ret == 0 || o.ret == 1
    ensures o.ret == 0 <==> StatusField(status) == StatusField(TW_MT_SLA_ACK)
  {
    var sla := AddressByte(addr, I2C_WR);
    var written := regs.(twdr := sla).(twcr := Bit(TWINT) | Bit(TWEN));
    var done := AwaitCompletion(written, status);
    Outcome(written.twcr, done, StatusCheck(done.twsr, TW_MT_SLA_ACK))
  }

  /** i2c_RD_addr: transmit SLA+R and check for TW_MR_SLA_ACK. */
  function ReadAddr(regs: Registers, addr: Byte, status: Byte): (o: Outcome)
    ensures o.regs.twdr == 2 * addr + 1
    ensures HasBit(o.regs.twdr, 0)
    ensures BitsOf(o.control) == {TWINT, TWEN} && o.regs.twcr == o.control
    ensures StatusOf(o.regs.twsr) == StatusOf(status) && PrescalerBits(o.regs.twsr) == PrescalerBits(regs.twsr)
    ensures o.regs.twbr == regs.twbr
    ensures o.ret == 0 || o.ret == 1
    ensures o.ret == 0 <==> StatusField(status) == StatusField(TW_MR_SLA_ACK)
  {
    var sla := AddressByte(addr, I2C_RD);
    var written := regs.(twdr := sla).(twcr := Bit(TWINT) | Bit(TWEN));
    var done := AwaitCompletion(written, status);
    Outcome(written.twcr, done, StatusCheck(done.twsr, TW_MR_SLA_ACK))
  }

  /** i2c_WR_data: transmit one data byte and check for TW_MT_DATA_ACK. */
  function WriteData(regs: Registers, data: Byte, status: Byte): (o: Outcome)
    ensures o.regs.twdr == data
    ensures BitsOf(o.control) == {TWINT, TWEN} && o.regs.twcr == o.control
    ensures StatusOf(o.regs.twsr) == StatusOf(status) && PrescalerBits(o.regs.twsr) == PrescalerBits(regs.twsr)
    ensures o.regs.twbr == regs.twbr
    ensures o.ret == 0 || o.ret == 1
    ensures o.ret == 0 <==> StatusField(status) == StatusField(TW_MT_DATA_ACK)
  {
    var written := regs.(twdr := data).(twcr := Bit(TWINT) | Bit(TWEN));
    var done := AwaitCompletion(written, status);
    Outcome(written.twcr, done, StatusCheck(done.twsr, TW_MT_DATA_ACK))
  }

  /** i2c_RD_NACK_data: receive one byte without acknowledging it; no status
      check, the received byte is returned as is. */
  function ReadNack(regs: Registers, status: Byte, received: Byte): (o: Outcome)
    ensures o.ret == received && o.regs.twdr == received
    ensures BitsOf(o.control) == {TWINT, TWEN} && o.regs.twcr == o.control
    ensures StatusOf(o.regs.twsr) == StatusOf(status) && PrescalerBits(o.regs.twsr) == PrescalerBits(regs.twsr)
    ensures o.regs.twbr == regs.twbr
  {
    var written := regs.(twcr := Bit(TWINT) | Bit(TWEN));
    var done := AwaitReception(written, status, received);
    Outcome(written.twcr, done, done.twdr)
  }

  /** i2c_RD_ACK_data: receive one byte and acknowledge it; no status check,
      the received byte is returned as is. */
  function ReadAck(regs: Registers, status: Byte, received: Byte): (o: Outcome)
    ensures o.ret == received && o.regs.twdr == received
    ensures BitsOf(o.control) == {TWINT, TWEN, TWEA} && o.regs.twcr == o.control
    ensures StatusOf(o.regs.twsr) == StatusOf(status) && PrescalerBits(o.regs.twsr) == PrescalerBits(regs.twsr)
    ensures o.regs.twbr == regs.twbr
  {
    var written := regs.(twcr := Bit(TWINT) | Bit(TWEN) | Bit(TWEA));
    var done := AwaitReception(written, status, received);
    Outcome(written.twcr, done, done.twdr)
  }

  /** The exit condition of the wait in i2c_stop: TWSTO reads as one. */
  predicate StopWaitExits(twcr: Byte)
  {
    HasBit(twcr, TWSTO)
  }

  /** TWCR as a poll reads it right after a control write that starts a STOP:
      the one written to TWINT has cleared the flag, the other bits read as written. */
  function StopPending(regs: Registers): (r: Registers)
    ensures !HasBit(r.twcr, TWINT)
    ensures r.twbr == regs.twbr && r.twsr == regs.twsr && r.twdr == regs.twdr
  {
    regs.(twcr := regs.twcr & !Bit(TWINT))
  }

  /** TWCR once the peripheral has sent the STOP: it clears TWSTO by itself
      and, unlike after the other operations, does not set TWINT. */
  function StopExecuted(twcr: Byte): (r: Byte)
    ensures !HasBit(r, TWSTO)
  {
    twcr & !Bit(TWSTO)
  }

  /** i2c_stop: send a STOP condition, then poll until TWSTO reads as set. The
      word just written sets TWSTO, so the exit condition holds on the first poll
      that comes before the peripheral has sent the STOP. */
  function Stop(regs: Registers): (o: Issued)
    ensures BitsOf(o.control) == {TWINT, TWEN, TWSTO}
    ensures BitsOf(o.regs.twcr) == {TWEN, TWSTO}
    ensures StopWaitExits(o.regs.twcr)
    ensures o.regs.twbr == regs.twbr && o.regs.twsr == regs.twsr && o.regs.twdr == regs.twdr
  {
    var written := regs.(twcr := Bit(TWINT) | Bit(TWEN) | Bit(TWSTO));
    Issued(written.twcr, StopPending(written))
  }

  /** The wait in i2c_stop polls for TWSTO set, so it can only exit while the STOP is
      still pending: once the peripheral has sent the STOP the exit condition is false,
      and a poll that first reads TWCR after that point never exits. */
  lemma StopWaitMissesCompletion(regs: Registers)
    ensures StopWaitExits(Stop(regs).regs.twcr)
    ensures !StopWaitExits(StopExecuted(Stop(regs).regs.twcr))
    ensures BitsOf(StopExecuted(Stop(regs).regs.twcr)) == {TWEN}
  {
  }

  /** i2c_start and i2c_repeated_start write the same registers and differ only in
      the expected code, so at most one of them succeeds on a given status. */
  lemma StartsDifferOnlyInExpectedCode(regs: Registers, status: Byte)
    ensures Start(regs, status).control == RepeatedStart(regs, status).control
    ensures Start(regs, status).regs == RepeatedStart(regs, status).regs
    ensures Start(regs, status).ret == 0 ==> RepeatedStart(regs, status).ret == 1
    ensures RepeatedStart(regs, status).ret == 0 ==> Start(regs, status).ret == 1
  {
  }

  /** For a 7-bit address the address byte gives back the address when shifted
      right once, and its low bit is the direction. */
  lemma AddressRoundTrip(addr: Byte, dir: Byte)
    requires addr < 128
    requires dir == I2C_WR || dir == I2C_RD
    ensures AddressByte(addr, dir) >> 1 == addr
    ensures AddressByte(addr, dir) & 1 == dir
  {
  }

  /** Distinct 7-bit addresses or directions give distinct address bytes. */
  lemma AddressByteInjective(a: Byte, d: Byte, b: Byte, e: Byte)
    requires a < 128 && b < 128
    requires (d == I2C_WR || d == I2C_RD) && (e == I2C_WR || e == I2C_RD)
    ensures AddressByte(a, d) == AddressByte(b, e) <==> a == b && d == e
  {
    AddressRoundTrip(a, d);
    AddressRoundTrip(b, e);
  }

  /** The addressing operations put the address byte for their direction in TWDR. */
  lemma AddressOperationsRoundTrip(regs: Registers, addr: Byte, status: Byte)
    requires addr < 128
    ensures WriteAddr(regs, addr, status).regs.twdr >> 1 == addr
    ensures WriteAddr(regs, addr, status).regs.twdr & 1 == I2C_WR
    ensures ReadAddr(regs, addr, status).regs.twdr >> 1 == addr
    ensures ReadAddr(regs, addr, status).regs.twdr & 1 == I2C_RD
  {
    assert WriteAddr(regs, addr, status).regs.twdr == AddressByte(addr, I2C_WR);
    assert ReadAddr(regs, addr, status).regs.twdr == AddressByte(addr, I2C_RD);
    AddressRoundTrip(addr, I2C_WR);
    AddressRoundTrip(addr, I2C_RD);
  }

  /** Of the two reads only the acknowledging one sets TWEA; both return the received byte. */
  lemma OnlyReadAckAcknowledges(regs: Registers, status: Byte, received: Byte)
    ensures HasBit(ReadAck(regs, status, received).control, TWEA)
    ensures !HasBit(ReadNack(regs, status, received).control, TWEA)
    ensures ReadAck(regs, status, received).ret == ReadNack(regs, status, received).ret == received
  {
  }
}
