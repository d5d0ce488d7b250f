# TWI bus-master driver for the ATmega328P, modelled in Dafny

This project models the bus-master driver for the ATmega328P two-wire interface
(TWI, Atmel's name for I2C) in `src/i2c/i2c.c` and its configuration header
`src/i2c.h`. The driver has nine operations: `i2c_init_master`, `i2c_start`,
`i2c_repeated_start`, `i2c_WR_addr`, `i2c_RD_addr`, `i2c_WR_data`,
`i2c_RD_NACK_data`, `i2c_RD_ACK_data` and `i2c_stop`.
- `i2c_init_master` only loads TWBR and TWSR. It neither waits nor checks a status.
- Seven operations, from `i2c_start` to `i2c_RD_ACK_data`, write TWCR and
  busy-wait until TWINT is set. Five of them then compare the masked status
  register with one expected code. The two reads return the received byte.
- `i2c_stop` writes TWCR and polls TWSTO. It neither checks a status nor
  returns a value.

The model is functional. The four byte registers TWBR, TWSR, TWCR and TWDR form
a record. Each operation is a pure function:
- `InitMaster` takes the clocks and the registers and returns the registers
  after the call. It writes no control word and returns no value.
- The seven operations that wait on TWINT take the registers and the
  peripheral's response. Each returns an `Outcome`: the control word it wrote,
  the registers once its wait exits, and its `uint8_t` result.
- `Stop` takes the registers only. It returns an `Issued`: the control word it
  wrote and the registers as its poll reads them. It has no result.

The peripheral's response is what the peripheral presents when the wait exits:
- a TWSR value, whose status field the peripheral reports;
- for a read, the received byte in TWDR.

The wait loops themselves are not modelled. The peripheral is assumed to finish.

Files:
- `twi_hw.dfy` (module `TwiHw`) holds the register record, the TWCR bit
  positions, the master status codes and the status mask. The bit positions and
  codes come from `<avr/io.h>` and `<util/twi.h>`. Those headers are not part of
  this model, so the values are pinned to the ATmega328P datasheet: TWINT 7,
  TWEA 6, TWSTA 5, TWSTO 4, TWEN 2, START 0x08, repeated START 0x10,
  SLA+W ACK 0x18, data ACK 0x28, SLA+R ACK 0x40.
- `i2c_config.dfy` (module `I2cConfig`) holds the clock defaults, the direction
  bits and the bit-rate divisor `TWBR_VAL`. The divisor is evaluated in 32-bit
  `unsigned long` arithmetic, which wraps, with truncating division.
- `i2c_driver.dfy` (module `I2cDriver`) holds the nine operations and the
  properties of single calls.
- `i2c_session.dfy` (module `I2cSession`) runs a caller's sequence of calls
  against a sequence of responses. Its lemmas lift the per-call contracts to
  whole runs.

Register effects of the peripheral:
- A control write with TWINT set clears the completion flag. When the
  peripheral finishes it sets the flag again, so TWCR reads back as the word
  written.
- When the peripheral reports a status, it changes only the status field of TWSR
  (bits 7..3). The prescaler bits TWPS1..0 belong to the software and keep their
  value. A software write to TWSR changes only the prescaler bits.
- For `i2c_stop` the flag is not set again. A poll reads TWSTO set until the
  peripheral has sent the STOP, and clears it afterwards.

The wait in `i2c_stop` is modelled as written (`src/i2c/i2c.c:141`). It polls
until TWSTO is *set*, and the word just written sets that bit. So the exit
condition already holds on the first poll, before the STOP has gone out. Once
the peripheral has sent the STOP, the condition is false (lemma
`StopWaitMissesCompletion`). The source therefore does not wait for the STOP to
be confirmed.

F_CPU and F_SCL are build-time macros with `#ifndef` defaults
(`src/i2c.h:30-37`). The model passes them as a `Clocks` value, and
`DEFAULT_CLOCKS` holds the defaults.

## Model

| member | source | states |
|---|---|---|
| TwiHw.StatusOfIsField | src/i2c/i2c.c:46 | masking TWSR with 0xF8 keeps exactly the five-bit status field: two values mask equal iff their upper five bits agree, and the masked value is a status code |
| TwiHw.MaskedEqualsCode | src/i2c/i2c.c:46 | for any status code, the masked TWSR equals it iff the status fields agree |
| TwiHw.StatusOfArithmetic | src/i2c/i2c.c:46 | the masked status is TWSR rounded down to a multiple of 8, at most 7 below TWSR |
| TwiHw.PrescalerFactor | src/i2c/i2c.c:35 | the prescaler factor is 1 exactly when both TWPS bits of TWSR are clear |
| TwiHw.SamePrescalerSameFactor | src/i2c/i2c.c:35 | two TWSR values with the same TWPS1..0 bits select the same prescaler factor, whatever their status fields |
| TwiHw.ReportStatus | src/i2c/i2c.c:44-46 | when the peripheral reports a status, TWSR's status field (and so its masked value) is the reported one, its prescaler bits and prescaler factor are the ones it had, and the reserved bit 2 is clear |
| TwiHw.WriteStatusRegister | src/i2c/i2c.c:35 | a software write to TWSR sets the prescaler bits to those of the written value and leaves the read-only status field as it was |
| I2cConfig.DivisorFromCycles | src/i2c.h:41 | the last steps of TWBR_VAL, `(q - 16) / 2` in unsigned long arithmetic: for a cycle count q of at least 16 the result v is below 2^31, so 2*v does not wrap, and it is the largest value whose SCL period 16 + 2*v fits in q; below 16 the subtraction wraps and v is at least 2^31 - 8 |
| I2cConfig.TwbrValue | src/i2c.h:41 | TWBR_VAL itself, `(((F_CPU / F_SCL) / PRESCALER) - 16) / 2` in unsigned long arithmetic; its properties are stated by TwbrFitsByte (fits a byte iff the cycle count is 16..527) and DefaultTwbr (72 for the defaults) |
| I2cConfig.DivisorFitsByte | src/i2c.h:41 | the divisor fits the 8-bit TWBR iff the cycle count (F_CPU / F_SCL) / PRESCALER lies in 16..527 |
| I2cConfig.TwbrFitsByte | src/i2c.h:40-41 | TWBR_VAL, as computed from the clocks, is below 256 iff (F_CPU / F_SCL) / PRESCALER lies in 16..527 |
| I2cConfig.DefaultTwbr | src/i2c.h:30-41 | with the defaults 16 MHz and 100 kHz the cycle count is 160 and TWBR_VAL = 72, which fits one byte |
| I2cConfig.DirectionBits | src/i2c.h:44-45 | I2C_RD and I2C_WR differ only in bit 0, and bit 0 is set for a read |
| I2cDriver.AwaitCompletion | src/i2c/i2c.c:44 | when a wait on TWINT exits, TWINT is set, TWSR carries the reported status field with its prescaler bits kept, and TWBR and TWDR are untouched |
| I2cDriver.AwaitReception | src/i2c/i2c.c:121 | when a read's wait exits, TWINT is set, TWSR carries the reported status field with its prescaler bits kept, and TWDR holds the received byte |
| I2cDriver.StatusCheck | src/i2c/i2c.c:46-49 | the status decision returns 0 or 1; against a status code it is 0 iff the five-bit status fields agree; against a non-code it is always 1 |
| I2cDriver.AddressByte | src/i2c/i2c.c:69 | `(addr<<1)` OR-ed with the direction bit and truncated to a byte equals 2*addr + dir in 8-bit wrap-around arithmetic, i.e. (2*addr + dir) mod 256; bit 0 is set iff the direction is READ |
| I2cDriver.TruncateToByte | src/i2c/i2c.c:34 | assigning an unsigned long to an 8-bit register keeps it modulo 256, so a value below 256 reads back unchanged |
| I2cDriver.InitMaster | src/i2c/i2c.c:32-36 | TWBR gets TWBR_VAL mod 256, which is TWBR_VAL itself when it fits and 72 with the default clocks; writing 0 to TWSR clears its prescaler bits, which selects prescaler 1 (= PRESCALER), while its read-only status field keeps its code; TWCR and TWDR are untouched |
| I2cDriver.Start | src/i2c/i2c.c:39-50 | writes the control bits {TWINT, TWSTA, TWEN}; returns 0 iff the status field is that of TW_START, else 1; TWBR and TWDR are untouched |
| I2cDriver.RepeatedStart | src/i2c/i2c.c:53-64 | writes {TWINT, TWSTA, TWEN}; returns 0 iff the status field is that of TW_REP_START, else 1 |
| I2cDriver.WriteAddr | src/i2c/i2c.c:67-81 | places (2*addr + 0) mod 256 in TWDR, whose low bit is 0; writes {TWINT, TWEN}, and TWCR reads back that word; returns 0 iff the status is TW_MT_SLA_ACK, else 1 |
| I2cDriver.ReadAddr | src/i2c/i2c.c:84-98 | places (2*addr + 1) mod 256 in TWDR, whose low bit is 1; writes {TWINT, TWEN}; returns 0 iff the status is TW_MR_SLA_ACK, else 1 |
| I2cDriver.WriteData | src/i2c/i2c.c:101-113 | places the data byte unchanged in TWDR; writes {TWINT, TWEN}, with no TWSTA, TWSTO or TWEA; returns 0 iff the status is TW_MT_DATA_ACK |
| I2cDriver.ReadNack | src/i2c/i2c.c:116-123 | writes {TWINT, TWEN}, without TWEA; performs no status check and returns the received byte unchanged |
| I2cDriver.ReadAck | src/i2c/i2c.c:126-133 | writes {TWINT, TWEN, TWEA}; performs no status check and returns the received byte unchanged |
| I2cDriver.StopPending | src/i2c/i2c.c:139-141 | right after the STOP control write, a poll reads TWINT clear and the other registers unchanged |
| I2cDriver.StopExecuted | src/i2c/i2c.c:141 | once the STOP is sent, TWCR reads with TWSTO clear |
| I2cDriver.Stop | src/i2c/i2c.c:136-142 | writes {TWINT, TWEN, TWSTO}; the polled TWCR reads {TWEN, TWSTO}, so the exit condition of the wait already holds; TWBR, TWSR and TWDR are untouched |
| I2cDriver.StopWaitMissesCompletion | src/i2c/i2c.c:139-141 | the wait in i2c_stop exits while the STOP is pending, and its exit condition is false once the STOP has been sent |
| I2cDriver.StartsDifferOnlyInExpectedCode | src/i2c/i2c.c:42-63 | i2c_start and i2c_repeated_start write the same control word and registers, and never both succeed on one status |
| I2cDriver.AddressRoundTrip | src/i2c/i2c.c:69-88 | for a 7-bit address, shifting the address byte right once gives back the address, and its low bit is the direction |
| I2cDriver.AddressByteInjective | src/i2c/i2c.c:69-88 | two 7-bit addresses with directions give the same address byte iff address and direction are the same |
| I2cDriver.AddressOperationsRoundTrip | src/i2c/i2c.c:67-98 | the TWDR byte of i2c_WR_addr and i2c_RD_addr shifts back to a 7-bit address, with low bit I2C_WR or I2C_RD respectively |
| I2cDriver.OnlyReadAckAcknowledges | src/i2c/i2c.c:116-133 | only the acknowledging read sets TWEA; both reads return the received byte |
| I2cSession.Exec | src/i2c/i2c.c:32-142 | a single call writes TWCR unless it is the initialisation, leaves TWBR alone unless it is the initialisation, and returns nothing exactly for the two `void` functions |
| I2cSession.ControlBitsByCall | src/i2c/i2c.c:42-139 | in the table of control bits, every call has TWINT and TWEN, only the stop has TWSTO, only the acknowledging read has TWEA, only the two starts have TWSTA |
| I2cSession.ExecMatchesCall | src/i2c/i2c.c:32-142 | a single call returns what its own response dictates (0 iff the status field matches its expected code, or the received byte), writes the control bits of its kind, transmits the byte it names, and initialisation loads TWBR_VAL mod 256 and selects prescaler 1 |
| I2cSession.RunMatchesCalls | src/i2c/i2c.c:39-133 | in a run of any length, call i writes a control word iff it is not the initialisation; it writes its own control bits, returns what its own response dictates and loads its own byte into TWDR, whatever came before (a write while TWINT is clear is taken as effective; see Left out) |
| I2cSession.RunKeepsBitRate | src/i2c/i2c.c:34-35 | only i2c_init_master writes the bit rate: in a run without it, every step keeps TWBR and the TWSR prescaler bits, and so the prescaler factor |
| I2cSession.RunAfterInitKeepsBitRate | src/i2c/i2c.c:32-36 | after i2c_init_master, as long as it is not called again, every step has TWBR = TWBR_VAL mod 256 and prescaler factor PRESCALER |
| I2cSession.LowStatusBitsIgnored | src/i2c/i2c.c:46-112 | whatever TWSR holds before a call, including prescaler bits TWPS1..0 that stay in the TWSR the checking calls compare, every call returns the same: the 0xF8 mask drops those bits |
| I2cSession.RunSendsPayload | src/i2c/i2c.c:69-103 | the bytes a run loads into TWDR for transmission are exactly the address and data bytes its calls name, in call order (write collisions are not modelled; see Left out) |
| I2cSession.RunReturnsIndependentOfRegisters | src/i2c/i2c.c:39-133 | the driver keeps no state of its own: a run returns the same values from any starting registers |
| I2cSession.RunSucceedsIff | src/i2c/i2c.c:46-112 | every checking call of a run returns 0 iff each of their responses carries the expected code under the 0xF8 mask |
| I2cSession.RunControlBits | src/i2c/i2c.c:42-139 | every control write of a run has TWINT and TWEN; TWSTO is set exactly for i2c_stop, TWEA exactly for i2c_RD_ACK_data, and TWSTA exactly for the two starts |
| I2cSession.WriteTransaction | src/i2c/i2c.c:39-142 | START, SLA+W, one data byte, STOP: the address and data checks pass iff the device acknowledges them, and the bus carries 2*addr (in 8-bit arithmetic, for any address byte) then the data byte |
| I2cSession.ReadStream | src/i2c/i2c.c:116-133 | n acknowledged reads then one unacknowledged read return the received bytes unchanged and in order, with TWEA set on the first n and clear on the last |

## Left out

- The busy-wait loops (src/i2c/i2c.c:44, 58, 75, 92, 107, 121, 131, 141). Their termination depends on the physical peripheral. Each wait is modelled as exiting, with the peripheral's response supplied as a parameter. No timeout is added, because the source has none.
- The numeric values of the bit positions and status codes. They come from `<avr/io.h>` and `<util/twi.h>`, which are not part of this model, and are pinned to the ATmega328P datasheet values.
- Peripheral register changes that the driver never reads are not modelled. These are the new TWSR code after a STOP, and the data register after an address or data byte has been shifted out.
- Bus electrical behaviour, arbitration between several master chips, and clock stretching. The model sees only the status code the peripheral reports for them.
- The order of calls and concurrent access. The driver neither tracks protocol phases nor serialises callers. The model therefore runs any sequence of calls and claims no phase-order enforcement or mutual exclusion.
- `src/main.c`: it masks interrupts, configures the watchdog and idles. Its only driver use is one `i2c_init_master` call.
- `src/pid/pid.c` and `src/pid/pid.h`: floating-point PID arithmetic with no connection to the bus driver.
- I2cSession.RunMatchesCalls / I2cSession.RunSendsPayload: TWDR write collisions (the TWWC flag) are not modelled. The peripheral ignores a TWDR write while TWINT is clear, which happens after `i2c_stop` and before the first operation has completed. The model lets every TWDR write take effect. So the transmit claims match the peripheral only when each transmitting call follows a completed operation, as in a transaction that begins with `i2c_start` (`WriteTransaction`).
- Build configurations with F_SCL = 0. They divide by zero in the source, so `ValidClocks` asks for a non-zero bus clock.
