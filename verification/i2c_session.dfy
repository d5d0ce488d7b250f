/**
 Sequences of driver calls, as a caller issues them, run against the
 peripheral's responses. The driver keeps no state of its own between
 calls and does not check the order of calls; a run only threads the four
 registers from one call to the next.

 The lemmas here lift the per-call contracts of I2cDriver to whole runs:
 what each call returns depends on its own response alone, every control
 word is the one its call writes, and the bytes placed on the bus are the
 address and data bytes the calls name, in order.
 */
module I2cSession {
  import opened TwiHw
  import opened I2cConfig
  import I2cDriver

  /** One call of the driver's API. */
  datatype Call =
    | InitMaster
    | Start
    | RepeatedStart
    | WriteAddr(addr: Byte)
    | ReadAddr(addr: Byte)
    | WriteData(data: Byte)
    | ReadNack
    | ReadAck
    | Stop

  /** What the peripheral presents when a call's wait exits: the TWSR value
      and, for a read, the received byte. Calls that need neither ignore it. */
  datatype Response = Response(status: Byte, received: Byte)

  /** What a call returns: nothing for the `void` functions, a byte otherwise. */
  datatype Returned = Nothing | Value(b: Byte)

  /** Whether a call wrote TWCR, and the word it wrote. */
  datatype Control = NoWrite | Wrote(word: Byte)

  /** The control word a call wrote, the registers after it, and what it returned. */
  datatype Step = Step(control: Control, regs: Registers, ret: Returned)

  /** True when the step wrote a control word with bit `pos` set. */
  predicate WroteBit(s: Step, pos: nat)
    requires pos < 8
  {
    s.control.Wrote? && HasBit(s.control.word, pos)
  }

  /** The calls that compare TWSR with an expected code. */
  predicate Checks(call: Call)
  {
    call.Start? || call.RepeatedStart? || call.WriteAddr? || call.ReadAddr? || call.WriteData?
  }

  /** The calls that load TWDR with a byte to transmit. */
  predicate Transmits(call: Call)
  {
    call.WriteAddr? || call.ReadAddr? || call.WriteData?
  }

  /** The status code a checking call expects. */
  function ExpectedStatus(call: Call): Byte
    requires Checks(call)
  {
    match call
    case Start => TW_START
    case RepeatedStart => TW_REP_START
    case WriteAddr(_) => TW_MT_SLA_ACK
    case ReadAddr(_) => TW_MR_SLA_ACK
    case WriteData(_) => TW_MT_DATA_ACK
  }

  /** What a call returns, given only its own response: 0 or 1 from the status
      field for a checking call, the received byte for a read, nothing otherwise. */
  function Reply(call: Call, resp: Response): Returned
  {
    if Checks(call) then
      Value(if StatusField(resp.status) == StatusField(ExpectedStatus(call)) then 0 else 1)
    else if call.ReadNack? || call.ReadAck? then
      Value(resp.received)
    else
      Nothing
  }

  /** The TWCR bits a call's control word sets: TWINT and TWEN always, TWSTA for
      the two starts, TWEA for the acknowledging read, TWSTO for the stop. */
  function ControlBits(call: Call): set<nat>
    requires !call.InitMaster?
  {
    match call
    case Start => {TWINT, TWSTA, TWEN}
    case RepeatedStart => {TWINT, TWSTA, TWEN}
    case ReadAck => {TWINT, TWEN, TWEA}
    case Stop => {TWINT, TWEN, TWSTO}
    case _ => {TWINT, TWEN}
  }

  /** Which calls set which control bits, read off the table. */
  lemma ControlBitsByCall(call: Call)
    requires !call.InitMaster?
    ensures TWINT in ControlBits(call) && TWEN in ControlBits(call)
    ensures TWSTO in ControlBits(call) <==> call.Stop?
    ensures TWEA in ControlBits(call) <==> call.ReadAck?
    ensures TWSTA in ControlBits(call) <==> call.Start? || call.RepeatedStart?
  {
  }

  /** The byte a transmitting call places on the bus, in 8-bit wrap-around
      arithmetic: (2 * addr + direction) mod 256 for an address, the data byte itself otherwise. */
  function SentByte(call: Call): Byte
    requires Transmits(call)
  {
    match call
    case WriteAddr(a) => 2 * a + I2C_WR
    case ReadAddr(a) => 2 * a + I2C_RD
    case WriteData(d) => d
  }

  /** One call of the driver on the registers `regs`. Every call but the
      initialisation writes TWCR and leaves the bit rate (TWBR and the prescaler
      bits of TWSR) alone; the two `void` calls return nothing. */
  function Exec(c: Clocks, regs: Registers, call: Call, resp: Response): (s: Step)
    requires ValidClocks(c)
    ensures call.InitMaster? <==> s.control.NoWrite?
    ensures !call.InitMaster? ==> s.regs.twbr == regs.twbr && PrescalerBits(s.regs.twsr) == PrescalerBits(regs.twsr)
    ensures s.ret.Nothing? <==> call.InitMaster? || call.Stop?
  {
    match call
    case InitMaster => Step(NoWrite, I2cDriver.InitMaster(c, regs), Nothing)
    case Start =>
      var o := I2cDriver.Start(regs, resp.status);
      Step(Wrote(o.control), o.regs, Value(o.ret))
    case RepeatedStart =>
      var o := I2cDriver.RepeatedStart(regs, resp.status);
      Step(Wrote(o.control), o.regs, Value(o.ret))
    case WriteAddr(a) =>
      var o := I2cDriver.WriteAddr(regs, a, resp.status);
      Step(Wrote(o.control), o.regs, Value(o.ret))
    case ReadAddr(a) =>
      var o := I2cDriver.ReadAddr(regs, a, resp.status);
      Step(Wrote(o.control), o.regs, Value(o.ret))
    case WriteData(d) =>
      var o := I2cDriver.WriteData(regs, d, resp.status);
      Step(Wrote(o.control), o.regs, Value(o.ret))
    case ReadNack =>
      var o := I2cDriver.ReadNack(regs, resp.status, resp.received);
      Step(Wrote(o.control), o.regs, Value(o.ret))
    case ReadAck =>
      var o := I2cDriver.ReadAck(regs, resp.status, resp.received);
      Step(Wrote(o.control), o.regs, Value(o.ret))
    case Stop =>
      var o := I2cDriver.Stop(regs);
      Step(Wrote(o.control), o.regs, Nothing)
  }

  /** A single call returns what its own response dictates, writes the control
      bits its kind prescribes and transmits the byte it names. */
  lemma ExecMatchesCall(c: Clocks, regs: Registers, call: Call, resp: Response)
    requires ValidClocks(c)
    ensures Exec(c, regs, call, resp).ret == Reply(call, resp)
    ensures !call.InitMaster? ==> BitsOf(Exec(c, regs, call, resp).control.word) == ControlBits(call)
    ensures call.InitMaster? ==>
              Exec(c, regs, call, resp).regs.twbr as Ulong == TwbrValue(c) % 256 &&
              PrescalerFactor(Exec(c, regs, call, resp).regs.twsr) == PRESCALER
    ensures Transmits(call) ==> Exec(c, regs, call, resp).regs.twdr == SentByte(call)
    ensures call.Stop? ==> I2cDriver.StopWaitExits(Exec(c, regs, call, resp).regs.twcr)
    ensures !call.InitMaster? && !call.Stop? ==> Exec(c, regs, call, resp).regs.twcr == Exec(c, regs, call, resp).control.word
  {
    match call
    case InitMaster =>
    case Start =>
    case RepeatedStart =>
    case WriteAddr(a) =>
    case ReadAddr(a) =>
    case WriteData(d) =>
    case ReadNack =>
    case ReadAck =>
    case Stop =>
  }

  /** The calls issued one after another from `regs`, call i answered by response i. */
  function Run(c: Clocks, regs: Registers, calls: seq<Call>, resps: seq<Response>): (trace: seq<Step>)
    requires ValidClocks(c) && |resps| == |calls|
    ensures |trace| == |calls|
    decreases |calls|
  {
    if calls == [] then []
    else
      var s := Exec(c, regs, calls[0], resps[0]);
      [s] + Run(c, s.regs, calls[1..], resps[1..])
  }

  /** The bytes a run places on the bus: TWDR after each transmitting call. */
  function BusBytes(calls: seq<Call>, trace: seq<Step>): seq<Byte>
    requires |trace| == |calls|
  {
    if calls == [] then []
    else (if Transmits(calls[0]) then [trace[0].regs.twdr] else []) + BusBytes(calls[1..], trace[1..])
  }

  /** The bytes the calls name: address bytes and data bytes in call order. */
  function Payload(calls: seq<Call>): seq<Byte>
  {
    if calls == [] then []
    else (if Transmits(calls[0]) then [SentByte(calls[0])] else []) + Payload(calls[1..])
  }

  /** Every call of a run returns what its own response dictates, writes its own
      control word, and transmits its own byte, whatever came before it. */
  lemma {:induction false} RunMatchesCalls(c: Clocks, regs: Registers, calls: seq<Call>, resps: seq<Response>)
    requires ValidClocks(c) && |resps| == |calls|
    ensures forall i :: 0 <= i < |calls| ==> Run(c, regs, calls, resps)[i].ret == Reply(calls[i], resps[i])
    ensures forall i :: 0 <= i < |calls| ==> (Run(c, regs, calls, resps)[i].control.Wrote? <==> !calls[i].InitMaster?)
    ensures forall i :: 0 <= i < |calls| && !calls[i].InitMaster? ==>
              Run(c, regs, calls, resps)[i].control.Wrote? &&
              BitsOf(Run(c, regs, calls, resps)[i].control.word) == ControlBits(calls[i])
    ensures forall i :: 0 <= i < |calls| && Transmits(calls[i]) ==>
              Run(c, regs, calls, resps)[i].regs.twdr == SentByte(calls[i])
    decreases |calls|
  {
    if calls != [] {
      var s := Exec(c, regs, calls[0], resps[0]);
      ExecMatchesCall(c, regs, calls[0], resps[0]);
      RunMatchesCalls(c, s.regs, calls[1..], resps[1..]);
      var trace := Run(c, regs, calls, resps);
      assert trace == [s] + Run(c, s.regs, calls[1..], resps[1..]);
      forall i | 1 <= i < |calls|
        ensures trace[i] == Run(c, s.regs, calls[1..], resps[1..])[i - 1]
        ensures calls[i] == calls[1..][i - 1] && resps[i] == resps[1..][i - 1]
      {
      }
    }
  }

  /** Only i2c_init_master writes the bit rate: a run without it keeps TWBR and
      the prescaler bits of TWSR, and with them the SCL frequency. */
  lemma {:induction false} RunKeepsBitRate(c: Clocks, regs: Registers, calls: seq<Call>, resps: seq<Response>)
    requires ValidClocks(c) && |resps| == |calls|
    requires forall i :: 0 <= i < |calls| ==> !calls[i].InitMaster?
    ensures forall i :: 0 <= i < |calls| ==> Run(c, regs, calls, resps)[i].regs.twbr == regs.twbr
    ensures forall i :: 0 <= i < |calls| ==> PrescalerBits(Run(c, regs, calls, resps)[i].regs.twsr) == PrescalerBits(regs.twsr)
    ensures forall i :: 0 <= i < |calls| ==> PrescalerFactor(Run(c, regs, calls, resps)[i].regs.twsr) == PrescalerFactor(regs.twsr)
    decreases |calls|
  {
    if calls != [] {
      var s := Exec(c, regs, calls[0], resps[0]);
      assert !calls[0].InitMaster?;
      RunKeepsBitRate(c, s.regs, calls[1..], resps[1..]);
      var trace := Run(c, regs, calls, resps);
      assert trace[0] == s;
      assert trace[1..] == Run(c, s.regs, calls[1..], resps[1..]);
      forall i | 0 <= i < |calls|
        ensures PrescalerFactor(trace[i].regs.twsr) == PrescalerFactor(regs.twsr)
      {
        SamePrescalerSameFactor(trace[i].regs.twsr, regs.twsr);
      }
    }
  }

  /** After i2c_init_master, and as long as it is not called again, the bus runs
      at the configured rate: TWBR holds TWBR_VAL mod 256 and the prescaler factor is PRESCALER. */
  lemma RunAfterInitKeepsBitRate(c: Clocks, regs: Registers, calls: seq<Call>, resps: seq<Response>)
    requires ValidClocks(c) && |resps| == |calls| && |calls| > 0 && calls[0].InitMaster?
    requires forall i :: 1 <= i < |calls| ==> !calls[i].InitMaster?
    ensures forall i :: 0 <= i < |calls| ==>
              Run(c, regs, calls, resps)[i].regs.twbr as Ulong == TwbrValue(c) % 256 &&
              PrescalerFactor(Run(c, regs, calls, resps)[i].regs.twsr) == PRESCALER
  {
    var s := Exec(c, regs, calls[0], resps[0]);
    ExecMatchesCall(c, regs, calls[0], resps[0]);
    RunKeepsBitRate(c, s.regs, calls[1..], resps[1..]);
    var trace := Run(c, regs, calls, resps);
    assert trace[0] == s;
    assert trace[1..] == Run(c, s.regs, calls[1..], resps[1..]);
  }

  /** The bytes a run transmits are exactly the address and data bytes its calls name, in order.
      Every TWDR write is taken as effective: a write collision while TWINT is
      clear (after i2c_stop, or before the first completion) is not modelled. */
  lemma {:induction false} RunSendsPayload(c: Clocks, regs: Registers, calls: seq<Call>, resps: seq<Response>)
    requires ValidClocks(c) && |resps| == |calls|
    ensures BusBytes(calls, Run(c, regs, calls, resps)) == Payload(calls)
    decreases |calls|
  {
    if calls != [] {
      var s := Exec(c, regs, calls[0], resps[0]);
      var trace := Run(c, regs, calls, resps);
      assert trace[0] == s;
      assert trace[1..] == Run(c, s.regs, calls[1..], resps[1..]);
      ExecMatchesCall(c, regs, calls[0], resps[0]);
      RunSendsPayload(c, s.regs, calls[1..], resps[1..]);
    }
  }

  /** The driver holds no state of its own: what a run returns does not depend on
      the registers it starts from. */
  lemma RunReturnsIndependentOfRegisters(c: Clocks, r1: Registers, r2: Registers, calls: seq<Call>, resps: seq<Response>)
    requires ValidClocks(c) && |resps| == |calls|
    ensures forall i :: 0 <= i < |calls| ==> Run(c, r1, calls, resps)[i].ret == Run(c, r2, calls, resps)[i].ret
  {
    RunMatchesCalls(c, r1, calls, resps);
    RunMatchesCalls(c, r2, calls, resps);
  }

  /** The TWSR value a call starts from never changes what it returns. In
      particular the prescaler bits TWPS1..0, which stay in TWSR while the
      peripheral reports a status, are dropped by the 0xF8 mask of the
      checking calls: two TWSR values that differ only there give every call
      the same result. */
  lemma LowStatusBitsIgnored(c: Clocks, regs: Registers, call: Call, s: Byte, t: Byte, resp: Response)
    requires ValidClocks(c)
    ensures Exec(c, regs.(twsr := s), call, resp).ret == Exec(c, regs.(twsr := t), call, resp).ret
  {
    ExecMatchesCall(c, regs.(twsr := s), call, resp);
    ExecMatchesCall(c, regs.(twsr := t), call, resp);
  }

  /** Every checking call of a run reports success exactly when its response
      carries the status code that call expects. */
  lemma RunSucceedsIff(c: Clocks, regs: Registers, calls: seq<Call>, resps: seq<Response>)
    requires ValidClocks(c) && |resps| == |calls|
    ensures (forall i :: 0 <= i < |calls| && Checks(calls[i]) ==> Run(c, regs, calls, resps)[i].ret == Value(0))
        <==> (forall i :: 0 <= i < |calls| && Checks(calls[i]) ==>
                StatusOf(resps[i].status) == ExpectedStatus(calls[i]))
  {
    RunMatchesCalls(c, regs, calls, resps);
    forall i | 0 <= i < |calls| && Checks(calls[i])
      ensures Run(c, regs, calls, resps)[i].ret == Value(0) <==> StatusOf(resps[i].status) == ExpectedStatus(calls[i])
    {
      MaskedEqualsCode(resps[i].status, ExpectedStatus(calls[i]));
    }
  }

  /** Every call but i2c_init_master writes a control word with TWINT and TWEN;
      only i2c_stop sets TWSTO, only i2c_RD_ACK_data sets TWEA, and only the two
      starts set TWSTA. */
  lemma RunControlBits(c: Clocks, regs: Registers, calls: seq<Call>, resps: seq<Response>)
    requires ValidClocks(c) && |resps| == |calls|
    ensures forall i :: 0 <= i < |calls| ==>
              (WroteBit(Run(c, regs, calls, resps)[i], TWINT) <==> !calls[i].InitMaster?)
    ensures forall i :: 0 <= i < |calls| ==>
              (WroteBit(Run(c, regs, calls, resps)[i], TWEN) <==> !calls[i].InitMaster?)
    ensures forall i :: 0 <= i < |calls| ==>
              (WroteBit(Run(c, regs, calls, resps)[i], TWSTO) <==> calls[i].Stop?)
    ensures forall i :: 0 <= i < |calls| ==>
              (WroteBit(Run(c, regs, calls, resps)[i], TWEA) <==> calls[i].ReadAck?)
    ensures forall i :: 0 <= i < |calls| ==>
              (WroteBit(Run(c, regs, calls, resps)[i], TWSTA) <==> calls[i].Start? || calls[i].RepeatedStart?)
  {
    RunMatchesCalls(c, regs, calls, resps);
    forall i | 0 <= i < |calls| && !calls[i].InitMaster?
      ensures WroteBit(Run(c, regs, calls, resps)[i], TWINT)
      ensures WroteBit(Run(c, regs, calls, resps)[i], TWEN)
      ensures WroteBit(Run(c, regs, calls, resps)[i], TWSTO) <==> calls[i].Stop?
      ensures WroteBit(Run(c, regs, calls, resps)[i], TWEA) <==> calls[i].ReadAck?
      ensures WroteBit(Run(c, regs, calls, resps)[i], TWSTA) <==> calls[i].Start? || calls[i].RepeatedStart?
    {
      var w := Run(c, regs, calls, resps)[i].control.word;
      ControlBitsByCall(calls[i]);
      InBitsOf(w, TWINT);
      InBitsOf(w, TWEN);
      InBitsOf(w, TWSTO);
      InBitsOf(w, TWEA);
      InBitsOf(w, TWSTA);
    }
  }

  /** Addressing a device for writing and writing one byte: both checks pass when
      the device acknowledges both, and the bus carries the address byte
      `addr << 1` (in 8-bit arithmetic, for any `unsigned char` address) followed
      by the data byte. */
  lemma WriteTransaction(c: Clocks, regs: Registers, addr: Byte, data: Byte, resps: seq<Response>)
    requires ValidClocks(c) && |resps| == 4
    ensures var calls := [Start, WriteAddr(addr), WriteData(data), Stop];
            var trace := Run(c, regs, calls, resps);
            && (trace[1].ret == Value(0) <==> StatusOf(resps[1].status) == TW_MT_SLA_ACK)
            && (trace[2].ret == Value(0) <==> StatusOf(resps[2].status) == TW_MT_DATA_ACK)
            && BusBytes(calls, trace) == [2 * addr, data]
  {
    var calls := [Start, WriteAddr(addr), WriteData(data), Stop];
    var trace := Run(c, regs, calls, resps);
    RunMatchesCalls(c, regs, calls, resps);
    RunSendsPayload(c, regs, calls, resps);
    MaskedEqualsCode(resps[1].status, TW_MT_SLA_ACK);
    MaskedEqualsCode(resps[2].status, TW_MT_DATA_ACK);
    assert Payload([Stop]) == [];
    assert Payload([WriteData(data), Stop]) == [data];
    assert Payload([WriteAddr(addr), WriteData(data), Stop]) == [2 * addr, data];
    assert Payload(calls) == Payload(calls[1..]) && calls[1..] == [WriteAddr(addr), WriteData(data), Stop];
  }

  /** Reading a stream of n + 1 bytes: the reads return the received bytes
      unchanged and in order, TWEA is set on the first n and clear on the last. */
  lemma ReadStream(c: Clocks, regs: Registers, n: nat, resps: seq<Response>)
    requires ValidClocks(c) && |resps| == n + 1
    ensures var calls := seq(n, _ => ReadAck) + [ReadNack];
            var trace := Run(c, regs, calls, resps);
            && (forall i :: 0 <= i <= n ==> trace[i].ret == Value(resps[i].received))
            && (forall i :: 0 <= i <= n ==> (WroteBit(trace[i], TWEA) <==> i < n))
  {
    var calls := seq(n, _ => ReadAck) + [ReadNack];
    assert forall i :: 0 <= i < n ==> calls[i] == ReadAck;
    assert calls[n] == ReadNack;
    RunMatchesCalls(c, regs, calls, resps);
    RunControlBits(c, regs, calls, resps);
  }
}
