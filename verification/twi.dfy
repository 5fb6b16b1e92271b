/**
  The TWI (I2C) master driver of the ATmega328P: initialisation, the control
  words written to TWCR for start, write, read and stop, the ACK/NACK
  classification of the status register, and the SLA+W probe byte.

  Busy-waiting on TWINT is modelled as one abstract completion step: the
  status byte (TWSR) or received byte (TWDR) the hardware holds afterwards
  is a parameter. Hardware changes to TWCR during that wait are not modelled;
  `twcr` holds the last value the driver wrote.
 */
module Twi {
  import opened Bits

  /**
    The names the driver takes from its headers: bit positions of the
    control, prescaler and pin registers, the `TWI_ACK` and `TWI_WRITE`
    codes, and `TWI_BIT_RATE_REG`. Their values are not fixed here.
   */
  datatype Config = Config(
    twint: BitIndex, twea: BitIndex, twsta: BitIndex, twsto: BitIndex, twen: BitIndex,
    twps1: BitIndex, twps0: BitIndex,
    sda: BitIndex, scl: BitIndex,
    ackCode: bv8,
    writeBit: bv8,
    bitRate: bv8)
  {
    /** Distinct TWCR bits, and an R/W bit that fits bit 0 of the address byte. */
    predicate Valid() {
      && twint != twea && twint != twsta && twint != twsto && twint != twen
      && twea != twsta && twea != twsto && twea != twen
      && twsta != twsto && twsta != twen
      && twsto != twen
      && writeBit <= 1
    }
  }

  /** The registers the driver touches: pin direction and port of the bus pins, and the TWI unit. */
  datatype Regs = Regs(ddr: bv8, port: bv8, twbr: bv8, twsr: bv8, twcr: bv8, twdr: bv8)

  /** What the driver asks of the TWI unit through one write of TWCR. */
  datatype Command = StartCmd | WriteCmd | ReadCmd(ack: bool) | StopCmd

  /** The TWCR bits the driver ever writes; TWWC and TWIE are not among them. */
  predicate IsControlBit(c: Config, i: BitIndex) {
    i == c.twint || i == c.twea || i == c.twsta || i == c.twsto || i == c.twen
  }

  /**
    The value written to TWCR for each command. Every word clears TWINT
    (by writing one to it) and keeps the unit enabled; only start sets
    TWSTA, only stop sets TWSTO, only an acknowledging read sets TWEA,
    and no bit outside the five control bits is set.
   */
  function ControlWord(c: Config, cmd: Command): (w: bv8)
    requires c.Valid()
    ensures Has(w, c.twint) && Has(w, c.twen)
    ensures Has(w, c.twsta) <==> cmd == StartCmd
    ensures Has(w, c.twsto) <==> cmd == StopCmd
    ensures Has(w, c.twea) <==> cmd == ReadCmd(true)
    ensures forall i: BitIndex :: Has(w, i) ==> IsControlBit(c, i)
  {
    match cmd
    case StartCmd =>
      var w := Mask(c.twint) | Mask(c.twsta) | Mask(c.twen);
      ThreeMasks(w, c.twint, c.twsta, c.twen);
      w
    case WriteCmd =>
      var w := Mask(c.twint) | Mask(c.twen);
      TwoMasks(w, c.twint, c.twen);
      w
    case ReadCmd(ack) =>
      if ack then
        var w := Mask(c.twint) | Mask(c.twen) | Mask(c.twea);
        ThreeMasks(w, c.twint, c.twen, c.twea);
        w
      else
        var w := Mask(c.twint) | Mask(c.twen);
        TwoMasks(w, c.twint, c.twen);
        w
    case StopCmd =>
      var w := Mask(c.twint) | Mask(c.twsto) | Mask(c.twen);
      ThreeMasks(w, c.twint, c.twsto, c.twen);
      w
  }

  /**
    Two commands share a control word only when they are the same command,
    or are a byte write and a non-acknowledging read: both write TWINT|TWEN,
    and the unit tells them apart by whether it is transmitting or receiving.
   */
  lemma ControlWordCollisions(c: Config, a: Command, b: Command)
    requires c.Valid()
    ensures ControlWord(c, a) == ControlWord(c, b)
        <==> a == b || (a in {WriteCmd, ReadCmd(false)} && b in {WriteCmd, ReadCmd(false)})
  {
    var wa, wb := ControlWord(c, a), ControlWord(c, b);
    if wa == wb {
      assert Has(wa, c.twsta) == Has(wb, c.twsta);
      assert Has(wa, c.twsto) == Has(wb, c.twsto);
      assert Has(wa, c.twea) == Has(wb, c.twea);
    }
    if a in {WriteCmd, ReadCmd(false)} && b in {WriteCmd, ReadCmd(false)} {
      SameBitsSameByte(wa, wb);
    }
  }

  /** No control word requests a start and a stop condition at once. */
  lemma StartStopExclusive(c: Config, cmd: Command)
    requires c.Valid()
    ensures !(Has(ControlWord(c, cmd), c.twsta) && Has(ControlWord(c, cmd), c.twsto))
  {
  }

  /**
    Pull-ups on the bus pins (pins as inputs, port bits set) and a cleared
    prescaler, then the bit-rate register. Every other bit of DDR, PORT
    and TWSR is left as it was.
   */
  function Init(c: Config, r: Regs): (r': Regs)
    ensures forall i: BitIndex :: Has(r'.ddr, i) <==> Has(r.ddr, i) && i != c.sda && i != c.scl
    ensures forall i: BitIndex :: Has(r'.port, i) <==> Has(r.port, i) || i == c.sda || i == c.scl
    ensures forall i: BitIndex :: Has(r'.twsr, i) <==> Has(r.twsr, i) && i != c.twps1 && i != c.twps0
    ensures r'.twbr == c.bitRate
    ensures r'.twcr == r.twcr && r'.twdr == r.twdr
  {
    ClearTwo(r.ddr, c.sda, c.scl);
    SetTwo(r.port, c.sda, c.scl);
    ClearTwo(r.twsr, c.twps1, c.twps0);
    r.(ddr := r.ddr & !(Mask(c.sda) | Mask(c.scl)),
       port := r.port | (Mask(c.sda) | Mask(c.scl)),
       twsr := r.twsr & !(Mask(c.twps1) | Mask(c.twps0)),
       twbr := c.bitRate)
  }

  /** Initialising twice leaves the registers as initialising once does. */
  lemma InitIdempotent(c: Config, r: Regs)
    ensures Init(c, Init(c, r)) == Init(c, r)
  {
    var once, twice := Init(c, r), Init(c, Init(c, r));
    SameBitsSameByte(twice.ddr, once.ddr);
    SameBitsSameByte(twice.port, once.port);
    SameBitsSameByte(twice.twsr, once.twsr);
  }

  /** Start condition: only TWCR is written, with the start control word. */
  function Start(c: Config, r: Regs): (r': Regs)
    requires c.Valid()
    ensures forall i: BitIndex :: Has(r'.twcr, i) <==> i == c.twint || i == c.twsta || i == c.twen
    ensures r'.(twcr := r.twcr) == r
  {
    r.(twcr := ControlWord(c, StartCmd))
  }

  /** The part of TWSR that carries the status code; bits 0..2 are the prescaler and a reserved bit. */
  const StatusMask: bv8 := 0xf8
  /** Master transmitter: SLA+W sent, ACK received. */
  const MtSlaAck: bv8 := 0x18
  /** Master transmitter: data byte sent, ACK received. */
  const MtDataAck: bv8 := 0x28
  /** Master receiver: SLA+R sent, ACK received. */
  const MrSlaAck: bv8 := 0x40

  /** The result `twi_write` reports: 0 for ACK, 1 for everything else. */
  const Ack: bv8 := 0
  const Nack: bv8 := 1

  /**
    Collapse a status byte to ACK or NACK. ACK covers exactly the status
    bytes whose code field is one of the three acknowledge codes, whatever
    their low three bits hold.
   */
  function Classify(twsr: bv8): (r: bv8)
    ensures r == Ack || r == Nack
    ensures r == Ack <==> (0x18 <= twsr <= 0x1f) || (0x28 <= twsr <= 0x2f) || (0x40 <= twsr <= 0x47)
  {
    var status := twsr & StatusMask;
    if status == MtSlaAck || status == MtDataAck || status == MrSlaAck then Ack else Nack
  }

  /** Only the five-bit status code (TWSR bits 3..7) decides the outcome. */
  lemma ClassifyIgnoresLowBits(s: bv8, t: bv8)
    requires s >> 3 == t >> 3
    ensures Classify(s) == Classify(t)
  {
  }

  /** In terms of the five-bit status code: ACK exactly for codes 3, 5 and 8. */
  lemma ClassifyByCode(s: bv8)
    ensures Classify(s) == Ack <==> s >> 3 == 3 || s >> 3 == 5 || s >> 3 == 8
  {
  }

  /** Outcome of `twi_write`: the registers afterwards and the ACK/NACK result. */
  datatype Sent = Sent(regs: Regs, result: bv8)

  /**
    Send one byte: load TWDR, start the transfer through TWCR, and classify
    `status`, the TWSR value the hardware holds once the transfer completes.
   */
  function Write(c: Config, r: Regs, data: bv8, status: bv8): (s: Sent)
    requires c.Valid()
    ensures s.regs.twdr == data && s.regs.twsr == status
    ensures forall i: BitIndex :: Has(s.regs.twcr, i) <==> i == c.twint || i == c.twen
    ensures s.regs.(twdr := r.twdr, twsr := r.twsr, twcr := r.twcr) == r
    ensures s.result == Ack <==> Classify(status) == Ack
    ensures s.result <= 1
  {
    var r' := r.(twdr := data, twcr := ControlWord(c, WriteCmd), twsr := status);
    Sent(r', Classify(r'.twsr))
  }

  /** Outcome of `twi_read`: the registers afterwards and the byte returned. */
  datatype Received = Received(regs: Regs, data: bv8)

  /**
    Receive one byte, answering it with ACK (TWEA set) exactly when `ack`
    equals `TWI_ACK`; `incoming` is the byte the hardware has placed in TWDR
    once the transfer completes, and it is returned as it is.
   */
  function Read(c: Config, r: Regs, ack: bv8, incoming: bv8): (s: Received)
    requires c.Valid()
    ensures forall i: BitIndex :: Has(s.regs.twcr, i) <==> i == c.twint || i == c.twen || (i == c.twea && ack == c.ackCode)
    ensures s.data == incoming && s.regs.twdr == incoming
    ensures s.regs.(twdr := r.twdr, twcr := r.twcr) == r
  {
    var r' := r.(twcr := ControlWord(c, ReadCmd(ack == c.ackCode)));
    var done := r'.(twdr := incoming);
    Received(done, done.twdr)
  }

  /** Stop condition: only TWCR is written, with the stop control word; nothing is awaited. */
  function Stop(c: Config, r: Regs): (r': Regs)
    requires c.Valid()
    ensures forall i: BitIndex :: Has(r'.twcr, i) <==> i == c.twint || i == c.twsto || i == c.twen
    ensures r'.(twcr := r.twcr) == r
  {
    r.(twcr := ControlWord(c, StopCmd))
  }

  /**
    The first byte of a write transfer, `(sla<<1) | TWI_WRITE` passed as a
    `uint8_t`: the C shift is done in `int` and the conversion keeps the low
    eight bits, which is what the 8-bit shift below computes. For a 7-bit
    address nothing is lost: the top seven bits are the address and bit 0
    is the R/W bit (write).
   */
  function AddressByte(c: Config, sla: bv8): (b: bv8)
    requires c.Valid()
    ensures sla < 128 ==> b >> 1 == sla && b & 1 == c.writeBit
  {
    (sla << 1) | c.writeBit
  }

  /** For a 7-bit address the byte is the full value `2 * sla + TWI_WRITE`: the shift does not overflow. */
  lemma AddressByteFits(c: Config, sla: bv8)
    requires c.Valid() && sla < 128
    ensures AddressByte(c, sla) as int == 2 * sla as int + c.writeBit as int
  {
  }

  /** Distinct 7-bit addresses give distinct probe bytes. */
  lemma AddressByteInjective(c: Config, a: bv8, b: bv8)
    requires c.Valid() && a < 128 && b < 128
    ensures AddressByte(c, a) == AddressByte(c, b) <==> a == b
  {
  }
}
