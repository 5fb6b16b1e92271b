/**
  The bus scan: for every 7-bit address from 8 to 119, a start condition,
  the SLA+W byte and a stop condition; for each address that acknowledges,
  a line break and the address in base 16 on the console.

  Addresses 0..7 (`0000XXX`) and 120..127 (`1111XXX`) are the reserved
  groups of section 3.1.12 of the NXP I2C-bus specification (UM10204) and
  are never probed. The hardware is an oracle that gives the TWSR value
  after each probe byte has been sent.
 */
module Scan {
  import Twi
  import Hex
  import Console

  /** Lowest address probed. */
  const First: nat := 8
  /** First address above the probed range. */
  const Limit: nat := 120
  /** Number of addresses probed. */
  const Count: nat := Limit - First

  /** What the scan asks of the bus, one driver call each. */
  datatype BusEvent = StartCondition | SendByte(data: bv8) | StopCondition

  /** The hardware: the TWSR value after sending a given byte right after a start condition. */
  type Bus = bv8 -> bv8

  /** The device at `a` acknowledges its SLA+W probe. */
  predicate Acks(c: Twi.Config, bus: Bus, a: nat)
    requires c.Valid() && a < 256
  {
    Twi.Classify(bus(Twi.AddressByte(c, a as bv8))) == Twi.Ack
  }

  predicate Increasing(s: seq<nat>) {
    forall i, j :: 0 <= i < j < |s| ==> s[i] < s[j]
  }

  /** The acknowledging addresses among `First..n-1`, in the order the scan meets them. */
  function AckedBelow(c: Twi.Config, bus: Bus, n: nat): seq<nat>
    requires c.Valid() && n <= Limit
    // Measured by `n`, then `c`: the configuration is part of the measure, so the
    // function is unfolded at a constant bound only for a constant configuration.
    decreases n, c
  {
    if n <= First then []
    else AckedBelow(c, bus, n - 1) + (if Acks(c, bus, n - 1) then [n - 1] else [])
  }

  /** `AckedBelow(n)` holds exactly the acknowledging addresses of `First..n-1`, in ascending order. */
  lemma {:induction false} AckedBelowExactly(c: Twi.Config, bus: Bus, n: nat)
    requires c.Valid() && n <= Limit
    ensures forall a :: a in AckedBelow(c, bus, n) <==> First <= a < n && Acks(c, bus, a)
    ensures Increasing(AckedBelow(c, bus, n))
  {
    if n > First {
      AckedBelowExactly(c, bus, n - 1);
      var prev := AckedBelow(c, bus, n - 1);
      assert forall i :: 0 <= i < |prev| ==> prev[i] in prev;
    }
  }

  /** The acknowledging addresses of the scanned range. */
  function Acked(c: Twi.Config, bus: Bus): seq<nat>
    requires c.Valid()
  {
    AckedBelow(c, bus, Limit)
  }

  /**
    The scan reports an address exactly when it lies in 8..119 and
    acknowledges its probe, and reports them in ascending order.
   */
  lemma AckedExactly(c: Twi.Config, bus: Bus)
    requires c.Valid()
    ensures forall a :: a in Acked(c, bus) <==> First <= a < Limit && Acks(c, bus, a)
    ensures Increasing(Acked(c, bus))
  {
    AckedBelowExactly(c, bus, Limit);
  }

  /** The `k`-th bus event of a scan: probe `k / 3`, step `k % 3` of start, SLA+W, stop. */
  function ExpectedEvent(c: Twi.Config, k: nat): BusEvent
    requires c.Valid() && k < 3 * Count
  {
    var sla := (First + k / 3) as bv8;
    if k % 3 == 0 then StartCondition
    else if k % 3 == 1 then SendByte(Twi.AddressByte(c, sla))
    else StopCondition
  }

  /** The full bus trace of a scan. */
  ghost predicate ProbeTrace(c: Twi.Config, events: seq<BusEvent>)
    requires c.Valid()
  {
    && |events| == 3 * Count
    && forall k :: 0 <= k < |events| ==> events[k] == ExpectedEvent(c, k)
  }

  /**
    The report step of the scan, for an address that acknowledged: `uart_puts`
    of a line break, `itoa` of the address in base 16, then `uart_puts` of
    that text. If the calls so far report `reported`, the calls afterwards
    report `reported` followed by `sla`.
   */
  method ReportAddress(uart: seq<string>, ghost reported: seq<nat>, sla: nat) returns (uart': seq<string>)
    ensures uart' == uart + [Console.LineBreak, Hex.Format(sla)]
    ensures uart == Console.ReportLines(reported) ==> uart' == Console.ReportLines(reported + [sla])
  {
    uart' := uart + [Console.LineBreak];
    uart' := uart' + [Hex.Format(sla)];
    Console.ReportLinesSnoc(reported, sla);
  }

  /** The bus events of probing one address. */
  function ProbeEvents(c: Twi.Config, sla: nat): seq<BusEvent>
    requires c.Valid() && sla < 256
  {
    [StartCondition, SendByte(Twi.AddressByte(c, sla as bv8)), StopCondition]
  }

  /** The bus events of probing `First..n-1` in turn. */
  function TraceBelow(c: Twi.Config, n: nat): seq<BusEvent>
    requires c.Valid() && n <= Limit
    decreases n
  {
    if n <= First then [] else TraceBelow(c, n - 1) + ProbeEvents(c, n - 1)
  }

  /** Probing `First..n-1` in turn produces the first `3 * (n - First)` events of the closed form. */
  lemma {:induction false} TraceBelowClosedForm(c: Twi.Config, n: nat)
    requires c.Valid() && First <= n <= Limit
    ensures |TraceBelow(c, n)| == 3 * (n - First)
    ensures forall k :: 0 <= k < |TraceBelow(c, n)| ==> TraceBelow(c, n)[k] == ExpectedEvent(c, k)
  {
    if n > First {
      TraceBelowClosedForm(c, n - 1);
      var prev, t := TraceBelow(c, n - 1), TraceBelow(c, n);
      assert t == prev + ProbeEvents(c, n - 1);
      forall k | 0 <= k < |t|
        ensures t[k] == ExpectedEvent(c, k)
      {
        if k >= |prev| {
          assert k / 3 == n - 1 - First;
          assert First + k / 3 == n - 1;
        }
      }
    }
  }

  /** Scanning one more address appends it to the report exactly when it acknowledges. */
  lemma AckedStep(c: Twi.Config, bus: Bus, n: nat)
    requires c.Valid() && First <= n < Limit
    ensures Acks(c, bus, n) ==> AckedBelow(c, bus, n + 1) == AckedBelow(c, bus, n) + [n]
    ensures !Acks(c, bus, n) ==> AckedBelow(c, bus, n + 1) == AckedBelow(c, bus, n)
  {
    if !Acks(c, bus, n) {
      assert AckedBelow(c, bus, n) + [] == AckedBelow(c, bus, n);
    }
  }

  /**
    One probe: start condition, the SLA+W byte of `sla`, stop condition.
    The probe acknowledges exactly when the scanned address does.
   */
  method Probe(c: Twi.Config, bus: Bus, r0: Twi.Regs, sla: nat)
    returns (r: Twi.Regs, events: seq<BusEvent>, result: bv8)
    requires c.Valid() && sla < 256
    ensures events == [StartCondition, SendByte(Twi.AddressByte(c, sla as bv8)), StopCondition]
    ensures result == Twi.Ack <==> Acks(c, bus, sla)
    ensures r.twcr == Twi.ControlWord(c, Twi.StopCmd)
    ensures r.ddr == r0.ddr && r.port == r0.port && r.twbr == r0.twbr
  {
    r := Twi.Start(c, r0);
    events := [StartCondition];
    var probe := Twi.AddressByte(c, sla as bv8);
    var sent := Twi.Write(c, r, probe, bus(probe));
    r := sent.regs;
    events := events + [SendByte(probe)];
    r := Twi.Stop(c, r);
    events := events + [StopCondition];
    result := sent.result;
  }

  /**
    `twi_scan`: walk the addresses, probe each one, and report each
    acknowledging address with two `uart_puts` calls. `r0` is the register
    state before the scan; the TWSR value after each probe byte is `bus` of
    that byte. The source counts with a `uint8_t`; it stays below 121, so it
    never wraps and is modelled as a natural number.
   */
  method ScanBus(c: Twi.Config, bus: Bus, r0: Twi.Regs)
    returns (r: Twi.Regs, events: seq<BusEvent>, uart: seq<string>)
    requires c.Valid()
    ensures ProbeTrace(c, events)
    ensures uart == Console.ReportLines(Acked(c, bus))
    ensures r.twcr == Twi.ControlWord(c, Twi.StopCmd)
    ensures r.ddr == r0.ddr && r.port == r0.port && r.twbr == r0.twbr
  {
    r, events, uart := r0, [], [];
    var sla: nat := First;
    while sla < Limit
      invariant First <= sla <= Limit
      invariant events == TraceBelow(c, sla)
      invariant uart == Console.ReportLines(AckedBelow(c, bus, sla))
      invariant sla > First ==> r.twcr == Twi.ControlWord(c, Twi.StopCmd)
      invariant r.ddr == r0.ddr && r.port == r0.port && r.twbr == r0.twbr
    {
      AckedStep(c, bus, sla);
      var probed, result;
      r, probed, result := Probe(c, bus, r, sla);
      events := events + probed;
      if result == Twi.Ack {
        uart := ReportAddress(uart, AckedBelow(c, bus, sla), sla);
      }
      sla := sla + 1;
    }
    TraceBelowClosedForm(c, Limit);
  }
}
