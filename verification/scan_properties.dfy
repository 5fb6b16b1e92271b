/**
  Properties of a scan: which addresses are probed, in what order and how
  often, and what reaches the console for a given set of devices.
 */
module ScanProperties {
  import Bits
  import Twi
  import Hex
  import Console
  import opened Scan

  /** Each probe is a start condition, the SLA+W byte of its address and a stop condition, with nothing in between. */
  lemma ProbeBlocks(c: Twi.Config, events: seq<BusEvent>)
    requires c.Valid() && ProbeTrace(c, events)
    ensures forall p :: 0 <= p < Count ==>
      && events[3 * p] == StartCondition
      && events[3 * p + 1] == SendByte(Twi.AddressByte(c, (First + p) as bv8))
      && events[3 * p + 2] == StopCondition
  {
    forall p | 0 <= p < Count
      ensures events[3 * p] == StartCondition
      ensures events[3 * p + 1] == SendByte(Twi.AddressByte(c, (First + p) as bv8))
      ensures events[3 * p + 2] == StopCondition
    {
      assert (3 * p) / 3 == p && (3 * p + 1) / 3 == p && (3 * p + 2) / 3 == p;
    }
  }

  /** Every byte sent carries an address of 8..119 in its top seven bits and the write bit in bit 0. */
  lemma ProbesInRange(c: Twi.Config, events: seq<BusEvent>)
    requires c.Valid() && ProbeTrace(c, events)
    ensures forall k :: 0 <= k < |events| && events[k].SendByte? ==>
      && 8 <= events[k].data >> 1 < 120
      && events[k].data & 1 == c.writeBit
  {
    forall k | 0 <= k < |events| && events[k].SendByte?
      ensures 8 <= events[k].data >> 1 < 120 && events[k].data & 1 == c.writeBit
    {
      var sla := (First + k / 3) as bv8;
      assert events[k] == SendByte(Twi.AddressByte(c, sla));
      assert 8 <= sla < 120;
    }
  }

  /** A byte sent at position `k` is the SLA+W byte of probe `k / 3`, the middle step of that probe. */
  lemma SentAddress(c: Twi.Config, events: seq<BusEvent>, k: nat)
    requires c.Valid() && ProbeTrace(c, events)
    requires k < |events| && events[k].SendByte?
    ensures k == 3 * (k / 3) + 1
    ensures (events[k].data >> 1) as nat == First + k / 3
  {
    var sla := (First + k / 3) as bv8;
    assert events[k] == ExpectedEvent(c, k);
    assert events[k] == SendByte(Twi.AddressByte(c, sla));
    Bits.NatByteRoundTrip(First + k / 3);
  }

  /** Probes go up one address at a time: a later probe always names a higher address. */
  lemma ProbesAscending(c: Twi.Config, events: seq<BusEvent>)
    requires c.Valid() && ProbeTrace(c, events)
    ensures forall i, j :: 0 <= i < j < |events| && events[i].SendByte? && events[j].SendByte? ==>
      events[i].data >> 1 < events[j].data >> 1
  {
    forall i, j | 0 <= i < j < |events| && events[i].SendByte? && events[j].SendByte?
      ensures events[i].data >> 1 < events[j].data >> 1
    {
      SentAddress(c, events, i);
      SentAddress(c, events, j);
      Bits.ByteLess(events[i].data >> 1, events[j].data >> 1);
    }
  }

  /** The trace positions where byte `b` is sent. */
  function Sends(events: seq<BusEvent>, b: bv8): set<nat> {
    set k: nat | k < |events| && events[k] == SendByte(b)
  }

  /** Only the probe of `a` sends the SLA+W byte of `a`, and only addresses of 8..119 are probed. */
  lemma SendsAtMost(c: Twi.Config, events: seq<BusEvent>, a: bv8)
    requires c.Valid() && ProbeTrace(c, events) && a < 128
    ensures forall k | k in Sends(events, Twi.AddressByte(c, a)) ::
      First <= a as nat < Limit && k == 3 * (a as nat - First) + 1
  {
    var b := Twi.AddressByte(c, a);
    forall k | k in Sends(events, b)
      ensures First <= a as nat < Limit && k == 3 * (a as nat - First) + 1
    {
      var sla := (First + k / 3) as bv8;
      assert events[k] == SendByte(Twi.AddressByte(c, sla));
      assert k % 3 == 1;
      Bits.NatByteRoundTrip(First + k / 3);
      Twi.AddressByteInjective(c, a, sla);
    }
  }

  /** The probe of an address of 8..119 does send its SLA+W byte. */
  lemma SendsAtLeast(c: Twi.Config, events: seq<BusEvent>, a: bv8)
    requires c.Valid() && ProbeTrace(c, events) && First <= a as nat < Limit
    ensures 3 * (a as nat - First) + 1 in Sends(events, Twi.AddressByte(c, a))
  {
    var k := 3 * (a as nat - First) + 1;
    assert k / 3 == a as nat - First && k % 3 == 1;
    Bits.ByteNatRoundTrip(a);
    assert events[k] == SendByte(Twi.AddressByte(c, a));
  }

  /**
    Every address of 8..119 is probed exactly once, at its own place in the
    trace; no other 7-bit address is probed at all.
   */
  lemma ProbedOnce(c: Twi.Config, events: seq<BusEvent>, a: bv8)
    requires c.Valid() && ProbeTrace(c, events) && a < 128
    ensures First <= a as nat < Limit ==> Sends(events, Twi.AddressByte(c, a)) == {3 * (a as nat - First) + 1}
    ensures !(First <= a as nat < Limit) ==> Sends(events, Twi.AddressByte(c, a)) == {}
  {
    SendsAtMost(c, events, a);
    if First <= a as nat < Limit {
      SendsAtLeast(c, events, a);
    }
  }

  /** A bus that never acknowledges leaves the console untouched. */
  lemma SilentBus(c: Twi.Config, bus: Bus)
    requires c.Valid()
    requires forall b: bv8 :: Twi.Classify(bus(b)) == Twi.Nack
    ensures Acked(c, bus) == []
    ensures Console.ReportLines(Acked(c, bus)) == []
  {
    AckedExactly(c, bus);
    EmptyTogether(Acked(c, bus), []);
  }

  lemma {:induction false} SameAcksBelow(c: Twi.Config, bus1: Bus, bus2: Bus, n: nat)
    requires c.Valid() && n <= Limit
    requires forall a :: First <= a < n ==> Acks(c, bus1, a) == Acks(c, bus2, a)
    ensures AckedBelow(c, bus1, n) == AckedBelow(c, bus2, n)
  {
    if n > First {
      SameAcksBelow(c, bus1, bus2, n - 1);
    }
  }

  /**
    The scan's report depends only on which addresses acknowledge, so
    scanning again with the same devices responding gives the same output.
   */
  lemma SameAcksSameReport(c: Twi.Config, bus1: Bus, bus2: Bus)
    requires c.Valid()
    requires forall a :: First <= a < Limit ==> Acks(c, bus1, a) == Acks(c, bus2, a)
    ensures Console.ReportLines(Acked(c, bus1)) == Console.ReportLines(Acked(c, bus2))
  {
    SameAcksBelow(c, bus1, bus2, Limit);
  }

  /** Master transmitter: SLA+W sent, NACK received. */
  const MtSlaNack: bv8 := 0x20

  /** A bus whose devices sit at the 7-bit addresses in `devices`: an SLA+W byte is acknowledged exactly when it names one of them. */
  function DeviceBus(devices: set<nat>): Bus {
    b => DeviceStatus(devices, b)
  }

  /** The TWSR value after sending byte `b` on that bus. */
  function DeviceStatus(devices: set<nat>, b: bv8): bv8 {
    if (b >> 1) as nat in devices then Twi.MtSlaAck else MtSlaNack
  }

  /** On such a bus the scan finds the devices of 8..119 and nothing else. */
  lemma DevicesFound(c: Twi.Config, devices: set<nat>)
    requires c.Valid()
    ensures forall a :: a in Acked(c, DeviceBus(devices)) <==> a in devices && First <= a < Limit
  {
    var bus := DeviceBus(devices);
    AckedExactly(c, bus);
    forall a | First <= a < Limit
      ensures Acks(c, bus, a) <==> a in devices
    {
      var sla := a as bv8;
      Bits.NatByteRoundTrip(a);
      assert sla < 128;
      var b := Twi.AddressByte(c, sla);
      assert b >> 1 == sla;
      assert (b >> 1) as nat == a;
      assert bus(b) == DeviceStatus(devices, b);
      assert Twi.Classify(Twi.MtSlaAck) == Twi.Ack && Twi.Classify(MtSlaNack) == Twi.Nack;
    }
  }

  lemma EmptyTogether(s: seq<nat>, t: seq<nat>)
    requires forall x :: x in s <==> x in t
    ensures |s| == 0 <==> |t| == 0
  {
    if |s| > 0 {
      assert s[0] in t;
    }
    if |t| > 0 {
      assert t[0] in s;
    }
  }

  /** Two ascending lists with the same elements are the same list. */
  lemma {:induction false} IncreasingUnique(s: seq<nat>, t: seq<nat>)
    requires Increasing(s) && Increasing(t)
    requires forall x :: x in s <==> x in t
    ensures s == t
  {
    EmptyTogether(s, t);
    if |s| > 0 {
      assert |t| > 0 by {
        assert s[0] in t;
      }
      assert s[0] == t[0] by {
        assert s[0] in t && t[0] in s;
      }
      forall x
        ensures x in s[1..] <==> x in t[1..]
      {
        if x in s[1..] {
          assert x in s && x != s[0];
        }
        if x in t[1..] {
          assert x in t && x != t[0];
        }
      }
      IncreasingUnique(s[1..], t[1..]);
      assert s == [s[0]] + s[1..] && t == [t[0]] + t[1..];
    }
  }

  /** On a device bus the scan reports the devices of 8..119 in ascending order. */
  lemma ScanOfDevices(c: Twi.Config, devices: set<nat>, expected: seq<nat>)
    requires c.Valid() && Increasing(expected)
    requires forall x :: x in expected <==> x in devices && First <= x < Limit
    ensures Acked(c, DeviceBus(devices)) == expected
  {
    DevicesFound(c, devices);
    AckedExactly(c, DeviceBus(devices));
    IncreasingUnique(Acked(c, DeviceBus(devices)), expected);
  }

  lemma ReportOfOne(a: nat, ta: string)
    requires Hex.Format(a) == ta
    ensures Console.Text(Console.ReportLines([a])) == "\r\n" + ta
  {
    Console.ReportTextSnoc([], a);
    assert [] + [a] == [a];
    assert Console.Text(Console.ReportLines([])) == [];
  }

  lemma ReportOfTwo(a: nat, b: nat, ta: string, tb: string)
    requires Hex.Format(a) == ta && Hex.Format(b) == tb
    ensures Console.Text(Console.ReportLines([a, b])) == "\r\n" + ta + "\r\n" + tb
  {
    ReportOfOne(a, ta);
    Console.ReportTextSnoc([a], b);
    assert [a] + [b] == [a, b];
  }

  /** The console text of a scan that finds only the display at 0x3c. */
  lemma DisplayText()
    ensures Console.Text(Console.ReportLines([0x3c])) == "\r\n3c"
  {
    Hex.FormatExamples();
    ReportOfOne(0x3c, "3c");
  }

  /** The console text of a scan that finds devices at 0x57 and 0x68. */
  lemma PairText()
    ensures Console.Text(Console.ReportLines([0x57, 0x68])) == "\r\n57\r\n68"
  {
    Hex.FormatExamples();
    ReportOfTwo(0x57, 0x68, "57", "68");
  }

  /** Devices at 7, 0x3c and 120: only the display at 0x3c is reported; the two reserved addresses are never probed. */
  lemma ScenarioOneDevice(c: Twi.Config)
    requires c.Valid()
    ensures Acked(c, DeviceBus({7, 0x3c, 120})) == [0x3c]
    ensures Console.Text(Console.ReportLines(Acked(c, DeviceBus({7, 0x3c, 120})))) == "\r\n3c"
  {
    ScanOfDevices(c, {7, 0x3c, 120}, [0x3c]);
    DisplayText();
  }

  /** Devices at 0x57 and 0x68: two lines, in ascending address order. */
  lemma ScenarioTwoDevices(c: Twi.Config)
    requires c.Valid()
    ensures Acked(c, DeviceBus({0x68, 0x57})) == [0x57, 0x68]
    ensures Console.Text(Console.ReportLines(Acked(c, DeviceBus({0x68, 0x57})))) == "\r\n57\r\n68"
  {
    ScanOfDevices(c, {0x68, 0x57}, [0x57, 0x68]);
    PairText();
  }

  /** Addresses 8..15 print as one digit and 16..119 as two, never zero-padded. */
  lemma ReportedWidth(c: Twi.Config, bus: Bus)
    requires c.Valid()
    ensures forall i :: 0 <= i < |Acked(c, bus)| ==>
      |Hex.Format(Acked(c, bus)[i])| == (if Acked(c, bus)[i] < 16 then 1 else 2)
  {
    var found := Acked(c, bus);
    AckedExactly(c, bus);
    forall i | 0 <= i < |found|
      ensures |Hex.Format(found[i])| == (if found[i] < 16 then 1 else 2)
    {
      assert found[i] in found;
      Hex.FormatWidth(found[i]);
    }
  }
}
