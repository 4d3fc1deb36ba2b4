/**
 The pure side of `loop()`: the interval gate on a wrapping 32-bit millisecond
 clock, what one poll cycle reads into each slot and puts on the bus, and the
 rule that decides the LED level.
 */
module PollCycle {
  import opened ModbusReader

  /** `unsigned long` on the ESP32: the type of `millis()` and `lastUpdate`. */
  newtype u32 = x: int | 0 <= x < 0x1_0000_0000

  const CLOCK_PERIOD: int := 0x1_0000_0000

  /** ModbusConfig::TEMP_UPDATE_INTERVAL_MS. */
  const TEMP_UPDATE_INTERVAL_MS: u32 := 1000

  /** The number of sensors: `modbusNodes[3]` and `temperatures[3]`. */
  const SLAVE_COUNT: nat := 3

  /**
   What each slave answers during one poll cycle: `bus(s)[k]` is the outcome of
   the k-th attempt of the read addressed to slave `s`.
   */
  type Bus = int -> seq<Attempt>

  /** `millis() - lastUpdate` in unsigned 32-bit arithmetic. */
  function Elapsed(now: u32, last: u32): u32
  {
    ((now as int - last as int) % CLOCK_PERIOD) as u32
  }

  /** The gate of `loop()`: has the update interval passed since the last cycle? */
  predicate IntervalDue(now: u32, last: u32)
  {
    Elapsed(now, last) >= TEMP_UPDATE_INTERVAL_MS
  }

  /** The clock reading `d` milliseconds after `last`, once it has wrapped around. */
  function After(last: u32, d: nat): u32
  {
    ((last as int + d) % CLOCK_PERIOD) as u32
  }

  /**
   The gate measures true elapsed time even when the clock wraps between two
   cycles: `d` milliseconds after `last` (less than one clock period), the
   unsigned difference is `d`, so a cycle runs exactly when `d >= 1000`.
   */
  lemma ElapsedAcrossWraparound(last: u32, d: nat)
    requires d < CLOCK_PERIOD
    ensures Elapsed(After(last, d), last) as int == d
    ensures IntervalDue(After(last, d), last) <==> d >= TEMP_UPDATE_INTERVAL_MS as int
  {
    var now := After(last, d);
    if last as int + d < CLOCK_PERIOD {
      assert now as int == last as int + d;
    } else {
      assert now as int == last as int + d - CLOCK_PERIOD;
      assert now as int - last as int == d - CLOCK_PERIOD;
    }
  }

  /** `modbusNodes[i].begin(i + 1, Serial2)`: slot `i` belongs to slave address `i + 1`. */
  function SlaveOf(slot: nat): int
  {
    slot + 1
  }

  /** The readings of slots `0 .. n-1` after a cycle has polled them in order. */
  function Readings(bus: Bus, n: nat): seq<int>
  {
    if n == 0 then [] else Readings(bus, n - 1) + [Reading(bus(SlaveOf(n - 1)))]
  }

  /** What polling slots `0 .. n-1` in order does on the bus and the clock. */
  function CycleTrace(bus: Bus, n: nat): seq<Event>
  {
    if n == 0 then []
    else CycleTrace(bus, n - 1) + ReadTrace(SlaveOf(n - 1), SlaveOf(n - 1), bus(SlaveOf(n - 1)))
  }

  /** The content of `temperatures` after a full cycle. */
  function CycleReadings(bus: Bus): seq<int>
  {
    Readings(bus, SLAVE_COUNT)
  }

  /** Some transaction of the trace is addressed to slave `s`. */
  predicate Addressed(t: seq<Event>, s: int)
  {
    exists i :: 0 <= i < |t| && t[i].Transaction? && t[i].request.slave == s
  }

  /** The LED rule: HIGH iff some reading is above zero. */
  predicate AnyAboveZero(temps: seq<int>)
  {
    exists i :: 0 <= i < |temps| && temps[i] > 0
  }

  lemma {:induction false} ReadingsSlot(bus: Bus, n: nat, i: nat)
    requires i < n
    ensures |Readings(bus, n)| == n
    ensures Readings(bus, n)[i] == Reading(bus(SlaveOf(i)))
  {
    if i < n - 1 {
      ReadingsSlot(bus, n - 1, i);
    } else if n > 1 {
      ReadingsSlot(bus, n - 1, 0);
    }
  }

  /**
   After a cycle there are exactly SLAVE_COUNT readings, and slot `i` holds the
   result of reading slave `i + 1`: a value or the sentinel.
   */
  lemma CycleSlots(bus: Bus)
    ensures |CycleReadings(bus)| == SLAVE_COUNT
    ensures forall i :: 0 <= i < SLAVE_COUNT ==> CycleReadings(bus)[i] == Reading(bus(SlaveOf(i)))
    ensures forall i :: 0 <= i < SLAVE_COUNT ==> IsReading(CycleReadings(bus)[i])
  {
    forall i | 0 <= i < SLAVE_COUNT
      ensures |CycleReadings(bus)| == SLAVE_COUNT
      ensures CycleReadings(bus)[i] == Reading(bus(SlaveOf(i)))
      ensures IsReading(CycleReadings(bus)[i])
    {
      ReadingsSlot(bus, SLAVE_COUNT, i);
      ReadingRange(bus(SlaveOf(i)));
    }
  }

  /**
   A slot depends only on its own slave: a slave that fails (and leaves the
   sentinel) changes no other slot of the cycle.
   */
  lemma SlotIsolation(bus: Bus, bus': Bus, i: nat)
    requires i < SLAVE_COUNT
    requires bus(SlaveOf(i)) == bus'(SlaveOf(i))
    ensures CycleReadings(bus)[i] == CycleReadings(bus')[i]
  {
    CycleSlots(bus);
    CycleSlots(bus');
  }

  lemma {:induction false} CycleTraceOrder(bus: Bus, n: nat)
    ensures var t := CycleTrace(bus, n);
      && n <= |Attempts(t)| <= n * MAX_RETRIES
      && (forall i :: 0 <= i < |t| && t[i].Transaction? ==> 1 <= t[i].request.slave <= n)
      && (forall i, j :: 0 <= i < j < |t| && t[i].Transaction? && t[j].Transaction? ==>
            t[i].request.slave <= t[j].request.slave)
      && (forall s :: 1 <= s <= n ==> Addressed(t, s))
  {
    if n > 0 {
      var prev := CycleTrace(bus, n - 1);
      var r := ReadTrace(n, n, bus(n));
      var t := CycleTrace(bus, n);
      assert t == prev + r;
      CycleTraceOrder(bus, n - 1);
      ReadTraceShape(n, n, bus(n));
      AttemptsAppend(prev, r);
      assert forall i :: |prev| <= i < |t| ==> t[i] == r[i - |prev|];
      assert forall i :: 0 <= i < |prev| ==> t[i] == prev[i];
      forall s | 1 <= s < n
        ensures Addressed(t, s)
      {
        assert Addressed(prev, s);
        var i :| 0 <= i < |prev| && prev[i].Transaction? && prev[i].request.slave == s;
        assert t[i] == prev[i];
      }
      assert r[0].Transaction? && r[0].request.slave == n;
      assert t[|prev|] == r[0];
      assert Addressed(t, n);
    }
  }

  /**
   One cycle makes between SLAVE_COUNT and SLAVE_COUNT * MAX_RETRIES (9)
   transactions, addresses each of slaves 1 .. 3 and no other, in increasing
   slave order: one read is over before the next slave is addressed.
   */
  lemma CycleOrder(bus: Bus)
    ensures var t := CycleTrace(bus, SLAVE_COUNT);
      && SLAVE_COUNT <= |Attempts(t)| <= SLAVE_COUNT * MAX_RETRIES
      && (forall i :: 0 <= i < |t| && t[i].Transaction? ==> 1 <= t[i].request.slave <= SLAVE_COUNT)
      && (forall i, j :: 0 <= i < j < |t| && t[i].Transaction? && t[j].Transaction? ==>
            t[i].request.slave <= t[j].request.slave)
      && (forall s :: 1 <= s <= SLAVE_COUNT ==> Addressed(t, s))
  {
    CycleTraceOrder(bus, SLAVE_COUNT);
  }

  /**
   The LED level a cycle writes is HIGH iff some slave's reading is above zero:
   a sentinel or a zero reading never lights it.
   */
  lemma CycleLed(bus: Bus)
    ensures AnyAboveZero(CycleReadings(bus)) <==> exists i :: 0 <= i < SLAVE_COUNT && Reading(bus(SlaveOf(i))) > 0
    ensures (forall i :: 0 <= i < SLAVE_COUNT ==> Reading(bus(SlaveOf(i))) in {0, SENTINEL}) ==>
              !AnyAboveZero(CycleReadings(bus))
  {
    CycleSlots(bus);
  }
}
