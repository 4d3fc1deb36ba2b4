/**
 The firmware's state and its entry points: the global `temperatures` store,
 the `static lastUpdate` of `loop()`, the slave address each Modbus node is
 bound to, and the LED pin, with `setup()`, one call of `loop()`, and the
 `/temperature` and `/toggle-led` handlers.
 */
module Firmware {
  import opened ModbusReader
  import opened PollCycle
  import opened WebRoutes

  class Controller {
    /** The slave address `modbusNodes[i]` was bound to in `setup()`, never rebound. */
    const slaveIds: seq<int>
    /** The global `float temperatures[3]`, in tenths of a degree, overwritten in place. */
    const temperatures: array<int>
    /** `loop()`'s `static unsigned long lastUpdate`. */
    var lastUpdate: u32
    /** Every `digitalWrite` to LED_PIN so far, HIGH being `true`. */
    var pinWrites: seq<bool>

    /** The store has one reading per slave, each a value or the sentinel; node `i` talks to slave `i + 1`. */
    ghost predicate Valid()
      reads this, temperatures
    {
      && temperatures.Length == SLAVE_COUNT
      && |slaveIds| == SLAVE_COUNT
      && (forall i :: 0 <= i < SLAVE_COUNT ==> slaveIds[i] == SlaveOf(i))
      && (forall i :: 0 <= i < SLAVE_COUNT ==> IsReading(temperatures[i]))
      && pinWrites != []
    }

    /** The level the LED pin is at: the last one written. */
    function Led(): bool
      reads this
      requires pinWrites != []
    {
      pinWrites[|pinWrites| - 1]
    }

    /**
     The state once `setup()` has run: all readings 0.0, `lastUpdate` 0, the LED
     written LOW, and node `i` bound to slave `i + 1`.
     */
    constructor Setup()
      ensures Valid() && fresh(temperatures)
      ensures temperatures[..] == [0, 0, 0]
      ensures lastUpdate == 0
      ensures pinWrites == [false]
      ensures slaveIds == [1, 2, 3]
    {
      pinWrites := [false];
      var ids := [];
      for i := 0 to SLAVE_COUNT
        invariant |ids| == i
        invariant forall k :: 0 <= k < i ==> ids[k] == SlaveOf(k)
      {
        ids := ids + [SlaveOf(i)];
      }
      slaveIds := ids;
      temperatures := new int[SLAVE_COUNT](_ => 0);
      lastUpdate := 0;
    }

    /**
     One call of `loop()` at clock reading `now`; `stamp` is the clock read again
     when the cycle records its start. When the interval has not passed nothing
     changes. Otherwise every slot is overwritten, in slave order, with the read
     of its slave, `lastUpdate` becomes `stamp`, and the LED is written HIGH iff
     some new reading is above zero.
     */
    method Loop(now: u32, stamp: u32, bus: Bus) returns (trace: seq<Event>)
      requires Valid()
      modifies this, temperatures
      ensures Valid()
      ensures !IntervalDue(now, old(lastUpdate)) ==>
        && lastUpdate == old(lastUpdate)
        && temperatures[..] == old(temperatures[..])
        && pinWrites == old(pinWrites)
        && trace == []
      ensures IntervalDue(now, old(lastUpdate)) ==>
        && lastUpdate == stamp
        && temperatures[..] == CycleReadings(bus)
        && pinWrites == old(pinWrites) + [AnyAboveZero(CycleReadings(bus))]
        && trace == CycleTrace(bus, SLAVE_COUNT)
    {
      trace := [];
      if Elapsed(now, lastUpdate) >= TEMP_UPDATE_INTERVAL_MS {
        lastUpdate := stamp;
        for i := 0 to SLAVE_COUNT
          invariant Valid() && pinWrites == old(pinWrites)
          invariant lastUpdate == stamp
          invariant temperatures[..i] == Readings(bus, i)
          invariant trace == CycleTrace(bus, i)
        {
          var reading, events := ReadModbusTemperature(slaveIds[i], i + 1, bus(slaveIds[i]));
          temperatures[i] := reading;
          trace := trace + events;
        }
        assert temperatures[..] == temperatures[..SLAVE_COUNT];
        var anyAboveZero := AnyTemperatureAboveZero();
        pinWrites := pinWrites + [anyAboveZero];
      }
    }

    /** The flag-and-break scan of `loop()`: is some reading above zero? */
    method AnyTemperatureAboveZero() returns (anyAboveZero: bool)
      ensures anyAboveZero == AnyAboveZero(temperatures[..])
    {
      anyAboveZero := false;
      var i := 0;
      while i < temperatures.Length
        invariant 0 <= i <= temperatures.Length
        invariant forall k :: 0 <= k < i ==> temperatures[k] <= 0
      {
        if temperatures[i] > 0 {
          anyAboveZero := true;
          break;
        }
        i := i + 1;
      }
    }

    /** The `/temperature` handler's reads: slots 0, 1, 2, each a value or the sentinel. */
    method Temperatures() returns (snapshot: seq<int>)
      requires Valid()
      ensures snapshot == temperatures[..]
      ensures |snapshot| == SLAVE_COUNT
      ensures forall i :: 0 <= i < |snapshot| ==> IsReading(snapshot[i])
    {
      snapshot := [temperatures[0], temperatures[1], temperatures[2]];
    }

    /**
     The `/toggle-led` handler: without `state` it answers 400 and leaves the pin
     alone; otherwise it writes the pin once, HIGH iff `state == "1"`, and answers
     200. Nothing else changes.
     */
    method ToggleLed(params: map<string, string>) returns (response: Response)
      requires Valid()
      modifies this
      ensures Valid() && lastUpdate == old(lastUpdate)
      ensures pinWrites == old(pinWrites) + LedWrites(LedCommandOf(params))
      ensures response == LedResponse(LedCommandOf(params))
    {
      if STATE_PARAM !in params {
        response := Response(400, "text/plain", "Missing 'state' parameter");
        return;
      }
      var state := params[STATE_PARAM];
      var ledState := state == "1";
      pinWrites := pinWrites + [ledState];
      response := Response(200, "text/plain", if ledState then "LED turned ON" else "LED turned OFF");
    }
  }
}
