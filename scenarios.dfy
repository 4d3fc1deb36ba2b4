/**
 End-to-end scenarios, as a client of `Controller` sees them.
 */
module Scenarios {
  import opened ModbusReader
  import opened PollCycle
  import opened WebRoutes
  import opened Firmware

  /** Slaves 1 and 3 answer raw 0 on the first attempt; slave 2 never answers. */
  function SlaveTwoDown(s: int): seq<Attempt>
  {
    if s == 2 then [] else [Ok(0)]
  }

  /** Slave 1 answers 250 (25.0), slave 2 answers 180 (18.0) after one timeout, slave 3 never answers. */
  function TwoWarmOneDown(s: int): seq<Attempt>
  {
    if s == 1 then [Ok(250)] else if s == 2 then [Fail, Ok(180)] else []
  }

  /**
   With slave 2 unreachable and the others reading 0.0, the cycle stores
   [0.0, -1.0, 0.0], reports slave 2, and writes the LED LOW.
   */
  lemma SlaveTwoDownCycle()
    ensures CycleReadings(SlaveTwoDown) == [0, SENTINEL, 0]
    ensures !AnyAboveZero(CycleReadings(SlaveTwoDown))
    ensures ConnectionFailed(2) in CycleTrace(SlaveTwoDown, SLAVE_COUNT)
  {
    CycleSlots(SlaveTwoDown);
    FirstSuccess(1, 1, SlaveTwoDown(1), 0);
    FirstSuccess(3, 3, SlaveTwoDown(3), 0);
    Exhausted(2, 2, SlaveTwoDown(2));
    var t := CycleTrace(SlaveTwoDown, SLAVE_COUNT);
    var r2 := ReadTrace(2, 2, SlaveTwoDown(2));
    assert t == CycleTrace(SlaveTwoDown, 1) + r2 + ReadTrace(3, 3, SlaveTwoDown(3));
    assert r2[|r2| - 1] == ConnectionFailed(2);
    assert t[|CycleTrace(SlaveTwoDown, 1)| + |r2| - 1] == ConnectionFailed(2);
  }

  /**
   Readings 25.0, 18.0 and the sentinel light the LED: one warm sensor is enough,
   and the sentinel in slot 3 does not keep slots 1 and 2 from being updated.
   */
  lemma TwoWarmOneDownCycle()
    ensures CycleReadings(TwoWarmOneDown) == [250, 180, SENTINEL]
    ensures AnyAboveZero(CycleReadings(TwoWarmOneDown))
  {
    CycleSlots(TwoWarmOneDown);
    FirstSuccess(1, 1, TwoWarmOneDown(1), 0);
    FirstSuccess(2, 2, TwoWarmOneDown(2), 1);
    Exhausted(3, 3, TwoWarmOneDown(3));
    assert CycleReadings(TwoWarmOneDown)[0] > 0;
  }

  /**
   A `/toggle-led?state=1` between cycles drives the LED HIGH at once, and the
   next cycle's aggregate write overrides it.
   */
  method ToggleHoldsUntilNextCycle()
  {
    var c := new Controller.Setup();
    var t := c.Loop(500, 500, SlaveTwoDown);
    assert t == [] && c.temperatures[..] == [0, 0, 0] && !c.Led();

    var response := c.ToggleLed(map[STATE_PARAM := "1"]);
    assert response.status == 200 && c.Led();

    response := c.ToggleLed(map[]);
    assert response.status == 400 && c.Led();

    t := c.Loop(1000, 1001, SlaveTwoDown);
    SlaveTwoDownCycle();
    assert c.temperatures[..] == [0, SENTINEL, 0] && !c.Led() && c.lastUpdate == 1001;
  }

  /**
   The gate across a wrap of the millisecond clock: 1000 ms after a cycle that
   started 400 ms before the wrap, the next cycle runs.
   */
  method PollAcrossWraparound()
  {
    var c := new Controller.Setup();
    var t := c.Loop(0xFFFF_FE70, 0xFFFF_FE70, TwoWarmOneDown);
    assert c.lastUpdate == 0xFFFF_FE70;

    t := c.Loop(599, 599, TwoWarmOneDown);
    assert c.lastUpdate == 0xFFFF_FE70;

    t := c.Loop(600, 600, TwoWarmOneDown);
    TwoWarmOneDownCycle();
    assert c.lastUpdate == 600 && c.temperatures[..] == [250, 180, SENTINEL] && c.Led();
  }
}
