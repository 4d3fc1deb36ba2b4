# ESP32 Modbus temperature poller — a Dafny model

This project models the sensor-polling core of an ESP32 firmware. The firmware
reads three temperature sensors over one Modbus RTU bus, keeps the latest
readings in a global three-slot store, and drives an indicator LED from them.
An HTTP route also lets a client set the LED directly.

What is modelled, in the firmware's own terms:

- `readModbusTemperature` (module `ModbusReader`). It makes up to
  `MAX_RETRIES` = 3 "Read Holding Registers" transactions. Each one uses
  function code 0x03 (section 6.3 of the Modbus Application Protocol
  Specification V1.1b3) for register 0, count 1. It returns the first
  register value it reads, divided by 10. A `RETRY_DELAY_MS` = 500 ms delay
  follows every failed attempt. When all attempts fail it reports the slave
  id and returns the sentinel `-1.0`.
- The poll cycle of `loop()` (modules `PollCycle` and `Firmware`). A cycle
  runs only when the unsigned 32-bit difference `millis() - lastUpdate` is at
  least 1000. It records the time and overwrites slot `i` with the read of
  slave `i + 1`, for i = 0, 1, 2 in that order. It then writes the LED HIGH
  iff some slot is above zero.
- `setup()`'s part in that state (`Firmware.Controller.Setup`). The LED is
  written LOW, node `i` is bound to slave address `i + 1`, every reading
  starts at 0.0 and `lastUpdate` starts at 0.
- The `/toggle-led` handler (modules `WebRoutes` and `Firmware`). A request
  without a `state` parameter gets 400 and the pin is not written. Otherwise
  the pin is written HIGH iff `state` is exactly `"1"`, and the answer is 200.
- The `/temperature` handler's reads of the three slots
  (`Firmware.Controller.Temperatures`).

Modelling choices:

- Readings are integer tenths of a degree. The firmware's `raw / 10.0f` is
  held as `raw`, and the sentinel `-1.0f` as `-10`. Every comparison the
  firmware makes (`temp > 0`, a negative sentinel) gives the same answer on
  the tenths: `raw / 10.0f > 0` holds iff `raw > 0`.
- The bus is an input. It is a function `Bus` from a slave address to the
  list of outcomes (`Fail` or `Ok(raw)`) its successive attempts get in one
  cycle. An attempt past the end of that list fails, as a timeout would.
- Time is an input. `millis()` is read twice by `loop()`: once for the gate
  (`now`) and once to record the cycle's start (`stamp`). `unsigned long` is
  32 bits on the ESP32, so time is the newtype `u32` and the difference is
  taken modulo 2^32.
- The LED pin is the list `pinWrites` of every `digitalWrite` to it, so "no
  pin write" can be stated. Its level is the last write (`Led()`).
- What a read or a cycle does on the bus and the clock is returned as a list
  of `Event`s: transactions (request and reply), delays and the
  "connection failed" diagnostic.

Details of the firmware the model keeps:

- The delay follows every failed attempt, the third included, so an
  exhausted read spends 1500 ms in `delay`.
- The store starts with 0.0 in every slot.
- A register value is unsigned 16-bit, so a negative raw reading cannot
  occur: the only negative reading is the sentinel.
  `Scenarios.TwoWarmOneDownCycle` shows a cycle in which one slave is
  unreachable and its slot holds the sentinel, while the other two slots
  get 25.0 and 18.0 and the LED is written HIGH.

## Model

| member | source | states |
|---|---|---|
| ModbusReader.ReadModbusTemperature | src/main.cpp:75-89 | The retry loop returns exactly the reading and does exactly the bus transactions, delays and diagnostic that the read specification gives for the slave's replies; the reading is a raw register value or the sentinel |
| ModbusReader.ReadingRange | src/main.cpp:80-88 | A read returns a value in 0 .. 65535 tenths (never negative) or the sentinel -10, and returns the sentinel iff all 3 attempts failed |
| ModbusReader.FirstSuccess | src/main.cpp:77-84 | If attempt m is the first to succeed, the read returns that attempt's raw value in tenths after exactly m failed attempts each followed by a delay, and nothing follows the successful transaction |
| ModbusReader.Exhausted | src/main.cpp:77-88 | If all 3 attempts fail, the read makes 3 failed transactions, each followed by a 500 ms delay (1500 ms in all), then reports the slave id and returns the sentinel |
| ModbusReader.ReadTraceShape | src/main.cpp:77-86 | Every read makes 1 to 3 transactions, each a function-0x03 request for register 0, count 1 of the node's slave; the j-th transaction gets the j-th reply; a successful transaction is the read's last event; every failed one is followed at once by a 500 ms delay |
| PollCycle.ElapsedAcrossWraparound | src/main.cpp:156-158 | `millis() - lastUpdate` in unsigned 32-bit arithmetic equals the true elapsed time d for any d below 2^32, even across a clock wrap, so the gate opens iff d >= 1000 |
| PollCycle.CycleSlots | src/main.cpp:163-167 | After a cycle the store has exactly 3 readings, and slot i holds the read of slave i+1 (the node bound at line 147), a value or the sentinel |
| PollCycle.SlotIsolation | src/main.cpp:163-167 | A slot's new reading depends only on its own slave's replies, so one slave's failure leaves the other slots' updates unaffected |
| PollCycle.CycleOrder | src/main.cpp:163-167 | One cycle makes 3 to 9 transactions, addresses each of slaves 1, 2 and 3 and no other, in increasing slave order |
| PollCycle.CycleLed | src/main.cpp:170-179 | The LED level a cycle writes is HIGH iff some slave's reading is above zero; all-zero or sentinel readings give LOW |
| WebRoutes.ToggleLedDecision | src/main.cpp:112-120 | Without `state`: status 400 and no pin write; with it: status 200 and exactly one write, HIGH iff the value is exactly "1", and the response text names the level written |
| Firmware.Controller.Setup | src/main.cpp:127-151 | The initial state: readings [0.0, 0.0, 0.0] (line 34), lastUpdate 0 (line 156), the LED written LOW, node i bound to slave i+1, and the store invariant holds |
| Firmware.Controller.Loop | src/main.cpp:154-181 | If the gate is shut, lastUpdate, the store and the pin are unchanged and nothing touches the bus. If it is open, lastUpdate becomes the second clock reading, the store holds the cycle's readings for slaves 1..3, the bus sees the cycle's transactions in slave order, and exactly one pin write follows: HIGH iff some new reading is above zero. The store invariant is kept |
| Firmware.Controller.AnyTemperatureAboveZero | src/main.cpp:170-178 | The flag-and-break scan returns true iff some slot is above zero, the same answer as a full OR |
| Firmware.Controller.Temperatures | src/main.cpp:105-107 | The handler reads the three slots in order; each is a value or the sentinel |
| Firmware.Controller.ToggleLed | src/main.cpp:110-120 | The handler's pin writes and response are those of the decision (no write on 400; otherwise one write, HIGH iff state is "1"); lastUpdate and the store are unchanged |
| Scenarios.SlaveTwoDownCycle | src/main.cpp:163-179 | Slave 2 unreachable and slaves 1, 3 reading 0: the store becomes [0.0, -1.0, 0.0], slave 2 is reported, and the LED is written LOW |
| Scenarios.TwoWarmOneDownCycle | src/main.cpp:163-179 | Slaves reading 25.0 and 18.0 (the second after one failed attempt) and slave 3 unreachable: the store becomes [25.0, 18.0, -1.0] and the LED is written HIGH |

## Left out

- Wi-Fi connection, SPIFFS mounting and `setup()`'s halt-forever loop when either fails (src/main.cpp:37-72, 137-141): network and file-system I/O. The model starts from a `setup()` that succeeded.
- Static-file routes and `server.begin()` (src/main.cpp:94-101, 122-123): web-server plumbing in a library that is not part of this model.
- The JSON text of `/temperature` (src/main.cpp:105-108): it depends on how Arduino's `String(float)` prints a float. Only the handler's reads of the three slots are modelled.
- The ModbusMaster library: RTU framing, CRC and timeouts behind `readHoldingRegisters` and `getResponseBuffer`. Each attempt's outcome is an input.
- The concurrency between the asynchronous web handlers and `loop()`. Both touch `temperatures` and the LED pin, and a handler may see a half-updated store. This is a scheduling hazard, not sequential logic; the model runs each handler and each `loop()` call as one atomic step.
- Floating-point division: readings are integer tenths (see above).
- `Serial` output. The per-slot log line (src/main.cpp:166) is left out; the failure message (src/main.cpp:87) is kept as the `ConnectionFailed` event.
- The length of real time spent in `delay`: the clock is an input and does not advance during a cycle. Delays are recorded as events, with their durations.
- Query parameters are a map from name to value, so a repeated `state` parameter has one value in the model.
- data/script.js: the browser page's UI code, with no polling logic.
