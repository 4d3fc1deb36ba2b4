/**
 One temperature read over the Modbus RTU bus: the bounded-retry loop of
 `readModbusTemperature`.

 The bus is an oracle: `replies[k]` is what the slave's node reports for the
 k-th "Read Holding Registers" transaction of this call (a position past the
 end of `replies` is a transaction that failed, e.g. a timeout). Readings are
 integer tenths of a degree: the firmware's `raw / 10.0f` is held as `raw`, and
 its sentinel `-1.0f` as `-10`, which keeps every comparison the firmware makes.
 */
module ModbusReader {

  /** uint8_t: a Modbus function code. */
  newtype u8 = x: int | 0 <= x < 0x100

  /** uint16_t: the content of one holding register. */
  newtype u16 = x: int | 0 <= x < 0x1_0000

  /** ModbusConfig::MAX_RETRIES: transaction attempts per read. */
  const MAX_RETRIES: nat := 3

  /** ModbusConfig::RETRY_DELAY_MS: the delay after every failed attempt. */
  const RETRY_DELAY_MS: nat := 500

  /** Function code 0x03, section 6.3 of the Modbus Application Protocol Specification V1.1b3. */
  const READ_HOLDING_REGISTERS: u8 := 0x03

  /** The failure reading `-1.0`, in tenths. */
  const SENTINEL: int := -10

  /** One request on the bus: slave address, function code, starting register, register count. */
  datatype Request = Request(slave: int, functionCode: u8, address: u16, quantity: u16)

  /** The outcome of one transaction: any failure of the library call, or the register read. */
  datatype Attempt = Fail | Ok(raw: u16)

  /** What a read does, in order: bus transactions, waits, and the failure diagnostic. */
  datatype Event =
    | Transaction(request: Request, reply: Attempt)
    | Delay(ms: nat)
    | ConnectionFailed(id: int)

  /** `node.readHoldingRegisters(0, 1)` on a node bound to slave address `node`. */
  function TemperatureRequest(node: int): Request
  {
    Request(node, READ_HOLDING_REGISTERS, 0, 1)
  }

  /** The reply to attempt `k`; a slave that has nothing more to say times out. */
  function ReplyAt(replies: seq<Attempt>, k: nat): Attempt
  {
    if k < |replies| then replies[k] else Fail
  }

  /** A value a read can return: a raw register value in tenths, or the sentinel. */
  predicate IsReading(t: int)
  {
    t == SENTINEL || 0 <= t < 0x1_0000
  }

  /** The reading returned once attempts `0 .. k-1` have failed. */
  function ReadingFrom(replies: seq<Attempt>, k: nat): int
    decreases MAX_RETRIES - k
  {
    if k >= MAX_RETRIES then SENTINEL
    else match ReplyAt(replies, k)
      case Ok(raw) => raw as int
      case Fail => ReadingFrom(replies, k + 1)
  }

  /** The events of a read from attempt `k` on, once attempts `0 .. k-1` have failed. */
  function TraceFrom(node: int, id: int, replies: seq<Attempt>, k: nat): seq<Event>
    decreases MAX_RETRIES - k
  {
    if k >= MAX_RETRIES then [ConnectionFailed(id)]
    else match ReplyAt(replies, k)
      case Ok(raw) => [Transaction(TemperatureRequest(node), Ok(raw))]
      case Fail =>
        [Transaction(TemperatureRequest(node), Fail), Delay(RETRY_DELAY_MS)]
        + TraceFrom(node, id, replies, k + 1)
  }

  /** The reading `readModbusTemperature` returns. */
  function Reading(replies: seq<Attempt>): int
  {
    ReadingFrom(replies, 0)
  }

  /** Everything `readModbusTemperature(node, id)` does on the bus and the clock. */
  function ReadTrace(node: int, id: int, replies: seq<Attempt>): seq<Event>
  {
    TraceFrom(node, id, replies, 0)
  }

  /** `n` failed attempts, each followed by its retry delay. */
  function FailedAttempts(node: int, n: nat): seq<Event>
  {
    if n == 0 then []
    else FailedAttempts(node, n - 1) + [Transaction(TemperatureRequest(node), Fail), Delay(RETRY_DELAY_MS)]
  }

  /** The replies of the transactions of a trace, in order. */
  function Attempts(t: seq<Event>): seq<Attempt>
  {
    if t == [] then []
    else (if t[0].Transaction? then [t[0].reply] else []) + Attempts(t[1..])
  }

  /** The milliseconds a trace spends in `delay`. */
  function TotalDelay(t: seq<Event>): nat
  {
    if t == [] then 0
    else (if t[0].Delay? then t[0].ms else 0) + TotalDelay(t[1..])
  }

  /**
   `readModbusTemperature(node, id)`: up to MAX_RETRIES attempts, returning the
   first register read, with a delay after every failed attempt and the sentinel
   once all have failed.
   */
  method ReadModbusTemperature(node: int, id: int, replies: seq<Attempt>) returns (reading: int, trace: seq<Event>)
    ensures reading == Reading(replies)
    ensures trace == ReadTrace(node, id, replies)
    ensures IsReading(reading)
  {
    ReadingRange(replies);
    trace := [];
    for attempt := 0 to MAX_RETRIES
      invariant Reading(replies) == ReadingFrom(replies, attempt)
      invariant ReadTrace(node, id, replies) == trace + TraceFrom(node, id, replies, attempt)
    {
      var result := ReplyAt(replies, attempt);
      trace := trace + [Transaction(TemperatureRequest(node), result)];
      if result.Ok? {
        reading := result.raw as int;
        return;
      }
      trace := trace + [Delay(RETRY_DELAY_MS)];
    }
    trace := trace + [ConnectionFailed(id)];
    reading := SENTINEL;
  }

  // ---------------------------------------------------------------------------
  // What a read returns

  lemma {:induction false} ReadingFromRange(replies: seq<Attempt>, k: nat)
    ensures IsReading(ReadingFrom(replies, k))
    ensures ReadingFrom(replies, k) == SENTINEL <==> forall j :: k <= j < MAX_RETRIES ==> ReplyAt(replies, j) == Fail
    decreases MAX_RETRIES - k
  {
    if k < MAX_RETRIES {
      ReadingFromRange(replies, k + 1);
    }
  }

  /**
   A read returns a raw register value (0 .. 6553.5 degrees, never negative) or
   the sentinel, and the sentinel exactly when every attempt failed.
   */
  lemma ReadingRange(replies: seq<Attempt>)
    ensures IsReading(Reading(replies))
    ensures Reading(replies) == SENTINEL <==> forall j :: 0 <= j < MAX_RETRIES ==> ReplyAt(replies, j) == Fail
    ensures Reading(replies) != SENTINEL ==> 0 <= Reading(replies) < 0x1_0000
  {
    ReadingFromRange(replies, 0);
  }

  lemma {:induction false} FirstSuccessFrom(node: int, id: int, replies: seq<Attempt>, k: nat, m: nat)
    requires k <= m < MAX_RETRIES && ReplyAt(replies, m).Ok?
    requires forall j :: k <= j < m ==> ReplyAt(replies, j) == Fail
    ensures ReadingFrom(replies, k) == ReplyAt(replies, m).raw as int
    ensures FailedAttempts(node, k) + TraceFrom(node, id, replies, k)
         == FailedAttempts(node, m) + [Transaction(TemperatureRequest(node), ReplyAt(replies, m))]
    decreases m - k
  {
    if k < m {
      FirstSuccessFrom(node, id, replies, k + 1, m);
      assert FailedAttempts(node, k) + TraceFrom(node, id, replies, k)
          == FailedAttempts(node, k + 1) + TraceFrom(node, id, replies, k + 1);
    }
  }

  /**
   When attempt `m` is the first to succeed, the read returns its raw value
   after exactly `m` failed attempts and `m` delays, and makes no further attempt.
   */
  lemma FirstSuccess(node: int, id: int, replies: seq<Attempt>, m: nat)
    requires m < MAX_RETRIES && ReplyAt(replies, m).Ok?
    requires forall j :: 0 <= j < m ==> ReplyAt(replies, j) == Fail
    ensures Reading(replies) == ReplyAt(replies, m).raw as int
    ensures ReadTrace(node, id, replies)
         == FailedAttempts(node, m) + [Transaction(TemperatureRequest(node), ReplyAt(replies, m))]
  {
    FirstSuccessFrom(node, id, replies, 0, m);
  }

  lemma {:induction false} FailedAttemptsDelay(node: int, n: nat)
    ensures TotalDelay(FailedAttempts(node, n)) == n * RETRY_DELAY_MS
  {
    if n > 0 {
      var pair := [Transaction(TemperatureRequest(node), Fail), Delay(RETRY_DELAY_MS)];
      FailedAttemptsDelay(node, n - 1);
      TotalDelayAppend(FailedAttempts(node, n - 1), pair);
      assert TotalDelay(pair) == RETRY_DELAY_MS by {
        assert pair[1..][1..] == [];
        assert TotalDelay(pair[1..]) == RETRY_DELAY_MS;
      }
    }
  }

  lemma {:induction false} ExhaustedFrom(node: int, id: int, replies: seq<Attempt>, k: nat)
    requires k <= MAX_RETRIES
    requires forall j :: k <= j < MAX_RETRIES ==> ReplyAt(replies, j) == Fail
    ensures FailedAttempts(node, k) + TraceFrom(node, id, replies, k)
         == FailedAttempts(node, MAX_RETRIES) + [ConnectionFailed(id)]
    decreases MAX_RETRIES - k
  {
    if k < MAX_RETRIES {
      ExhaustedFrom(node, id, replies, k + 1);
      assert FailedAttempts(node, k) + TraceFrom(node, id, replies, k)
          == FailedAttempts(node, k + 1) + TraceFrom(node, id, replies, k + 1);
    }
  }

  /**
   When all MAX_RETRIES attempts fail, the read returns the sentinel after three
   failed attempts, each followed by a RETRY_DELAY_MS delay (1500 ms in all), and
   then reports the slave id.
   */
  lemma Exhausted(node: int, id: int, replies: seq<Attempt>)
    requires forall j :: 0 <= j < MAX_RETRIES ==> ReplyAt(replies, j) == Fail
    ensures Reading(replies) == SENTINEL
    ensures ReadTrace(node, id, replies) == FailedAttempts(node, MAX_RETRIES) + [ConnectionFailed(id)]
    ensures TotalDelay(ReadTrace(node, id, replies)) == 1500
  {
    ReadingRange(replies);
    ExhaustedFrom(node, id, replies, 0);
    FailedAttemptsDelay(node, MAX_RETRIES);
    TotalDelayAppend(FailedAttempts(node, MAX_RETRIES), [ConnectionFailed(id)]);
  }

  // ---------------------------------------------------------------------------
  // The shape of a read's trace

  lemma {:induction false} AttemptsAppend(a: seq<Event>, b: seq<Event>)
    ensures Attempts(a + b) == Attempts(a) + Attempts(b)
  {
    if a == [] {
      assert a + b == b;
    } else {
      AttemptsAppend(a[1..], b);
      assert (a + b)[1..] == a[1..] + b;
    }
  }

  lemma {:induction false} TotalDelayAppend(a: seq<Event>, b: seq<Event>)
    ensures TotalDelay(a + b) == TotalDelay(a) + TotalDelay(b)
  {
    if a == [] {
      assert a + b == b;
    } else {
      TotalDelayAppend(a[1..], b);
      assert (a + b)[1..] == a[1..] + b;
    }
  }

  lemma {:induction false} TraceFromShape(node: int, id: int, replies: seq<Attempt>, k: nat)
    requires k <= MAX_RETRIES
    ensures var t := TraceFrom(node, id, replies, k);
      && k + |Attempts(t)| <= MAX_RETRIES
      && (k < MAX_RETRIES ==> 1 <= |Attempts(t)|)
      && (forall j :: 0 <= j < |Attempts(t)| ==> Attempts(t)[j] == ReplyAt(replies, k + j))
      && (forall i :: 0 <= i < |t| && t[i].Transaction? ==> t[i].request == TemperatureRequest(node))
      && (forall i :: 0 <= i < |t| && t[i].Transaction? && t[i].reply.Ok? ==> i == |t| - 1)
      && (forall i :: 0 <= i < |t| && t[i].Transaction? && t[i].reply.Fail? ==>
            i + 1 < |t| && t[i + 1] == Delay(RETRY_DELAY_MS))
    decreases MAX_RETRIES - k
  {
    var t := TraceFrom(node, id, replies, k);
    if k == MAX_RETRIES {
      assert Attempts(t) == [] by { assert t[1..] == []; }
    } else if ReplyAt(replies, k).Fail? {
      var head := [Transaction(TemperatureRequest(node), Fail), Delay(RETRY_DELAY_MS)];
      var rest := TraceFrom(node, id, replies, k + 1);
      TraceFromShape(node, id, replies, k + 1);
      assert t == head + rest;
      AttemptsAppend(head, rest);
      assert Attempts(head) == [Fail] by {
        assert head[1..][1..] == [];
      }
      assert forall i :: 2 <= i < |t| ==> t[i] == rest[i - 2];
    } else {
      assert Attempts(t) == [ReplyAt(replies, k)] by { assert t[1..] == []; }
    }
  }

  /**
   Every read makes between 1 and MAX_RETRIES transactions, each a request for
   register 0, count 1 of the node's slave with function code 0x03; the j-th
   transaction gets the j-th reply; a successful transaction is the last thing
   the read does (no attempt follows it), and every failed one is immediately
   followed by a RETRY_DELAY_MS delay, the last one included.
   */
  lemma ReadTraceShape(node: int, id: int, replies: seq<Attempt>)
    ensures var t := ReadTrace(node, id, replies);
      && 1 <= |Attempts(t)| <= MAX_RETRIES
      && (forall j :: 0 <= j < |Attempts(t)| ==> Attempts(t)[j] == ReplyAt(replies, j))
      && (forall i :: 0 <= i < |t| && t[i].Transaction? ==>
            t[i].request == Request(node, READ_HOLDING_REGISTERS, 0, 1))
      && (forall i :: 0 <= i < |t| && t[i].Transaction? && t[i].reply.Ok? ==> i == |t| - 1)
      && (forall i :: 0 <= i < |t| && t[i].Transaction? && t[i].reply.Fail? ==>
            i + 1 < |t| && t[i + 1] == Delay(RETRY_DELAY_MS))
  {
    TraceFromShape(node, id, replies, 0);
  }
}
