/**
 * One pass of the plant monitor's main loop: fan and pump from the readings,
 * the every-tenth-cycle publish with its reconnect timer, and the database row
 * written every cycle. Sensor reads, the network and the database are inputs:
 * their results arrive as values and booleans in a CycleInput.
 */
module Controller {
  import opened Wrappers
  import opened Gpio
  import opened Dht11Frame
  import opened SeqFacts

  /** A publish is attempted on every AWS_PERIOD-th cycle. */
  const AWS_PERIOD := 10
  /** While disconnected, a reconnect is attempted on every RECONNECT_INTERVAL-th publish boundary. */
  const RECONNECT_INTERVAL := 30

  /** What main carries from one cycle to the next. */
  datatype LoopState = LoopState(awsCounter: int, reconnectTimer: int, connected: bool)

  /**
   * Between cycles the decimation counter is in 0 .. 9 and the reconnect timer
   * in 0 .. 29, and the timer is 0 while a connection is held.
   */
  predicate ValidState(s: LoopState)
  {
    0 <= s.awsCounter < AWS_PERIOD &&
    0 <= s.reconnectTimer < RECONNECT_INTERVAL &&
    (s.connected ==> s.reconnectTimer == 0)
  }

  /** The state before the first cycle, after the connect attempt at start-up. */
  function Initial(connectedAtStart: bool): (s: LoopState)
    ensures ValidState(s)
  {
    LoopState(0, 0, connectedAtStart)
  }

  /**
   * The outside world as one cycle sees it: the light level from the ADC, the
   * barometer's temperature, the DHT11 result, the soil line, and whether a
   * publish, a reconnect and the database insert would succeed if tried.
   */
  datatype CycleInput = CycleInput(
    photoresistor: int,
    bmpTemp: real,
    dht: Option<Reading>,
    soilState: int,
    publishOk: bool,
    reconnectOk: bool,
    dbOk: bool)

  /**
   * The row main inserts into sensor_data, without the timestamp, pressure and
   * altitude. The two DHT11 values are integers (the source stores them as REAL
   * with no fractional part); the statuses are the integers the source stores
   * as text.
   */
  datatype SensorRow = SensorRow(
    dhtTemp: int,
    dhtHumidity: int,
    bmpTemp: real,
    photoresistor: int,
    soilMoisture: int,
    fanStatus: int,
    pumpStatus: int,
    awsStatus: string)

  /**
   * What one cycle does: the row it tries to insert, the levels it drives on
   * the fan and pump pins, whether this was a publish boundary, whether it
   * published, whether it tried to reconnect, and db_status.
   */
  datatype CycleReport = CycleReport(
    row: SensorRow,
    fanPin: Level,
    pumpPin: Level,
    boundary: bool,
    published: bool,
    reconnectAttempted: bool,
    dbStatus: string)

  /** Humidity -1 and the barometer's temperature stand in when the DHT11 read fails. */
  function HumidityAndTemperature(dht: Option<Reading>, bmpTemp: real): (int, int)
  {
    match dht
    case Some(reading) => (reading.humidity, reading.temperature)
    case None => (-1, Truncate(bmpTemp))
  }

  /** Python's int() on a float: the integral part, rounding toward zero. */
  function Truncate(x: real): int
  {
    if x >= 0.0 then x.Floor else -((-x).Floor)
  }

  /** Truncation drops the fraction and keeps the sign: it never moves away from zero, and by less than 1. */
  lemma {:induction false} TruncateTowardZero(x: real)
    ensures 0.0 <= x ==> 0 <= Truncate(x) && Truncate(x) as real <= x < Truncate(x) as real + 1.0
    ensures x < 0.0 ==> Truncate(x) <= 0 && Truncate(x) as real - 1.0 < x <= Truncate(x) as real
  {
  }

  /** A relay input is active low: an actuator that is on has its pin driven LOW. */
  function RelayLevel(on: bool): Level
  {
    if on then LOW else HIGH
  }

  /** The publish part of a cycle: the state after it, aws_status, and what was attempted. */
  datatype PublishOutcome = PublishOutcome(
    next: LoopState,
    awsStatus: string,
    boundary: bool,
    published: bool,
    reconnectAttempted: bool)

  function PublishStep(s: LoopState, publishOk: bool, reconnectOk: bool): PublishOutcome
  {
    var counter := s.awsCounter + 1;
    if counter < AWS_PERIOD then
      PublishOutcome(s.(awsCounter := counter), "0", false, false, false)
    else if s.connected then
      if publishOk then PublishOutcome(s.(awsCounter := 0), "1", true, true, false)
      else PublishOutcome(LoopState(0, s.reconnectTimer, false), "E", true, true, false)
    else
      var timer := s.reconnectTimer + 1;
      if timer >= RECONNECT_INTERVAL then PublishOutcome(LoopState(0, 0, reconnectOk), "0", true, false, true)
      else PublishOutcome(LoopState(0, timer, false), "0", true, false, false)
  }

  /** One pass of main's loop: the state it leaves for the next pass and what it did. */
  function Cycle(s: LoopState, i: CycleInput): (LoopState, CycleReport)
  {
    var (humidity, temperature) := HumidityAndTemperature(i.dht, i.bmpTemp);
    var fanOn := temperature >= FAN_ON_TEMPERATURE;
    var pumpOn := i.soilState == 1;
    var p := PublishStep(s, i.publishOk, i.reconnectOk);
    var row := SensorRow(temperature, humidity, i.bmpTemp, i.photoresistor, i.soilState,
                         if fanOn then 1 else 0, if pumpOn then 1 else 0, p.awsStatus);
    (p.next,
     CycleReport(row, RelayLevel(fanOn), RelayLevel(pumpOn), p.boundary, p.published,
                 p.reconnectAttempted, if i.dbOk then "1" else "E"))
  }

  /** What one pass of main's loop promises, case by case. */
  lemma {:induction false} CycleSpec(s: LoopState, i: CycleInput)
    ensures ValidState(s) ==> ValidState(Cycle(s, i).0)
    // fan and pump, active low
    ensures i.dht.None? ==> Cycle(s, i).1.row.dhtHumidity == -1 && Cycle(s, i).1.row.dhtTemp == Truncate(i.bmpTemp)
    ensures i.dht.Some? ==> Cycle(s, i).1.row.dhtHumidity == i.dht.value.humidity && Cycle(s, i).1.row.dhtTemp == i.dht.value.temperature
    ensures Cycle(s, i).1.row.fanStatus == 1 <==> Cycle(s, i).1.row.dhtTemp >= FAN_ON_TEMPERATURE
    ensures Cycle(s, i).1.row.fanStatus == 0 <==> Cycle(s, i).1.fanPin == HIGH
    ensures Cycle(s, i).1.row.pumpStatus == 1 <==> i.soilState == 1
    ensures Cycle(s, i).1.row.pumpStatus == 0 <==> Cycle(s, i).1.pumpPin == HIGH
    ensures Cycle(s, i).1.fanPin == RelayLevel(Cycle(s, i).1.row.dhtTemp >= FAN_ON_TEMPERATURE)
    ensures Cycle(s, i).1.pumpPin == RelayLevel(i.soilState == 1)
    // the readings go into the row as read
    ensures Cycle(s, i).1.row.bmpTemp == i.bmpTemp && Cycle(s, i).1.row.photoresistor == i.photoresistor &&
            Cycle(s, i).1.row.soilMoisture == i.soilState
    // decimation: only a boundary publishes or reconnects; every other cycle reports "0"
    ensures Cycle(s, i).1.boundary <==> s.awsCounter + 1 >= AWS_PERIOD
    ensures !Cycle(s, i).1.boundary ==>
              Cycle(s, i).1.row.awsStatus == "0" && !Cycle(s, i).1.published && !Cycle(s, i).1.reconnectAttempted &&
              Cycle(s, i).0 == s.(awsCounter := s.awsCounter + 1)
    ensures Cycle(s, i).1.boundary ==> Cycle(s, i).0.awsCounter == 0
    // connected at a boundary: publish; a failure drops the connection
    ensures Cycle(s, i).1.boundary && s.connected ==>
              Cycle(s, i).1.published && !Cycle(s, i).1.reconnectAttempted && Cycle(s, i).0.reconnectTimer == s.reconnectTimer &&
              Cycle(s, i).1.row.awsStatus == (if i.publishOk then "1" else "E") && Cycle(s, i).0.connected == i.publishOk
    // disconnected at a boundary: advance the reconnect timer, reconnect when it reaches 30
    ensures Cycle(s, i).1.boundary && !s.connected ==>
              !Cycle(s, i).1.published && Cycle(s, i).1.row.awsStatus == "0" &&
              (Cycle(s, i).1.reconnectAttempted <==> s.reconnectTimer + 1 >= RECONNECT_INTERVAL) &&
              (Cycle(s, i).1.reconnectAttempted ==> Cycle(s, i).0.reconnectTimer == 0 && Cycle(s, i).0.connected == i.reconnectOk) &&
              (!Cycle(s, i).1.reconnectAttempted ==> Cycle(s, i).0.reconnectTimer == s.reconnectTimer + 1 && !Cycle(s, i).0.connected)
    // the row is written every cycle
    ensures Cycle(s, i).1.dbStatus == (if i.dbOk then "1" else "E")
  {
  }

  /** The state after running the cycles `ins` from s. */
  function Final(s: LoopState, ins: seq<CycleInput>): LoopState
    decreases |ins|
  {
    if ins == [] then s else Cycle(Final(s, ins[..|ins| - 1]), ins[|ins| - 1]).0
  }

  /** What each of the cycles `ins` did, run from s. */
  function Trace(s: LoopState, ins: seq<CycleInput>): (t: seq<CycleReport>)
    ensures |t| == |ins|
    decreases |ins|
  {
    if ins == [] then []
    else Trace(s, ins[..|ins| - 1]) + [Cycle(Final(s, ins[..|ins| - 1]), ins[|ins| - 1]).1]
  }

  /** The last of the cycles `ins` runs from the state the others left. */
  lemma {:induction false} RunLast(s: LoopState, ins: seq<CycleInput>)
    requires ins != []
    ensures Trace(s, ins)[|ins| - 1] == Cycle(Final(s, ins[..|ins| - 1]), ins[|ins| - 1]).1
  {
  }

  /** The state after the cycles `ins` is what the last of them leaves. */
  lemma {:induction false} FinalLast(s: LoopState, ins: seq<CycleInput>)
    requires ins != []
    ensures Final(s, ins) == Cycle(Final(s, ins[..|ins| - 1]), ins[|ins| - 1]).0
  {
  }

  /** Cycle k of a run did what one cycle does from the state the first k cycles left. */
  lemma {:induction false} TraceAt(s: LoopState, ins: seq<CycleInput>, k: nat)
    requires k < |ins|
    ensures Trace(s, ins)[k] == Cycle(Final(s, ins[..k]), ins[k]).1
    decreases |ins|
  {
    var n := |ins|;
    if k < n - 1 {
      TraceEarlier(s, ins, k);
      TakeOfTake(ins, n - 1, k);
      TraceAt(s, ins[..n - 1], k);
    } else {
      RunLast(s, ins);
      TakeAll(ins);
    }
  }

  /** Running one more cycle leaves the earlier reports as they were. */
  lemma {:induction false} TraceEarlier(s: LoopState, ins: seq<CycleInput>, k: nat)
    requires k < |ins| - 1
    ensures Trace(s, ins)[k] == Trace(s, ins[..|ins| - 1])[k]
  {
  }

  /** Running a valid state leaves a valid state: aws_counter stays in 0 .. 9 between cycles. */
  lemma {:induction false} FinalValid(s: LoopState, ins: seq<CycleInput>)
    requires ValidState(s)
    ensures ValidState(Final(s, ins))
    decreases |ins|
  {
    if ins != [] {
      FinalValid(s, ins[..|ins| - 1]);
    }
  }

  /**
   * The decimation counter: after n cycles from counter c it is (c + n) mod 10,
   * and cycle k publishes (or reconnects) exactly when c + k + 1 is a multiple
   * of 10 -- once in every ten consecutive cycles.
   */
  lemma {:induction false} PublishCadence(s: LoopState, ins: seq<CycleInput>)
    requires ValidState(s)
    ensures Final(s, ins).awsCounter == (s.awsCounter + |ins|) % AWS_PERIOD
    ensures forall k :: 0 <= k < |ins| ==>
              (Trace(s, ins)[k].boundary <==> (s.awsCounter + k + 1) % AWS_PERIOD == 0)
  {
    CounterCadence(s, ins);
    forall k | 0 <= k < |ins|
      ensures Trace(s, ins)[k].boundary <==> (s.awsCounter + k + 1) % AWS_PERIOD == 0
    {
      BoundaryAt(s, ins, k);
    }
  }

  /** The boundary half of PublishCadence, for cycle k. */
  lemma {:induction false} BoundaryAt(s: LoopState, ins: seq<CycleInput>, k: nat)
    requires ValidState(s) && k < |ins|
    ensures Trace(s, ins)[k].boundary <==> (s.awsCounter + k + 1) % AWS_PERIOD == 0
  {
    TraceAt(s, ins, k);
    BoundaryAfter(s, ins[..k], ins[k]);
  }

  /** The cycle that follows the cycles `before` is a boundary when c + |before| + 1 is a multiple of 10. */
  lemma {:induction false} BoundaryAfter(s: LoopState, before: seq<CycleInput>, i: CycleInput)
    requires ValidState(s)
    ensures Cycle(Final(s, before), i).1.boundary <==> (s.awsCounter + |before| + 1) % AWS_PERIOD == 0
  {
    CounterCadence(s, before);
    FinalValid(s, before);
    PublishOneCycle(Final(s, before), i, s.awsCounter + |before|);
  }

  /** The counter half of PublishCadence, by induction on the number of cycles. */
  lemma {:induction false} CounterCadence(s: LoopState, ins: seq<CycleInput>)
    requires ValidState(s)
    ensures Final(s, ins).awsCounter == (s.awsCounter + |ins|) % AWS_PERIOD
    decreases |ins|
  {
    if ins != [] {
      var n := |ins|;
      var prefix := ins[..n - 1];
      CounterCadence(s, prefix);
      FinalValid(s, prefix);
      PublishOneCycle(Final(s, prefix), ins[n - 1], s.awsCounter + (n - 1));
    }
  }

  /** One cycle of PublishCadence: from counter m mod 10, the next is (m + 1) mod 10, a boundary when that is 0. */
  lemma {:induction false} PublishOneCycle(s: LoopState, i: CycleInput, m: nat)
    requires ValidState(s) && s.awsCounter == m % AWS_PERIOD
    ensures Cycle(s, i).0.awsCounter == (m + 1) % AWS_PERIOD
    ensures Cycle(s, i).1.boundary <==> (m + 1) % AWS_PERIOD == 0
  {
    ReconnectStep(m);
  }

  /**
   * The reconnect timer only moves at publish boundaries: from a dropped
   * connection with both counters at 0, while every reconnect fails, the loop
   * stays disconnected, the timer counts boundaries modulo 30, and a reconnect
   * is attempted on cycle k exactly when k + 1 is a multiple of 300 -- every
   * 30 boundaries, not every 30 cycles.
   */
  lemma {:induction false} ReconnectCadence(ins: seq<CycleInput>)
    requires forall k :: 0 <= k < |ins| ==> !ins[k].reconnectOk
    ensures Final(Initial(false), ins) ==
              LoopState(|ins| % AWS_PERIOD, (|ins| / AWS_PERIOD) % RECONNECT_INTERVAL, false)
    ensures forall k :: 0 <= k < |ins| ==>
              (Trace(Initial(false), ins)[k].reconnectAttempted <==>
               (k + 1) % (AWS_PERIOD * RECONNECT_INTERVAL) == 0)
  {
    var s := Initial(false);
    ReconnectState(ins);
    forall k | 0 <= k < |ins|
      ensures Trace(s, ins)[k].reconnectAttempted <==> (k + 1) % (AWS_PERIOD * RECONNECT_INTERVAL) == 0
    {
      TraceAt(s, ins, k);
      ReconnectState(ins[..k]);
      ReconnectOneCycle(ins[k], k);
    }
  }

  /** The state half of ReconnectCadence, by induction on the number of cycles. */
  lemma {:induction false} ReconnectState(ins: seq<CycleInput>)
    requires forall k :: 0 <= k < |ins| ==> !ins[k].reconnectOk
    ensures Final(Initial(false), ins) ==
              LoopState(|ins| % AWS_PERIOD, (|ins| / AWS_PERIOD) % RECONNECT_INTERVAL, false)
    decreases |ins|
  {
    if ins != [] {
      var n := |ins|;
      ReconnectState(ins[..n - 1]);
      ReconnectOneCycle(ins[n - 1], n - 1);
    }
  }

  /** One cycle of ReconnectCadence, after m cycles in which every reconnect failed. */
  lemma {:induction false} ReconnectOneCycle(i: CycleInput, m: nat)
    requires !i.reconnectOk
    ensures var r := Cycle(LoopState(m % AWS_PERIOD, (m / AWS_PERIOD) % RECONNECT_INTERVAL, false), i);
      r.0 == LoopState((m + 1) % AWS_PERIOD, ((m + 1) / AWS_PERIOD) % RECONNECT_INTERVAL, false) &&
      (r.1.reconnectAttempted <==> (m + 1) % (AWS_PERIOD * RECONNECT_INTERVAL) == 0)
  {
    ReconnectStep(m);
  }

  /** The arithmetic of one cycle of ReconnectCadence, for m cycles already run. */
  lemma {:induction false} ReconnectStep(m: nat)
    ensures m % 10 + 1 < 10 ==> (m + 1) % 10 == m % 10 + 1 && (m + 1) / 10 == m / 10
    ensures m % 10 + 1 >= 10 ==> (m + 1) % 10 == 0 && (m + 1) / 10 == m / 10 + 1
    ensures m % 10 + 1 >= 10 ==>
              ((m / 10) % 30 + 1 >= 30 <==> (m + 1) % 300 == 0) &&
              ((m + 1) / 10) % 30 == if (m / 10) % 30 + 1 >= 30 then 0 else (m / 10) % 30 + 1
    ensures m % 10 + 1 < 10 ==> (m + 1) % 300 != 0
  {
    var q, r := m / 10, m % 10;
    if r + 1 < 10 {
      DivMod10(m + 1, q, r + 1);
      var t := (m + 1) / 300;
      if (m + 1) % 300 == 0 {
        DivMod10(m + 1, 30 * t, 0);
      }
    } else {
      DivMod10(m + 1, q + 1, 0);
      var v, u := q / 30, q % 30;
      if u + 1 < 30 {
        DivMod30(q + 1, v, u + 1);
        DivMod300(m + 1, v, 10 * (u + 1));
      } else {
        DivMod30(q + 1, v + 1, 0);
        DivMod300(m + 1, v + 1, 0);
      }
    }
  }

  /** Quotient and remainder by 10 of a number written as 10 * a + b. */
  lemma {:induction false} DivMod10(n: int, a: int, b: int)
    requires 0 <= b < 10 && n == 10 * a + b
    ensures n / 10 == a && n % 10 == b
  {
  }

  /** Quotient and remainder by 30 of a number written as 30 * a + b. */
  lemma {:induction false} DivMod30(n: int, a: int, b: int)
    requires 0 <= b < 30 && n == 30 * a + b
    ensures n / 30 == a && n % 30 == b
  {
  }

  /** Quotient and remainder by 300 of a number written as 300 * a + b. */
  lemma {:induction false} DivMod300(n: int, a: int, b: int)
    requires 0 <= b < 300 && n == 300 * a + b
    ensures n / 300 == a && n % 300 == b
  {
  }

  /**
   * The database outcome only decides db_status: with the same inputs except
   * dbOk, a run ends in the same state and writes the same rows, so an insert
   * failure never stops or changes the loop.
   */
  lemma {:induction false} DbOutcomeIsolated(s: LoopState, ins: seq<CycleInput>, other: seq<CycleInput>)
    requires |other| == |ins|
    requires forall k :: 0 <= k < |ins| ==> other[k] == ins[k].(dbOk := other[k].dbOk)
    ensures Final(s, other) == Final(s, ins)
    ensures forall k :: 0 <= k < |ins| ==>
              Trace(s, other)[k] == Trace(s, ins)[k].(dbStatus := if other[k].dbOk then "1" else "E")
  {
    FinalIgnoresDb(s, ins, other);
    forall k | 0 <= k < |ins|
      ensures Trace(s, other)[k] == Trace(s, ins)[k].(dbStatus := if other[k].dbOk then "1" else "E")
    {
      TraceAt(s, ins, k);
      TraceAt(s, other, k);
      FinalIgnoresDb(s, ins[..k], other[..k]);
      DbOneCycle(Final(s, ins[..k]), ins[k], other[k]);
    }
  }

  /** The loop state after any number of cycles does not depend on the database outcomes. */
  lemma {:induction false} FinalIgnoresDb(s: LoopState, ins: seq<CycleInput>, other: seq<CycleInput>)
    requires |other| == |ins|
    requires forall k :: 0 <= k < |ins| ==> other[k] == ins[k].(dbOk := other[k].dbOk)
    ensures Final(s, other) == Final(s, ins)
    decreases |ins|
  {
    if ins != [] {
      var n := |ins|;
      var before, otherBefore := ins[..n - 1], other[..n - 1];
      forall k | 0 <= k < n - 1
        ensures otherBefore[k] == before[k].(dbOk := otherBefore[k].dbOk)
      {
      }
      FinalIgnoresDb(s, before, otherBefore);
      FinalLast(s, ins);
      FinalLast(s, other);
      DbOneCycle(Final(s, ins[..n - 1]), ins[n - 1], other[n - 1]);
    }
  }

  /** One cycle of DbOutcomeIsolated: dbOk changes db_status and nothing else. */
  lemma {:induction false} DbOneCycle(s: LoopState, i: CycleInput, j: CycleInput)
    requires j == i.(dbOk := j.dbOk)
    ensures Cycle(s, j).0 == Cycle(s, i).0
    ensures Cycle(s, j).1 == Cycle(s, i).1.(dbStatus := if j.dbOk then "1" else "E")
  {
  }

  /**
   * main's loop variables and the GPIO outputs it drives. `Step` is one pass of
   * the `while True` body; `Run` is the loop over a finite list of cycles.
   */
  class CycleController {
    var awsCounter: int
    var reconnectTimer: int
    var connected: bool
    var awsStatus: string
    var dbStatus: string
    var pins: PinMap

    function State(): LoopState
      reads this
    {
      LoopState(awsCounter, reconnectTimer, connected)
    }

    ghost predicate Valid()
      reads this
    {
      ValidState(State())
    }

    /** The variables as main sets them before the loop, after the start-up connect attempt. */
    constructor (connectedAtStart: bool, initialPins: PinMap)
      ensures Valid() && State() == Initial(connectedAtStart)
      ensures awsStatus == "0" && dbStatus == "0" && pins == initialPins
    {
      awsCounter, reconnectTimer, connected := 0, 0, connectedAtStart;
      awsStatus, dbStatus := "0", "0";
      pins := initialPins;
    }

    method Step(input: CycleInput) returns (report: CycleReport)
      requires Valid()
      modifies this
      ensures Valid()
      ensures (State(), report) == Cycle(old(State()), input)
      ensures awsStatus == report.row.awsStatus && dbStatus == report.dbStatus
      ensures pins == old(pins)[FAN_PIN := report.fanPin][PUMP_PIN := report.pumpPin]
    {
      var humidity, temperature := -1, Truncate(input.bmpTemp);
      if input.dht.Some? {
        humidity, temperature := input.dht.value.humidity, input.dht.value.temperature;
      }
      var fanStatus, pumpStatus := DriveRelays(temperature, input.soilState);
      var boundary, published, reconnecting := PublishOrReconnect(input.publishOk, input.reconnectOk);
      dbStatus := if input.dbOk then "1" else "E";
      var row := SensorRow(temperature, humidity, input.bmpTemp, input.photoresistor, input.soilState,
                           fanStatus, pumpStatus, awsStatus);
      report := CycleReport(row, pins[FAN_PIN], pins[PUMP_PIN], boundary, published, reconnecting, dbStatus);
    }

    /** The fan and pump blocks of main's loop body: relays are active low. */
    method DriveRelays(temperature: int, soilState: int) returns (fanStatus: int, pumpStatus: int)
      modifies this`pins
      ensures fanStatus == (if temperature >= FAN_ON_TEMPERATURE then 1 else 0)
      ensures pumpStatus == (if soilState == 1 then 1 else 0)
      ensures pins == old(pins)[FAN_PIN := RelayLevel(temperature >= FAN_ON_TEMPERATURE)]
                               [PUMP_PIN := RelayLevel(soilState == 1)]
    {
      if temperature >= FAN_ON_TEMPERATURE {
        pins := pins[FAN_PIN := LOW];
        fanStatus := 1;
      } else {
        pins := pins[FAN_PIN := HIGH];
        fanStatus := 0;
      }
      if soilState == 1 {
        pins := pins[PUMP_PIN := LOW];
        pumpStatus := 1;
      } else {
        pins := pins[PUMP_PIN := HIGH];
        pumpStatus := 0;
      }
    }

    /** The publish-decimation block of main's loop body. */
    method PublishOrReconnect(publishOk: bool, reconnectOk: bool) returns (boundary: bool, published: bool, reconnecting: bool)
      modifies this`awsCounter, this`reconnectTimer, this`connected, this`awsStatus
      ensures PublishOutcome(State(), awsStatus, boundary, published, reconnecting) ==
              PublishStep(old(State()), publishOk, reconnectOk)
    {
      boundary, published, reconnecting := false, false, false;
      awsCounter := awsCounter + 1;
      if awsCounter >= AWS_PERIOD {
        boundary := true;
        awsCounter := 0;
        if !connected {
          reconnectTimer := reconnectTimer + 1;
          if reconnectTimer >= RECONNECT_INTERVAL {
            reconnecting := true;
            connected := reconnectOk;
            reconnectTimer := 0;
          }
          awsStatus := "0";
        } else {
          published := true;
          if publishOk {
            awsStatus := "1";
          } else {
            awsStatus := "E";
            connected := false;
          }
        }
      } else {
        awsStatus := "0";
      }
    }

    /**
     * The `while True` loop over a finite list of cycles. Afterwards the pins,
     * aws_status and db_status are what the last cycle left (or as they were,
     * when no cycle ran).
     */
    method Run(inputs: seq<CycleInput>) returns (reports: seq<CycleReport>)
      requires Valid()
      modifies this
      ensures Valid()
      ensures State() == Final(old(State()), inputs)
      ensures reports == Trace(old(State()), inputs)
      ensures inputs == [] ==> pins == old(pins) && awsStatus == old(awsStatus) && dbStatus == old(dbStatus)
      ensures inputs != [] ==>
                var last := reports[|reports| - 1];
                pins == old(pins)[FAN_PIN := last.fanPin][PUMP_PIN := last.pumpPin] &&
                awsStatus == last.row.awsStatus && dbStatus == last.dbStatus
    {
      reports := [];
      for i := 0 to |inputs|
        invariant Valid()
        invariant State() == Final(old(State()), inputs[..i])
        invariant reports == Trace(old(State()), inputs[..i])
        invariant i == 0 ==> pins == old(pins) && awsStatus == old(awsStatus) && dbStatus == old(dbStatus)
        invariant i > 0 ==>
                    pins == old(pins)[FAN_PIN := reports[i - 1].fanPin][PUMP_PIN := reports[i - 1].pumpPin] &&
                    awsStatus == reports[i - 1].row.awsStatus && dbStatus == reports[i - 1].dbStatus
      {
        ghost var previous := reports;
        var report := Step(inputs[i]);
        if i > 0 {
          PinsOverwritten(old(pins), previous[i - 1].fanPin, previous[i - 1].pumpPin, report.fanPin, report.pumpPin);
        }
        TakeOfTake(inputs, i + 1, i);
        reports := reports + [report];
      }
      TakeAll(inputs);
    }
  }

  /** Writing the fan and pump pins a second time leaves only the second writes. */
  lemma {:induction false} PinsOverwritten(m: PinMap, fan1: Level, pump1: Level, fan2: Level, pump2: Level)
    ensures m[FAN_PIN := fan1][PUMP_PIN := pump1][FAN_PIN := fan2][PUMP_PIN := pump2] ==
            m[FAN_PIN := fan2][PUMP_PIN := pump2]
  {
  }
}
