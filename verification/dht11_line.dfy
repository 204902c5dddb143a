/**
 * read_dht11_dat end to end: the level sequence a DHT11 puts on the line for a
 * frame is captured, measured and decoded back to that frame's humidity and
 * temperature bytes, provided no pulse or gap outlasts the capture's idle rule.
 */
module Dht11LineRoundTrip {
  import opened Wrappers
  import opened Gpio
  import opened Dht11Signal
  import opened Dht11Frame
  import opened Dht11FrameRoundTrip

  function Repeat(v: Level, n: nat): (r: seq<Level>)
    ensures |r| == n && forall j :: 0 <= j < n ==> r[j] == v
  {
    seq(n, _ => v)
  }

  predicate Positive(ws: seq<int>)
  {
    forall k :: 0 <= k < |ws| ==> ws[k] >= 1
  }

  /** The pulse widths or gaps are at most MAX_UNCHANGE_COUNT + 1 samples each. */
  predicate Bounded(ws: seq<int>)
  {
    forall k :: 0 <= k < |ws| ==> ws[k] <= MAX_UNCHANGE_COUNT + 1
  }

  /** One data bit on the line: w HIGH samples, then a LOW gap of g samples. */
  function Pulse(w: nat, g: nat): seq<Level>
  {
    Repeat(HIGH, w) + Repeat(LOW, g)
  }

  /** The data bits of a frame on the line: pulse k has width ws[k] and is followed by a gap of gs[k]. */
  function Train(ws: seq<int>, gs: seq<int>): seq<Level>
    requires |gs| == |ws| && Positive(ws) && Positive(gs)
  {
    if ws == [] then [] else Pulse(ws[0], gs[0]) + Train(ws[1..], gs[1..])
  }

  /**
   * The start of a reading as the host samples it after releasing the line:
   * `released` HIGH samples while the line is pulled up, then the sensor's
   * response, `low` LOW and `high` HIGH samples, then the LOW gap of `gap`
   * samples before the first bit.
   */
  datatype Handshake = Handshake(released: nat, low: nat, high: nat, gap: nat)

  /** The sensor answered: its LOW, its HIGH and the gap before the first bit each last at least one sample. */
  predicate Answered(h: Handshake)
  {
    1 <= h.low && 1 <= h.high && 1 <= h.gap
  }

  /** An answered handshake whose every part is shorter than the idle rule, so the capture rides through it. */
  predicate ValidHandshake(h: Handshake)
  {
    Answered(h) &&
    h.released <= MAX_UNCHANGE_COUNT + 1 && h.low <= MAX_UNCHANGE_COUNT + 1 &&
    h.high <= MAX_UNCHANGE_COUNT + 1 && h.gap <= MAX_UNCHANGE_COUNT + 1
  }

  function Response(h: Handshake): seq<Level>
  {
    Repeat(HIGH, h.released) + Repeat(LOW, h.low) + Repeat(HIGH, h.high) + Repeat(LOW, h.gap)
  }

  /**
   * The whole line for one frame: the handshake, the data pulses, then the line
   * released HIGH for as long as it takes the capture to give up.
   */
  function SensorLine(h: Handshake, ws: seq<int>, gs: seq<int>): seq<Level>
    requires |gs| == |ws| && Positive(ws) && Positive(gs)
  {
    Response(h) + Train(ws, gs) + Repeat(HIGH, MAX_UNCHANGE_COUNT + 2)
  }

  /** t appears in s starting at position i. */
  predicate Occurs(s: seq<Level>, i: nat, t: seq<Level>)
  {
    i + |t| <= |s| && forall m :: 0 <= m < |t| ==> s[i + m] == t[m]
  }

  /** Samples i .. i + n - 1 of s all have level v. */
  predicate Steady(s: seq<Level>, i: nat, n: nat, v: Level)
  {
    i + n <= |s| && forall j :: i <= j < i + n ==> s[j] == v
  }

  /** Where x + y occurs, x occurs and y follows it. */
  lemma {:induction false} OccursSplit(s: seq<Level>, i: nat, x: seq<Level>, y: seq<Level>)
    requires Occurs(s, i, x + y)
    ensures Occurs(s, i, x) && Occurs(s, i + |x|, y)
  {
    forall m | 0 <= m < |x| ensures s[i + m] == x[m] {
      assert s[i + m] == (x + y)[m];
    }
    forall m | 0 <= m < |y| ensures s[i + |x| + m] == y[m] {
      assert s[i + (|x| + m)] == (x + y)[|x| + m];
    }
  }

  /** Where n samples of level v occur, the line is steady at v. */
  lemma {:induction false} OccursRepeat(s: seq<Level>, i: nat, v: Level, n: nat)
    requires Occurs(s, i, Repeat(v, n))
    ensures Steady(s, i, n, v)
  {
    forall j | i <= j < i + n ensures s[j] == v {
      assert s[i + (j - i)] == Repeat(v, n)[j - i];
    }
  }

  /** A search for v gives the same answer from i as from j when nothing in between has level v. */
  lemma {:induction false} NextLevelSkip(s: seq<Level>, i: nat, j: nat, v: Level)
    requires i <= j <= |s|
    requires forall m :: i <= m < j ==> s[m] != v
    ensures NextLevel(s, i, v) == NextLevel(s, j, v)
    decreases j - i
  {
    if i < j {
      NextLevelSkip(s, i + 1, j, v);
    }
  }

  /** Data pulses from i and from j agree when only LOW samples lie in between. */
  lemma {:induction false} DataPulsesSkip(s: seq<Level>, i: nat, j: nat)
    requires i <= j <= |s|
    requires forall m :: i <= m < j ==> s[m] == LOW
    ensures DataPulses(s, i) == DataPulses(s, j)
  {
    NextLevelSkip(s, i, j, HIGH);
  }

  /** One step of the pulse measurement: a HIGH at i that a LOW at i + w ends. */
  lemma {:induction false} DataPulsesStep(s: seq<Level>, i: nat, w: nat)
    requires i + w < |s| && s[i] == HIGH && s[i + w] == LOW
    requires forall m :: i <= m < i + w ==> s[m] == HIGH
    ensures DataPulses(s, i) == [w] + DataPulses(s, i + w + 1)
  {
    assert NextLevel(s, i, HIGH) == i;
    NextLevelSkip(s, i, i + w, LOW);
  }

  /** Past the last pulse only HIGH samples remain, and they measure nothing. */
  lemma {:induction false} DataPulsesHighTail(s: seq<Level>, i: nat)
    requires i <= |s|
    requires forall m :: i <= m < |s| ==> s[m] == HIGH
    ensures DataPulses(s, i) == []
  {
    if i < |s| {
      NextLevelSkip(s, i, |s|, LOW);
    }
  }

  /** A sample whose level differs from s[j], p samples back, bounds the run ending at j. */
  lemma {:induction false} SameRunBound(s: seq<Level>, j: nat, p: nat)
    requires p < j < |s| && s[p] != s[j]
    ensures SameRun(s, j) <= j - p
  {
    SameRunMeaning(s, j, j - p + 1);
  }

  /** A run of n <= MAX_UNCHANGE_COUNT + 1 samples of v, with no v just before it, never stops the capture. */
  lemma {:induction false} SteadyNotIdle(s: seq<Level>, i: nat, n: nat, v: Level, j: nat)
    requires Steady(s, i, n, v) && n <= MAX_UNCHANGE_COUNT + 1
    requires i == 0 || s[i - 1] != v
    requires i <= j < i + n
    ensures !IdleAt(s, j)
  {
    if i > 0 {
      SameRunBound(s, j, i - 1);
    }
  }

  /** A non-empty train ends with the LOW sample of its last gap. */
  lemma {:induction false} TrainEndsLow(ws: seq<int>, gs: seq<int>)
    requires |gs| == |ws| && Positive(ws) && Positive(gs) && ws != []
    ensures |Train(ws, gs)| > 0 && Train(ws, gs)[|Train(ws, gs)| - 1] == LOW
    decreases |ws|
  {
    if ws[1..] != [] {
      TrainEndsLow(ws[1..], gs[1..]);
    }
  }

  /** Where a train occurs, its first pulse and gap occur, and the rest of the train follows them. */
  lemma {:induction false} PulseOccurs(s: seq<Level>, i: nat, ws: seq<int>, gs: seq<int>)
    requires |gs| == |ws| && Positive(ws) && Positive(gs) && ws != []
    requires Occurs(s, i, Train(ws, gs))
    ensures Steady(s, i, ws[0], HIGH) && Steady(s, i + ws[0], gs[0], LOW)
    ensures Occurs(s, i + ws[0] + gs[0], Train(ws[1..], gs[1..]))
    ensures |Train(ws, gs)| == ws[0] + gs[0] + |Train(ws[1..], gs[1..])|
  {
    var high, low, rest := Repeat(HIGH, ws[0]), Repeat(LOW, gs[0]), Train(ws[1..], gs[1..]);
    assert Train(ws, gs) == high + low + rest;
    OccursSplit(s, i, high + low, rest);
    OccursSplit(s, i, high, low);
    OccursRepeat(s, i, HIGH, ws[0]);
    OccursRepeat(s, i + ws[0], LOW, gs[0]);
  }

  /**
   * The first pulse of a train that occurs at i measures as its width, and
   * the rest of the train occurs after its gap, followed by the same tail.
   */
  lemma {:induction false} TrainStep(s: seq<Level>, i: nat, ws: seq<int>, gs: seq<int>)
    requires |gs| == |ws| && Positive(ws) && Positive(gs) && ws != []
    requires Occurs(s, i, Train(ws, gs))
    requires forall m :: i + |Train(ws, gs)| <= m < |s| ==> s[m] == HIGH
    ensures Positive(ws[1..]) && Positive(gs[1..])
    ensures Occurs(s, i + ws[0] + gs[0], Train(ws[1..], gs[1..]))
    ensures forall m :: i + ws[0] + gs[0] + |Train(ws[1..], gs[1..])| <= m < |s| ==> s[m] == HIGH
    ensures DataPulses(s, i) == [ws[0]] + DataPulses(s, i + ws[0] + gs[0])
  {
    var w, e := ws[0], i + ws[0] + gs[0];
    PulseOccurs(s, i, ws, gs);
    DataPulsesStep(s, i, w);
    DataPulsesSkip(s, i + w + 1, e);
    var d1, d2 := DataPulses(s, i + w + 1), DataPulses(s, e);
    assert d1 == d2;
    assert DataPulses(s, i) == [w] + d1;
  }

  /** Measuring a train of pulses, followed by no LOW sample, gives back its widths. */
  lemma {:induction false} TrainWidths(s: seq<Level>, i: nat, ws: seq<int>, gs: seq<int>)
    requires |gs| == |ws| && Positive(ws) && Positive(gs)
    requires Occurs(s, i, Train(ws, gs))
    requires forall m :: i + |Train(ws, gs)| <= m < |s| ==> s[m] == HIGH
    ensures DataPulses(s, i) == ws
    decreases |ws|
  {
    if ws == [] {
      DataPulsesHighTail(s, i);
    } else {
      TrainStep(s, i, ws, gs);
      TrainWidths(s, i + ws[0] + gs[0], ws[1..], gs[1..]);
      assert ws == [ws[0]] + ws[1..];
    }
  }

  /** Inside a train whose pulses and gaps are at most MAX_UNCHANGE_COUNT + 1 long, no run stops the capture. */
  lemma {:induction false} TrainRunsShort(s: seq<Level>, i: nat, ws: seq<int>, gs: seq<int>)
    requires |gs| == |ws| && Positive(ws) && Positive(gs) && Bounded(ws) && Bounded(gs)
    requires Occurs(s, i, Train(ws, gs))
    requires 1 <= i <= |s| && s[i - 1] == LOW
    ensures forall j :: i <= j < i + |Train(ws, gs)| ==> !IdleAt(s, j)
    decreases |ws|
  {
    if ws != [] {
      var w, g := ws[0], gs[0];
      assert w <= MAX_UNCHANGE_COUNT + 1 && g <= MAX_UNCHANGE_COUNT + 1;
      PulseOccurs(s, i, ws, gs);
      forall j | i <= j < i + w ensures !IdleAt(s, j) {
        SteadyNotIdle(s, i, w, HIGH, j);
      }
      forall j | i + w <= j < i + w + g ensures !IdleAt(s, j) {
        SteadyNotIdle(s, i + w, g, LOW, j);
      }
      TrainRunsShort(s, i + w + g, ws[1..], gs[1..]);
    }
  }

  /** Where the handshake, the data pulses and the released line lie on a line that starts with the sensor line. */
  ghost predicate LineShape(s: seq<Level>, h: Handshake, ws: seq<int>, gs: seq<int>)
    requires |gs| == |ws| && Positive(ws) && Positive(gs)
  {
    var low, high, gap := h.released, h.released + h.low, h.released + h.low + h.high;
    var t := h.released + h.low + h.high + h.gap;
    var tail := t + |Train(ws, gs)|;
    Steady(s, 0, h.released, HIGH) && Steady(s, low, h.low, LOW) &&
    Steady(s, high, h.high, HIGH) && Steady(s, gap, h.gap, LOW) &&
    Occurs(s, t, Train(ws, gs)) && Steady(s, tail, MAX_UNCHANGE_COUNT + 2, HIGH)
  }

  /** Where a handshake occurs at the start of s, its four parts lie one after the other. */
  lemma {:induction false} ResponseLayout(s: seq<Level>, h: Handshake)
    requires Occurs(s, 0, Response(h))
    ensures Steady(s, 0, h.released, HIGH) && Steady(s, h.released, h.low, LOW)
    ensures Steady(s, h.released + h.low, h.high, HIGH) && Steady(s, h.released + h.low + h.high, h.gap, LOW)
  {
    var released, low, high := Repeat(HIGH, h.released), Repeat(LOW, h.low), Repeat(HIGH, h.high);
    OccursSplit(s, 0, released + low + high, Repeat(LOW, h.gap));
    OccursSplit(s, 0, released + low, high);
    OccursSplit(s, 0, released, low);
    OccursRepeat(s, 0, HIGH, h.released);
    OccursRepeat(s, h.released, LOW, h.low);
    OccursRepeat(s, h.released + h.low, HIGH, h.high);
    OccursRepeat(s, h.released + h.low + h.high, LOW, h.gap);
  }

  /** Where the sensor line occurs at the start of s, its parts lie as LineShape says. */
  lemma {:induction false} LineLayout(s: seq<Level>, h: Handshake, ws: seq<int>, gs: seq<int>)
    requires |gs| == |ws| && Positive(ws) && Positive(gs)
    requires Occurs(s, 0, SensorLine(h, ws, gs))
    ensures LineShape(s, h, ws, gs)
    ensures |SensorLine(h, ws, gs)| == h.released + h.low + h.high + h.gap + |Train(ws, gs)| + MAX_UNCHANGE_COUNT + 2
  {
    var r, t, tail := Response(h), Train(ws, gs), Repeat(HIGH, MAX_UNCHANGE_COUNT + 2);
    OccursSplit(s, 0, r + t, tail);
    OccursSplit(s, 0, r, t);
    ResponseLayout(s, h);
    OccursRepeat(s, |r| + |t|, HIGH, MAX_UNCHANGE_COUNT + 2);
  }

  /** A train that follows a LOW sample leaves the line LOW where it ends. */
  lemma {:induction false} TrainLeavesLow(s: seq<Level>, i: nat, ws: seq<int>, gs: seq<int>)
    requires |gs| == |ws| && Positive(ws) && Positive(gs)
    requires Occurs(s, i, Train(ws, gs))
    requires 1 <= i <= |s| && s[i - 1] == LOW
    ensures s[i + |Train(ws, gs)| - 1] == LOW
  {
    if ws != [] {
      var t := Train(ws, gs);
      TrainEndsLow(ws, gs);
      assert s[i + (|t| - 1)] == t[|t| - 1];
    }
  }

  /**
   * On a line shaped as LineShape says, with every part at most
   * MAX_UNCHANGE_COUNT + 1 samples long, the capture first stops at the sample
   * that completes MAX_UNCHANGE_COUNT + 2 HIGH samples after the frame.
   */
  lemma {:induction false} ResponseThenTrainIdle(s: seq<Level>, h: Handshake, ws: seq<int>, gs: seq<int>)
    requires |gs| == |ws| && Positive(ws) && Positive(gs) && Bounded(ws) && Bounded(gs)
    requires ValidHandshake(h) && LineShape(s, h, ws, gs)
    ensures FirstIdle(s, 0) == h.released + h.low + h.high + h.gap + |Train(ws, gs)| + MAX_UNCHANGE_COUNT + 1
  {
    var low, high, gap := h.released, h.released + h.low, h.released + h.low + h.high;
    var t := h.released + h.low + h.high + h.gap;
    var tail := t + |Train(ws, gs)|;
    var last := tail + MAX_UNCHANGE_COUNT + 1;
    // the handshake
    forall j | 0 <= j < t ensures !IdleAt(s, j) {
      if j < low {
        SteadyNotIdle(s, 0, h.released, HIGH, j);
      } else if j < high {
        SteadyNotIdle(s, low, h.low, LOW, j);
      } else if j < gap {
        SteadyNotIdle(s, high, h.high, HIGH, j);
      } else {
        SteadyNotIdle(s, gap, h.gap, LOW, j);
      }
    }
    // the data pulses
    TrainRunsShort(s, t, ws, gs);
    TrainLeavesLow(s, t, ws, gs);
    // the released line
    forall j | tail <= j < last ensures !IdleAt(s, j) {
      SameRunBound(s, j, tail - 1);
    }
    assert IdleAt(s, last) by {
      SameRunMeaning(s, last, MAX_UNCHANGE_COUNT + 2);
    }
    FirstIdleIs(s, last);
  }

  /** A search for v from i finds j when j is the first sample from i on with level v. */
  lemma {:induction false} NextLevelAt(s: seq<Level>, i: nat, j: nat, v: Level)
    requires i <= j < |s| && s[j] == v
    requires forall m :: i <= m < j ==> s[m] != v
    ensures NextLevel(s, i, v) == j
  {
    NextLevelSkip(s, i, j, v);
  }

  /** Once the response's LOW, HIGH and LOW are found at a, b and c, the response closes at c. */
  lemma {:induction false} ResponseClosesAt(s: seq<Level>, a: nat, b: nat, c: nat)
    requires NextLevel(s, 0, LOW) == a < |s| && NextLevel(s, a + 1, HIGH) == b < |s|
    requires NextLevel(s, b + 1, LOW) == c < |s|
    ensures ResponseClose(s) == c
  {
  }

  /** The response of a handshake closes at the first sample of its gap. */
  lemma {:induction false} HandshakeCloses(s: seq<Level>, h: Handshake)
    requires Answered(h)
    requires Steady(s, 0, h.released, HIGH) && Steady(s, h.released, h.low, LOW)
    requires Steady(s, h.released + h.low, h.high, HIGH) && Steady(s, h.released + h.low + h.high, h.gap, LOW)
    ensures ResponseClose(s) == h.released + h.low + h.high
  {
    var low, high, gap := h.released, h.released + h.low, h.released + h.low + h.high;
    NextLevelAt(s, 0, low, LOW);
    NextLevelAt(s, low + 1, high, HIGH);
    NextLevelAt(s, high + 1, gap, LOW);
    ResponseClosesAt(s, low, high, gap);
  }

  /** Once the response closes at c and only LOW samples follow up to t, the pulse widths are the data pulses from t. */
  lemma {:induction false} GapSkipped(s: seq<Level>, c: nat, t: nat)
    requires ResponseClose(s) == c < t <= |s|
    requires forall m :: c < m < t ==> s[m] == LOW
    ensures PulseWidthsOf(s) == DataPulses(s, t)
  {
    DataPulsesSkip(s, c + 1, t);
  }

  /**
   * A line whose response closes at c, followed by LOW samples up to t, a
   * train at t and nothing but HIGH samples after it, measures as the train's widths.
   */
  lemma {:induction false} ResponseThenTrain(s: seq<Level>, c: nat, t: nat, ws: seq<int>, gs: seq<int>)
    requires |gs| == |ws| && Positive(ws) && Positive(gs)
    requires ResponseClose(s) == c < t && Steady(s, c, t - c, LOW)
    requires Occurs(s, t, Train(ws, gs))
    requires Steady(s, t + |Train(ws, gs)|, |s| - (t + |Train(ws, gs)|), HIGH)
    ensures PulseWidthsOf(s) == ws
  {
    GapSkipped(s, c, t);
    TrainWidths(s, t, ws, gs);
  }

  /**
   * The capture keeps the whole sensor line, whatever follows it: it stops at
   * the sample that completes MAX_UNCHANGE_COUNT + 2 HIGH samples after the frame.
   */
  lemma {:induction false} CaptureKeepsFrame(h: Handshake, ws: seq<int>, gs: seq<int>, rest: seq<Level>)
    requires |gs| == |ws| && Positive(ws) && Positive(gs) && Bounded(ws) && Bounded(gs)
    requires ValidHandshake(h)
    ensures FirstIdle(SensorLine(h, ws, gs) + rest, 0) == |SensorLine(h, ws, gs)| - 1
  {
    var s := SensorLine(h, ws, gs) + rest;
    assert Occurs(s, 0, SensorLine(h, ws, gs));
    LineLayout(s, h, ws, gs);
    ResponseThenTrainIdle(s, h, ws, gs);
  }

  /** Measuring the sensor line gives back the widths of its data pulses. */
  lemma {:induction false} LineWidths(h: Handshake, ws: seq<int>, gs: seq<int>)
    requires |gs| == |ws| && Positive(ws) && Positive(gs)
    requires Answered(h)
    ensures PulseWidthsOf(SensorLine(h, ws, gs)) == ws
  {
    var s := SensorLine(h, ws, gs);
    assert Occurs(s, 0, s);
    LineLayout(s, h, ws, gs);
    HandshakeCloses(s, h);
    var c := h.released + h.low + h.high;
    ResponseThenTrain(s, c, c + h.gap, ws, gs);
  }

  /**
   * End to end: a DHT11 that answers the start signal with any handshake
   * within the idle rule and then sends a frame with a right checksum, a
   * short pulse for a 0 and a long one for a 1 and any gaps, none of them
   * longer than MAX_UNCHANGE_COUNT + 1 samples, is read as
   * (bytes[0], bytes[2]), whatever the line does afterwards.
   */
  lemma {:induction false} SensorFrameRead(bytes: seq<int>, short: int, long: int, h: Handshake, gs: seq<int>, rest: seq<Level>)
    requires |bytes| == 5 && forall i :: 0 <= i < 5 ==> IsByte(bytes[i])
    requires bytes[4] == Checksum(bytes)
    requires 1 <= short < long <= MAX_UNCHANGE_COUNT + 1
    requires ValidHandshake(h)
    requires |gs| == 40 && Positive(gs) && Bounded(gs)
    ensures ReadResult(SensorLine(h, Widths(FrameBits(bytes), short, long), gs) + rest) == Ok(Reading(bytes[0], bytes[2]))
  {
    var ws := Widths(FrameBits(bytes), short, long);
    assert Positive(ws) && Bounded(ws);
    var line := SensorLine(h, ws, gs);
    var s := line + rest;
    CaptureKeepsFrame(h, ws, gs, rest);
    assert s[..FirstIdle(s, 0) + 1] == line;
    LineWidths(h, ws, gs);
    ReadResultSettled(s);
    ValidFrameRoundTrip(bytes, short, long);
  }
}
