/**
 * The signal side of the DHT11 reader: capturing the level sequence from the
 * data line and turning it into the widths of the data pulses.
 */
module Dht11Signal {
  import opened Gpio

  /** Sampling stops once a level has been seen unchanged more than this many times in a row. */
  const MAX_UNCHANGE_COUNT := 100

  // ---------------------------------------------------------------------------
  // Capture stopping rule
  // ---------------------------------------------------------------------------

  /** The number of consecutive samples equal to s[i] that end at position i. */
  function SameRun(s: seq<Level>, i: nat): (n: nat)
    requires i < |s|
    ensures 1 <= n <= i + 1
  {
    if i == 0 || s[i - 1] != s[i] then 1 else SameRun(s, i - 1) + 1
  }

  /**
   * Sample i is the one at which the capture stops: counting from the previous
   * level change, the level has now stayed unchanged more than
   * MAX_UNCHANGE_COUNT times.
   */
  predicate IdleAt(s: seq<Level>, i: nat)
    requires i < |s|
  {
    SameRun(s, i) - 1 > MAX_UNCHANGE_COUNT
  }

  /** A run of at least n samples ends at i exactly when the n samples up to i all share s[i]'s level. */
  lemma {:induction false} SameRunMeaning(s: seq<Level>, i: nat, n: nat)
    requires i < |s| && 1 <= n
    ensures SameRun(s, i) >= n <==> n <= i + 1 && forall j :: i - n < j <= i ==> s[j] == s[i]
  {
    if n > 1 && i > 0 && s[i - 1] == s[i] {
      SameRunMeaning(s, i - 1, n - 1);
    }
  }

  /** So the capture stops at the first sample that closes a run of MAX_UNCHANGE_COUNT + 2 equal levels. */
  lemma {:induction false} IdleMeansSteady(s: seq<Level>, i: nat)
    requires i < |s|
    ensures IdleAt(s, i) <==>
              MAX_UNCHANGE_COUNT + 2 <= i + 1 &&
              forall j :: i - (MAX_UNCHANGE_COUNT + 2) < j <= i ==> s[j] == s[i]
  {
    SameRunMeaning(s, i, MAX_UNCHANGE_COUNT + 2);
  }

  /** The index of the first sample at or after `from` at which the capture stops, or |s| if there is none. */
  function FirstIdle(s: seq<Level>, from: nat): (k: nat)
    requires from <= |s|
    ensures from <= k <= |s|
    ensures k < |s| ==> IdleAt(s, k)
    decreases |s| - from
  {
    if from == |s| then |s| else if IdleAt(s, from) then from else FirstIdle(s, from + 1)
  }

  /** No sample between `from` and the one FirstIdle finds stops the capture. */
  lemma {:induction false} FirstIdleSkips(s: seq<Level>, from: nat)
    requires from <= |s|
    ensures forall j :: from <= j < FirstIdle(s, from) ==> !IdleAt(s, j)
    decreases |s| - from
  {
    if from < |s| && !IdleAt(s, from) {
      FirstIdleSkips(s, from + 1);
    }
  }

  /**
   * The sampling loop of read_dht11_dat over the samples the line delivers.
   * `idle` tells whether the stopping rule fired; the source has no other exit,
   * so when `line` runs out first (`idle` false) the source would still be sampling.
   */
  method Capture(line: seq<Level>) returns (data: seq<Level>, idle: bool)
    ensures idle <==> FirstIdle(line, 0) < |line|
    ensures data == if idle then line[..FirstIdle(line, 0) + 1] else line
  {
    var unchangedCount := 0;
    var last: int := -1;
    data := [];
    idle := false;
    var i := 0;
    while i < |line|
      invariant 0 <= i <= |line|
      invariant data == line[..i]
      invariant forall j :: 0 <= j < i ==> !IdleAt(line, j)
      invariant i == 0 ==> last == -1 && unchangedCount == 0
      invariant i > 0 ==> last == line[i - 1] && unchangedCount == SameRun(line, i - 1) - 1
    {
      var current := line[i];
      data := data + [current];
      if last != current {
        unchangedCount := 0;
        last := current;
      } else {
        unchangedCount := unchangedCount + 1;
        if unchangedCount > MAX_UNCHANGE_COUNT {
          idle := true;
          assert FirstIdle(line, 0) == i by {
            FirstIdleIs(line, i);
          }
          return;
        }
      }
      i := i + 1;
    }
    assert FirstIdle(line, 0) == |line| by {
      FirstIdleIs(line, |line|);
    }
  }

  /** FirstIdle finds k when no sample before k stops the capture and k does (or k is the end). */
  lemma {:induction false} FirstIdleIs(s: seq<Level>, k: nat)
    requires k <= |s|
    requires forall j :: 0 <= j < k ==> !IdleAt(s, j)
    requires k < |s| ==> IdleAt(s, k)
    ensures FirstIdle(s, 0) == k
  {
    FirstIdleFrom(s, 0, k);
  }

  lemma {:induction false} FirstIdleFrom(s: seq<Level>, from: nat, k: nat)
    requires from <= k <= |s|
    requires forall j :: from <= j < k ==> !IdleAt(s, j)
    requires k < |s| ==> IdleAt(s, k)
    ensures FirstIdle(s, from) == k
    decreases k - from
  {
    if from < k {
      FirstIdleFrom(s, from + 1, k);
    }
  }

  // ---------------------------------------------------------------------------
  // Pulse-width state machine
  // ---------------------------------------------------------------------------

  /** The states of the decoder, in the order the sensor's response passes through them. */
  datatype PulseState =
    | InitPullDown       // waiting for the sensor to pull the line low
    | InitPullUp         // waiting for the sensor's response high
    | DataFirstPullDown  // waiting for the low that starts the first bit
    | DataPullUp         // in a low gap, waiting for a data pulse to start
    | DataPullDown       // inside a data pulse, waiting for it to end

  /** The index of the first sample at or after `from` whose level is v, or |s| if there is none. */
  function NextLevel(s: seq<Level>, from: nat, v: Level): (k: nat)
    requires from <= |s|
    ensures from <= k <= |s|
    ensures k < |s| ==> s[k] == v
    decreases |s| - from
  {
    if from == |s| then |s| else if s[from] == v then from else NextLevel(s, from + 1, v)
  }

  /** No sample between `from` and the one NextLevel finds has level v. */
  lemma {:induction false} NextLevelSkips(s: seq<Level>, from: nat, v: Level)
    requires from <= |s|
    ensures forall j :: from <= j < NextLevel(s, from, v) ==> s[j] != v
    decreases |s| - from
  {
    if from < |s| && s[from] != v {
      NextLevelSkips(s, from + 1, v);
    }
  }

  /**
   * The data pulses found from position i on: every run of HIGH samples that a
   * LOW sample ends contributes the number of its samples; a run still open
   * when the capture ends contributes nothing.
   */
  function DataPulses(s: seq<Level>, i: nat): seq<int>
    requires i <= |s|
    decreases |s| - i
  {
    var h := NextLevel(s, i, HIGH);
    if h == |s| then [] else
    var l := NextLevel(s, h, LOW);
    if l == |s| then [] else [l - h] + DataPulses(s, l + 1)
  }

  /**
   * Where the sensor's response ends: the LOW that opens the first bit, found
   * after a LOW and then a HIGH; |s| when the line never gets that far.
   */
  function ResponseClose(s: seq<Level>): (c: nat)
    ensures c <= |s|
  {
    var a := NextLevel(s, 0, LOW);
    if a == |s| then |s| else
    var b := NextLevel(s, a + 1, HIGH);
    if b == |s| then |s| else NextLevel(s, b + 1, LOW)
  }

  /** The pulse widths of a capture: past the sensor's response every data pulse is measured. */
  function PulseWidthsOf(s: seq<Level>): seq<int>
  {
    var c := ResponseClose(s);
    if c == |s| then [] else DataPulses(s, c + 1)
  }

  /**
   * What the decoder still appends when it is in state `st` about to read
   * sample i, with `n` the length counted so far (used in DataPullDown).
   */
  ghost function Remaining(s: seq<Level>, st: PulseState, i: nat, n: int): seq<int>
    requires i <= |s|
    decreases |s| - i
  {
    match st
    case InitPullDown =>
      var a := NextLevel(s, i, LOW);
      if a == |s| then [] else Remaining(s, InitPullUp, a + 1, 0)
    case InitPullUp =>
      var b := NextLevel(s, i, HIGH);
      if b == |s| then [] else Remaining(s, DataFirstPullDown, b + 1, 0)
    case DataFirstPullDown =>
      var c := NextLevel(s, i, LOW);
      if c == |s| then [] else DataPulses(s, c + 1)
    case DataPullUp =>
      DataPulses(s, i)
    case DataPullDown =>
      var l := NextLevel(s, i, LOW);
      if l == |s| then [] else [l - i + 1 + n] + DataPulses(s, l + 1)
  }

  /** How Remaining changes when the decoder reads sample i in one of the three response states. */
  lemma {:induction false} ResponseStep(s: seq<Level>, st: PulseState, i: nat, n: int)
    requires i < |s|
    requires st == InitPullDown || st == InitPullUp || st == DataFirstPullDown
    ensures Remaining(s, st, i, n) == Remaining(s, ResponseNext(st, s[i]), i + 1, n + 1)
  {
    match st
    case InitPullDown =>
      NextLevelStep(s, i, LOW);
    case InitPullUp =>
      NextLevelStep(s, i, HIGH);
    case DataFirstPullDown =>
      NextLevelStep(s, i, LOW);
  }

  /** A search for v from i stops at i or goes on from i + 1. */
  lemma {:induction false} NextLevelStep(s: seq<Level>, i: nat, v: Level)
    requires i < |s|
    ensures NextLevel(s, i, v) == if s[i] == v then i else NextLevel(s, i + 1, v)
  {
  }

  /** The state after reading level v in one of the three response states. */
  function ResponseNext(st: PulseState, v: Level): PulseState
  {
    match st
    case InitPullDown => if v == LOW then InitPullUp else st
    case InitPullUp => if v == HIGH then DataFirstPullDown else st
    case DataFirstPullDown => if v == LOW then DataPullUp else st
    case _ => st
  }

  /** How Remaining changes when the decoder reads sample i between data pulses. */
  lemma {:induction false} GapStep(s: seq<Level>, i: nat, n: int)
    requires i < |s|
    ensures Remaining(s, DataPullUp, i, n) ==
              if s[i] == HIGH then Remaining(s, DataPullDown, i + 1, 0) else Remaining(s, DataPullUp, i + 1, n + 1)
  {
    if s[i] == HIGH {
      GapEnds(s, i, n);
    } else {
      GapGoesOn(s, i, n);
    }
  }

  /** A HIGH sample between pulses starts a pulse. */
  lemma {:induction false} GapEnds(s: seq<Level>, i: nat, n: int)
    requires i < |s| && s[i] == HIGH
    ensures Remaining(s, DataPullUp, i, n) == Remaining(s, DataPullDown, i + 1, 0)
  {
    var l := NextLevel(s, i + 1, LOW);
    assert NextLevel(s, i, HIGH) == i;
    assert NextLevel(s, i, LOW) == l;
    var r := if l == |s| then [] else [l - i] + DataPulses(s, l + 1);
    assert DataPulses(s, i) == r;
    assert Remaining(s, DataPullDown, i + 1, 0) == r;
  }

  /** A LOW sample between pulses changes nothing still to come. */
  lemma {:induction false} GapGoesOn(s: seq<Level>, i: nat, n: int)
    requires i < |s| && s[i] == LOW
    ensures Remaining(s, DataPullUp, i, n) == Remaining(s, DataPullUp, i + 1, n + 1)
  {
    assert NextLevel(s, i, HIGH) == NextLevel(s, i + 1, HIGH);
    assert DataPulses(s, i) == DataPulses(s, i + 1);
  }

  /** How Remaining changes when the decoder reads sample i inside a data pulse. */
  lemma {:induction false} PulseStep(s: seq<Level>, i: nat, n: int)
    requires i < |s|
    ensures Remaining(s, DataPullDown, i, n) ==
              if s[i] == LOW then [n + 1] + Remaining(s, DataPullUp, i + 1, 0) else Remaining(s, DataPullDown, i + 1, n + 1)
  {
    if s[i] == LOW {
      PulseEnds(s, i, n);
    } else {
      PulseGoesOn(s, i, n);
    }
  }

  /** A LOW sample inside a pulse ends it: its width, n + 1 samples, is appended. */
  lemma {:induction false} PulseEnds(s: seq<Level>, i: nat, n: int)
    requires i < |s| && s[i] == LOW
    ensures Remaining(s, DataPullDown, i, n) == [n + 1] + Remaining(s, DataPullUp, i + 1, 0)
  {
    assert NextLevel(s, i, LOW) == i;
    var d := DataPulses(s, i + 1);
    assert Remaining(s, DataPullUp, i + 1, 0) == d;
  }

  /** A HIGH sample inside a pulse lengthens it by one. */
  lemma {:induction false} PulseGoesOn(s: seq<Level>, i: nat, n: int)
    requires i < |s| && s[i] == HIGH
    ensures Remaining(s, DataPullDown, i, n) == Remaining(s, DataPullDown, i + 1, n + 1)
  {
    NextLevelPast(s, i, LOW);
  }

  /** A search for v past a sample of the other level goes on from the next sample. */
  lemma {:induction false} NextLevelPast(s: seq<Level>, i: nat, v: Level)
    requires i < |s| && s[i] != v
    ensures NextLevel(s, i, v) == NextLevel(s, i + 1, v)
  {
  }

  /** Before the first sample, all of PulseWidthsOf is still to come. */
  lemma {:induction false} RemainingFromStart(s: seq<Level>)
    ensures Remaining(s, InitPullDown, 0, 0) == PulseWidthsOf(s)
  {
    var a := NextLevel(s, 0, LOW);
    if a < |s| {
      var b := NextLevel(s, a + 1, HIGH);
      if b < |s| {
        assert Remaining(s, InitPullUp, a + 1, 0) == Remaining(s, DataFirstPullDown, b + 1, 0);
      }
    }
  }

  /** After the last sample nothing more is appended, whatever the state. */
  lemma {:induction false} RemainingAtEnd(s: seq<Level>, st: PulseState, n: int)
    ensures Remaining(s, st, |s|, n) == []
  {
  }

  /** The five-state loop of read_dht11_dat that measures each data pulse. */
  method PulseWidths(data: seq<Level>) returns (lengths: seq<int>)
    ensures lengths == PulseWidthsOf(data)
  {
    var state := InitPullDown;
    lengths := [];
    var currentLength := 0;
    var i := 0;
    RemainingFromStart(data);
    while i < |data|
      invariant 0 <= i <= |data|
      invariant lengths + Remaining(data, state, i, currentLength) == PulseWidthsOf(data)
      decreases |data| - i
    {
      var current := data[i];
      currentLength := currentLength + 1;
      match state {
        case InitPullDown =>
          ResponseStep(data, state, i, currentLength - 1);
          if current == LOW {
            state := InitPullUp;
          }
        case InitPullUp =>
          ResponseStep(data, state, i, currentLength - 1);
          if current == HIGH {
            state := DataFirstPullDown;
          }
        case DataFirstPullDown =>
          ResponseStep(data, state, i, currentLength - 1);
          if current == LOW {
            state := DataPullUp;
          }
        case DataPullUp =>
          GapStep(data, i, currentLength - 1);
          if current == HIGH {
            currentLength := 0;
            state := DataPullDown;
          }
        case DataPullDown =>
          PulseStep(data, i, currentLength - 1);
          if current == LOW {
            assert lengths + ([currentLength] + Remaining(data, DataPullUp, i + 1, 0))
                == (lengths + [currentLength]) + Remaining(data, DataPullUp, i + 1, 0);
            lengths := lengths + [currentLength];
            state := DataPullUp;
          }
      }
      i := i + 1;
    }
    RemainingAtEnd(data, state, currentLength);
  }

  /** Samples h .. h + w - 1 are HIGH, at least one of them, and sample h + w is LOW. */
  predicate HighRun(s: seq<Level>, h: nat, w: int)
  {
    1 <= w && h + w < |s| && (forall j :: h <= j < h + w ==> s[j] == HIGH) && s[h + w] == LOW
  }

  /**
   * Each data pulse from position i on is a maximal run of HIGH samples: at
   * least one sample long, preceded by a LOW sample (or starting at i) and
   * ended by a LOW sample.
   */
  lemma {:induction false} DataPulseIsHighRun(s: seq<Level>, i: nat, k: nat) returns (h: nat)
    requires i <= |s|
    requires k < |DataPulses(s, i)|
    ensures HighRun(s, h, DataPulses(s, i)[k])
    ensures i <= h && (h == i || s[h - 1] == LOW) && (k > 0 ==> h > i)
    decreases |s| - i
  {
    var first := NextLevel(s, i, HIGH);
    var l := NextLevel(s, first, LOW);
    if k == 0 {
      h := first;
      NextLevelSkips(s, i, HIGH);
      NextLevelSkips(s, first, LOW);
    } else {
      h := DataPulseIsHighRun(s, l + 1, k - 1);
      assert DataPulses(s, i)[k] == DataPulses(s, l + 1)[k - 1];
      if h == l + 1 {
        assert s[h - 1] == LOW;
      }
    }
  }

  /**
   * Every width the decoder reports is the number of consecutive HIGH samples
   * of one data pulse: the run starts after a LOW sample, ends at a LOW sample
   * and is at least one sample long.
   */
  lemma {:induction false} PulseIsHighRun(s: seq<Level>, ws: seq<int>, k: nat) returns (h: nat)
    requires ws == PulseWidthsOf(s) && k < |ws|
    ensures HighRun(s, h, ws[k])
    ensures 1 <= h && s[h - 1] == LOW
  {
    var c := ResponseEnd(s);
    h := DataPulseIsHighRun(s, c + 1, k);
  }

  /** When any pulse is measured, the response ends with a LOW sample c and the data pulses follow it. */
  lemma {:induction false} ResponseEnd(s: seq<Level>) returns (c: nat)
    requires PulseWidthsOf(s) != []
    ensures c < |s| && s[c] == LOW && PulseWidthsOf(s) == DataPulses(s, c + 1)
  {
    c := ResponseClose(s);
  }
}
