# Plant monitor: DHT11 decoder and control cycle, in Dafny

This project models the core of the IoTeam plant monitor, a Raspberry Pi program.
It has two parts, both in `controller.py`, plus the fan and pump script in `actuators.py`.

- **The DHT11 reader (`read_dht11_dat`).** The data line is sampled until its level has stayed
  unchanged more than `MAX_UNCHANGE_COUNT` (100) times in a row. A five-state machine measures
  the width of every data pulse. Each width becomes a bit by comparison with the midpoint of the
  shortest and the longest width. The 40 bits are packed most significant bit first into five
  bytes, and the fifth byte must be the 8-bit sum of the first four. The result is
  (humidity, temperature) = (byte 0, byte 2), or a failure.
- **One pass of `main`'s loop.** The fan is on from 25 degrees up, with the barometer's
  temperature standing in when the DHT11 read fails. The pump is on when the soil line reads 1
  (dry). Both relays are active low. `aws_counter` decimates publishing to every tenth cycle.
  At a boundary, a held connection publishes, and a failed publish drops the connection. Without
  a connection, the boundary advances the reconnect timer, and a reconnect is tried when the
  timer reaches 30. The database row is written every cycle, and its outcome sets `db_status`.
- **`actuators.py`.** The same fan and pump rules as top-level statements with "ON"/"OFF"
  statuses. Without a DHT11 result, the fan pin is not written and the status is "Unknown".

Files:

- `gpio.dfy`: levels (0/1) and the BCM pin numbers.
- `wrappers.dfy`: `Option` and `Result`.
- `seq_facts.dfy`: two facts about sequence prefixes.
- `dht11_signal.dfy`: the capture loop (`Capture`) and the pulse state machine (`PulseWidths`).
  Each is proved against a reference function: `FirstIdle` for the stopping sample, and
  `PulseWidthsOf` for the widths.
- `dht11_frame.dfy`: the threshold, packing and checksum loops (`ThresholdBits`, `PackBytes`,
  `DecodeFrame`), the whole reader (`ReadDht11`), and the round trip of the frame decoder.
- `dht11_line.dfy`: the end-to-end round trip. A frame put on the line as the sensor sends it
  is captured, measured and decoded to its humidity and temperature bytes. The line is any
  handshake (a pulled-up stretch, the sensor's LOW and HIGH response, the gap before the first
  bit), then one pulse and one gap per bit, each of its own length, then the released line, and
  then anything at all, as long as each handshake part, pulse and gap is at most 101 samples
  (`MAX_UNCHANGE_COUNT + 1`). A longer one meets the stopping rule inside the frame.
- `controller.dfy`: one cycle as a function (`Cycle`) and as the class `CycleController`,
  whose methods update the loop variables and the pin levels in place. It also holds the
  lemmas about runs of many cycles (`Final`, `Trace`).
- `actuators.dfy`: the fan and pump script over a map of pin levels.

Two properties of the code that the proofs make precise:

- **The reconnect timer counts publish boundaries, not cycles.** It is only advanced inside the
  every-tenth-cycle branch. So while disconnected, a reconnect is tried every 30 boundaries,
  which is every 300 cycles (`ReconnectCadence`). The comment at controller.py:254 says "try
  every 30s", but the timer only moves at a publish boundary, so a reconnect is tried every 300
  cycles; the model follows the code.
- **Equal widths decode to the all-zero frame.** The adaptive threshold cannot tell a frame of
  40 equal widths from one of 40 short pulses. It reads them as all zeros, which passes the
  checksum. So the all-ones frame, whose checksum byte is wrong, is accepted as humidity 0 and
  temperature 0 (`UniformWidthsReadAsZero`). Every frame with a right checksum does round-trip
  (`ValidFrameRoundTrip`).

## Model

| member | source | states |
|---|---|---|
| Dht11Signal.SameRun | controller.py:84-90 | the unchanged count plus one at sample i: at least 1 and at most i + 1; its meaning is stated by SameRunMeaning |
| Dht11Signal.IdleAt | controller.py:84-92 | the stopping rule, more than 100 unchanged repeats at sample i; its meaning is stated by IdleMeansSteady |
| Dht11Signal.SameRunMeaning | controller.py:84-90 | the unchanged count at sample i reaches n - 1 exactly when the n samples ending at i share one level |
| Dht11Signal.IdleMeansSteady | controller.py:79-92 | the capture stops at sample i exactly when samples i - 101 .. i all have the same level (more than 100 unchanged repeats) |
| Dht11Signal.FirstIdle | controller.py:83-92 | the stopping sample lies at or after the start, and when it exists the stopping rule holds there |
| Dht11Signal.FirstIdleSkips | controller.py:83-92 | no sample before the one FirstIdle finds satisfies the stopping rule |
| Dht11Signal.FirstIdleIs | controller.py:83-92 | a sample k with no stopping sample before it, where the rule fires (or k is the end), is the one FirstIdle finds |
| Dht11Signal.Capture | controller.py:79-92 | the loop stops exactly when the rule fires, and then `data` is every sample up to and including the first stopping sample; otherwise it holds all samples |
| Dht11Signal.NextLevel | controller.py:98-116 | the search for level v returns an index at or after its start, holding v when it is inside the samples |
| Dht11Signal.NextLevelSkips | controller.py:98-116 | no sample skipped by the search for level v has level v |
| Dht11Signal.DataPulses | controller.py:109-116 | the widths of the HIGH runs from sample i on that a LOW sample closes; DataPulseIsHighRun states what each one is |
| Dht11Signal.ResponseClose | controller.py:100-108 | where the response states end: the LOW found after a LOW and then a HIGH, never past the end of the samples; ResponseEnd and HandshakeCloses state where it lies |
| Dht11Signal.PulseWidthsOf | controller.py:94-116 | the widths the state machine appends: the data pulses past the response; PulseWidths and RemainingFromStart tie the loop to it |
| Dht11Signal.ResponseNext | controller.py:100-108 | the transition of the three response states: LOW moves the first on, HIGH the second, LOW the third, any other level leaves the state; its effect on what is appended is stated by ResponseStep |
| Dht11Signal.ResponseStep | controller.py:100-108 | in the three response states, one sample moves the machine to the next state on the awaited level and otherwise leaves it, with nothing appended |
| Dht11Signal.GapStep | controller.py:109-112 | between pulses, a HIGH sample restarts the length count and enters the pulse state; a LOW sample changes nothing still to be appended |
| Dht11Signal.PulseStep | controller.py:113-116 | inside a pulse, a LOW sample appends the counted length and returns to the gap state; a HIGH sample lengthens the pulse by one |
| Dht11Signal.RemainingFromStart | controller.py:94-96 | from the initial state at the first sample, the machine will append exactly PulseWidthsOf |
| Dht11Signal.PulseWidths | controller.py:94-116 | the five-state loop appends exactly PulseWidthsOf(data): the width of every HIGH run past the response that a LOW sample closes |
| Dht11Signal.DataPulseIsHighRun | controller.py:109-116 | each measured width is a maximal run of HIGH samples: at least 1 long, closed by a LOW sample, and preceded by a LOW sample unless it starts where the search starts |
| Dht11Signal.PulseIsHighRun | controller.py:94-116 | every appended length is at least 1 and equals the number of consecutive HIGH samples of one data pulse, between two LOW samples |
| Dht11Signal.ResponseEnd | controller.py:100-108 | whenever a width is measured, the response ended at a LOW sample c and the widths are the data pulses after c |
| Dht11Frame.Min | controller.py:121 | the shortest width is one of the widths and no width is shorter |
| Dht11Frame.Max | controller.py:122 | the longest width is one of the widths and no width is longer |
| Dht11Frame.BitOf | controller.py:123-130 | one width becomes 1 when it is strictly above the midpoint of the shortest and the longest width, else 0; ThresholdRule states it for the frame |
| Dht11Frame.BitsOf | controller.py:121-130 | one bit per width, thresholded against the frame's own shortest and longest width; ThresholdRule and ThresholdBits state it |
| Dht11Frame.ThresholdRule | controller.py:121-130 | bit k is 1 exactly when width k is strictly above the midpoint; a width at the midpoint and the shortest width give 0; the longest gives 1 unless all widths are equal |
| Dht11Frame.ThresholdBits | controller.py:121-130 | the bit loop yields one bit per width, thresholded at the midpoint of the shortest and the longest width |
| Dht11Frame.BitsValue | controller.py:132-134 | the value of bits shifted in most significant first; BitsValueRange and ToBitsValue state its range and its inverse |
| Dht11Frame.Pack | controller.py:132-136 | one byte per whole group of eight bits; PackBytes and PackFrameBits state that the loop computes it and that it inverts the bit encoding |
| Dht11Frame.Checksum | controller.py:138 | the sum of the first four bytes kept to 8 bits, so always in 0 .. 255 |
| Dht11Frame.BitsValueRange | controller.py:132-136 | n bits shifted in pack to a value in 0 .. 2^n - 1, so each byte is in 0 .. 255 |
| Dht11Frame.PackBytes | controller.py:132-136 | the shift-and-or loop yields one byte per eight bits, most significant bit first, and drops no whole byte |
| Dht11Frame.Decode | controller.py:118-143 | success only for exactly 40 widths, with both reported bytes in 0 .. 255; the error cases are a wrong count or a checksum mismatch |
| Dht11Frame.DecodeFrame | controller.py:118-143 | the count check, bit loop, pack loop and checksum compute Decode: failure on a count other than 40 or a wrong checksum, otherwise (byte 0, byte 2) |
| Dht11Frame.ReadResult | controller.py:71-143 | a reading has both values in 0 .. 255; "no idle level" is reported exactly when the samples run out before the stopping rule fires |
| Dht11Frame.ReadDht11 | controller.py:79-143 | capture, measure and decode compose to ReadResult |
| Dht11FrameRoundTrip.ToBitsValue | controller.py:132-136 | packing the n low-order bits of a value below 2^n, most significant first, gives the value back |
| Dht11FrameRoundTrip.PackFrameBits | controller.py:132-136 | packing the bits of a sequence of bytes gives back the bytes |
| Dht11FrameRoundTrip.ZeroBitPresent | controller.py:121-130 | a frame with a byte other than 255 has a 0 bit |
| Dht11FrameRoundTrip.ThresholdRecovers | controller.py:121-130 | with short < long and at least one 0 bit, thresholding the widths gives back the bits |
| Dht11FrameRoundTrip.EncodedFrameDecodes | controller.py:118-143 | a frame with a byte other than 255, sent as short/long widths, decodes to (byte 0, byte 2) exactly when its checksum is right, and to a checksum mismatch otherwise |
| Dht11FrameRoundTrip.ValidFrameRoundTrip | controller.py:118-143 | round trip: every five bytes with b4 = (b0 + b1 + b2 + b3) mod 256, sent with short < long, decode to (b0, b2); the right checksum rules out the all-ones frame |
| Dht11FrameRoundTrip.UniformWidthsReadAsZero | controller.py:121-143 | forty equal widths decode to (0, 0), whatever the width |
| Dht11LineRoundTrip.TrainWidths | controller.py:109-116 | measuring a train of HIGH pulses, each followed by a LOW gap of its own length and the whole train followed only by HIGH samples, gives back the pulse widths whatever the gaps |
| Dht11LineRoundTrip.TrainRunsShort | controller.py:83-92 | inside a train that follows a LOW sample, with pulses and gaps each at most 101 samples, the capture does not stop |
| Dht11LineRoundTrip.HandshakeCloses | controller.py:100-108 | the response states skip the pulled-up stretch, the sensor's LOW and HIGH, and end at the first LOW of the gap before the first bit, for any lengths with the LOW, the HIGH and the gap each at least 1 sample |
| Dht11LineRoundTrip.ResponseThenTrainIdle | controller.py:83-92 | with every handshake part, pulse and gap at most 101 samples, the capture first stops at the sample completing 102 HIGH samples after the frame |
| Dht11LineRoundTrip.CaptureKeepsFrame | controller.py:79-92 | on the sensor's line followed by any samples at all, with every handshake part, pulse and gap at most 101 samples, the capture stops at the line's last sample, so the whole frame is kept and nothing after it |
| Dht11LineRoundTrip.LineWidths | controller.py:94-116 | the state machine measures the sensor's line (a handshake whose LOW, HIGH and gap are each at least 1 sample, pulses and gaps of at least 1 sample each, released line) as the frame's widths, with no upper bound on any length |
| Dht11LineRoundTrip.SensorFrameRead | controller.py:71-143 | end to end: a sensor that answers with any handshake and sends a frame with a right checksum, short < long pulses and any gaps, each part at most 101 samples, is read as (byte 0, byte 2), whatever the line does afterwards |
| Controller.Initial | controller.py:246-256 | the state before the first cycle satisfies the loop invariant |
| Controller.HumidityAndTemperature | controller.py:276-279 | the DHT11 reading when there is one, otherwise humidity -1 and the barometer temperature truncated by int(); stated by CycleSpec |
| Controller.Truncate | controller.py:279 | Python's int() on a float; its meaning is stated by TruncateTowardZero |
| Controller.TruncateTowardZero | controller.py:279 | int() drops the fraction toward zero: the result keeps the sign and lies less than 1 from the value, on the zero side |
| Controller.PublishStep | controller.py:297-335 | the decimation block: counter, timer, connection and aws_status after it; stated by CycleSpec, PublishCadence and ReconnectCadence |
| Controller.RelayLevel | controller.py:281-294 | the active-low relay level: LOW for an actuator that is on, HIGH otherwise; CycleSpec states the pins through it |
| Controller.Cycle | controller.py:276-359 | one pass of the loop body; its contract is stated by CycleSpec |
| Controller.CycleSpec | controller.py:276-359 | one cycle: the DHT11 fallback (humidity -1, barometer temperature truncated toward zero); fan status 1 exactly from 25 degrees and pump status 1 exactly when the soil line is 1, each pin LOW exactly when its status is 1; barometer temperature, photoresistor and soil value go into the row as read; a boundary exactly when the counter reaches 10; the publish, "E" and drop when connected; the timer step and reconnect at 30 when not; "0" off-boundary; db_status from the insert |
| Controller.Final | controller.py:258-359 | the loop variables that main's loop leaves after a list of cycles; FinalValid, PublishCadence and ReconnectCadence state what they are |
| Controller.Trace | controller.py:258-359 | what each pass of main's loop did, one report per cycle; TraceAt states that report k is cycle k from the state the first k cycles left |
| Controller.TraceAt | controller.py:258-359 | cycle k of a run does what one cycle does from the state the first k cycles left |
| Controller.FinalValid | controller.py:298-335 | between cycles aws_counter stays in 0 .. 9 and the timer in 0 .. 29, and the timer is 0 while connected |
| Controller.PublishCadence | controller.py:298-300 | after n cycles the counter is (c + n) mod 10, and cycle k publishes or reconnects exactly when c + k + 1 is a multiple of 10 |
| Controller.ReconnectCadence | controller.py:313-320 | while every reconnect fails, the loop stays disconnected, the timer counts boundaries mod 30, and a reconnect is tried on cycle k exactly when k + 1 is a multiple of 300 |
| Controller.DbOutcomeIsolated | controller.py:344-359 | the insert outcome changes only db_status: the same cycles with other outcomes end in the same state with the same rows, pins and publish decisions |
| Controller.FinalIgnoresDb | controller.py:344-359 | the loop state after any number of cycles does not depend on the insert outcomes |
| Controller.CycleController.constructor | controller.py:246-256 | counter and timer 0, both statuses "0", connected as the start-up attempt left it |
| Controller.CycleController.Step | controller.py:273-359 | the loop body keeps the invariant, moves the loop variables as Cycle does, and writes only the fan and pump pins |
| Controller.CycleController.DriveRelays | controller.py:281-295 | fan status 1 exactly from 25 degrees and pump status 1 exactly when the soil line is 1, each driving its pin LOW exactly then and HIGH otherwise, leaving the other pins |
| Controller.CycleController.PublishOrReconnect | controller.py:297-335 | the decimation block moves counter, timer, connection and aws_status as the publish rule says |
| Controller.CycleController.Run | controller.py:258-359 | running the loop over a list of cycles ends in Final and reports Trace; afterwards the fan and pump pins, aws_status and db_status are what the last cycle left, or unchanged when no cycle ran |
| Actuators.SetActuators | actuators.py:7-26 | with a reading, the fan pin is LOW and "ON" from 25 degrees, HIGH and "OFF" below; without one, the fan pin is untouched and "Unknown"; the pump pin is LOW and "ON" exactly when the soil line is 1, HIGH and "OFF" otherwise; no other pin changes |

## Left out

- Hardware access is not modelled: pin setup, the start signal sent to the DHT11, the ADC and barometer reads, and every sleep. Sample sequences and sensor values are inputs.
- The capture loop in the source has no bound; it samples until the stopping rule fires. The model runs it over a finite sample sequence. If the sequence ends first, the reader reports `NoIdleLevel`, where the source would still be sampling.
- The AWS connection, DNS check, MQTT publish and JSON payload (controller.py:172-229) are calls into libraries outside the model. Publish and reconnect outcomes are booleans in `CycleInput`.
- The SQLite schema and insert are storage I/O. Only whether the insert succeeds is modelled.
- The row keeps the DHT11 temperature and humidity as integers, where the source converts them with `float()` and stores them in REAL columns. It keeps the barometer temperature as a real number, untruncated, and the photoresistor value, soil value and both statuses as integers, where the source stores the statuses as text. Pressure, altitude and the timestamp are left out of the row, along with the `float()` conversions and their -1.0 defaults. The barometer and ADC reads themselves are inputs. `Truncate` models the `int()` applied to the barometer temperature when the DHT11 read fails.
- The LCD and console output (display.py), the loop's `counter`, the one-second sleep and the `KeyboardInterrupt` clean-up are output and shutdown. They change no decision.
- sensors.py and logger.py are not part of this model.
- Controller.CycleController.Run: covers a finite list of cycles; the source's `while True` loop does not end.
