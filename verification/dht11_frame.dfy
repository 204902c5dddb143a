/**
 * The frame side of the DHT11 reader: pulse widths become bits through an
 * adaptive threshold, bits become five bytes, and the checksum byte decides
 * whether (humidity, temperature) is reported.
 */
module Dht11Frame {
  import opened Wrappers
  import opened Gpio
  import opened Dht11Signal

  /** A valid frame has exactly this many data pulses. */
  const FRAME_BITS := 40

  /** A decoded bit. */
  type Bit = b: int | b == 0 || b == 1

  /** The pair read_dht11_dat returns on success: the integral humidity and temperature bytes. */
  datatype Reading = Reading(humidity: int, temperature: int)

  /** Why a read yields no reading (the source returns False for the last two). */
  datatype DecodeError =
    | NoIdleLevel             // the samples ran out before the line settled
    | WrongPulseCount(count: nat)
    | ChecksumMismatch

  // ---------------------------------------------------------------------------
  // Adaptive threshold
  // ---------------------------------------------------------------------------

  /** The shortest width (Python's min). */
  function Min(s: seq<int>): (m: int)
    requires |s| > 0
    ensures m in s && forall x :: x in s ==> m <= x
  {
    if |s| == 1 then s[0] else
    var rest := Min(s[1..]);
    assert forall x :: x in s ==> x == s[0] || x in s[1..];
    if s[0] <= rest then s[0] else rest
  }

  /** The longest width (Python's max). */
  function Max(s: seq<int>): (m: int)
    requires |s| > 0
    ensures m in s && forall x :: x in s ==> x <= m
  {
    if |s| == 1 then s[0] else
    var rest := Max(s[1..]);
    assert forall x :: x in s ==> x == s[0] || x in s[1..];
    if s[0] >= rest then s[0] else rest
  }

  /**
   * A width is a 1 when it lies strictly above the midpoint of the shortest and
   * the longest width. The source compares against `(longest + shortest) / 2`
   * with true division; doubling both sides keeps the test in integers.
   */
  function BitOf(w: int, shortest: int, longest: int): Bit
  {
    if 2 * w > shortest + longest then 1 else 0
  }

  /** The bits of a sequence of widths, thresholded at its own midpoint. */
  function BitsOf(ws: seq<int>): seq<Bit>
    requires |ws| > 0
  {
    seq(|ws|, k requires 0 <= k < |ws| => BitOf(ws[k], Min(ws), Max(ws)))
  }

  /**
   * The threshold rule: bit 1 exactly when the width is strictly above the
   * midpoint, so a width equal to the midpoint is a 0 and the shortest width is
   * always a 0; the longest width is a 1 unless all widths are equal.
   */
  lemma {:induction false} ThresholdRule(ws: seq<int>, k: nat)
    requires k < |ws|
    ensures |BitsOf(ws)| == |ws|
    ensures BitsOf(ws)[k] == 1 <==> 2 * ws[k] > Min(ws) + Max(ws)
    ensures 2 * ws[k] == Min(ws) + Max(ws) ==> BitsOf(ws)[k] == 0
    ensures ws[k] == Min(ws) ==> BitsOf(ws)[k] == 0
    ensures ws[k] == Max(ws) ==> (BitsOf(ws)[k] == 1 <==> Min(ws) < Max(ws))
  {
  }

  /** The bit loop of read_dht11_dat. */
  method ThresholdBits(lengths: seq<int>) returns (bits: seq<Bit>)
    requires |lengths| > 0
    ensures bits == BitsOf(lengths)
  {
    var shortest := Min(lengths);
    var longest := Max(lengths);
    bits := [];
    for i := 0 to |lengths|
      invariant bits == BitsOf(lengths)[..i]
    {
      var bit: Bit := if 2 * lengths[i] > shortest + longest then 1 else 0;
      bits := bits + [bit];
    }
  }

  // ---------------------------------------------------------------------------
  // Packing and checksum
  // ---------------------------------------------------------------------------

  /** The value of a bit string read most significant bit first. */
  function BitsValue(bits: seq<Bit>): int
  {
    if bits == [] then 0 else 2 * BitsValue(bits[..|bits| - 1]) + bits[|bits| - 1]
  }

  function Pow2(n: nat): nat
  {
    if n == 0 then 1 else 2 * Pow2(n - 1)
  }

  /** n bits hold a value in 0 .. 2^n - 1; so a packed byte is in 0 .. 255. */
  lemma {:induction false} BitsValueRange(bits: seq<Bit>)
    ensures 0 <= BitsValue(bits) < Pow2(|bits|)
  {
    if bits != [] {
      BitsValueRange(bits[..|bits| - 1]);
    }
  }

  /** The bytes of a bit string, eight bits each, most significant bit first; a trailing partial byte is dropped. */
  function Pack(bits: seq<Bit>): seq<int>
  {
    seq(|bits| / 8, k requires 0 <= k < |bits| / 8 => BitsValue(bits[8 * k .. 8 * k + 8]))
  }

  /**
   * The packing loop of read_dht11_dat. The source shifts and ors each bit in,
   * `(byte << 1) | bit`; with a bit of 0 or 1 that is `2 * byte + bit`.
   */
  method PackBytes(bits: seq<Bit>) returns (bytes: seq<int>)
    ensures bytes == Pack(bits)
  {
    bytes := [];
    var byte: int := 0;
    var i := 0;
    while i < |bits|
      invariant 0 <= i <= |bits|
      invariant 8 * |bytes| <= i < 8 * |bytes| + 8
      invariant byte == BitsValue(bits[8 * |bytes| .. i])
      invariant PackedSoFar(bits, bytes)
    {
      ShiftIn(bits, 8 * |bytes|, i);
      byte := 2 * byte + bits[i];
      ByteBoundary(i, |bytes|);
      if (i + 1) % 8 == 0 {
        PackedOneMore(bits, bytes, byte);
        bytes := bytes + [byte];
        byte := 0;
      }
      i := i + 1;
    }
    ByteCount(|bits|, |bytes|);
  }

  /** bytes are the first |bytes| bytes of bits. */
  ghost predicate PackedSoFar(bits: seq<Bit>, bytes: seq<int>)
  {
    forall k :: 0 <= k < |bytes| ==> 8 * k + 8 <= |bits| && bytes[k] == BitsValue(bits[8 * k .. 8 * k + 8])
  }

  /** A completed byte extends the bytes packed so far. */
  lemma {:induction false} PackedOneMore(bits: seq<Bit>, bytes: seq<int>, byte: int)
    requires PackedSoFar(bits, bytes)
    requires 8 * |bytes| + 8 <= |bits| && byte == BitsValue(bits[8 * |bytes| .. 8 * |bytes| + 8])
    ensures PackedSoFar(bits, bytes + [byte])
  {
  }

  /** Shifting bit i into the value of bits[a .. i] gives the value of bits[a .. i + 1]. */
  lemma {:induction false} ShiftIn(bits: seq<Bit>, a: nat, i: nat)
    requires a <= i < |bits|
    ensures BitsValue(bits[a .. i + 1]) == 2 * BitsValue(bits[a .. i]) + bits[i]
  {
    assert bits[a .. i + 1][..i - a] == bits[a .. i];
  }

  /** With 8m <= i < 8m + 8, bit i closes a byte exactly when it is bit 8m + 7. */
  lemma {:induction false} ByteBoundary(i: int, m: nat)
    requires 8 * m <= i < 8 * m + 8
    ensures (i + 1) % 8 == 0 <==> i + 1 == 8 * m + 8
  {
  }

  /** n bits with 8m <= n < 8m + 8 hold m whole bytes. */
  lemma {:induction false} ByteCount(n: int, m: nat)
    requires 8 * m <= n < 8 * m + 8
    ensures n / 8 == m
  {
  }

  /** The 8-bit additive checksum of the first four bytes (`& 0xFF` on a non-negative sum). */
  function Checksum(bytes: seq<int>): (sum: int)
    requires |bytes| >= 4
    ensures 0 <= sum < 256
  {
    (bytes[0] + bytes[1] + bytes[2] + bytes[3]) % 256
  }

  // ---------------------------------------------------------------------------
  // Decoding a frame
  // ---------------------------------------------------------------------------

  /**
   * What read_dht11_dat makes of the pulse widths: anything but 40 widths is
   * refused, so is a frame whose fifth byte is not the checksum of the first
   * four; otherwise the first and third bytes, each in 0 .. 255.
   */
  function Decode(lengths: seq<int>): (r: Result<Reading, DecodeError>)
    ensures r.Ok? ==> |lengths| == FRAME_BITS
    ensures r.Ok? ==> 0 <= r.value.humidity < 256 && 0 <= r.value.temperature < 256
    ensures r.Err? ==> r.error != NoIdleLevel
  {
    if |lengths| != FRAME_BITS then Err(WrongPulseCount(|lengths|))
    else
      var bits := BitsOf(lengths);
      var bytes := Pack(bits);
      if bytes[4] != Checksum(bytes) then Err(ChecksumMismatch)
      else
        BitsValueRange(bits[0..8]);
        BitsValueRange(bits[16..24]);
        Ok(Reading(bytes[0], bytes[2]))
  }

  /** The thresholding, packing and checksum stages of read_dht11_dat. */
  method DecodeFrame(lengths: seq<int>) returns (r: Result<Reading, DecodeError>)
    ensures r == Decode(lengths)
  {
    if |lengths| != FRAME_BITS {
      return Err(WrongPulseCount(|lengths|));
    }
    var bits := ThresholdBits(lengths);
    var bytes := PackBytes(bits);
    var checksum := (bytes[0] + bytes[1] + bytes[2] + bytes[3]) % 256;
    if bytes[4] != checksum {
      return Err(ChecksumMismatch);
    }
    return Ok(Reading(bytes[0], bytes[2]));
  }

  /**
   * read_dht11_dat as a whole, over the samples the line delivers: capture
   * until the line settles, measure the pulses, decode the frame.
   */
  function ReadResult(line: seq<Level>): (r: Result<Reading, DecodeError>)
    ensures r.Ok? ==> 0 <= r.value.humidity < 256 && 0 <= r.value.temperature < 256
    ensures r == Err(NoIdleLevel) <==> FirstIdle(line, 0) == |line|
  {
    var stop := FirstIdle(line, 0);
    if stop == |line| then Err(NoIdleLevel) else Decode(PulseWidthsOf(line[..stop + 1]))
  }

  method ReadDht11(line: seq<Level>) returns (r: Result<Reading, DecodeError>)
    ensures r == ReadResult(line)
  {
    var data, idle := Capture(line);
    if !idle {
      return Err(NoIdleLevel);
    }
    var lengths := PulseWidths(data);
    r := DecodeFrame(lengths);
    ReadResultSettled(line);
  }

  /** When the line settles, the result is the decoding of the samples up to that point. */
  lemma {:induction false} ReadResultSettled(line: seq<Level>)
    requires FirstIdle(line, 0) < |line|
    ensures ReadResult(line) == Decode(PulseWidthsOf(line[..FirstIdle(line, 0) + 1]))
  {
  }
}

/**
 * The round trip of the frame decoder: five bytes sent as 40 pulses, short for
 * a 0 and long for a 1, most significant bit first, decode back to the bytes.
 */
module Dht11FrameRoundTrip {
  import opened Wrappers
  import opened Dht11Frame

  /** The n low-order bits of v, most significant first. */
  function ToBits(v: nat, n: nat): (bits: seq<Bit>)
    ensures |bits| == n
  {
    if n == 0 then [] else ToBits(v / 2, n - 1) + [v % 2]
  }

  /** Reading n bits back gives the value they were taken from. */
  lemma {:induction false} ToBitsValue(v: nat, n: nat)
    requires v < Pow2(n)
    ensures BitsValue(ToBits(v, n)) == v
  {
    if n > 0 {
      Halve(v, Pow2(n - 1));
      ToBitsValue(v / 2, n - 1);
      DropLast(ToBits(v / 2, n - 1), v % 2);
    }
  }

  /** A value below 2p halves to a value below p, and halving and the low bit give it back. */
  lemma {:induction false} Halve(v: nat, p: nat)
    requires v < 2 * p
    ensures v / 2 < p && v == 2 * (v / 2) + v % 2
  {
  }

  lemma {:induction false} DropLast(a: seq<Bit>, b: Bit)
    ensures (a + [b])[..|a|] == a && (a + [b])[|a|] == b
  {
  }

  predicate IsByte(b: int) { 0 <= b < 256 }

  /** The bits of a sequence of bytes, eight per byte, most significant first. */
  function FrameBits(bytes: seq<int>): (bits: seq<Bit>)
    requires forall j :: 0 <= j < |bytes| ==> IsByte(bytes[j])
    ensures |bits| == 8 * |bytes|
  {
    if bytes == [] then [] else
    assert IsByte(bytes[0]);
    ToBits(bytes[0], 8) + FrameBits(bytes[1..])
  }

  /** The pulse widths a sensor sends for a bit string. */
  function Widths(bits: seq<Bit>, short: int, long: int): (ws: seq<int>)
    ensures |ws| == |bits|
  {
    seq(|bits|, k requires 0 <= k < |bits| => if bits[k] == 1 then long else short)
  }

  /** Packing eight leading bits yields their value in front of the packing of the rest. */
  lemma {:induction false} PackCons(x: seq<Bit>, y: seq<Bit>)
    requires |x| == 8
    ensures Pack(x + y) == [BitsValue(x)] + Pack(y)
  {
    var p, q := Pack(x + y), [BitsValue(x)] + Pack(y);
    assert |p| == |q|;
    forall k | 0 <= k < |p| ensures p[k] == q[k] {
      if k == 0 {
        assert (x + y)[0..8] == x;
      } else {
        assert (x + y)[8 * k .. 8 * k + 8] == y[8 * (k - 1) .. 8 * (k - 1) + 8];
      }
    }
  }

  /** Packing a frame's bits gives back its bytes. */
  lemma {:induction false} PackFrameBits(bytes: seq<int>)
    requires forall j :: 0 <= j < |bytes| ==> IsByte(bytes[j])
    ensures Pack(FrameBits(bytes)) == bytes
  {
    if bytes != [] {
      assert Pow2(8) == 256;
      ToBitsValue(bytes[0], 8);
      PackCons(ToBits(bytes[0], 8), FrameBits(bytes[1..]));
      PackFrameBits(bytes[1..]);
    }
  }

  /** A bit string of n ones has the largest n-bit value. */
  lemma {:induction false} AllOnesValue(bits: seq<Bit>)
    requires forall k :: 0 <= k < |bits| ==> bits[k] == 1
    ensures BitsValue(bits) == Pow2(|bits|) - 1
  {
    if bits != [] {
      AllOnesValue(bits[..|bits| - 1]);
    }
  }

  /** A frame with a byte other than 255 has a 0 bit. */
  lemma {:induction false} ZeroBitPresent(bytes: seq<int>, j: nat)
    requires forall i :: 0 <= i < |bytes| ==> IsByte(bytes[i])
    requires j < |bytes| && bytes[j] != 255
    ensures 0 in FrameBits(bytes)
  {
    if j == 0 {
      var b := ToBits(bytes[0], 8);
      if forall k :: 0 <= k < 8 ==> b[k] == 1 {
        AllOnesValue(b);
        assert Pow2(8) == 256;
        ToBitsValue(bytes[0], 8);
        assert false;
      }
      var k :| 0 <= k < 8 && b[k] != 1;
      assert (b + FrameBits(bytes[1..]))[k] == 0;
    } else {
      ZeroBitPresent(bytes[1..], j - 1);
    }
  }

  /** A bit string with a 0 in it survives the adaptive threshold: short widths read as 0, long ones as 1. */
  lemma {:induction false} ThresholdRecovers(bits: seq<Bit>, short: int, long: int)
    requires short < long && 0 in bits
    ensures BitsOf(Widths(bits, short, long)) == bits
  {
    var ws := Widths(bits, short, long);
    var z :| 0 <= z < |bits| && bits[z] == 0;
    assert ws[z] == short && short in ws;
    assert forall x :: x in ws ==> x == short || x == long;
    assert Min(ws) == short;
    forall k | 0 <= k < |bits| ensures BitsOf(ws)[k] == bits[k] {
      if bits[k] == 1 {
        assert ws[k] == long;
      }
    }
  }

  /**
   * A frame with at least one byte other than 255, sent with short < long, is
   * decoded to its first and third bytes exactly when its fifth byte is the
   * checksum of the first four, and refused as a checksum mismatch otherwise.
   */
  lemma {:induction false} EncodedFrameDecodes(bytes: seq<int>, short: int, long: int, j: nat)
    requires |bytes| == 5 && forall i :: 0 <= i < 5 ==> IsByte(bytes[i])
    requires j < 5 && bytes[j] != 255
    requires short < long
    ensures Decode(Widths(FrameBits(bytes), short, long)) ==
              if bytes[4] == Checksum(bytes) then Ok(Reading(bytes[0], bytes[2])) else Err(ChecksumMismatch)
  {
    ZeroBitPresent(bytes, j);
    ThresholdRecovers(FrameBits(bytes), short, long);
    PackFrameBits(bytes);
  }

  /** Round trip: every frame whose checksum is right decodes to (humidity, temperature) = (bytes[0], bytes[2]). */
  lemma {:induction false} ValidFrameRoundTrip(bytes: seq<int>, short: int, long: int)
    requires |bytes| == 5 && forall i :: 0 <= i < 5 ==> IsByte(bytes[i])
    requires bytes[4] == Checksum(bytes)
    requires short < long
    ensures Decode(Widths(FrameBits(bytes), short, long)) == Ok(Reading(bytes[0], bytes[2]))
  {
    // a right checksum rules out the all-ones frame: 4 * 255 % 256 == 252
    var j :=
      if bytes[0] != 255 then 0 else if bytes[1] != 255 then 1
      else if bytes[2] != 255 then 2 else if bytes[3] != 255 then 3 else 4;
    EncodedFrameDecodes(bytes, short, long, j);
  }

  /** n zero bits have the value 0. */
  lemma {:induction false} ZerosValue(bits: seq<Bit>)
    requires forall k :: 0 <= k < |bits| ==> bits[k] == 0
    ensures BitsValue(bits) == 0
  {
    if bits != [] {
      ZerosValue(bits[..|bits| - 1]);
    }
  }

  /**
   * Forty equal widths are read as the all-zero frame, which passes the
   * checksum. So the all-ones frame (every width long), whose checksum byte
   * 255 is wrong, is accepted as humidity 0 and temperature 0.
   */
  lemma {:induction false} UniformWidthsReadAsZero(w: int)
    ensures Decode(seq(FRAME_BITS, _ => w)) == Ok(Reading(0, 0))
  {
    var ws := seq(FRAME_BITS, _ => w);
    assert Min(ws) == w && Max(ws) == w;
    var bits := BitsOf(ws);
    forall k | 0 <= k < 5 ensures Pack(bits)[k] == 0 {
      ZerosValue(bits[8 * k .. 8 * k + 8]);
    }
  }
}
