/** The pure part of the pan/tilt streaming loop: oversampling one ADC
    channel into a little-endian 16-bit reading, laying out the six-byte
    packet, and framing it with SLIP into an eleven-byte buffer. */
module PanTilt {
  import opened Slip

  newtype U16 = v: int | 0 <= v < 0x1_0000

  datatype Option<T> = None | Some(value: T)

  /** `usize` on the RP2040 is 32 bits wide. */
  const USIZE_LIMIT: int := 0x1_0000_0000

  /** The burst length both channels are oversampled with. */
  const SAMPLES: nat := 64

  /** The longest burst whose sum of 16-bit samples fits a 32-bit `usize`:
      65537 * 65535 == 2^32 - 1. */
  const MAX_SAMPLES: nat := 65537

  /** The length of the frame buffer of one iteration. */
  const FRAME_CAPACITY: nat := 11

  /** Both leading bytes of a packet (category and sub-type). */
  const MARKER: Byte := 0x01

  /** A packet as the host reads it back. */
  datatype Reading = Reading(pan: U16, tilt: U16)

  // ---------------------------------------------------------------------
  // Oversampling
  // ---------------------------------------------------------------------

  /** The sum of a burst, accumulated from the first sample on. */
  function Sum(s: seq<U16>): nat
  {
    if s == [] then 0 else Sum(s[..|s| - 1]) + s[|s| - 1] as int
  }

  /** A burst whose samples all lie in [lo, hi] sums to between |s| * lo
      and |s| * hi. */
  lemma SumWithin(s: seq<U16>, lo: int, hi: int)
    requires forall k :: 0 <= k < |s| ==> lo <= s[k] as int <= hi
    ensures |s| * lo <= Sum(s) <= |s| * hi
  {
    SumAtLeast(s, lo);
    SumAtMost(s, hi);
  }

  lemma {:induction false} SumAtLeast(s: seq<U16>, lo: int)
    requires forall k :: 0 <= k < |s| ==> lo <= s[k] as int
    ensures |s| * lo <= Sum(s)
  {
    if s != [] {
      var n := |s| - 1;
      SumAtLeast(s[..n], lo);
      assert |s| * lo == n * lo + lo;
    }
  }

  lemma {:induction false} SumAtMost(s: seq<U16>, hi: int)
    requires forall k :: 0 <= k < |s| ==> s[k] as int <= hi
    ensures Sum(s) <= |s| * hi
  {
    if s != [] {
      var n := |s| - 1;
      SumAtMost(s[..n], hi);
      assert |s| * hi == n * hi + hi;
    }
  }

  /** A burst of at most MAX_SAMPLES samples never overflows the 32-bit
      accumulator. */
  lemma SumFitsUsize(s: seq<U16>)
    requires |s| <= MAX_SAMPLES
    ensures Sum(s) < USIZE_LIMIT
  {
    SumWithin(s, 0, 0xFFFF);
  }

  /** The mean of a burst, rounded down, as the 16-bit reading it is sent as. */
  function Mean(s: seq<U16>): (m: U16)
    requires |s| > 0
    ensures m as int * |s| <= Sum(s) < (m as int + 1) * |s|
  {
    SumWithin(s, 0, 0xFFFF);
    assert Sum(s) / |s| <= 0xFFFF;
    (Sum(s) / |s|) as U16
  }

  lemma MulMonotone(a: int, b: int, n: nat)
    requires a <= b
    ensures a * n <= b * n
  {
  }

  /** The mean lies between the smallest and the largest sample. */
  lemma MeanWithin(s: seq<U16>, lo: int, hi: int)
    requires |s| > 0
    requires forall k :: 0 <= k < |s| ==> lo <= s[k] as int <= hi
    ensures lo <= Mean(s) as int <= hi
  {
    var m, n := Mean(s) as int, |s|;
    SumWithin(s, lo, hi);
    if m < lo {
      MulMonotone(m + 1, lo, n);
    }
    if hi < m {
      MulMonotone(hi + 1, m, n);
    }
  }

  /** A burst of identical samples has exactly that sample as its mean. */
  lemma MeanOfConstant(s: seq<U16>, v: U16)
    requires |s| > 0
    requires forall k :: 0 <= k < |s| ==> s[k] == v
    ensures Mean(s) == v
  {
    MeanWithin(s, v as int, v as int);
  }

  /** The bytes of a 16-bit value, least significant first. */
  function LeBytes(v: U16): (b: seq<Byte>)
    ensures |b| == 2 && FromLe(b) == v as int
  {
    [(v % 0x100) as Byte, (v / 0x100) as Byte]
  }

  /** The 16-bit value of two bytes, least significant first. */
  function FromLe(b: seq<Byte>): (v: int)
    requires |b| == 2
    ensures 0 <= v < 0x1_0000
  {
    b[0] as int + 0x100 * b[1] as int
  }

  /** Sums a burst of samples and returns its mean, rounded down, as two
      little-endian bytes. The 32-bit additions never wrap and the
      conversion to 16 bits never truncates. */
  method AdcOversample(samples: seq<U16>) returns (reading: seq<Byte>)
    requires 0 < |samples| <= MAX_SAMPLES
    ensures reading == LeBytes(Mean(samples))
    ensures FromLe(reading) * |samples| <= Sum(samples) < (FromLe(reading) + 1) * |samples|
  {
    var sum: int := 0;
    for i := 0 to |samples|
      invariant sum == Sum(samples[..i])
      invariant sum <= i * 0xFFFF
    {
      assert samples[..i + 1][..i] == samples[..i];
      assert sum + samples[i] as int < USIZE_LIMIT;
      sum := sum + samples[i] as int;
    }
    assert samples[..|samples|] == samples;
    var mean := sum / |samples|;
    var res := (mean % 0x1_0000) as U16;
    assert res == Mean(samples);
    reading := LeBytes(res);
  }

  // ---------------------------------------------------------------------
  // The packet
  // ---------------------------------------------------------------------

  /** The six payload bytes of one iteration: two markers, then the pan
      reading, then the tilt reading, each as its two little-endian bytes. */
  function Packet(pan: seq<Byte>, tilt: seq<Byte>): seq<Byte>
    requires |pan| == 2 && |tilt| == 2
  {
    [MARKER, MARKER, pan[0], pan[1], tilt[0], tilt[1]]
  }

  /** The host's reading of a decoded packet: six bytes led by two markers. */
  function ParsePacket(p: seq<Byte>): Option<Reading>
  {
    if |p| == 6 && p[0] == MARKER && p[1] == MARKER
    then Some(Reading(FromLe(p[2..4]) as U16, FromLe(p[4..6]) as U16))
    else None
  }

  /** The packet carries both readings: parsing it recovers them. */
  lemma PacketRoundTrip(pan: U16, tilt: U16)
    ensures ParsePacket(Packet(LeBytes(pan), LeBytes(tilt))) == Some(Reading(pan, tilt))
  {
    var p := Packet(LeBytes(pan), LeBytes(tilt));
    assert p[2..4] == LeBytes(pan);
    assert p[4..6] == LeBytes(tilt);
  }

  /** The packet layout for pan 0x1234 and tilt 0xABCD. */
  lemma PacketExample()
    ensures Packet(LeBytes(0x1234), LeBytes(0xABCD)) == [0x01, 0x01, 0x34, 0x12, 0xCD, 0xAB]
  {
  }

  // ---------------------------------------------------------------------
  // The frame
  // ---------------------------------------------------------------------

  lemma MarkersNotReserved()
    ensures ReservedCount([MARKER, MARKER]) == 0
  {
    assert !IsReserved(MARKER);
    assert [MARKER, MARKER][1..] == [MARKER];
    assert [MARKER][1..] == [];
    assert ReservedCount([MARKER]) == 0;
  }

  /** The framed packet is seven bytes plus one per reserved byte among the
      four reading bytes, so it always fits the eleven-byte buffer. */
  lemma FrameLength(pan: seq<Byte>, tilt: seq<Byte>)
    requires |pan| == 2 && |tilt| == 2
    ensures |Encoded(Packet(pan, tilt))| == 7 + ReservedCount(pan + tilt)
    ensures |Encoded(Packet(pan, tilt))| <= FRAME_CAPACITY
  {
    assert Packet(pan, tilt) == [MARKER, MARKER] + (pan + tilt);
    ReservedCountConcat([MARKER, MARKER], pan + tilt);
    MarkersNotReserved();
    EncodedLength(Packet(pan, tilt));
    EncodedLength(pan + tilt);
  }

  /** Eleven bytes are needed as well: a reading of 0xC0C0 on both channels
      fills the buffer exactly. */
  lemma FrameCapacityIsTight()
    ensures |Encoded(Packet(LeBytes(0xC0C0), LeBytes(0xC0C0)))| == FRAME_CAPACITY
  {
    FrameLength(LeBytes(0xC0C0), LeBytes(0xC0C0));
    var r: seq<Byte> := [END, END, END, END];
    assert LeBytes(0xC0C0) + LeBytes(0xC0C0) == r;
    assert r[1..][1..][1..][1..] == [];
  }

  // ---------------------------------------------------------------------
  // One iteration of the loop
  // ---------------------------------------------------------------------

  /** One iteration of the streaming loop, given the bursts the ADC
      delivers in the order they are sampled: the first is reduced to the
      pan reading and the second to the tilt reading. The packet is laid
      out and encoded into an eleven-byte buffer, and the bytes handed to
      the transport are returned. The frame decodes back to the packet. */
  method Tick(bursts: seq<seq<U16>>) returns (frame: seq<Byte>)
    requires |bursts| == 2 && |bursts[0]| == SAMPLES && |bursts[1]| == SAMPLES
    ensures frame == Encoded(Packet(LeBytes(Mean(bursts[0])), LeBytes(Mean(bursts[1]))))
    ensures |frame| <= FRAME_CAPACITY
    ensures ScanBuffer(frame).ended && ScanBuffer(frame).readAmount == |frame|
    ensures ParsePacket(ScanBuffer(frame).out) == Some(Reading(Mean(bursts[0]), Mean(bursts[1])))
  {
    var pan := AdcOversample(bursts[0]);
    var tilt := AdcOversample(bursts[1]);

    var packet := Packet(pan, tilt);
    var buf := new Byte[FRAME_CAPACITY](_ => 0);
    FrameLength(pan, tilt);
    var len := EncodeSlip(packet, buf);
    frame := buf[..len];

    DecodeEncoded(packet, []);
    assert Encoded(packet) + [] == frame;
    PacketRoundTrip(Mean(bursts[0]), Mean(bursts[1]));
  }
}
