/** NETPERFMETER_DATA messages as bytes: src/netperfmeterpackets.h. */
module DataMessages {
  import opened MachineIntegers
  import opened MessageFraming

  const NETPERFMETER_DATA: byte := 5
  const NPMDF_FRAME_BEGIN: byte := 1
  const NPMDF_FRAME_END: byte := 2
  const DATA_HEADER_SIZE: nat := 48

  datatype DataMessage = DataMessage(
    isFrameBegin: bool, isFrameEnd: bool,
    flowID: uint32, measurementID: uint64, streamID: uint16,
    frameID: uint32, seqNumber: uint64, byteSeqNumber: uint64, timeStamp: uint64,
    payload: seq<byte>)

  function Power256(n: nat): (p: nat)
    ensures p > 0
  {
    if n == 0 then 1 else 256 * Power256(n - 1)
  }

  /** Network byte order. */
  function BigEndian(x: nat, n: nat): (s: seq<byte>)
    ensures |s| == n
  {
    if n == 0 then [] else BigEndian(x / 256, n - 1) + [x % 256]
  }

  function FromBigEndian(s: seq<byte>): nat {
    if s == [] then 0 else FromBigEndian(s[..|s| - 1]) * 256 + s[|s| - 1]
  }

  lemma {:induction false} BigEndianRoundTrip(x: nat, n: nat)
    requires x < Power256(n)
    ensures FromBigEndian(BigEndian(x, n)) == x
  {
    if n > 0 {
      BigEndianRoundTrip(x / 256, n - 1);
      assert BigEndian(x, n)[..n - 1] == BigEndian(x / 256, n - 1);
    }
  }

  lemma Powers()
    ensures Power256(2) == 0x1_0000 && Power256(4) == 0x1_0000_0000 && Power256(8) == 0x1_0000_0000_0000_0000
  {
    assert Power256(3) == 0x100_0000;
    assert Power256(5) == 0x100_0000_0000;
    assert Power256(6) == 0x1_0000_0000_0000;
    assert Power256(7) == 0x100_0000_0000_0000;
  }

  function Flags(m: DataMessage): byte {
    (if m.isFrameBegin then NPMDF_FRAME_BEGIN else 0) + (if m.isFrameEnd then NPMDF_FRAME_END else 0)
  }

  function Encode(m: DataMessage): (s: seq<byte>)
    ensures |s| == DATA_HEADER_SIZE + |m.payload|
  {
    [NETPERFMETER_DATA, Flags(m)] + BigEndian(DATA_HEADER_SIZE + |m.payload|, 2) + BigEndian(m.flowID, 4)
    + BigEndian(m.measurementID, 8) + BigEndian(m.streamID, 2) + BigEndian(0, 2) + BigEndian(m.frameID, 4)
    + BigEndian(m.seqNumber, 8) + BigEndian(m.byteSeqNumber, 8) + BigEndian(m.timeStamp, 8) + m.payload
  }

  datatype Decoded = NotData | Data(message: DataMessage)

  function Field(s: seq<byte>, at: nat, n: nat): nat
    requires at + n <= |s|
  {
    FromBigEndian(s[at..at + n])
  }

  /** What the receiver takes for a data message. */
  function Decode(s: seq<byte>): Decoded {
    if |s| < DATA_HEADER_SIZE || s[0] != NETPERFMETER_DATA then NotData else
    Fields(s[1], s[4..DATA_HEADER_SIZE], s[DATA_HEADER_SIZE..])
  }

  function Fields(flags: byte, h: seq<byte>, payload: seq<byte>): (d: Decoded)
    requires |h| == DATA_HEADER_SIZE - 4
  {
    Bounds(h, 0, 4); Bounds(h, 4, 8); Bounds(h, 12, 2); Bounds(h, 16, 4); Bounds(h, 20, 8); Bounds(h, 28, 8); Bounds(h, 36, 8);
    Data(DataMessage(flags % 2 == 1, flags / 2 % 2 == 1, Field(h, 0, 4), Field(h, 4, 8), Field(h, 12, 2),
                     Field(h, 16, 4), Field(h, 20, 8), Field(h, 28, 8), Field(h, 36, 8), payload))
  }

  lemma {:induction false} FromBigEndianBound(s: seq<byte>)
    ensures FromBigEndian(s) < Power256(|s|)
  {
    if s != [] { FromBigEndianBound(s[..|s| - 1]); }
  }

  lemma Bounds(h: seq<byte>, at: nat, n: nat)
    requires at + n <= |h| && n in {2, 4, 8}
    ensures Field(h, at, n) < if n == 2 then 0x1_0000 else if n == 4 then 0x1_0000_0000 else 0x1_0000_0000_0000_0000
  {
    Powers();
    FromBigEndianBound(h[at..at + n]);
  }

  lemma HeaderFields(a: seq<byte>, b: seq<byte>, c: seq<byte>, d: seq<byte>, e: seq<byte>, f: seq<byte>, g: seq<byte>, i: seq<byte>)
    requires |a| == 4 && |b| == 8 && |c| == 2 && |d| == 2 && |e| == 4 && |f| == 8 && |g| == 8 && |i| == 8
    ensures var h := a + b + c + d + e + f + g + i;
      && h[0..4] == a && h[4..12] == b && h[12..14] == c && h[14..16] == d && h[16..20] == e && h[20..28] == f && h[28..36] == g && h[36..44] == i
  {
    var h := a + b + c + d + e + f + g + i;
    forall k | 0 <= k < 2 ensures h[12 + k] == c[k] && h[14 + k] == d[k] {}
    forall k | 0 <= k < 4 ensures h[16 + k] == e[k] {}
    forall k | 0 <= k < 8 ensures h[20 + k] == f[k] && h[28 + k] == g[k] && h[36 + k] == i[k] {}
  }

  /** The receiver reads what the sender wrote. */
  lemma DecodeEncode(m: DataMessage)
    ensures Decode(Encode(m)) == Data(m)
  {
    var s := Encode(m);
    hide BigEndian, FromBigEndian;
    Powers();
    BigEndianRoundTrip(m.flowID, 4);
    BigEndianRoundTrip(m.measurementID, 8);
    BigEndianRoundTrip(m.streamID, 2);
    BigEndianRoundTrip(m.frameID, 4);
    BigEndianRoundTrip(m.seqNumber, 8);
    BigEndianRoundTrip(m.byteSeqNumber, 8);
    BigEndianRoundTrip(m.timeStamp, 8);
    var h := BigEndian(m.flowID, 4) + BigEndian(m.measurementID, 8) + BigEndian(m.streamID, 2) + BigEndian(0, 2) + BigEndian(m.frameID, 4)
      + BigEndian(m.seqNumber, 8) + BigEndian(m.byteSeqNumber, 8) + BigEndian(m.timeStamp, 8);
    assert s[4..DATA_HEADER_SIZE] == h;
    HeaderFields(BigEndian(m.flowID, 4), BigEndian(m.measurementID, 8), BigEndian(m.streamID, 2), BigEndian(0, 2), BigEndian(m.frameID, 4),
                 BigEndian(m.seqNumber, 8), BigEndian(m.byteSeqNumber, 8), BigEndian(m.timeStamp, 8));
    assert s[DATA_HEADER_SIZE..] == m.payload;
  }

  /** Where the fields are: type and flags in one byte each, then length, flow, measurement, stream,
      two bytes of padding, frame, sequence numbers and time, each with its first byte highest. */
  lemma EncodeLayout(m: DataMessage)
    requires DATA_HEADER_SIZE + |m.payload| < 0x1_0000
    ensures var s := Encode(m);
      && s[0] == 5 && s[1] == (if m.isFrameBegin then 1 else 0) + (if m.isFrameEnd then 2 else 0)
      && Field(s, 2, 2) == |s| && Field(s, 4, 4) == m.flowID && Field(s, 8, 8) == m.measurementID && Field(s, 16, 2) == m.streamID
      && Field(s, 18, 2) == 0 && Field(s, 20, 4) == m.frameID && Field(s, 24, 8) == m.seqNumber && Field(s, 32, 8) == m.byteSeqNumber
      && Field(s, 40, 8) == m.timeStamp && s[48..] == m.payload
  {
    var s, n := Encode(m), DATA_HEADER_SIZE + |m.payload|;
    hide BigEndian, FromBigEndian;
    Powers();
    BigEndianRoundTrip(n, 2);
    BigEndianRoundTrip(m.flowID, 4);
    BigEndianRoundTrip(m.measurementID, 8);
    BigEndianRoundTrip(m.streamID, 2);
    BigEndianRoundTrip(0, 2);
    BigEndianRoundTrip(m.frameID, 4);
    BigEndianRoundTrip(m.seqNumber, 8);
    BigEndianRoundTrip(m.byteSeqNumber, 8);
    BigEndianRoundTrip(m.timeStamp, 8);
    var h := BigEndian(m.flowID, 4) + BigEndian(m.measurementID, 8) + BigEndian(m.streamID, 2) + BigEndian(0, 2) + BigEndian(m.frameID, 4)
      + BigEndian(m.seqNumber, 8) + BigEndian(m.byteSeqNumber, 8) + BigEndian(m.timeStamp, 8);
    assert s[4..48] == h && s[2..4] == BigEndian(n, 2) && s[48..] == m.payload;
    HeaderFields(BigEndian(m.flowID, 4), BigEndian(m.measurementID, 8), BigEndian(m.streamID, 2), BigEndian(0, 2), BigEndian(m.frameID, 4),
                 BigEndian(m.seqNumber, 8), BigEndian(m.byteSeqNumber, 8), BigEndian(m.timeStamp, 8));
    assert s[4..8] == h[0..4] && s[8..16] == h[4..12] && s[16..18] == h[12..14] && s[18..20] == h[14..16];
    assert s[20..24] == h[16..20] && s[24..32] == h[20..28] && s[32..40] == h[28..36] && s[40..48] == h[36..44];
  }

  /** Two and four bytes with the first one highest. */
  lemma FieldValue(s: seq<byte>, at: nat)
    requires at + 4 <= |s|
    ensures Field(s, at, 2) == s[at] as int * 0x100 + s[at + 1] as int
    ensures Field(s, at, 4) == s[at] as int * 0x100_0000 + s[at + 1] as int * 0x1_0000 + s[at + 2] as int * 0x100 + s[at + 3] as int
  {
    var t, u := s[at..at + 2], s[at..at + 4];
    assert t[..1] == [s[at]] && t[..1][..0] == [] && FromBigEndian([]) == 0;
    assert FromBigEndian(t[..1]) == s[at] as int && FromBigEndian(t) == s[at] as int * 0x100 + s[at + 1] as int;
    assert u[..3] == s[at..at + 3] && u[..3][..2] == t;
    assert FromBigEndian(u[..3]) == FromBigEndian(t) * 0x100 + s[at + 2] as int;
  }

  /** A data message is a well-formed message of the byte stream. */
  lemma EncodeIsWellFormed(m: DataMessage, capacity: nat, bufferSize: nat)
    requires DATA_HEADER_SIZE + |m.payload| < 0x1_0000
    requires DATA_HEADER_SIZE + |m.payload| <= capacity && DATA_HEADER_SIZE + |m.payload| <= bufferSize
    ensures WellFormed(Encode(m), capacity, bufferSize)
  {
    var n := DATA_HEADER_SIZE + |m.payload|;
    var b := BigEndian(n, 2);
    assert b[1] == n % 256 && b[0] == BigEndian(n / 256, 1)[0] == n / 256 % 256;
    assert Encode(m)[2] == b[0] && Encode(m)[3] == b[1];
  }
}
