/** Sending data frames: src/transfer.cc. */
module Transfers {
  import opened MachineIntegers
  import opened MessageFraming
  import opened DataMessages

  const MAXIMUM_MESSAGE_SIZE: nat := 65536

  // ----- Payload pattern -----------------------------------------------------------------------

  /** The bytes 30 to 127 in turn, backwards for the other direction. */
  function PatternByte(i: nat, reverse: bool): byte {
    if reverse then 127 - i % 98 else 30 + i % 98
  }

  function Pattern(n: nat, reverse: bool): (s: seq<byte>)
    ensures |s| == n
  {
    seq(n, i requires 0 <= i < n => PatternByte(i, reverse))
  }

  /** Counting from 30 up to 127 and again from 30, or from 127 down to 30 and again from 127. */
  ghost predicate Counts(s: seq<byte>, reverse: bool) {
    && (s != [] ==> s[0] == if reverse then 127 else 30)
    && forall i | 0 < i < |s| :: Follows(s[i - 1], s[i], reverse)
  }

  predicate Follows(b: byte, next: byte, reverse: bool) {
    if reverse then next == if b == 30 then 127 else b - 1 else next == if b == 127 then 30 else b + 1
  }

  lemma PatternCounts(n: nat, reverse: bool)
    ensures Counts(Pattern(n, reverse), reverse)
  {
    forall i | 0 < i < n ensures Follows(PatternByte(i - 1, reverse), PatternByte(i, reverse), reverse) { PatternNext(i - 1, reverse); }
  }

  lemma PatternNext(i: nat, reverse: bool)
    ensures Follows(PatternByte(i, reverse), PatternByte(i + 1, reverse), reverse)
  {
    if (i + 1) % 98 == 0 { assert i % 98 == 97; } else { assert i % 98 == (i + 1) % 98 - 1; }
  }

  lemma PatternStart(reverse: bool)
    ensures PatternByte(0, reverse) == if reverse then 127 else 30
  {
  }

  /** Fills `length` bytes of the buffer from `at` on. */
  method FillPayload(buffer: array<byte>, at: nat, length: nat, reverse: bool)
    requires at + length <= buffer.Length
    modifies buffer
    ensures buffer[..at] == old(buffer[..at]) && buffer[at..at + length] == Pattern(length, reverse)
    ensures Counts(buffer[at..at + length], reverse)
  {
    PatternCounts(length, reverse);
    PatternStart(reverse);
    hide PatternByte;
    var i := 0;
    if !reverse {
      var c: byte := 30;
      while i < length
        invariant 0 <= i <= length && c == PatternByte(i, reverse)
        invariant buffer[..at] == old(buffer[..at])
        invariant forall k | 0 <= k < i :: buffer[at + k] == PatternByte(k, reverse)
      {
        PatternNext(i, reverse);
        buffer[at + i] := c;
        c := c + 1;
        if c > 127 {
          c := 30;
        }
        i := i + 1;
      }
    } else {
      var c: byte := 127;
      while i < length
        invariant 0 <= i <= length && c == PatternByte(i, reverse)
        invariant buffer[..at] == old(buffer[..at])
        invariant forall k | 0 <= k < i :: buffer[at + k] == PatternByte(k, reverse)
      {
        PatternNext(i, reverse);
        buffer[at + i] := c;
        c := c - 1;
        if c < 30 {
          c := 127;
        }
        i := i + 1;
      }
    }
  }

  // ----- One frame as a function -----------------------------------------------------------------

  /** What the messages of one frame have in common. */
  datatype Frame = Frame(flowID: uint32, measurementID: uint64, streamID: uint16, incoming: bool, maxMsgSize: uint16,
                         frameID: uint32, byteSeqNumber: uint64, now: uint64, size: nat)

  function Min(a: int, b: int): int { if a < b then a else b }
  function Max(a: int, b: int): int { if a < b then b else a }

  /** The payload-carrying size of the next message, and its size on the wire. */
  function ChunkSize(f: Frame, bytesSent: nat): int {
    Min(f.size - bytesSent, Min(f.maxMsgSize, MAXIMUM_MESSAGE_SIZE))
  }

  function WireSize(f: Frame, bytesSent: nat): (n: nat)
    ensures DATA_HEADER_SIZE <= n < 0x1_0000
  {
    Max(ChunkSize(f, bytesSent), DATA_HEADER_SIZE)
  }

  function MessageAt(f: Frame, bytesSent: nat, seqNumber: uint64): (m: DataMessage)
    ensures DATA_HEADER_SIZE + |m.payload| == WireSize(f, bytesSent)
  {
    DataMessage(bytesSent == 0, bytesSent + ChunkSize(f, bytesSent) >= f.size, f.flowID, f.measurementID, f.streamID,
                f.frameID, seqNumber, f.byteSeqNumber, f.now,
                Pattern(WireSize(f, bytesSent) - DATA_HEADER_SIZE, f.incoming))
  }

  /** `++` on the sequence number. */
  function Next64(n: uint64): uint64 { (n + 1) % 0x1_0000_0000_0000_0000 }
  function Next32(n: uint32): uint32 { (n + 1) % 0x1_0000_0000 }

  /** A call of the send function: what was to be sent, and what the socket answered. */
  datatype Attempt = Attempt(message: DataMessage, sent: int)

  /** The socket takes at most what it is given. */
  function Answer(answers: nat -> int, call: nat, length: nat): int {
    Min(answers(call), length)
  }

  /** The rest of a frame after `bytesSent` bytes, with the socket's answers. */
  function Transmission(f: Frame, bytesSent: nat, lastSeq: uint64, answers: nat -> int, call: nat): seq<Attempt>
    decreases f.size - bytesSent
  {
    if bytesSent >= f.size then [] else
    var m := MessageAt(f, bytesSent, Next64(lastSeq));
    var sent := Answer(answers, call, WireSize(f, bytesSent));
    if sent <= 0 then [Attempt(m, sent)]
    else [Attempt(m, sent)] + Transmission(f, bytesSent + sent, Next64(lastSeq), answers, call + 1)
  }

  /** The bytes that have left. */
  function OnWire(attempts: seq<Attempt>): (wire: seq<seq<byte>>) {
    if attempts == [] then [] else OnWire(attempts[..|attempts| - 1]) + WireOf(attempts[|attempts| - 1])
  }

  function WireOf(a: Attempt): seq<seq<byte>> {
    if 0 < a.sent <= |Encode(a.message)| then [Encode(a.message)[..a.sent]] else []
  }

  function BytesOf(attempts: seq<Attempt>): nat {
    if attempts == [] then 0 else BytesOf(attempts[..|attempts| - 1]) + Max(attempts[|attempts| - 1].sent, 0)
  }

  function PacketsOf(attempts: seq<Attempt>): nat {
    if attempts == [] then 0 else PacketsOf(attempts[..|attempts| - 1]) + if attempts[|attempts| - 1].sent > 0 then 1 else 0
  }

  lemma OneMore(attempts: seq<Attempt>, a: Attempt)
    ensures OnWire(attempts + [a]) == OnWire(attempts) + WireOf(a)
    ensures BytesOf(attempts + [a]) == BytesOf(attempts) + Max(a.sent, 0)
    ensures PacketsOf(attempts + [a]) == PacketsOf(attempts) + if a.sent > 0 then 1 else 0
  {
    assert (attempts + [a])[..|attempts|] == attempts;
  }

  /** A frame has been sent up to `bytesSent`, in the given attempts, all of them successful. */
  ghost predicate SentSoFar(f: Frame, seq0: uint64, answers: nat -> int, call0: nat, attempts: seq<Attempt>, bytesSent: nat, lastSeq: uint64) {
    && Transmission(f, 0, seq0, answers, call0) == attempts + Transmission(f, bytesSent, lastSeq, answers, call0 + |attempts|)
    && bytesSent == BytesOf(attempts) && lastSeq == (seq0 + |attempts|) % 0x1_0000_0000_0000_0000
  }

  lemma NothingSent(f: Frame, seq0: uint64, answers: nat -> int, call0: nat)
    ensures SentSoFar(f, seq0, answers, call0, [], 0, seq0) && OnWire([]) == [] && PacketsOf([]) == 0 && BytesOf([]) == 0
  {
    assert [] + Transmission(f, 0, seq0, answers, call0) == Transmission(f, 0, seq0, answers, call0);
  }

  lemma NextTransmission(f: Frame, bytesSent: nat, lastSeq: uint64, answers: nat -> int, call: nat, sent: int)
    requires bytesSent < f.size && sent == Answer(answers, call, WireSize(f, bytesSent))
    ensures var a := [Attempt(MessageAt(f, bytesSent, Next64(lastSeq)), sent)];
      Transmission(f, bytesSent, lastSeq, answers, call) ==
        if sent > 0 then a + Transmission(f, bytesSent + sent, Next64(lastSeq), answers, call + 1) else a
  {
  }

  lemma Remainder(x: int, q: int, r: int)
    requires x == q * 0x1_0000_0000_0000_0000 + r && 0 <= r < 0x1_0000_0000_0000_0000
    ensures x % 0x1_0000_0000_0000_0000 == r
  {
  }

  lemma CountNext(seq0: uint64, n: nat)
    ensures Next64((seq0 + n) % 0x1_0000_0000_0000_0000) == (seq0 + (n + 1)) % 0x1_0000_0000_0000_0000
  {
    var q, r := (seq0 + n) / 0x1_0000_0000_0000_0000, (seq0 + n) % 0x1_0000_0000_0000_0000;
    if r + 1 == 0x1_0000_0000_0000_0000 {
      Remainder(seq0 + n + 1, q + 1, 0);
    } else {
      Remainder(seq0 + n + 1, q, r + 1);
    }
  }

  lemma SendNext(f: Frame, seq0: uint64, answers: nat -> int, call0: nat, attempts: seq<Attempt>, bytesSent: nat, lastSeq: uint64, sent: int)
    requires SentSoFar(f, seq0, answers, call0, attempts, bytesSent, lastSeq) && bytesSent < f.size
    requires sent == Answer(answers, call0 + |attempts|, WireSize(f, bytesSent))
    ensures sent > 0 ==>
      var a := Attempt(MessageAt(f, bytesSent, Next64(lastSeq)), sent);
      SentSoFar(f, seq0, answers, call0, attempts + [a], bytesSent + sent, Next64(lastSeq))
    ensures sent <= 0 ==>
      var a := Attempt(MessageAt(f, bytesSent, Next64(lastSeq)), sent);
      && Transmission(f, 0, seq0, answers, call0) == attempts + [a] && BytesOf(attempts + [a]) == bytesSent
      && Next64(lastSeq) == (seq0 + |attempts + [a]|) % 0x1_0000_0000_0000_0000
  {
    hide Transmission, MessageAt, BytesOf, Next64, Answer;
    var a := Attempt(MessageAt(f, bytesSent, Next64(lastSeq)), sent);
    NextTransmission(f, bytesSent, lastSeq, answers, call0 + |attempts|, sent);
    OneMore(attempts, a);
    CountNext(seq0, |attempts|);
    if sent > 0 {
      Associate(attempts, [a], Transmission(f, bytesSent + sent, Next64(lastSeq), answers, call0 + |attempts| + 1));
    }
  }

  // ----- The socket and the flow -----------------------------------------------------------------

  /** The sending side of a socket with the answers it is going to give. */
  class Link {
    const Answers: nat -> int
    var Calls: nat
    var Wire: seq<seq<byte>>

    constructor (answers: nat -> int)
      ensures Answers == answers && Calls == 0 && Wire == []
    {
      Answers, Calls, Wire := answers, 0, [];
    }

    method Send(data: seq<byte>) returns (sent: int)
      modifies this
      ensures Calls == old(Calls) + 1 && sent == Answer(Answers, old(Calls), |data|)
      ensures Wire == old(Wire) + if sent > 0 then [data[..sent]] else []
    {
      sent := if Answers(Calls) < |data| then Answers(Calls) else |data|;
      Calls := Calls + 1;
      Wire := Wire + if sent > 0 then [data[..sent]] else [];
    }
  }

  class Flow {
    const FlowID: uint32
    const MeasurementID: uint64
    const StreamID: uint16
    const AcceptedIncoming: bool
    const MaxMsgSize: uint16
    var LastOutboundFrameID: uint32
    var LastOutboundSeqNumber: uint64
    var TransmittedFrames: uint64
    var TransmittedPackets: uint64
    var TransmittedBytes: uint64
    var FirstTransmission: uint64
    var LastTransmission: uint64

    constructor (flowID: uint32, measurementID: uint64, streamID: uint16, acceptedIncoming: bool, maxMsgSize: uint16)
      ensures FlowID == flowID && MeasurementID == measurementID && StreamID == streamID
      ensures AcceptedIncoming == acceptedIncoming && MaxMsgSize == maxMsgSize
      ensures Next32(LastOutboundFrameID) == 0 && Next64(LastOutboundSeqNumber) == 0
      ensures TransmittedFrames == TransmittedPackets == TransmittedBytes == FirstTransmission == LastTransmission == 0
    {
      FlowID, MeasurementID, StreamID, AcceptedIncoming, MaxMsgSize := flowID, measurementID, streamID, acceptedIncoming, maxMsgSize;
      LastOutboundFrameID := 0xffff_ffff;
      LastOutboundSeqNumber := 0xffff_ffff_ffff_ffff;
      TransmittedFrames, TransmittedPackets, TransmittedBytes, FirstTransmission, LastTransmission := 0, 0, 0, 0, 0;
    }

    /** The parameters of a frame that is sent now. */
    ghost function FrameOf(frameID: uint32, now: uint64, size: nat): Frame
      reads this
    {
      Frame(FlowID, MeasurementID, StreamID, AcceptedIncoming, MaxMsgSize, frameID, TransmittedBytes, now, size)
    }

    method SendNetPerfMeterData(link: Link, frameID: uint32, isFrameBegin: bool, isFrameEnd: bool, now: uint64, bytesToSend0: nat)
      returns (sent: int, ghost m: DataMessage)
      requires bytesToSend0 < 0x1_0000
      modifies this`LastOutboundSeqNumber, link
      ensures LastOutboundSeqNumber == Next64(old(LastOutboundSeqNumber)) && link.Calls == old(link.Calls) + 1
      ensures m == DataMessage(isFrameBegin, isFrameEnd, FlowID, MeasurementID, StreamID, frameID, LastOutboundSeqNumber,
                               TransmittedBytes, now, Pattern(Max(bytesToSend0, DATA_HEADER_SIZE) - DATA_HEADER_SIZE, AcceptedIncoming))
      ensures sent == Answer(link.Answers, old(link.Calls), |Encode(m)|)
      ensures link.Wire == old(link.Wire) + if sent > 0 then [Encode(m)[..sent]] else []
    {
      var bytesToSend := if bytesToSend0 < DATA_HEADER_SIZE then DATA_HEADER_SIZE else bytesToSend0;
      var outputBuffer := new byte[MAXIMUM_MESSAGE_SIZE];
      LastOutboundSeqNumber := Next64(LastOutboundSeqNumber);
      var flags: byte := (if isFrameBegin then NPMDF_FRAME_BEGIN else 0) + (if isFrameEnd then NPMDF_FRAME_END else 0);
      var header := [NETPERFMETER_DATA, flags] + BigEndian(bytesToSend, 2) + BigEndian(FlowID, 4)
        + BigEndian(MeasurementID, 8) + BigEndian(StreamID, 2) + BigEndian(0, 2) + BigEndian(frameID, 4)
        + BigEndian(LastOutboundSeqNumber, 8) + BigEndian(TransmittedBytes, 8) + BigEndian(now, 8);
      forall i | 0 <= i < DATA_HEADER_SIZE { outputBuffer[i] := header[i]; }
      assert outputBuffer[..DATA_HEADER_SIZE] == header;
      FillPayload(outputBuffer, DATA_HEADER_SIZE, bytesToSend - DATA_HEADER_SIZE, AcceptedIncoming);
      m := DataMessage(isFrameBegin, isFrameEnd, FlowID, MeasurementID, StreamID, frameID, LastOutboundSeqNumber,
                       TransmittedBytes, now, Pattern(bytesToSend - DATA_HEADER_SIZE, AcceptedIncoming));
      assert outputBuffer[..bytesToSend] == header + m.payload == Encode(m);
      sent := link.Send(outputBuffer[..bytesToSend]);
    }

    method UpdateTransmissionStatistics(now: uint64, addedFrames: nat, addedPackets: nat, addedBytes: nat)
      modifies this`LastTransmission, this`FirstTransmission, this`TransmittedFrames, this`TransmittedPackets, this`TransmittedBytes
      ensures LastTransmission == now && FirstTransmission == if old(FirstTransmission) == 0 then now else old(FirstTransmission)
      ensures TransmittedFrames == (old(TransmittedFrames) + addedFrames) % 0x1_0000_0000_0000_0000
      ensures TransmittedPackets == (old(TransmittedPackets) + addedPackets) % 0x1_0000_0000_0000_0000
      ensures TransmittedBytes == (old(TransmittedBytes) + addedBytes) % 0x1_0000_0000_0000_0000
    {
      LastTransmission := now;
      if FirstTransmission == 0 {
        FirstTransmission := now;
      }
      TransmittedFrames := (TransmittedFrames + addedFrames) % 0x1_0000_0000_0000_0000;
      TransmittedPackets := (TransmittedPackets + addedPackets) % 0x1_0000_0000_0000_0000;
      TransmittedBytes := (TransmittedBytes + addedBytes) % 0x1_0000_0000_0000_0000;
    }

    /** Sends one frame of the drawn size, split into messages. */
    method TransmitFrame(link: Link, now: uint64, drawnSize: int) returns (done: bool, ghost attempts: seq<Attempt>)
      modifies this, link
      ensures attempts == if drawnSize <= 0 then [] else
        Transmission(old(FrameOf(Next32(LastOutboundFrameID), now, drawnSize)), 0, old(LastOutboundSeqNumber), link.Answers, old(link.Calls))
      ensures link.Wire == old(link.Wire) + OnWire(attempts) && link.Calls == old(link.Calls) + |attempts|
      ensures LastOutboundFrameID == if drawnSize > 0 then Next32(old(LastOutboundFrameID)) else old(LastOutboundFrameID)
      ensures LastOutboundSeqNumber == (old(LastOutboundSeqNumber) + |attempts|) % 0x1_0000_0000_0000_0000
      ensures TransmittedFrames == (old(TransmittedFrames) + 1) % 0x1_0000_0000_0000_0000
      ensures TransmittedPackets == (old(TransmittedPackets) + PacketsOf(attempts)) % 0x1_0000_0000_0000_0000
      ensures TransmittedBytes == (old(TransmittedBytes) + BytesOf(attempts)) % 0x1_0000_0000_0000_0000
      ensures done <==> BytesOf(attempts) >= drawnSize
    {
      hide OnWire, BytesOf, PacketsOf, Transmission, SentSoFar, Encode, Pattern, Answer;
      var bytesToSend, bytesSent, packetsSent := drawnSize, 0, 0;
      attempts := [];
      ghost var seq0, call0, wire0 := LastOutboundSeqNumber, link.Calls, link.Wire;
      ghost var f := FrameOf(Next32(LastOutboundFrameID), now, Max(drawnSize, 0));
      NothingSent(f, seq0, link.Answers, call0);
      if bytesToSend > 0 {
        LastOutboundFrameID := Next32(LastOutboundFrameID);
        var frameID := LastOutboundFrameID;
        ghost var goal := Transmission(f, 0, seq0, link.Answers, call0);
        ghost var stopped := false;
        while bytesSent < bytesToSend
          invariant 0 <= bytesSent && f == FrameOf(frameID, now, bytesToSend) && LastOutboundFrameID == frameID && !stopped
          invariant SentSoFar(f, seq0, link.Answers, call0, attempts, bytesSent, LastOutboundSeqNumber)
          invariant link.Calls == call0 + |attempts| && link.Wire == wire0 + OnWire(attempts)
          invariant packetsSent == PacketsOf(attempts)
          modifies this`LastOutboundSeqNumber, link
          decreases bytesToSend - bytesSent
        {
          var chunkSize := Min(bytesToSend - bytesSent, Min(MaxMsgSize, MAXIMUM_MESSAGE_SIZE));
          ghost var m, lastSeq := MessageAt(f, bytesSent, Next64(LastOutboundSeqNumber)), LastOutboundSeqNumber;
          var sent;
          sent, m := SendNetPerfMeterData(link, frameID, bytesSent == 0, bytesSent + chunkSize >= bytesToSend, now, chunkSize);
          assert m == MessageAt(f, bytesSent, Next64(lastSeq));
          SendNext(f, seq0, link.Answers, call0, attempts, bytesSent, lastSeq, sent);
          OneMore(attempts, Attempt(m, sent));
          SentIsPrefix(link.Answers, call0 + |attempts|, Encode(m), sent);
          Associate(wire0, OnWire(attempts), WireOf(Attempt(m, sent)));
          attempts := attempts + [Attempt(m, sent)];
          if sent > 0 {
            bytesSent := bytesSent + sent;
            packetsSent := packetsSent + 1;
          } else {
            stopped := true;
            break;
          }
        }
        if !stopped { AllSent(f, seq0, link.Answers, call0, attempts, bytesSent, LastOutboundSeqNumber); }
      } else {
        bytesToSend := 0;
      }
      UpdateTransmissionStatistics(now, 1, packetsSent, bytesSent);
      done := bytesSent >= bytesToSend;
    }
  }

  lemma SentIsPrefix(answers: nat -> int, call: nat, data: seq<byte>, sent: int)
    requires sent == Answer(answers, call, |data|)
    ensures sent <= |data|
  {
  }

  lemma AllSent(f: Frame, seq0: uint64, answers: nat -> int, call0: nat, attempts: seq<Attempt>, bytesSent: nat, lastSeq: uint64)
    requires SentSoFar(f, seq0, answers, call0, attempts, bytesSent, lastSeq) && bytesSent >= f.size
    ensures Transmission(f, 0, seq0, answers, call0) == attempts && BytesOf(attempts) == bytesSent
    ensures lastSeq == (seq0 + |attempts|) % 0x1_0000_0000_0000_0000
  {
  }
}
