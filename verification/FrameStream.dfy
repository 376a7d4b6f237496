/** What a sender's frames look like for any answers of the socket, and what a receiver reads
    from the stream of bytes. */
module FrameStreams {
  import opened MachineIntegers
  import opened MessageFraming
  import opened DataMessages
  import opened Transfers

  /** Every send takes the whole message. */
  ghost predicate SentInFull(attempts: seq<Attempt>) {
    forall i | 0 <= i < |attempts| :: attempts[i].sent == |Encode(attempts[i].message)|
  }

  function Messages(attempts: seq<Attempt>): (messages: seq<DataMessage>)
    ensures |messages| == |attempts|
  {
    seq(|attempts|, i requires 0 <= i < |attempts| => attempts[i].message)
  }

  /** The message `i` of `n` of a frame that is sent in full. */
  ghost predicate IsPart(f: Frame, a: Attempt, i: nat, n: nat, first: bool, seqNumber: uint64, left: int) {
    && a.message.flowID == f.flowID && a.message.measurementID == f.measurementID && a.message.streamID == f.streamID
    && a.message.frameID == f.frameID && a.message.byteSeqNumber == f.byteSeqNumber && a.message.timeStamp == f.now
    && a.message.seqNumber == seqNumber
    && (a.message.isFrameBegin <==> first && i == 0) && (a.message.isFrameEnd <==> i == n - 1)
    && a.message.payload == Pattern(|a.message.payload|, f.incoming)
    && a.sent == |Encode(a.message)| == if i < n - 1 then f.maxMsgSize else Max(left, DATA_HEADER_SIZE)
  }

  /** The parts of what is left of a frame. */
  ghost predicate Parts(f: Frame, bytesSent: nat, lastSeq: uint64, attempts: seq<Attempt>) {
    var n, left := |attempts|, f.size - bytesSent;
    && n > 0 && (n - 1) * f.maxMsgSize < left <= n * f.maxMsgSize
    && forall i | 0 <= i < n ::
         IsPart(f, attempts[i], i, n, bytesSent == 0, (lastSeq + 1 + i) % 0x1_0000_0000_0000_0000, left - (n - 1) * f.maxMsgSize)
  }

  lemma {:induction false} BytesInFront(a: Attempt, attempts: seq<Attempt>)
    ensures BytesOf([a] + attempts) == Max(a.sent, 0) + BytesOf(attempts)
  {
    if attempts == [] {
      assert [a] + attempts == [a] && [a][..0] == [];
    } else {
      BytesInFront(a, attempts[..|attempts| - 1]);
      assert ([a] + attempts)[..|attempts|] == [a] + attempts[..|attempts| - 1];
    }
  }

  lemma PartsInFront(f: Frame, bytesSent: nat, lastSeq: uint64, a: Attempt, rest: seq<Attempt>)
    requires bytesSent + f.maxMsgSize < f.size && DATA_HEADER_SIZE <= f.maxMsgSize
    requires Parts(f, bytesSent + f.maxMsgSize, Next64(lastSeq), rest)
    requires a == Attempt(MessageAt(f, bytesSent, Next64(lastSeq)), f.maxMsgSize)
    ensures Parts(f, bytesSent, lastSeq, [a] + rest)
  {
    var all, n, left, m := [a] + rest, |rest| + 1, f.size - bytesSent, f.maxMsgSize;
    assert (n - 1) * m == (n - 2) * m + m && n * m == (n - 1) * m + m;
    hide Encode, Pattern;
    forall i | 0 <= i < n
      ensures IsPart(f, all[i], i, n, bytesSent == 0, (lastSeq + 1 + i) % 0x1_0000_0000_0000_0000, left - (n - 1) * m)
    {
      if i > 0 {
        CountNext(lastSeq, i);
        assert IsPart(f, rest[i - 1], i - 1, n - 1, false, (Next64(lastSeq) + 1 + (i - 1)) % 0x1_0000_0000_0000_0000, left - m - (n - 2) * m);
        Modulo(lastSeq, i);
      }
    }
  }

  lemma Modulo(lastSeq: uint64, i: nat)
    requires i > 0
    ensures (Next64(lastSeq) + 1 + (i - 1)) % 0x1_0000_0000_0000_0000 == (lastSeq + 1 + i) % 0x1_0000_0000_0000_0000
  {
  }

  lemma LastPart(f: Frame, bytesSent: nat, lastSeq: uint64, a: Attempt)
    requires DATA_HEADER_SIZE <= f.maxMsgSize && bytesSent < f.size <= bytesSent + f.maxMsgSize
    requires a == Attempt(MessageAt(f, bytesSent, Next64(lastSeq)), WireSize(f, bytesSent))
    ensures Parts(f, bytesSent, lastSeq, [a]) && BytesOf([a]) == WireSize(f, bytesSent) == Max(f.size - bytesSent, DATA_HEADER_SIZE)
  {
    assert |a.message.payload| == WireSize(f, bytesSent) - DATA_HEADER_SIZE && WireSize(f, bytesSent) == Max(f.size - bytesSent, DATA_HEADER_SIZE);
    assert IsPart(f, a, 0, 1, bytesSent == 0, Next64(lastSeq), f.size - bytesSent);
    assert BytesOf([a]) == Max(a.sent, 0) by { assert [a][..0] == [] && BytesOf([]) == 0; }
    hide IsPart, WireSize, MessageAt, BytesOf, Encode, Pattern;
    assert f.size - bytesSent - (1 - 1) * f.maxMsgSize == f.size - bytesSent;
  }

  lemma SizeOfNext(f: Frame, bytesSent: nat)
    requires DATA_HEADER_SIZE <= f.maxMsgSize && bytesSent < f.size
    ensures var size := WireSize(f, bytesSent);
      size > 0 && if bytesSent + f.maxMsgSize < f.size then size == f.maxMsgSize else size == Max(f.size - bytesSent, DATA_HEADER_SIZE)
  {
  }

  lemma AttemptInFront(f: Frame, bytesSent: nat, lastSeq: uint64, answers: nat -> int, call: nat)
    requires bytesSent < f.size
    ensures var attempts, m := Transmission(f, bytesSent, lastSeq, answers, call), MessageAt(f, bytesSent, Next64(lastSeq));
      && attempts != [] && attempts[0].message == m && attempts[0].sent <= |Encode(m)| == WireSize(f, bytesSent)
      && attempts[1..] == if attempts[0].sent <= 0 then []
                          else Transmission(f, bytesSent + attempts[0].sent, Next64(lastSeq), answers, call + 1)
  {
    hide MessageAt, Encode;
  }

  lemma FullInFront(attempts: seq<Attempt>)
    requires attempts != []
    ensures attempts == [attempts[0]] + attempts[1..]
    ensures SentInFull(attempts) <==> attempts[0].sent == |Encode(attempts[0].message)| && SentInFull(attempts[1..])
  {
    hide Encode;
    if attempts[0].sent == |Encode(attempts[0].message)| && SentInFull(attempts[1..]) {
      forall i | 0 <= i < |attempts| ensures attempts[i].sent == |Encode(attempts[i].message)| {
        if i > 0 { assert attempts[i] == attempts[1..][i - 1]; }
      }
    }
  }

  /** On a socket that takes every message as a whole, and on no other, a frame is split into full
      messages and a last one, where only the first has the BEGIN flag, only the last the END flag,
      and the sequence numbers are consecutive. */
  lemma {:induction false} FrameIsSplit(f: Frame, bytesSent: nat, lastSeq: uint64, answers: nat -> int, call: nat)
    requires DATA_HEADER_SIZE <= f.maxMsgSize && bytesSent < f.size
    ensures var attempts := Transmission(f, bytesSent, lastSeq, answers, call);
      && (Parts(f, bytesSent, lastSeq, attempts) <==> SentInFull(attempts))
      && (SentInFull(attempts) ==> f.size - bytesSent <= BytesOf(attempts) < f.size - bytesSent + DATA_HEADER_SIZE)
    decreases f.size - bytesSent
  {
    var attempts := Transmission(f, bytesSent, lastSeq, answers, call);
    if SentInFull(attempts) {
      FrameInFull(f, bytesSent, lastSeq, answers, call);
    } else if Parts(f, bytesSent, lastSeq, attempts) {
      PartsAreFull(f, bytesSent, lastSeq, attempts);
    }
  }

  lemma PartsAreFull(f: Frame, bytesSent: nat, lastSeq: uint64, attempts: seq<Attempt>)
    requires Parts(f, bytesSent, lastSeq, attempts)
    ensures SentInFull(attempts)
  {
    hide Encode, Pattern;
  }

  lemma {:induction false} FrameInFull(f: Frame, bytesSent: nat, lastSeq: uint64, answers: nat -> int, call: nat)
    requires DATA_HEADER_SIZE <= f.maxMsgSize && bytesSent < f.size
    requires SentInFull(Transmission(f, bytesSent, lastSeq, answers, call))
    ensures var attempts := Transmission(f, bytesSent, lastSeq, answers, call);
      Parts(f, bytesSent, lastSeq, attempts) && f.size - bytesSent <= BytesOf(attempts) < f.size - bytesSent + DATA_HEADER_SIZE
    decreases f.size - bytesSent
  {
    hide Transmission, Encode, MessageAt, Pattern, WireSize, Answer, Parts, BytesOf, SentInFull;
    var attempts := Transmission(f, bytesSent, lastSeq, answers, call);
    AttemptInFront(f, bytesSent, lastSeq, answers, call);
    FullInFront(attempts);
    SizeOfNext(f, bytesSent);
    var a, rest, size := attempts[0], attempts[1..], WireSize(f, bytesSent);
    if bytesSent + f.maxMsgSize < f.size {
      FrameInFull(f, bytesSent + size, Next64(lastSeq), answers, call + 1);
      PartsInFront(f, bytesSent, lastSeq, a, rest);
      BytesInFront(a, rest);
    } else {
      NothingLeft(f, bytesSent + size, Next64(lastSeq), answers, call + 1);
      LastPart(f, bytesSent, lastSeq, a);
      assert [a] + [] == [a];
    }
  }

  lemma NothingLeft(f: Frame, bytesSent: nat, lastSeq: uint64, answers: nat -> int, call: nat)
    requires bytesSent >= f.size
    ensures Transmission(f, bytesSent, lastSeq, answers, call) == []
  {
  }

  /** Attempt `i` to send a part of a frame, whatever the socket answers. */
  ghost predicate IsAttempt(f: Frame, a: Attempt, first: bool, seqNumber: uint64) {
    && a.message.frameID == f.frameID && a.message.byteSeqNumber == f.byteSeqNumber && a.message.seqNumber == seqNumber
    && a.message.flowID == f.flowID && a.message.measurementID == f.measurementID && a.message.streamID == f.streamID
    && a.message.timeStamp == f.now && Counts(a.message.payload, f.incoming)
    && (a.message.isFrameBegin <==> first) && a.sent <= |Encode(a.message)| < 0x1_0000
  }

  ghost predicate AreAttempts(f: Frame, begun: bool, lastSeq: uint64, attempts: seq<Attempt>) {
    forall i | 0 <= i < |attempts| :: IsAttempt(f, attempts[i], !begun && i == 0, (lastSeq + 1 + i) % 0x1_0000_0000_0000_0000)
  }

  lemma AttemptsInFront(f: Frame, begun: bool, lastSeq: uint64, a: Attempt, rest: seq<Attempt>)
    requires IsAttempt(f, a, !begun, Next64(lastSeq)) && AreAttempts(f, true, Next64(lastSeq), rest)
    ensures AreAttempts(f, begun, lastSeq, [a] + rest)
  {
    var all := [a] + rest;
    forall i | 0 <= i < |all| ensures IsAttempt(f, all[i], !begun && i == 0, (lastSeq + 1 + i) % 0x1_0000_0000_0000_0000) {
      if i > 0 {
        assert IsAttempt(f, rest[i - 1], false, (Next64(lastSeq) + 1 + (i - 1)) % 0x1_0000_0000_0000_0000);
        Modulo(lastSeq, i);
      }
    }
  }

  lemma FirstIsAttempt(f: Frame, bytesSent: nat, lastSeq: uint64, answers: nat -> int, call: nat)
    requires bytesSent < f.size
    ensures var attempts := Transmission(f, bytesSent, lastSeq, answers, call);
      attempts != [] && IsAttempt(f, attempts[0], bytesSent == 0, Next64(lastSeq))
  {
    AttemptInFront(f, bytesSent, lastSeq, answers, call);
    PatternCounts(WireSize(f, bytesSent) - DATA_HEADER_SIZE, f.incoming);
    hide Transmission, Pattern, Counts, Encode, WireSize;
  }

  /** Whatever the socket answers, the messages of a frame have its number, its identity and time,
      the payload pattern and consecutive sequence numbers, and only the first one has the BEGIN
      flag. */
  lemma {:induction false} FrameIsNumbered(f: Frame, bytesSent: nat, lastSeq: uint64, answers: nat -> int, call: nat)
    requires bytesSent < f.size
    ensures var attempts := Transmission(f, bytesSent, lastSeq, answers, call);
      attempts != [] && AreAttempts(f, bytesSent > 0, lastSeq, attempts)
    decreases f.size - bytesSent
  {
    hide *;
    var attempts := Transmission(f, bytesSent, lastSeq, answers, call);
    AttemptInFront(f, bytesSent, lastSeq, answers, call);
    FirstIsAttempt(f, bytesSent, lastSeq, answers, call);
    var a, rest := attempts[0], attempts[1..];
    assert attempts == [a] + rest;
    if a.sent <= 0 {
      NoAttempts(f, lastSeq);
    } else if bytesSent + a.sent < f.size {
      FrameIsNumbered(f, bytesSent + a.sent, Next64(lastSeq), answers, call + 1);
    } else {
      NothingLeft(f, bytesSent + a.sent, Next64(lastSeq), answers, call + 1);
      NoAttempts(f, lastSeq);
    }
    AttemptsInFront(f, bytesSent > 0, lastSeq, a, rest);
  }

  lemma NoAttempts(f: Frame, lastSeq: uint64)
    ensures AreAttempts(f, true, Next64(lastSeq), [])
  {
  }

  /** An attempt after `bytesSent` bytes of the frame: its message takes as much of what is left as
      fits, but at least a header, and has the END flag if this is all; the socket takes what it
      will. */
  ghost predicate Continues(f: Frame, bytesSent: nat, a: Attempt, answer: int) {
    var left := f.size - bytesSent;
    var chunk := if left < f.maxMsgSize then left else f.maxMsgSize;
    var length := if chunk < DATA_HEADER_SIZE then DATA_HEADER_SIZE else chunk;
    && left > 0 && DATA_HEADER_SIZE + |a.message.payload| == length && a.sent == (if answer < length then answer else length)
    && (a.message.isFrameEnd <==> chunk == left)
  }

  /** The attempts go on as long as the socket takes something, and until the frame is sent. */
  ghost predicate GoOn(f: Frame, bytesSent: nat, attempts: seq<Attempt>, answers: nat -> int, call: nat) {
    && (forall i | 0 <= i < |attempts| ::
         Continues(f, bytesSent + BytesOf(attempts[..i]), attempts[i], answers(call + i)) && (i < |attempts| - 1 ==> attempts[i].sent > 0))
    && (bytesSent + BytesOf(attempts) >= f.size || (attempts != [] && attempts[|attempts| - 1].sent <= 0))
  }

  /** What is sent of a frame, for any answers of the socket. */
  lemma {:induction false} FrameGoesOn(f: Frame, bytesSent: nat, lastSeq: uint64, answers: nat -> int, call: nat)
    ensures GoOn(f, bytesSent, Transmission(f, bytesSent, lastSeq, answers, call), answers, call)
    decreases f.size - bytesSent
  {
    hide *;
    var attempts := Transmission(f, bytesSent, lastSeq, answers, call);
    if bytesSent < f.size {
      FirstContinues(f, bytesSent, lastSeq, answers, call);
      AttemptInFront(f, bytesSent, lastSeq, answers, call);
      var a, rest := attempts[0], attempts[1..];
      assert attempts == [a] + rest;
      if a.sent > 0 { FrameGoesOn(f, bytesSent + a.sent, Next64(lastSeq), answers, call + 1); }
      GoOnInFront(f, bytesSent, a, rest, answers, call);
    } else {
      NothingLeft(f, bytesSent, lastSeq, answers, call);
      NothingGoesOn(f, bytesSent, answers, call);
    }
  }

  lemma FirstContinues(f: Frame, bytesSent: nat, lastSeq: uint64, answers: nat -> int, call: nat)
    requires bytesSent < f.size
    ensures var attempts := Transmission(f, bytesSent, lastSeq, answers, call);
      attempts != [] && Continues(f, bytesSent, attempts[0], answers(call))
  {
    hide Pattern, Encode;
  }

  lemma NothingGoesOn(f: Frame, bytesSent: nat, answers: nat -> int, call: nat)
    requires bytesSent >= f.size
    ensures GoOn(f, bytesSent, [], answers, call)
  {
  }

  lemma GoOnInFront(f: Frame, bytesSent: nat, a: Attempt, rest: seq<Attempt>, answers: nat -> int, call: nat)
    requires Continues(f, bytesSent, a, answers(call))
    requires if a.sent > 0 then GoOn(f, bytesSent + a.sent, rest, answers, call + 1) else rest == []
    ensures GoOn(f, bytesSent, [a] + rest, answers, call)
  {
    var all := [a] + rest;
    hide Continues, BytesOf;
    BytesInFront(a, rest);
    NothingOfNone();
    forall i | 0 <= i < |all|
      ensures Continues(f, bytesSent + BytesOf(all[..i]), all[i], answers(call + i)) && (i < |all| - 1 ==> all[i].sent > 0)
    {
      if i > 0 {
        assert all[..i] == [a] + rest[..i - 1] && all[i] == rest[i - 1];
        BytesInFront(a, rest[..i - 1]);
        assert call + 1 + (i - 1) == call + i;
      } else {
        assert all[..0] == [];
      }
    }
  }

  lemma NothingOfNone()
    ensures BytesOf([]) == 0
  {
  }

  // ----- Many frames -------------------------------------------------------------------------------

  /** The counters of a flow between two frames. */
  datatype Counters = Counters(lastFrameID: uint32, lastSeq: uint64, bytes: uint64, call: nat)

  /** A flow that has just been set up. */
  const START: Counters := Counters(0xffff_ffff, 0xffff_ffff_ffff_ffff, 0, 0)

  /** One frame to be sent: when, and how large it has been drawn. */
  datatype Draw = Draw(now: uint64, size: int)

  datatype Sender = Sender(flowID: uint32, measurementID: uint64, streamID: uint16, incoming: bool, maxMsgSize: uint16)

  function FrameFor(s: Sender, c: Counters, d: Draw): Frame
    requires d.size > 0
  {
    Frame(s.flowID, s.measurementID, s.streamID, s.incoming, s.maxMsgSize, Next32(c.lastFrameID), c.bytes, d.now, d.size)
  }

  function FrameAttempts(s: Sender, c: Counters, d: Draw, answers: nat -> int): seq<Attempt> {
    if d.size <= 0 then [] else Transmission(FrameFor(s, c, d), 0, c.lastSeq, answers, c.call)
  }

  function AfterFrame(s: Sender, c: Counters, d: Draw, answers: nat -> int): Counters {
    var attempts := FrameAttempts(s, c, d, answers);
    Counters(if d.size > 0 then Next32(c.lastFrameID) else c.lastFrameID, (c.lastSeq + |attempts|) % 0x1_0000_0000_0000_0000,
             (c.bytes + BytesOf(attempts)) % 0x1_0000_0000_0000_0000, c.call + |attempts|)
  }

  /** All attempts to send the messages of a list of frames. */
  function AllAttempts(s: Sender, c: Counters, draws: seq<Draw>, answers: nat -> int): seq<Attempt>
    decreases |draws|
  {
    if draws == [] then []
    else FrameAttempts(s, c, draws[0], answers) + AllAttempts(s, AfterFrame(s, c, draws[0], answers), draws[1..], answers)
  }

  /** All messages of a list of frames. */
  function Sent(s: Sender, c: Counters, draws: seq<Draw>, answers: nat -> int): seq<DataMessage> {
    Messages(AllAttempts(s, c, draws, answers))
  }

  lemma SentInFront(s: Sender, c: Counters, draws: seq<Draw>, answers: nat -> int)
    requires draws != []
    ensures var attempts, rest := FrameAttempts(s, c, draws[0], answers), AllAttempts(s, AfterFrame(s, c, draws[0], answers), draws[1..], answers);
      && AllAttempts(s, c, draws, answers) == attempts + rest
      && Sent(s, c, draws, answers) == Messages(attempts) + Sent(s, AfterFrame(s, c, draws[0], answers), draws[1..], answers)
      && (SentInFull(attempts + rest) <==> SentInFull(attempts) && SentInFull(rest))
  {
    hide FrameAttempts, Encode, AfterFrame;
    FullAppend(FrameAttempts(s, c, draws[0], answers), AllAttempts(s, AfterFrame(s, c, draws[0], answers), draws[1..], answers));
  }

  lemma FullAppend(a: seq<Attempt>, b: seq<Attempt>)
    ensures SentInFull(a + b) <==> SentInFull(a) && SentInFull(b)
    ensures Messages(a + b) == Messages(a) + Messages(b)
  {
    hide Encode;
    if SentInFull(a + b) {
      forall i | 0 <= i < |a| ensures a[i].sent == |Encode(a[i].message)| { assert (a + b)[i] == a[i]; }
      forall i | 0 <= i < |b| ensures b[i].sent == |Encode(b[i].message)| { assert (a + b)[|a| + i] == b[i]; }
    }
  }

  lemma NothingSentYet(s: Sender, c: Counters, answers: nat -> int)
    ensures AllAttempts(s, c, [], answers) == [] && Sent(s, c, [], answers) == [] && SentInFull([])
  {
  }

  /** Messages after frame `lastFrame` and sequence number `lastSeq`: sequence numbers are
      consecutive, and each BEGIN flag opens the next frame. */
  ghost predicate Numbered(messages: seq<DataMessage>, lastFrame: int, lastSeq: int) {
    && (forall i | 0 <= i < |messages| :: messages[i].seqNumber == lastSeq + 1 + i && DATA_HEADER_SIZE + |messages[i].payload| < 0x1_0000)
    && (forall i | 0 <= i < |messages| :: FrameAt(messages, i, lastFrame))
    && (messages != [] ==> messages[0].isFrameBegin)
  }

  ghost predicate FrameAt(messages: seq<DataMessage>, i: nat, lastFrame: int)
    requires i < |messages|
  {
    messages[i].frameID == (if i == 0 then lastFrame else messages[i - 1].frameID) + if messages[i].isFrameBegin then 1 else 0
  }

  /** The END flags are where they belong: on the last message of each frame. */
  ghost predicate Ended(messages: seq<DataMessage>) {
    forall i | 0 <= i < |messages| :: EndAt(messages, i)
  }

  ghost predicate EndAt(messages: seq<DataMessage>, i: nat)
    requires i < |messages|
  {
    messages[i].isFrameEnd <==> i == |messages| - 1 || messages[i + 1].isFrameBegin
  }

  lemma MessagesOf(attempts: seq<Attempt>)
    ensures forall i | 0 <= i < |attempts| :: Messages(attempts)[i] == attempts[i].message
    ensures |Messages(attempts)| == |attempts|
  {
  }

  lemma NoWrap(c: uint64, lastSeq: int, i: nat)
    requires Next64(c) == lastSeq + 1 && lastSeq + 1 + i < 0x1_0000_0000_0000_0000
    ensures (c + 1 + i) % 0x1_0000_0000_0000_0000 == lastSeq + 1 + i
  {
    if c == 0xffff_ffff_ffff_ffff { assert c + 1 + i == i + 0x1_0000_0000_0000_0000; }
  }

  /** Message `i` of a frame. */
  ghost predicate Regular(m: DataMessage, i: nat, lastFrame: int, lastSeq: int) {
    && m.seqNumber == lastSeq + 1 + i && m.frameID == lastFrame + 1 && (m.isFrameBegin <==> i == 0)
    && DATA_HEADER_SIZE + |m.payload| < 0x1_0000
  }

  lemma RegularAttempt(f: Frame, c: uint64, attempts: seq<Attempt>, i: nat, lastFrame: int, lastSeq: int)
    requires AreAttempts(f, false, c, attempts) && i < |attempts|
    requires f.frameID == lastFrame + 1 && Next64(c) == lastSeq + 1 && lastSeq + |attempts| < 0x1_0000_0000_0000_0000
    ensures Regular(attempts[i].message, i, lastFrame, lastSeq)
  {
    assert IsAttempt(f, attempts[i], i == 0, (c + 1 + i) % 0x1_0000_0000_0000_0000);
    NoWrap(c, lastSeq, i);
  }

  lemma RegularIsNumbered(messages: seq<DataMessage>, lastFrame: int, lastSeq: int)
    requires messages != [] && forall i | 0 <= i < |messages| :: Regular(messages[i], i, lastFrame, lastSeq)
    ensures Numbered(messages, lastFrame, lastSeq) && messages[|messages| - 1].frameID == lastFrame + 1
  {
  }

  lemma FrameParts(s: Sender, c: Counters, d: Draw, answers: nat -> int)
    requires d.size > 0
    ensures var f, attempts := FrameFor(s, c, d), FrameAttempts(s, c, d, answers);
      && attempts != [] && AreAttempts(f, false, c.lastSeq, attempts)
      && f.maxMsgSize == s.maxMsgSize && f.frameID == Next32(c.lastFrameID) && f.byteSeqNumber == c.bytes && f.size == d.size
      && (DATA_HEADER_SIZE <= s.maxMsgSize && SentInFull(attempts) ==> Parts(f, 0, c.lastSeq, attempts))
  {
    FrameIsNumbered(FrameFor(s, c, d), 0, c.lastSeq, answers, c.call);
    if DATA_HEADER_SIZE <= s.maxMsgSize { FrameIsSplit(FrameFor(s, c, d), 0, c.lastSeq, answers, c.call); }
  }

  lemma NumberedFrame(s: Sender, c: Counters, d: Draw, answers: nat -> int, lastFrame: int, lastSeq: int)
    requires d.size > 0 && -1 <= lastFrame < 0xffff_ffff && -1 <= lastSeq
    requires Next32(c.lastFrameID) == lastFrame + 1 && Next64(c.lastSeq) == lastSeq + 1
    requires lastSeq + |FrameAttempts(s, c, d, answers)| < 0x1_0000_0000_0000_0000
    ensures var messages := Messages(FrameAttempts(s, c, d, answers));
      && messages != [] && Numbered(messages, lastFrame, lastSeq)
      && messages[|messages| - 1].frameID == lastFrame + 1 && forall m | m in messages :: m.frameID == lastFrame + 1
  {
    var attempts := FrameAttempts(s, c, d, answers);
    FrameParts(s, c, d, answers);
    MessagesOf(attempts);
    hide AreAttempts, FrameAttempts, FrameFor, Parts, Messages, SentInFull, Numbered;
    var messages := Messages(attempts);
    forall i | 0 <= i < |messages| ensures Regular(messages[i], i, lastFrame, lastSeq) {
      RegularAttempt(FrameFor(s, c, d), c.lastSeq, attempts, i, lastFrame, lastSeq);
    }
    RegularIsNumbered(messages, lastFrame, lastSeq);
  }

  lemma EndedFrame(f: Frame, lastSeq: uint64, attempts: seq<Attempt>)
    requires Parts(f, 0, lastSeq, attempts)
    ensures Ended(Messages(attempts))
  {
    hide Encode, Pattern;
    var n, messages := |attempts|, Messages(attempts);
    MessagesOf(attempts);
    forall i | 0 <= i < n ensures messages[i].isFrameEnd <==> i == n - 1 ensures messages[i].isFrameBegin <==> i == 0 {
      assert IsPart(f, attempts[i], i, n, true, (lastSeq + 1 + i) % 0x1_0000_0000_0000_0000, f.size - (n - 1) * f.maxMsgSize);
    }
  }

  /** The counters after a frame. */
  lemma CountersAfter(s: Sender, c: Counters, d: Draw, answers: nat -> int, lastFrame: int, lastSeq: int)
    requires Next32(c.lastFrameID) == lastFrame + 1 && Next64(c.lastSeq) == lastSeq + 1 && lastFrame + 1 < 0xffff_ffff
    requires lastSeq + |FrameAttempts(s, c, d, answers)| < 0xffff_ffff_ffff_ffff
    ensures var c', n := AfterFrame(s, c, d, answers), |FrameAttempts(s, c, d, answers)|;
      && Next32(c'.lastFrameID) == lastFrame + (if d.size > 0 then 2 else 1) && Next64(c'.lastSeq) == lastSeq + n + 1
  {
    var n := |FrameAttempts(s, c, d, answers)|;
    hide FrameAttempts;
    NoWrap(c.lastSeq, lastSeq, n);
    CountNext(c.lastSeq, n);
  }

  lemma NumberedAppend(a: seq<DataMessage>, b: seq<DataMessage>, lastFrame: int, lastSeq: int)
    requires a != [] && Numbered(a, lastFrame, lastSeq) && Numbered(b, a[|a| - 1].frameID, lastSeq + |a|)
    ensures Numbered(a + b, lastFrame, lastSeq) && (Ended(a) && Ended(b) ==> Ended(a + b))
  {
    var m, n := a + b, |a|;
    forall i | 0 <= i < |m| ensures m[i].seqNumber == lastSeq + 1 + i && FrameAt(m, i, lastFrame) && (Ended(a) && Ended(b) ==> EndAt(m, i)) {
      if i < n {
        assert FrameAt(a, i, lastFrame) && (Ended(a) ==> EndAt(a, i));
      } else {
        assert FrameAt(b, i - n, a[n - 1].frameID) && (Ended(b) ==> EndAt(b, i - n));
      }
    }
  }

  /** For any list of frames and any answers of the socket, the messages are numbered
      consecutively and the BEGIN flags open the frames; the END flags are right if the socket
      takes every message as a whole. */
  lemma {:induction false} SentIsTrace(s: Sender, c: Counters, draws: seq<Draw>, answers: nat -> int, lastFrame: int, lastSeq: int)
    requires -1 <= lastFrame && -1 <= lastSeq && Next32(c.lastFrameID) == lastFrame + 1 && Next64(c.lastSeq) == lastSeq + 1
    requires lastFrame + |draws| < 0xffff_ffff && lastSeq + |Sent(s, c, draws, answers)| < 0xffff_ffff_ffff_ffff
    ensures Numbered(Sent(s, c, draws, answers), lastFrame, lastSeq)
    ensures forall m | m in Sent(s, c, draws, answers) :: m.frameID <= lastFrame + |draws|
    ensures DATA_HEADER_SIZE <= s.maxMsgSize && SentInFull(AllAttempts(s, c, draws, answers)) ==> Ended(Sent(s, c, draws, answers))
    decreases |draws|
  {
    if draws == [] {
      NothingSentYet(s, c, answers);
    } else {
      hide FrameAttempts, AllAttempts, Sent, Numbered, Ended, Messages, Next32, Next64, AfterFrame, SentInFull, AreAttempts, Parts;
      var attempts, c' := FrameAttempts(s, c, draws[0], answers), AfterFrame(s, c, draws[0], answers);
      var messages, rest := Messages(attempts), Sent(s, c', draws[1..], answers);
      SentInFront(s, c, draws, answers);
      CountersAfter(s, c, draws[0], answers, lastFrame, lastSeq);
      if draws[0].size > 0 {
        NumberedFrame(s, c, draws[0], answers, lastFrame, lastSeq);
        FrameParts(s, c, draws[0], answers);
        if DATA_HEADER_SIZE <= s.maxMsgSize && SentInFull(attempts) { EndedFrame(FrameFor(s, c, draws[0]), c.lastSeq, attempts); }
        SentIsTrace(s, c', draws[1..], answers, lastFrame + 1, lastSeq + |messages|);
        NumberedAppend(messages, rest, lastFrame, lastSeq);
      } else {
        NoFrame(s, c, draws[0], answers);
        SentIsTrace(s, c', draws[1..], answers, lastFrame, lastSeq);
        assert [] + rest == rest;
      }
    }
  }

  lemma NoFrame(s: Sender, c: Counters, d: Draw, answers: nat -> int)
    requires d.size <= 0
    ensures FrameAttempts(s, c, d, answers) == [] && Messages(FrameAttempts(s, c, d, answers)) == [] && SentInFull([])
    ensures AfterFrame(s, c, d, answers) == c
  {
  }

  // ----- The stream of bytes -----------------------------------------------------------------------

  function EncodeAll(messages: seq<DataMessage>): (wire: seq<seq<byte>>)
    ensures |wire| == |messages|
  {
    seq(|messages|, i requires 0 <= i < |messages| => Encode(messages[i]))
  }

  /** No more is sent than there is, and every message fits the length field. */
  ghost predicate Bounded(attempts: seq<Attempt>) {
    forall i | 0 <= i < |attempts| :: attempts[i].sent <= |Encode(attempts[i].message)| < 0x1_0000
  }

  lemma BoundedFrame(s: Sender, c: Counters, d: Draw, answers: nat -> int)
    ensures Bounded(FrameAttempts(s, c, d, answers))
  {
    if d.size > 0 {
      FrameParts(s, c, d, answers);
      var attempts := FrameAttempts(s, c, d, answers);
      hide FrameAttempts, Parts, SentInFull;
      forall i | 0 <= i < |attempts| ensures attempts[i].sent <= |Encode(attempts[i].message)| < 0x1_0000 {
        assert IsAttempt(FrameFor(s, c, d), attempts[i], i == 0, (c.lastSeq + 1 + i) % 0x1_0000_0000_0000_0000);
      }
    }
  }

  lemma {:induction false} AllBounded(s: Sender, c: Counters, draws: seq<Draw>, answers: nat -> int)
    ensures Bounded(AllAttempts(s, c, draws, answers))
    decreases |draws|
  {
    if draws != [] {
      hide FrameAttempts, AfterFrame, Encode;
      BoundedFrame(s, c, draws[0], answers);
      AllBounded(s, AfterFrame(s, c, draws[0], answers), draws[1..], answers);
    }
  }

  lemma LastAttempt(attempts: seq<Attempt>)
    requires attempts != []
    ensures var init, last := attempts[..|attempts| - 1], attempts[|attempts| - 1];
      && attempts == init + [last] && OnWire(attempts) == OnWire(init) + WireOf(last)
      && BytesOf(attempts) == BytesOf(init) + Max(last.sent, 0)
      && PacketsOf(attempts) == PacketsOf(init) + (if last.sent > 0 then 1 else 0)
      && EncodeAll(Messages(attempts)) == EncodeAll(Messages(init)) + [Encode(last.message)]
      && (SentInFull(attempts) <==> SentInFull(init) && last.sent == |Encode(last.message)|)
      && (Bounded(attempts) ==> Bounded(init) && last.sent <= |Encode(last.message)|)
  {
    hide Encode, WireOf;
    var init, last := attempts[..|attempts| - 1], attempts[|attempts| - 1];
    FullAppend(init, [last]);
    assert [last][0] == last;
  }

  /** What is sent in full is on the wire, message by message. */
  lemma {:induction false} WireInFull(attempts: seq<Attempt>)
    requires SentInFull(attempts)
    ensures OnWire(attempts) == EncodeAll(Messages(attempts))
  {
    if attempts != [] {
      hide *;
      var last := attempts[|attempts| - 1];
      LastAttempt(attempts);
      WireInFull(attempts[..|attempts| - 1]);
      WholeMessage(last);
    }
  }

  lemma WholeMessage(a: Attempt)
    requires a.sent == |Encode(a.message)|
    ensures WireOf(a) == [Encode(a.message)]
  {
    assert Encode(a.message)[..a.sent] == Encode(a.message);
  }

  lemma OneConcat(m: seq<byte>)
    ensures Concat([m]) == m && Concat([]) == []
  {
    assert [m][1..] == [];
  }

  lemma WireOfOne(a: Attempt)
    requires a.sent <= |Encode(a.message)|
    ensures |Concat(WireOf(a))| == Max(a.sent, 0) && |WireOf(a)| == if a.sent > 0 then 1 else 0
  {
    OneConcat(Encode(a.message));
    if a.sent > 0 { OneConcat(Encode(a.message)[..a.sent]); }
  }

  /** The statistics count what is on the wire: every byte and every send that took something. */
  lemma {:induction false} WireIsCounted(attempts: seq<Attempt>)
    requires Bounded(attempts)
    ensures BytesOf(attempts) == |Concat(OnWire(attempts))| && PacketsOf(attempts) == |OnWire(attempts)|
  {
    if attempts != [] {
      hide *;
      var init, last := attempts[..|attempts| - 1], attempts[|attempts| - 1];
      LastAttempt(attempts);
      WireIsCounted(init);
      WireOfOne(last);
      ConcatAppend(OnWire(init), WireOf(last));
    } else {
      assert OnWire([]) == [] && Concat([]) == [];
    }
  }

  /** Any send that does not take the whole message leaves fewer bytes than there should be. */
  lemma {:induction false} ShortWire(attempts: seq<Attempt>)
    requires Bounded(attempts)
    ensures BytesOf(attempts) <= |Concat(EncodeAll(Messages(attempts)))|
    ensures BytesOf(attempts) == |Concat(EncodeAll(Messages(attempts)))| <==> SentInFull(attempts)
  {
    if attempts == [] {
      assert EncodeAll(Messages(attempts)) == [];
    } else {
      var init, last := attempts[..|attempts| - 1], attempts[|attempts| - 1];
      assert Max(last.sent, 0) == if last.sent < 0 then 0 else last.sent;
      assert |Encode(last.message)| > 0;
      hide *;
      LastAttempt(attempts);
      ShortWire(init);
      OneConcat(Encode(last.message));
      ConcatAppend(EncodeAll(Messages(init)), [Encode(last.message)]);
    }
  }

  lemma EncodedWellFormed(attempts: seq<Attempt>)
    requires Bounded(attempts)
    ensures forall w | w in EncodeAll(Messages(attempts)) :: WellFormed(w, 65535, MAXIMUM_MESSAGE_SIZE)
  {
    hide Encode, WellFormed;
    forall w | w in EncodeAll(Messages(attempts)) ensures WellFormed(w, 65535, MAXIMUM_MESSAGE_SIZE) {
      var i :| 0 <= i < |attempts| && w == Encode(attempts[i].message);
      EncodeIsWellFormed(attempts[i].message, 65535, MAXIMUM_MESSAGE_SIZE);
    }
  }

  /** The stream reads back as the messages if and only if the socket took each of them as a
      whole. */
  lemma ReadsBack(attempts: seq<Attempt>)
    requires Bounded(attempts)
    ensures Parse(Concat(OnWire(attempts)), 65535, MAXIMUM_MESSAGE_SIZE).messages == EncodeAll(Messages(attempts)) <==> SentInFull(attempts)
  {
    hide *;
    WireIsCounted(attempts);
    ShortWire(attempts);
    ParseConserves(Concat(OnWire(attempts)), 65535, MAXIMUM_MESSAGE_SIZE);
    if SentInFull(attempts) {
      WireInFull(attempts);
      EncodedWellFormed(attempts);
      ParseOfConcat(EncodeAll(Messages(attempts)), 65535, MAXIMUM_MESSAGE_SIZE);
    }
  }

  // ----- Sending many frames -----------------------------------------------------------------------

  lemma WireAppend(a: seq<Attempt>, b: seq<Attempt>)
    ensures OnWire(a + b) == OnWire(a) + OnWire(b) && BytesOf(a + b) == BytesOf(a) + BytesOf(b) && PacketsOf(a + b) == PacketsOf(a) + PacketsOf(b)
    decreases |b|
  {
    if b == [] {
      assert a + b == a;
    } else {
      var init, last := b[..|b| - 1], b[|b| - 1];
      assert (a + b)[..|a + b| - 1] == a + init && (a + b)[|a + b| - 1] == last;
      WireAppend(a, init);
      Associate(OnWire(a), OnWire(init), WireOf(last));
    }
  }

  lemma ModuloAdds(a: nat, b: nat, c: nat)
    ensures ((a + b) % 0x1_0000_0000_0000_0000 + c) % 0x1_0000_0000_0000_0000 == (a + (b + c)) % 0x1_0000_0000_0000_0000
  {
  }

  /** Sends a list of frames, one after the other. */
  method TransmitFrames(flow: Flow, link: Link, draws: seq<Draw>)
    modifies flow, link
    ensures var attempts := AllAttempts(SenderOf(flow), old(CountersOf(flow, link)), draws, link.Answers);
      && link.Wire == old(link.Wire) + OnWire(attempts)
      && flow.TransmittedFrames == (old(flow.TransmittedFrames) + |draws|) % 0x1_0000_0000_0000_0000
      && flow.TransmittedPackets == (old(flow.TransmittedPackets) + |OnWire(attempts)|) % 0x1_0000_0000_0000_0000
      && flow.TransmittedBytes == (old(flow.TransmittedBytes) + |Concat(OnWire(attempts))|) % 0x1_0000_0000_0000_0000
  {
    hide FrameAttempts, OnWire, BytesOf, PacketsOf, Encode, AllAttempts, Transmission, Bounded, Concat, SentInFull, Next64;
    ghost var s, c0, goal := SenderOf(flow), CountersOf(flow, link), AllAttempts(SenderOf(flow), CountersOf(flow, link), draws, link.Answers);
    ghost var done: seq<Attempt> := [];
    ghost var wire, frames, packets, bytes := link.Wire, flow.TransmittedFrames, flow.TransmittedPackets, flow.TransmittedBytes;
    var k := 0;
    assert draws[0..] == draws && [] + goal == goal;
    NothingDone();
    while k < |draws|
      invariant 0 <= k <= |draws| && s == SenderOf(flow)
      invariant goal == done + AllAttempts(s, CountersOf(flow, link), draws[k..], link.Answers)
      invariant link.Wire == wire + OnWire(done) && flow.TransmittedFrames == (frames + k) % 0x1_0000_0000_0000_0000
      invariant flow.TransmittedPackets == (packets + PacketsOf(done)) % 0x1_0000_0000_0000_0000
      invariant flow.TransmittedBytes == (bytes + BytesOf(done)) % 0x1_0000_0000_0000_0000
    {
      ghost var c := CountersOf(flow, link);
      ghost var attempts;
      var complete;
      FrameContract(s, c, draws, k, link.Answers);
      complete, attempts := flow.TransmitFrame(link, draws[k].now, draws[k].size);
      assert attempts == FrameAttempts(s, c, draws[k], link.Answers);
      assert CountersOf(flow, link) == AfterFrame(s, c, draws[k], link.Answers);
      Associate(done, attempts, AllAttempts(s, CountersOf(flow, link), draws[k + 1..], link.Answers));
      WireAppend(done, attempts);
      Associate(wire, OnWire(done), OnWire(attempts));
      ModuloAdds(frames, k, 1);
      ModuloAdds(packets, PacketsOf(done), PacketsOf(attempts));
      ModuloAdds(bytes, BytesOf(done), BytesOf(attempts));
      done := done + attempts;
      k := k + 1;
    }
    NothingSentYet(s, CountersOf(flow, link), link.Answers);
    assert draws[k..] == [] && done + [] == done;
    AllBounded(s, c0, draws, link.Answers);
    WireIsCounted(goal);
  }

  lemma NothingDone()
    ensures OnWire([]) == [] && BytesOf([]) == 0 && PacketsOf([]) == 0
  {
  }

  lemma FrameContract(s: Sender, c: Counters, draws: seq<Draw>, k: nat, answers: nat -> int)
    requires k < |draws|
    ensures var d := draws[k];
      FrameAttempts(s, c, d, answers) == if d.size <= 0 then [] else Transmission(FrameFor(s, c, d), 0, c.lastSeq, answers, c.call)
    ensures AllAttempts(s, c, draws[k..], answers) ==
      FrameAttempts(s, c, draws[k], answers) + AllAttempts(s, AfterFrame(s, c, draws[k], answers), draws[k + 1..], answers)
  {
    assert draws[k..][0] == draws[k] && draws[k..][1..] == draws[k + 1..];
  }

  ghost function SenderOf(flow: Flow): Sender {
    Sender(flow.FlowID, flow.MeasurementID, flow.StreamID, flow.AcceptedIncoming, flow.MaxMsgSize)
  }

  ghost function CountersOf(flow: Flow, link: Link): Counters
    reads flow, link
  {
    Counters(flow.LastOutboundFrameID, flow.LastOutboundSeqNumber, flow.TransmittedBytes, link.Calls)
  }

  /** From the sender's frames to the receiver, when the socket took every message as a whole:
      whatever part of the byte stream has arrived, in whatever chunks, the messages delivered so
      far are the first messages sent, and each decodes to what was sent. */
  lemma FramesArrive(s: Sender, c: Counters, draws: seq<Draw>, answers: nat -> int, chunks: seq<seq<byte>>)
    requires SentInFull(AllAttempts(s, c, draws, answers)) && Legal(FRESH, chunks, 65535, MAXIMUM_MESSAGE_SIZE)
    requires Concat(chunks) <= Concat(OnWire(AllAttempts(s, c, draws, answers)))
    ensures var messages, delivered := Sent(s, c, draws, answers), Run(FRESH, chunks, 65535, MAXIMUM_MESSAGE_SIZE).1;
      && |delivered| <= |messages|
      && (forall i | 0 <= i < |delivered| :: Decode(delivered[i]) == Data(messages[i]))
      && (Concat(chunks) == Concat(OnWire(AllAttempts(s, c, draws, answers))) ==> |delivered| == |messages|)
  {
    var messages, attempts := Sent(s, c, draws, answers), AllAttempts(s, c, draws, answers);
    AllBounded(s, c, draws, answers);
    EncodedWellFormed(attempts);
    WireInFull(attempts);
    hide Encode, AllAttempts, Concat, Run, Legal, WellFormed, Bounded, SentInFull, OnWire;
    MessagesArrive(EncodeAll(messages), chunks, 65535, MAXIMUM_MESSAGE_SIZE);
    var delivered := Run(FRESH, chunks, 65535, MAXIMUM_MESSAGE_SIZE).1;
    forall i | 0 <= i < |delivered| ensures Decode(delivered[i]) == Data(messages[i]) {
      assert delivered[i] == EncodeAll(messages)[i] == Encode(messages[i]);
      DecodeEncode(messages[i]);
    }
  }

  /** Reading the whole stream gives the messages of the sender, if and only if no send was short
      and none failed: the program counts a short send as progress, and its next message follows
      in the middle of the one before. */
  lemma ArrivesExactlyInFull(s: Sender, c: Counters, draws: seq<Draw>, answers: nat -> int, chunks: seq<seq<byte>>)
    requires Legal(FRESH, chunks, 65535, MAXIMUM_MESSAGE_SIZE)
    requires Concat(chunks) == Concat(OnWire(AllAttempts(s, c, draws, answers)))
    ensures Run(FRESH, chunks, 65535, MAXIMUM_MESSAGE_SIZE).1 == EncodeAll(Sent(s, c, draws, answers))
      <==> SentInFull(AllAttempts(s, c, draws, answers))
  {
    AllBounded(s, c, draws, answers);
    ReadsBack(AllAttempts(s, c, draws, answers));
    hide AllAttempts, Concat, Run, Legal, OnWire, Parse, Bounded, SentInFull;
    ChunkingDoesNotMatter(chunks, 65535, MAXIMUM_MESSAGE_SIZE);
  }
}
