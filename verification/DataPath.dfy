/** The data path as a whole: frames of a sender, delivered in any way, and the receiver's
    loss counters. */
module DataPath {
  import opened MachineIntegers
  import opened MessageFraming
  import opened DataMessages
  import opened Transfers
  import opened FrameStreams
  import Defragmenters
  import LossAccounting
  import ByteAccounting

  // ----- Numbers ---------------------------------------------------------------------------------------

  lemma {:induction false} FrameNumbersAscend(messages: seq<DataMessage>, lastFrame: int, lastSeq: int, i: nat, j: nat)
    requires Numbered(messages, lastFrame, lastSeq) && i <= j < |messages|
    ensures lastFrame < messages[i].frameID <= messages[j].frameID
    decreases j
  {
    assert FrameAt(messages, j, lastFrame);
    if i < j {
      FrameNumbersAscend(messages, lastFrame, lastSeq, i, j - 1);
    } else if j > 0 {
      FrameNumbersAscend(messages, lastFrame, lastSeq, j - 1, j - 1);
    }
  }

  /** A new flow's messages are numbered as the loss accounting expects. */
  lemma SentIsInOrder(s: Sender, draws: seq<Draw>, answers: nat -> int)
    requires |draws| < 0xffff_ffff && |Sent(s, START, draws, answers)| < 0xffff_ffff_ffff_ffff
    ensures LossAccounting.InOrder(Sent(s, START, draws, answers))
  {
    var messages := Sent(s, START, draws, answers);
    SentIsTrace(s, START, draws, answers, -1, -1);
    hide Sent;
    forall i, j | 0 <= i <= j < |messages| ensures messages[i].frameID <= messages[j].frameID {
      FrameNumbersAscend(messages, -1, -1, i, j);
    }
    forall i | 0 <= i < |messages|
      ensures messages[i].seqNumber == i && messages[i].frameID < 0xffff_ffff && LossAccounting.Sendable(messages[i])
    {
      assert messages[i] in messages;
    }
  }

  /** For the frames of a new flow, any answers of its socket and any delivery of the messages,
      the loss counters are exact if and only if nothing was delivered for the first time after it
      had been passed. */
  lemma LossOfSentFrames(s: Sender, draws: seq<Draw>, answers: nat -> int, events: seq<LossAccounting.Event>)
    requires |draws| < 0xffff_ffff && |Sent(s, START, draws, answers)| < 0xffff_ffff_ffff_ffff
    requires LossAccounting.FromSender(Sent(s, START, draws, answers), events)
    ensures LossAccounting.InOrder(Sent(s, START, draws, answers))
    ensures var r := LossAccounting.RunEvents(Sent(s, START, draws, answers), events);
      && (r.totals.lostPackets == |LossAccounting.GapCounting.Missing(r.packetHistory, r.next.packet)| <==> r.packetHistory.late == {})
      && (r.totals.lostFrames == |LossAccounting.GapCounting.Missing(r.frameHistory, r.next.frameID)| <==> r.frameHistory.late == {})
  {
    SentIsInOrder(s, draws, answers);
    LossAccounting.LossIsExactUnlessLate(Sent(s, START, draws, answers), events);
  }

  // ----- Byte offsets ------------------------------------------------------------------------------------

  /** The number of bytes of some messages. */
  function Total(messages: seq<DataMessage>): nat {
    ByteAccounting.BytesBefore(messages, |messages|)
  }

  /** Each message carries the number of bytes before its frame, if `base` bytes came earlier. */
  ghost predicate OffsetsFrom(messages: seq<DataMessage>, base: nat) {
    forall i | 0 <= i < |messages| :: OffsetFrom(messages, base, i)
  }

  ghost predicate OffsetFrom(messages: seq<DataMessage>, base: nat, i: nat)
    requires i < |messages|
  {
    messages[i].byteSeqNumber ==
      if i > 0 && messages[i].frameID == messages[i - 1].frameID then messages[i - 1].byteSeqNumber
      else base + ByteAccounting.BytesBefore(messages, i)
  }

  lemma {:induction false} BytesOfAppend(a: seq<DataMessage>, b: seq<DataMessage>, n: nat)
    requires n <= |a + b|
    ensures ByteAccounting.BytesBefore(a + b, n) ==
      if n <= |a| then ByteAccounting.BytesBefore(a, n) else Total(a) + ByteAccounting.BytesBefore(b, n - |a|)
  {
    hide ByteAccounting.BytesBefore;
    NoBytesBefore(a);
    NoBytesBefore(b);
    NoBytesBefore(a + b);
    if n > 0 {
      BytesOfAppend(a, b, n - 1);
      ByteAccounting.NextBytesBefore(a + b, n - 1);
      if n <= |a| { ByteAccounting.NextBytesBefore(a, n - 1); } else { ByteAccounting.NextBytesBefore(b, n - 1 - |a|); }
    }
  }

  lemma NoBytesBefore(messages: seq<DataMessage>)
    ensures ByteAccounting.BytesBefore(messages, 0) == 0
  {
  }

  lemma OffsetsAppend(a: seq<DataMessage>, b: seq<DataMessage>, base: nat)
    requires OffsetsFrom(a, base) && OffsetsFrom(b, base + Total(a))
    requires a != [] && b != [] ==> a[|a| - 1].frameID != b[0].frameID
    ensures OffsetsFrom(a + b, base) && Total(a + b) == Total(a) + Total(b)
  {
    hide ByteAccounting.BytesBefore;
    BytesOfAppend(a, b, |a + b|);
    NoBytesBefore(b);
    forall i | 0 <= i < |a + b| ensures OffsetFrom(a + b, base, i) {
      BytesOfAppend(a, b, i);
      if i < |a| { assert OffsetFrom(a, base, i); } else { assert OffsetFrom(b, base + Total(a), i - |a|); }
    }
  }

  /** The bytes of a frame that is sent in full. */
  lemma {:induction false} BytesAreTotal(attempts: seq<Attempt>)
    requires SentInFull(attempts)
    ensures BytesOf(attempts) == Total(Messages(attempts))
  {
    if attempts == [] {
      NoBytesBefore([]);
    } else {
      var init, last := attempts[..|attempts| - 1], attempts[|attempts| - 1];
      LastAttempt(attempts);
      FullAppend(init, [last]);
      BytesAreTotal(init);
      var a := Messages(init);
      hide ByteAccounting.BytesBefore, BytesOf, SentInFull;
      BytesOfAppend(a, [last.message], |a| + 1);
      NoBytesBefore([last.message]);
      ByteAccounting.NextBytesBefore([last.message], 0);
      assert Messages(attempts) == a + [last.message];
    }
  }

  /** One frame: all messages have the byte count before it. */
  lemma FrameOffset(s: Sender, c: Counters, d: Draw, answers: nat -> int)
    requires d.size > 0
    ensures OffsetsFrom(Messages(FrameAttempts(s, c, d, answers)), c.bytes)
  {
    var f, attempts := FrameFor(s, c, d), FrameAttempts(s, c, d, answers);
    FrameParts(s, c, d, answers);
    var messages := Messages(attempts);
    NoBytesBefore(messages);
    hide ByteAccounting.BytesBefore, FrameAttempts, Parts, SentInFull;
    forall i | 0 <= i < |messages| ensures messages[i].byteSeqNumber == c.bytes && messages[i].frameID == f.frameID {
      assert IsAttempt(f, attempts[i], i == 0, (c.lastSeq + 1 + i) % 0x1_0000_0000_0000_0000);
    }
  }

  lemma BytesAfter(s: Sender, c: Counters, d: Draw, answers: nat -> int)
    requires SentInFull(FrameAttempts(s, c, d, answers))
    requires c.bytes + Total(Messages(FrameAttempts(s, c, d, answers))) < 0x1_0000_0000_0000_0000
    ensures AfterFrame(s, c, d, answers).bytes == c.bytes + Total(Messages(FrameAttempts(s, c, d, answers)))
  {
    hide FrameAttempts, SentInFull, Total;
    BytesAreTotal(FrameAttempts(s, c, d, answers));
  }

  /** On a socket that takes every message as a whole, the offset of each message is the number of
      bytes sent before its frame. */
  lemma {:induction false} SentOffsets(s: Sender, c: Counters, draws: seq<Draw>, answers: nat -> int, lastFrame: int, lastSeq: int)
    requires -1 <= lastFrame && -1 <= lastSeq && Next32(c.lastFrameID) == lastFrame + 1 && Next64(c.lastSeq) == lastSeq + 1
    requires lastFrame + |draws| < 0xffff_ffff && lastSeq + |Sent(s, c, draws, answers)| < 0xffff_ffff_ffff_ffff
    requires SentInFull(AllAttempts(s, c, draws, answers)) && c.bytes + Total(Sent(s, c, draws, answers)) < 0x1_0000_0000_0000_0000
    ensures OffsetsFrom(Sent(s, c, draws, answers), c.bytes)
    decreases |draws|
  {
    hide *;
    if draws == [] {
      NothingSentYet(s, c, answers);
      NothingOffset(c.bytes);
    } else {
      var d, attempts, c' := draws[0], FrameAttempts(s, c, draws[0], answers), AfterFrame(s, c, draws[0], answers);
      var messages, rest := Messages(attempts), Sent(s, c', draws[1..], answers);
      var lastFrame', lastSeq' := lastFrame + (if d.size > 0 then 1 else 0), lastSeq + |attempts|;
      SentInFront(s, c, draws, answers);
      assert |messages| == |attempts|;
      TotalOfAppend(messages, rest);
      CountersAfter(s, c, d, answers, lastFrame, lastSeq);
      BytesAfter(s, c, d, answers);
      SentOffsets(s, c', draws[1..], answers, lastFrame', lastSeq');
      SentIsTrace(s, c', draws[1..], answers, lastFrame', lastSeq');
      FrameInFront(s, c, d, answers, lastFrame, lastSeq, rest);
    }
  }

  lemma FrameInFront(s: Sender, c: Counters, d: Draw, answers: nat -> int, lastFrame: int, lastSeq: int, rest: seq<DataMessage>)
    requires -1 <= lastFrame < 0xffff_ffff && -1 <= lastSeq && Next32(c.lastFrameID) == lastFrame + 1 && Next64(c.lastSeq) == lastSeq + 1
    requires lastSeq + |FrameAttempts(s, c, d, answers)| < 0x1_0000_0000_0000_0000
    requires var messages, lastFrame' := Messages(FrameAttempts(s, c, d, answers)), lastFrame + if d.size > 0 then 1 else 0;
      Numbered(rest, lastFrame', lastSeq + |messages|) && OffsetsFrom(rest, c.bytes + Total(messages))
    ensures OffsetsFrom(Messages(FrameAttempts(s, c, d, answers)) + rest, c.bytes)
  {
    hide *;
    var messages := Messages(FrameAttempts(s, c, d, answers));
    if d.size > 0 {
      NumberedFrame(s, c, d, answers, lastFrame, lastSeq);
      FrameOffset(s, c, d, answers);
      if rest != [] { FrameNumbersAscend(rest, lastFrame + 1, lastSeq + |messages|, 0, 0); }
      OffsetsAppend(messages, rest, c.bytes);
    } else {
      NoFrame(s, c, d, answers);
      NothingOffset(c.bytes);
      OffsetsAppend(messages, rest, c.bytes);
    }
  }

  lemma NothingOffset(base: nat)
    ensures OffsetsFrom([], base) && Total([]) == 0
  {
    NoBytesBefore([]);
  }

  lemma TotalOfAppend(a: seq<DataMessage>, b: seq<DataMessage>)
    ensures Total(a + b) == Total(a) + Total(b)
  {
    BytesOfAppend(a, b, |a + b|);
    NoBytesBefore(b);
  }

  // ----- Frames of one message -----------------------------------------------------------------------------

  lemma OneMessage(f: Frame, lastSeq: uint64, attempts: seq<Attempt>)
    requires Parts(f, 0, lastSeq, attempts)
    ensures |attempts| == 1 <==> f.size <= f.maxMsgSize
  {
    hide IsPart;
    OneMultiple(|attempts|, f.maxMsgSize, f.size);
  }

  lemma OneMultiple(n: nat, m: nat, size: nat)
    requires n > 0 && (n - 1) * m < size <= n * m
    ensures n == 1 <==> size <= m
  {
    if n > 1 { assert (n - 1) * m == (n - 2) * m + m && (n - 2) * m >= 0; }
  }

  /** A frame is one message if and only if it fits. */
  lemma FrameFits(s: Sender, c: Counters, d: Draw, answers: nat -> int)
    requires d.size > 0 && DATA_HEADER_SIZE <= s.maxMsgSize && SentInFull(FrameAttempts(s, c, d, answers))
    ensures |Messages(FrameAttempts(s, c, d, answers))| == 1 <==> d.size <= s.maxMsgSize
  {
    FrameParts(s, c, d, answers);
    hide FrameAttempts, Parts, SentInFull, AreAttempts;
    OneMessage(FrameFor(s, c, d), c.lastSeq, FrameAttempts(s, c, d, answers));
  }

  lemma SinglesAppend(a: seq<DataMessage>, b: seq<DataMessage>, n: nat)
    requires a != [] && (forall m | m in a :: m.frameID == n) && (forall i | 0 <= i < |b| :: b[i].frameID > n)
    ensures ByteAccounting.SingleMessages(a + b) <==> |a| == 1 && ByteAccounting.SingleMessages(b)
  {
    var all := a + b;
    if |a| > 1 { assert a[0] in a && a[1] in a && all[0].frameID == all[1].frameID; }
    if ByteAccounting.SingleMessages(all) {
      forall i, j | 0 <= i < j < |b| ensures b[i].frameID < b[j].frameID { assert all[|a| + i].frameID < all[|a| + j].frameID; }
    }
    if |a| == 1 && ByteAccounting.SingleMessages(b) {
      forall i, j | 0 <= i < j < |all| ensures all[i].frameID < all[j].frameID {
        if i == 0 { assert all[0] in a && all[j] == b[j - 1]; } else { assert b[i - 1].frameID < b[j - 1].frameID; }
      }
    }
  }

  lemma SinglesBeforeAppend(a: seq<DataMessage>, b: seq<DataMessage>, n: nat, f: int)
    requires a != [] && (forall m | m in a :: m.frameID == n) && (forall i | 0 <= i < |b| :: b[i].frameID > n)
    ensures n < f ==> (ByteAccounting.SinglesBefore(a + b, f) <==> |a| == 1 && ByteAccounting.SinglesBefore(b, f))
    ensures n >= f ==> ByteAccounting.SinglesBefore(a + b, f)
  {
    var all := a + b;
    assert forall i | 0 <= i < |a| :: all[i] in a && all[i].frameID == n;
    assert forall i | 0 <= i < |b| :: all[|a| + i] == b[i];
    if |a| > 1 { assert all[0].frameID == all[1].frameID; }
    if n < f && ByteAccounting.SinglesBefore(all, f) {
      forall i, j | 0 <= i < j < |b| && b[i].frameID == b[j].frameID ensures b[i].frameID >= f {
        assert all[|a| + i].frameID == all[|a| + j].frameID;
      }
    }
    if |a| == 1 && ByteAccounting.SinglesBefore(b, f) {
      forall i, j | 0 <= i < j < |all| && all[i].frameID == all[j].frameID ensures all[i].frameID >= f {
        assert i > 0 ==> b[i - 1].frameID == b[j - 1].frameID;
      }
    }
  }

  /** Nothing is sent if and only if no frame has a size. */
  lemma {:induction false} NothingToSend(s: Sender, c: Counters, draws: seq<Draw>, answers: nat -> int)
    ensures Sent(s, c, draws, answers) == [] <==> forall k | 0 <= k < |draws| :: draws[k].size <= 0
    decreases |draws|
  {
    if draws == [] {
      NothingSentYet(s, c, answers);
    } else {
      hide AllAttempts, FrameAttempts, AfterFrame, AreAttempts, Parts, SentInFull, Sent;
      SentInFront(s, c, draws, answers);
      NothingToSend(s, AfterFrame(s, c, draws[0], answers), draws[1..], answers);
      if draws[0].size > 0 {
        FrameParts(s, c, draws[0], answers);
      } else {
        NoFrame(s, c, draws[0], answers);
        assert draws == [draws[0]] + draws[1..];
      }
    }
  }

  ghost predicate AllFit(draws: seq<Draw>, max: int) {
    forall k | 0 <= k < |draws| :: draws[k].size <= max
  }

  /** Every frame but the last one that is sent fits a message. */
  ghost predicate AllButLastFit(draws: seq<Draw>, max: int) {
    forall j, k | 0 <= j < k < |draws| && draws[k].size > 0 :: draws[j].size <= max
  }

  ghost predicate SomethingToSend(draws: seq<Draw>) {
    exists k :: 0 <= k < |draws| && draws[k].size > 0
  }

  lemma FitInFront(draws: seq<Draw>, max: int)
    requires draws != []
    ensures AllFit(draws, max) <==> draws[0].size <= max && AllFit(draws[1..], max)
    ensures AllButLastFit(draws, max) <==> (SomethingToSend(draws[1..]) ==> draws[0].size <= max) && AllButLastFit(draws[1..], max)
  {
    var rest := draws[1..];
    assert forall k | 0 <= k < |rest| :: rest[k] == draws[k + 1];
    assert forall k | 0 < k < |draws| :: draws[k] == rest[k - 1];
    if AllFit(draws, max) {
      forall k | 0 <= k < |rest| ensures rest[k].size <= max { assert draws[k + 1].size <= max; }
    }
    if AllButLastFit(draws, max) {
      forall j, k | 0 <= j < k < |rest| && rest[k].size > 0 ensures rest[j].size <= max { assert draws[j + 1].size <= max; }
      if k :| 0 <= k < |rest| && rest[k].size > 0 { assert draws[k + 1].size > 0; }
    }
  }

  lemma NumbersAfter(rest: seq<DataMessage>, lastFrame: int, lastSeq: int)
    requires Numbered(rest, lastFrame, lastSeq)
    ensures forall i | 0 <= i < |rest| :: rest[i].frameID > lastFrame
    ensures rest != [] ==> ByteAccounting.LastFrame(rest) > lastFrame
  {
    hide Numbered;
    forall i | 0 <= i < |rest| ensures rest[i].frameID > lastFrame { FrameNumbersAscend(rest, lastFrame, lastSeq, i, i); }
  }

  lemma LastFrameAppend(a: seq<DataMessage>, b: seq<DataMessage>)
    ensures ByteAccounting.LastFrame(a + b) == if b == [] then ByteAccounting.LastFrame(a) else ByteAccounting.LastFrame(b)
  {
    if b == [] { assert a + b == a; }
  }

  /** One more frame in front of others. */
  lemma SinglesInFront(messages: seq<DataMessage>, rest: seq<DataMessage>, n: nat, lastSeq: int, draws: seq<Draw>, max: nat)
    requires messages != [] && forall m | m in messages :: m.frameID == n
    requires Numbered(rest, n, lastSeq) && draws != [] && draws[0].size > 0
    requires |messages| == 1 <==> draws[0].size <= max
    requires rest != [] <==> SomethingToSend(draws[1..])
    requires ByteAccounting.SingleMessages(rest) <==> AllFit(draws[1..], max)
    requires ByteAccounting.SinglesBefore(rest, ByteAccounting.LastFrame(rest)) <==> AllButLastFit(draws[1..], max)
    ensures ByteAccounting.SingleMessages(messages + rest) <==> AllFit(draws, max)
    ensures ByteAccounting.SinglesBefore(messages + rest, ByteAccounting.LastFrame(messages + rest)) <==> AllButLastFit(draws, max)
  {
    assert messages[|messages| - 1] in messages;
    assert rest == [] ==> ByteAccounting.SinglesBefore(rest, ByteAccounting.LastFrame(rest));
    hide Numbered, ByteAccounting.SingleMessages, ByteAccounting.SinglesBefore, AllFit, AllButLastFit, SomethingToSend;
    FitInFront(draws, max);
    NumbersAfter(rest, n, lastSeq);
    SinglesAppend(messages, rest, n);
    LastFrameAppend(messages, rest);
    SinglesBeforeAppend(messages, rest, n, ByteAccounting.LastFrame(messages + rest));
  }

  lemma NoSingles(draws: seq<Draw>, max: int)
    requires draws == []
    ensures ByteAccounting.SingleMessages([]) && ByteAccounting.SinglesBefore([], ByteAccounting.LastFrame([])) && AllFit(draws, max) && AllButLastFit(draws, max)
  {
  }

  /** The messages are one for each frame if and only if every frame fits a message; and the same
      without the last frame. */
  lemma {:induction false} SinglesOfDraws(s: Sender, c: Counters, draws: seq<Draw>, answers: nat -> int, lastFrame: int, lastSeq: int)
    requires -1 <= lastFrame && -1 <= lastSeq && Next32(c.lastFrameID) == lastFrame + 1 && Next64(c.lastSeq) == lastSeq + 1
    requires lastFrame + |draws| < 0xffff_ffff && lastSeq + |Sent(s, c, draws, answers)| < 0xffff_ffff_ffff_ffff
    requires SentInFull(AllAttempts(s, c, draws, answers)) && DATA_HEADER_SIZE <= s.maxMsgSize
    ensures var messages := Sent(s, c, draws, answers);
      && (ByteAccounting.SingleMessages(messages) <==> AllFit(draws, s.maxMsgSize))
      && (ByteAccounting.SinglesBefore(messages, ByteAccounting.LastFrame(messages)) <==> AllButLastFit(draws, s.maxMsgSize))
    decreases |draws|
  {
    hide *;
    if draws == [] {
      NothingSentYet(s, c, answers);
      NoSingles(draws, s.maxMsgSize);
    } else {
      var d, attempts, c' := draws[0], FrameAttempts(s, c, draws[0], answers), AfterFrame(s, c, draws[0], answers);
      var messages, rest := Messages(attempts), Sent(s, c', draws[1..], answers);
      var lastFrame', lastSeq' := lastFrame + (if d.size > 0 then 1 else 0), lastSeq + |attempts|;
      SentInFront(s, c, draws, answers);
      assert |messages| == |attempts|;
      CountersAfter(s, c, d, answers, lastFrame, lastSeq);
      SinglesOfDraws(s, c', draws[1..], answers, lastFrame', lastSeq');
      SentIsTrace(s, c', draws[1..], answers, lastFrame', lastSeq');
      if d.size > 0 {
        NumberedFrame(s, c, d, answers, lastFrame, lastSeq);
        FrameFits(s, c, d, answers);
        ToSend(s, c', draws[1..], answers);
        SinglesInFront(messages, rest, lastFrame', lastSeq', draws, s.maxMsgSize);
      } else {
        NoFrame(s, c, d, answers);
        assert [] + rest == rest;
        FitInFront(draws, s.maxMsgSize);
      }
    }
  }

  lemma ToSend(s: Sender, c: Counters, draws: seq<Draw>, answers: nat -> int)
    ensures Sent(s, c, draws, answers) != [] <==> SomethingToSend(draws)
  {
    NothingToSend(s, c, draws, answers);
  }

  // ----- Lost bytes ------------------------------------------------------------------------------------------

  /** A new flow sends its frames on a socket that takes every message as a whole, and no counter
      wraps around. */
  ghost predicate SendsInFull(s: Sender, draws: seq<Draw>, answers: nat -> int) {
    && SentInFull(AllAttempts(s, START, draws, answers)) && DATA_HEADER_SIZE <= s.maxMsgSize && |draws| < 0xffff_ffff
    && |Sent(s, START, draws, answers)| < 0xffff_ffff_ffff_ffff && Total(Sent(s, START, draws, answers)) < 0x1_0000_0000_0000_0000
  }

  /** All messages of a frame carry the number of bytes sent before the frame: what the byte
      accounting needs. */
  lemma SentIsOffset(s: Sender, draws: seq<Draw>, answers: nat -> int)
    requires SendsInFull(s, draws, answers)
    ensures var sent := Sent(s, START, draws, answers);
      LossAccounting.InOrder(sent) && ByteAccounting.FrameOffsets(sent) && ByteAccounting.BytesFit(sent)
  {
    var sent := Sent(s, START, draws, answers);
    hide Sent, AllAttempts, ByteAccounting.BytesBefore, LossAccounting.InOrder, SentInFull;
    SentIsInOrder(s, draws, answers);
    SentOffsets(s, START, draws, answers, -1, -1);
    forall i | 0 <= i < |sent| ensures ByteAccounting.OffsetAt(sent, i) { assert OffsetFrom(sent, 0, i); }
    ByteAccounting.OffsetsFit(sent);
  }

  lemma SentSingles(s: Sender, draws: seq<Draw>, answers: nat -> int)
    requires SendsInFull(s, draws, answers)
    ensures var sent := Sent(s, START, draws, answers);
      && (ByteAccounting.SingleMessages(sent) <==> AllFit(draws, s.maxMsgSize))
      && (ByteAccounting.SinglesBefore(sent, ByteAccounting.LastFrame(sent)) <==> AllButLastFit(draws, s.maxMsgSize))
  {
    hide Sent, AllAttempts, SentInFull, AllFit, AllButLastFit, ByteAccounting.SingleMessages, ByteAccounting.SinglesBefore, Total;
    SinglesOfDraws(s, START, draws, answers, -1, -1);
  }

  /** If every frame fits a message, then for any delivery the lost bytes are exact if and only if
      nothing came late. */
  lemma ByteLossOfSingleMessages(s: Sender, draws: seq<Draw>, answers: nat -> int, events: seq<LossAccounting.Event>)
    requires SendsInFull(s, draws, answers) && AllFit(draws, s.maxMsgSize)
    requires LossAccounting.FromSender(Sent(s, START, draws, answers), events)
    ensures var sent := Sent(s, START, draws, answers);
      && LossAccounting.InOrder(sent)
      && var r := LossAccounting.RunEvents(sent, events);
      var missing := ByteAccounting.BytesIn(sent, LossAccounting.GapCounting.Missing(r.packetHistory, r.next.packet));
      && r.totals.lostBytes == missing + ByteAccounting.BytesIn(sent, r.packetHistory.late)
      && (r.totals.lostBytes == missing <==> r.packetHistory.late == {})
  {
    hide *;
    SentIsOffset(s, draws, answers);
    SentSingles(s, draws, answers);
    ByteAccounting.SinglesLoss(Sent(s, START, draws, answers), events);
  }

  /** Even when everything was delivered, in any order, and nothing came late, the counter of lost
      bytes is zero if and only if every frame but the last one fits a message. */
  lemma LosslessByteLoss(s: Sender, draws: seq<Draw>, answers: nat -> int, events: seq<LossAccounting.Event>)
    requires SendsInFull(s, draws, answers) && LossAccounting.FromSender(Sent(s, START, draws, answers), events)
    requires LossAccounting.InOrder(Sent(s, START, draws, answers))
    requires ByteAccounting.Complete(Sent(s, START, draws, answers), LossAccounting.RunEvents(Sent(s, START, draws, answers), events))
    ensures LossAccounting.RunEvents(Sent(s, START, draws, answers), events).totals.lostBytes == 0 <==> AllButLastFit(draws, s.maxMsgSize)
  {
    hide *;
    SentIsOffset(s, draws, answers);
    SentSingles(s, draws, answers);
    ByteAccounting.CompleteByteLoss(Sent(s, START, draws, answers), events);
  }

  // ----- Over a stream ----------------------------------------------------------------------------------------

  /** The sequence numbers of the data messages among those that were read, in order. */
  function NumbersRead(delivered: seq<seq<byte>>): seq<nat> {
    if delivered == [] then [] else
    var last := Decode(delivered[|delivered| - 1]);
    NumbersRead(delivered[..|delivered| - 1]) + if last.Data? then [last.message.seqNumber as nat] else []
  }

  lemma {:induction false} NumbersReadInSequence(delivered: seq<seq<byte>>, messages: seq<DataMessage>)
    requires |delivered| <= |messages| && forall i | 0 <= i < |messages| :: messages[i].seqNumber == i
    requires forall i | 0 <= i < |delivered| :: Decode(delivered[i]) == Data(messages[i])
    ensures |NumbersRead(delivered)| == |delivered| && LossAccounting.InSequence(NumbersRead(delivered))
  {
    hide Decode;
    if delivered != [] { NumbersReadInSequence(delivered[..|delivered| - 1], messages); }
  }

  lemma FramesFollow(messages: seq<DataMessage>)
    requires Numbered(messages, -1, -1)
    ensures LossAccounting.FramesFollow(messages)
  {
    forall i | 0 <= i < |messages| ensures LossAccounting.FollowsAt(messages, i) { assert FrameAt(messages, i, -1); }
  }

  lemma SequenceFromSender(messages: seq<DataMessage>, events: seq<LossAccounting.Event>)
    requires LossAccounting.InSequence(LossAccounting.Numbers(events)) && |LossAccounting.Numbers(events)| <= |messages|
    ensures LossAccounting.FromSender(messages, events)
  {
    hide LossAccounting.Numbers;
    forall e | e in events && e.Arrival? ensures e.number < |messages| { LossAccounting.NumbersOfArrivals(events, e); }
  }

  /** The numbers of what is read of a stream that is sent in full. */
  lemma ReadInSequence(s: Sender, draws: seq<Draw>, answers: nat -> int, chunks: seq<seq<byte>>)
    requires SentInFull(AllAttempts(s, START, draws, answers)) && Legal(FRESH, chunks, 65535, MAXIMUM_MESSAGE_SIZE)
    requires |draws| < 0xffff_ffff && |Sent(s, START, draws, answers)| < 0xffff_ffff_ffff_ffff
    requires Concat(chunks) <= Concat(OnWire(AllAttempts(s, START, draws, answers)))
    ensures var sent, numbers := Sent(s, START, draws, answers), NumbersRead(Run(FRESH, chunks, 65535, MAXIMUM_MESSAGE_SIZE).1);
      && LossAccounting.InOrder(sent) && LossAccounting.FramesFollow(sent)
      && LossAccounting.InSequence(numbers) && |numbers| <= |sent|
      && (Concat(chunks) == Concat(OnWire(AllAttempts(s, START, draws, answers))) ==> |numbers| == |sent|)
  {
    var sent := Sent(s, START, draws, answers);
    hide AllAttempts, Sent, Run, Legal, Concat, OnWire, SentInFull, NumbersRead, LossAccounting.InSequence, LossAccounting.FramesFollow, Decode,
         Numbered;
    SentIsInOrder(s, draws, answers);
    SentIsTrace(s, START, draws, answers, -1, -1);
    FramesFollow(sent);
    FramesArrive(s, START, draws, answers, chunks);
    NumbersReadInSequence(Run(FRESH, chunks, 65535, MAXIMUM_MESSAGE_SIZE).1, sent);
  }

  /** The whole way: frames of a new flow, on a stream that takes every message as a whole, of
      which any part has been read in any chunks.  Its messages are handed to the defragmenter as
      they are read, with purges at any times in between.  Then nothing comes late, no packet and
      no frame is reported lost, and all that is below the next expected numbers was counted. */
  lemma StreamIsLossless(s: Sender, draws: seq<Draw>, answers: nat -> int, chunks: seq<seq<byte>>, events: seq<LossAccounting.Event>)
    requires SentInFull(AllAttempts(s, START, draws, answers)) && Legal(FRESH, chunks, 65535, MAXIMUM_MESSAGE_SIZE)
    requires |draws| < 0xffff_ffff && |Sent(s, START, draws, answers)| < 0xffff_ffff_ffff_ffff
    requires Concat(chunks) <= Concat(OnWire(AllAttempts(s, START, draws, answers)))
    requires LossAccounting.Numbers(events) == NumbersRead(Run(FRESH, chunks, 65535, MAXIMUM_MESSAGE_SIZE).1)
    ensures LossAccounting.InOrder(Sent(s, START, draws, answers)) && LossAccounting.FromSender(Sent(s, START, draws, answers), events)
    ensures var r := LossAccounting.RunEvents(Sent(s, START, draws, answers), events);
      && r.packetHistory.late == {} && r.frameHistory.late == {} && r.totals.lostPackets == 0 && r.totals.lostFrames == 0
      && |r.packetHistory.counted| == r.next.packet && r.totals.receivedFrames == r.next.frameID
  {
    var sent := Sent(s, START, draws, answers);
    hide *;
    ReadInSequence(s, draws, answers, chunks);
    SequenceFromSender(sent, events);
    LossAccounting.InSequenceIsLossless(sent, events);
    LossAccounting.LossIsExactUnlessLate(sent, events);
  }

  /** When the whole stream has been read, and the defragmenter has been emptied: every message
      and every frame was counted; and the counter of lost bytes is zero if and only if every frame
      but the last one fits a message. */
  lemma WholeStreamIsCounted(s: Sender, draws: seq<Draw>, answers: nat -> int, chunks: seq<seq<byte>>, events: seq<LossAccounting.Event>)
    requires SendsInFull(s, draws, answers) && Legal(FRESH, chunks, 65535, MAXIMUM_MESSAGE_SIZE)
    requires Concat(chunks) == Concat(OnWire(AllAttempts(s, START, draws, answers)))
    requires LossAccounting.Numbers(events) == NumbersRead(Run(FRESH, chunks, 65535, MAXIMUM_MESSAGE_SIZE).1)
    ensures LossAccounting.InOrder(Sent(s, START, draws, answers)) && LossAccounting.FromSender(Sent(s, START, draws, answers), events)
    ensures var sent, r := Sent(s, START, draws, answers), LossAccounting.RunEvents(Sent(s, START, draws, answers), events);
      r.frames == [] ==>
      && |r.packetHistory.counted| == |sent| && r.totals.receivedFrames == ByteAccounting.LastFrame(sent) + 1
      && (r.totals.lostBytes == 0 <==> AllButLastFit(draws, s.maxMsgSize))
  {
    var sent := Sent(s, START, draws, answers);
    hide *;
    SendsInFullLooks(s, draws, answers);
    ReadInSequence(s, draws, answers, chunks);
    StreamIsLossless(s, draws, answers, chunks, events);
    var r := LossAccounting.RunEvents(sent, events);
    if r.frames == [] {
      LossAccounting.InSequenceIsLossless(sent, events);
      LossAccounting.RunKeeps(sent, events);
      SentIsOffset(s, draws, answers);
      ByteAccounting.NothingPending(sent, r);
      ByteAccounting.CompleteLooks(sent, r);
      ByteAccounting.LastReceived(sent, events);
      LosslessByteLoss(s, draws, answers, events);
      LossAccounting.RunFollows(sent, events);
      LossAccounting.PassedHasCome(sent, r, |sent|);
      NoLastFrame();
    }
  }

  lemma NoLastFrame()
    ensures ByteAccounting.LastFrame([]) == -1
  {
  }

  lemma SendsInFullLooks(s: Sender, draws: seq<Draw>, answers: nat -> int)
    requires SendsInFull(s, draws, answers)
    ensures SentInFull(AllAttempts(s, START, draws, answers))
    ensures |draws| < 0xffff_ffff && |Sent(s, START, draws, answers)| < 0xffff_ffff_ffff_ffff
  {
  }

  // ----- An example --------------------------------------------------------------------------------------------

  /** Two frames of 3000 bytes. */
  const LARGE: seq<Draw> := [Draw(0, 3000), Draw(0, 3000)]

  /** All six messages arrive in order; then everything is purged. */
  const IN_ORDER: seq<LossAccounting.Event> :=
    [LossAccounting.Arrival(0, 0), LossAccounting.Arrival(0, 1), LossAccounting.Arrival(0, 2),
     LossAccounting.Arrival(0, 3), LossAccounting.Arrival(0, 4), LossAccounting.Arrival(0, 5)]

  /** A frame of 3000 bytes in messages of 1000 bytes. */
  lemma ThreeMessages(s: Sender, c: Counters, answers: nat -> int)
    requires s.maxMsgSize == 1000 && SentInFull(FrameAttempts(s, c, Draw(0, 3000), answers))
    ensures var messages := Messages(FrameAttempts(s, c, Draw(0, 3000), answers));
      && |messages| == 3 && forall i | 0 <= i < 3 :: messages[i].frameID == Next32(c.lastFrameID) && DATA_HEADER_SIZE + |messages[i].payload| == 1000
  {
    var f, attempts := FrameFor(s, c, Draw(0, 3000)), FrameAttempts(s, c, Draw(0, 3000), answers);
    FrameParts(s, c, Draw(0, 3000), answers);
    hide FrameAttempts, Encode, Pattern, AreAttempts;
    forall i | 0 <= i < 3 ensures attempts[i].message.frameID == f.frameID && DATA_HEADER_SIZE + |attempts[i].message.payload| == 1000 {
      assert IsPart(f, attempts[i], i, 3, true, (c.lastSeq + 1 + i) % 0x1_0000_0000_0000_0000, 1000);
    }
  }

  lemma SixMessages(s: Sender, answers: nat -> int)
    requires s.maxMsgSize == 1000 && SentInFull(AllAttempts(s, START, LARGE, answers))
    ensures var sent := Sent(s, START, LARGE, answers);
      && |sent| == 6
      && forall i | 0 <= i < 6 :: sent[i].frameID == i / 3 && ByteAccounting.Length(sent, i) == 1000
  {
    var c := AfterFrame(s, START, LARGE[0], answers);
    SentInFront(s, START, LARGE, answers);
    ThreeMessages(s, START, answers);
    assert LARGE[1..] == [LARGE[1]] && LARGE[1..][1..] == [];
    SentInFront(s, c, LARGE[1..], answers);
    ThreeMessages(s, c, answers);
    assert c.lastFrameID == 0;
    hide FrameAttempts, AfterFrame, SentInFull, AllAttempts, Messages;
    NothingSentYet(s, AfterFrame(s, c, LARGE[1], answers), answers);
  }

  lemma SixThousandBytes(sent: seq<DataMessage>)
    requires |sent| == 6 && forall i | 0 <= i < 6 :: ByteAccounting.Length(sent, i) == 1000
    ensures Total(sent) == 6000 && ByteAccounting.BytesIn(sent, {0, 1, 2}) == 3000
  {
    NoBytesBefore(sent);
    ByteAccounting.NextBytesBefore(sent, 0);
    ByteAccounting.NextBytesBefore(sent, 1);
    ByteAccounting.NextBytesBefore(sent, 2);
    ByteAccounting.NextBytesBefore(sent, 3);
    ByteAccounting.NextBytesBefore(sent, 4);
    ByteAccounting.NextBytesBefore(sent, 5);
    ByteAccounting.BytesSame(sent, {0, 1, 2}, LossAccounting.GapCounting.Below(3), 3);
    ByteAccounting.BytesBeyond(sent, {0, 1, 2}, 3, 6);
  }

  /** One message of the first frame is counted; the other two are reported lost. */
  lemma TwoUncounted(sent: seq<DataMessage>, events: seq<LossAccounting.Event>)
    requires |sent| == 6 && forall i | 0 <= i < 6 :: sent[i].frameID == i / 3 && ByteAccounting.Length(sent, i) == 1000
    requires LossAccounting.InOrder(sent) && LossAccounting.FromSender(sent, events) && ByteAccounting.FrameOffsets(sent) && ByteAccounting.BytesFit(sent)
    requires ByteAccounting.Complete(sent, LossAccounting.RunEvents(sent, events))
    ensures LossAccounting.RunEvents(sent, events).totals.lostBytes == 2000
  {
    var r := LossAccounting.RunEvents(sent, events);
    FirstFrame(sent);
    hide LossAccounting.RunEvents, LossAccounting.InOrder, ByteAccounting.FrameOffsets, ByteAccounting.EarlierThan, ByteAccounting.Length,
         ByteAccounting.BytesIn, ByteAccounting.BytesFit, ByteAccounting.Complete, LossAccounting.FromSender, ByteAccounting.HeadPerFrame;
    SixThousandBytes(sent);
    ByteAccounting.CompleteLooks(sent, r);
    ByteAccounting.LastReceived(sent, events);
    ByteAccounting.LostBytesAreUncounted(sent, events);
    ByteAccounting.EarlierIsPassed(sent, r.heads, r.packetHistory.counted, r.frameHistory.counted, r.next);
    ByteAccounting.EarlierIsCounted(sent, events);
    OneOfThree(sent, r.heads, r.packetHistory.counted, r.frameHistory.counted, r.next);
  }

  lemma FirstFrame(sent: seq<DataMessage>)
    requires |sent| == 6 && forall i | 0 <= i < 6 :: sent[i].frameID == i / 3
    ensures ByteAccounting.EarlierThan(sent, 1) == {0, 1, 2} && ByteAccounting.LastFrame(sent) == 1
  {
  }

  lemma OneOfThree(sent: seq<DataMessage>, heads: set<nat>, packets: set<nat>, frames: set<nat>, n: Defragmenters.Next)
    requires |sent| == 6 && ByteAccounting.BytesIn(sent, {0, 1, 2}) == 3000
    requires forall i | 0 <= i < 6 :: sent[i].frameID == i / 3 && ByteAccounting.Length(sent, i) == 1000
    requires ByteAccounting.HeadPerFrame(sent, heads, packets, frames, n) && 0 in frames
    ensures ByteAccounting.BytesIn(sent, {0, 1, 2} - heads) == 2000
  {
    assert ByteAccounting.HasHead(sent, heads, 0);
    var h: nat :| h in heads && h < |sent| && sent[h].frameID == 0;
    forall g | g in heads && g in {0, 1, 2} ensures g == h { assert sent[g].frameID == sent[h].frameID; }
    assert {0, 1, 2} - heads == {0, 1, 2} - {h} && {0, 1, 2} == ({0, 1, 2} - {h}) + {h};
    ByteAccounting.BytesPlus(sent, {0, 1, 2} - {h}, h);
  }

  /** Two frames of 3000 bytes in messages of 1000 bytes, all delivered in order: 2000 bytes are
      reported lost. */
  lemma ByteLossExample(s: Sender, answers: nat -> int)
    requires s.maxMsgSize == 1000 && SentInFull(AllAttempts(s, START, LARGE, answers))
    ensures var sent, events := Sent(s, START, LARGE, answers), IN_ORDER + [LossAccounting.Purge(0, 0)];
      && |sent| == 6 && LossAccounting.InOrder(sent) && LossAccounting.FromSender(sent, events)
      && ByteAccounting.Complete(sent, LossAccounting.RunEvents(sent, events))
      && LossAccounting.RunEvents(sent, events).totals.lostBytes == 2000
  {
    var sent := Sent(s, START, LARGE, answers);
    SixMessages(s, answers);
    SixThousandBytes(sent);
    assert SendsInFull(s, LARGE, answers);
    SentIsOffset(s, LARGE, answers);
    InOrderArrives(sent);
    hide *;
    ByteAccounting.DeliveredIsComplete(sent, IN_ORDER, 0, 0);
    TwoUncounted(sent, IN_ORDER + [LossAccounting.Purge(0, 0)]);
  }

  lemma InOrderArrives(sent: seq<DataMessage>)
    requires |sent| == 6
    ensures LossAccounting.FromSender(sent, IN_ORDER) && ByteAccounting.Early(IN_ORDER, 0, 0)
    ensures forall i: nat | i < |sent| :: ByteAccounting.Arrives(IN_ORDER, i)
  {
    forall i: nat | i < |sent| ensures ByteAccounting.Arrives(IN_ORDER, i) { assert IN_ORDER[i] in IN_ORDER && IN_ORDER[i].number == i; }
  }
}
