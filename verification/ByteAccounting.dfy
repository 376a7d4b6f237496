/** The byte half of the loss accounting: what the counter of lost bytes says after any run. */
module ByteAccounting {
  import opened MachineIntegers
  import opened DataMessages
  import opened Defragmenters
  import opened LossAccounting
  import GapCounting

  // ----- Sums of message lengths ---------------------------------------------------------------------

  function Length(sent: seq<DataMessage>, i: nat): (n: nat)
    requires i < |sent|
    ensures n > 0
  {
    DATA_HEADER_SIZE + |sent[i].payload|
  }

  /** The bytes of the first `n` messages, as far as their numbers are in `keys`. */
  function BytesBelow(sent: seq<DataMessage>, keys: set<nat>, n: nat): nat
    requires n <= |sent|
  {
    if n == 0 then 0 else BytesBelow(sent, keys, n - 1) + if n - 1 in keys then Length(sent, n - 1) else 0
  }

  function BytesIn(sent: seq<DataMessage>, keys: set<nat>): nat {
    BytesBelow(sent, keys, |sent|)
  }

  lemma {:induction false} BytesSplit(sent: seq<DataMessage>, a: set<nat>, b: set<nat>, n: nat)
    requires n <= |sent| && a !! b
    ensures BytesBelow(sent, a + b, n) == BytesBelow(sent, a, n) + BytesBelow(sent, b, n)
  {
    if n > 0 { BytesSplit(sent, a, b, n - 1); }
  }

  lemma {:induction false} BytesOfOne(sent: seq<DataMessage>, k: nat, n: nat)
    requires n <= |sent|
    ensures BytesBelow(sent, {k}, n) == if k < n then Length(sent, k) else 0
  {
    if n > 0 { BytesOfOne(sent, k, n - 1); }
  }

  /** Only the numbers below `n` matter. */
  lemma {:induction false} BytesSame(sent: seq<DataMessage>, a: set<nat>, b: set<nat>, n: nat)
    requires n <= |sent| && forall k | k < n :: k in a <==> k in b
    ensures BytesBelow(sent, a, n) == BytesBelow(sent, b, n)
  {
    if n > 0 { BytesSame(sent, a, b, n - 1); }
  }

  lemma {:induction false} BytesBeyond(sent: seq<DataMessage>, keys: set<nat>, n: nat, m: nat)
    requires n <= m <= |sent| && forall k | k in keys :: k < n
    ensures BytesBelow(sent, keys, m) == BytesBelow(sent, keys, n)
  {
    if n < m { BytesBeyond(sent, keys, n, m - 1); }
  }

  lemma {:induction false} NoBytes(sent: seq<DataMessage>, keys: set<nat>, n: nat)
    requires n <= |sent|
    ensures BytesBelow(sent, keys, n) == 0 <==> forall k | k in keys :: k >= n
  {
    if n > 0 { NoBytes(sent, keys, n - 1); }
  }

  /** One more number. */
  lemma BytesPlus(sent: seq<DataMessage>, keys: set<nat>, k: nat)
    requires k < |sent| && k !in keys
    ensures BytesIn(sent, keys + {k}) == BytesIn(sent, keys) + Length(sent, k)
  {
    BytesSplit(sent, keys, {k}, |sent|);
    BytesOfOne(sent, k, |sent|);
  }

  // ----- Counted plus lost bytes -----------------------------------------------------------------------

  /** The byte numbers do not wrap around. */
  ghost predicate BytesFit(sent: seq<DataMessage>) {
    forall i | 0 <= i < |sent| :: sent[i].byteSeqNumber + Length(sent, i) < 0x1_0000_0000_0000_0000
  }

  function EndOf(sent: seq<DataMessage>, i: nat): nat
    requires i < |sent|
  {
    sent[i].byteSeqNumber + Length(sent, i)
  }

  /** The counted messages end below the next expected byte; counted plus lost bytes are all
      bytes below it. */
  ghost predicate BytesSound(sent: seq<DataMessage>, heads: set<nat>, next: nat, lost: nat) {
    (forall h | h in heads :: h < |sent| && EndOf(sent, h) <= next) && BytesIn(sent, heads) + lost == next
  }

  lemma HeadIsSound(sent: seq<DataMessage>, heads: set<nat>, n: Next, c: Counts, item: Item)
    requires WasSent(sent, item) && BytesFit(sent) && BytesSound(sent, heads, n.byteOffset, c.lostBytes)
    ensures var (n', c') := CountItem(n, c, item);
      BytesSound(sent, if item.fragment.byteSeqNumber >= n.byteOffset then heads + {item.fragment.packetSeqNumber} else heads,
                 n'.byteOffset, c'.lostBytes)
  {
    var i := item.fragment.packetSeqNumber;
    if item.fragment.byteSeqNumber >= n.byteOffset {
      assert EndOf(sent, i) > n.byteOffset;
      hide BytesIn;
      BytesPlus(sent, heads, i);
    }
  }

  lemma NextIsTheSame(n: Next, c: Counts, item: Item)
    ensures CountItem(n, ZERO, item).0 == CountItem(n, c, item).0
  {
  }

  lemma HeadsInFront(heads: set<nat>, n: Next, c: Counts, items: seq<Item>)
    requires items != []
    ensures var (n', c') := CountItem(n, c, items[0]);
      && CountItems(n, c, items) == CountItems(n', c', items[1..])
      && CountHeads(heads, n, items) ==
           CountHeads(if items[0].fragment.byteSeqNumber >= n.byteOffset then heads + {items[0].fragment.packetSeqNumber as nat} else heads, n', items[1..])
  {
    NextIsTheSame(n, c, items[0]);
    hide CountItem;
  }

  lemma NoHeads(heads: set<nat>, n: Next, c: Counts)
    ensures CountHeads(heads, n, []) == heads && CountItems(n, c, []) == (n, c)
  {
  }

  lemma SentInFront(sent: seq<DataMessage>, items: seq<Item>)
    requires AllSent(sent, items) && items != []
    ensures WasSent(sent, items[0]) && AllSent(sent, items[1..])
  {
  }

  lemma {:induction false} HeadsAreSound(sent: seq<DataMessage>, heads: set<nat>, n: Next, c: Counts, items: seq<Item>)
    requires AllSent(sent, items) && BytesFit(sent) && BytesSound(sent, heads, n.byteOffset, c.lostBytes)
    ensures var (n', c') := CountItems(n, c, items); BytesSound(sent, CountHeads(heads, n, items), n'.byteOffset, c'.lostBytes)
    decreases |items|
  {
    hide *;
    if items == [] {
      NoHeads(heads, n, c);
    } else {
      SentInFront(sent, items);
      HeadsInFront(heads, n, c, items);
      HeadIsSound(sent, heads, n, c, items[0]);
      var (n', c') := CountItem(n, c, items[0]);
      HeadsAreSound(sent, if items[0].fragment.byteSeqNumber >= n.byteOffset then heads + {items[0].fragment.packetSeqNumber as nat} else heads,
                    n', c', items[1..]);
    }
  }

  lemma {:induction false} NothingIn(sent: seq<DataMessage>, n: nat)
    requires n <= |sent|
    ensures BytesBelow(sent, {}, n) == 0
  {
    if n > 0 { NothingIn(sent, n - 1); }
  }

  lemma StartOfBytes(sent: seq<DataMessage>)
    requires InOrder(sent)
    ensures FromSender(sent, []) && RunEvents(sent, []) == Start() && BytesSound(sent, {}, 0, 0)
  {
    NothingIn(sent, |sent|);
  }

  lemma ArrivalStep(sent: seq<DataMessage>, s: State, e: Event)
    requires e.Arrival? && e.number < |sent| && Sendable(sent[e.number])
    ensures var s', m := Step(sent, s, e), sent[e.number];
      && s'.heads == s.heads && s'.next == s.next && s'.totals == s.totals
      && s'.frameHistory == GapCounting.Deliver(s.frameHistory, s.next.frameID, m.frameID)
      && s'.packetHistory == GapCounting.Deliver(s.packetHistory, s.next.packet, m.seqNumber)
  {
  }

  lemma InvLooks(sent: seq<DataMessage>, s: State)
    requires Inv(sent, s)
    ensures Ordered(s.frames) && AllSent(sent, Flat(s.frames)) && PacketsSound(s) && FramesSound(s) && InStep(sent, s.next)
  {
  }

  /** After any run, the lengths counted and the bytes reported lost are all bytes below the
      next expected one. */
  lemma {:induction false} BytesTelescope(sent: seq<DataMessage>, events: seq<Event>)
    requires InOrder(sent) && FromSender(sent, events) && BytesFit(sent)
    ensures var s := RunEvents(sent, events);
      && BytesSound(sent, s.heads, s.next.byteOffset, s.totals.lostBytes)
      && BytesIn(sent, s.heads) + s.totals.lostBytes == s.next.byteOffset
    decreases |events|
  {
    var final := RunEvents(sent, events);
    assert BytesSound(sent, final.heads, final.next.byteOffset, final.totals.lostBytes)
      ==> BytesIn(sent, final.heads) + final.totals.lostBytes == final.next.byteOffset;
    hide *;
    if events == [] {
      StartOfBytes(sent);
    } else {
      var init, e := events[..|events| - 1], events[|events| - 1];
      LastEvent(sent, events);
      BytesTelescope(sent, init);
      RunKeeps(sent, init);
      var s := RunEvents(sent, init);
      InvLooks(sent, s);
      match e
      case Arrival(now, number) => ArrivalStep(sent, s, e);
      case Purge(now, timeout) =>
        var k := Leading(s.frames, now, timeout);
        PurgeStep(sent, s, now, timeout);
        GoneAndLeft(sent, s, k);
        HeadsAreSound(sent, s.heads, s.next, s.totals, Flat(s.frames[..k]));
    }
  }

  // ----- Offsets of frames -------------------------------------------------------------------------------

  /** All messages of a frame carry the number of bytes before the frame. */
  ghost predicate FrameOffsets(sent: seq<DataMessage>) {
    forall i | 0 <= i < |sent| :: OffsetAt(sent, i)
  }

  ghost predicate OffsetAt(sent: seq<DataMessage>, i: nat)
    requires i < |sent|
  {
    sent[i].byteSeqNumber ==
      if i > 0 && sent[i].frameID == sent[i - 1].frameID then sent[i - 1].byteSeqNumber else BytesBefore(sent, i)
  }

  /** The first message of the frame of message `i`. */
  function FirstOf(sent: seq<DataMessage>, i: nat): (first: nat)
    requires i < |sent|
    ensures first <= i && sent[first].frameID == sent[i].frameID
    ensures first > 0 ==> sent[first - 1].frameID != sent[i].frameID
  {
    if i > 0 && sent[i].frameID == sent[i - 1].frameID then FirstOf(sent, i - 1) else i
  }

  lemma {:induction false} OffsetOfFirst(sent: seq<DataMessage>, i: nat)
    requires FrameOffsets(sent) && i < |sent|
    ensures sent[i].byteSeqNumber == BytesBefore(sent, FirstOf(sent, i))
  {
    assert OffsetAt(sent, i);
    if i > 0 && sent[i].frameID == sent[i - 1].frameID { OffsetOfFirst(sent, i - 1); }
  }

  function BytesBefore(sent: seq<DataMessage>, n: nat): nat
    requires n <= |sent|
  {
    BytesBelow(sent, GapCounting.Below(n), n)
  }

  lemma NextBytesBefore(sent: seq<DataMessage>, n: nat)
    requires n < |sent|
    ensures BytesBefore(sent, n + 1) == BytesBefore(sent, n) + Length(sent, n)
  {
    BytesSame(sent, GapCounting.Below(n + 1), GapCounting.Below(n), n);
  }

  /** All bytes before a message grow with every message. */
  lemma {:induction false} AllBytesGrow(sent: seq<DataMessage>, i: nat, j: nat)
    requires i < j <= |sent|
    ensures BytesBefore(sent, i) + Length(sent, i) <= BytesBefore(sent, j)
  {
    hide BytesBefore;
    NextBytesBefore(sent, j - 1);
    if i < j - 1 { AllBytesGrow(sent, i, j - 1); }
  }

  /** Offsets do not wrap around if the sum of all lengths does not. */
  lemma OffsetsFit(sent: seq<DataMessage>)
    requires FrameOffsets(sent) && BytesBefore(sent, |sent|) < 0x1_0000_0000_0000_0000
    ensures BytesFit(sent)
  {
    hide FrameOffsets, BytesBefore;
    forall i | 0 <= i < |sent| ensures sent[i].byteSeqNumber + Length(sent, i) < 0x1_0000_0000_0000_0000 {
      OffsetOfFirst(sent, i);
      if FirstOf(sent, i) < i { AllBytesGrow(sent, FirstOf(sent, i), i); }
      AllBytesGrow(sent, i, |sent|);
    }
  }

  lemma {:induction false} FirstIsLeast(sent: seq<DataMessage>, i: nat, k: nat)
    requires InOrder(sent) && i < |sent| && k < |sent| && sent[k].frameID == sent[i].frameID
    ensures FirstOf(sent, i) <= k
  {
    if i > 0 && sent[i].frameID == sent[i - 1].frameID {
      FirstIsLeast(sent, i - 1, k);
    } else if i > 0 {
      EarlierFrame(sent, i - 1, k);
    }
  }

  /** A later frame starts behind every message of an earlier one; one frame has one offset. */
  lemma OffsetsGrow(sent: seq<DataMessage>, i: nat, j: nat)
    requires InOrder(sent) && FrameOffsets(sent) && i < |sent| && j < |sent|
    ensures sent[i].frameID < sent[j].frameID ==> EndOf(sent, i) <= sent[j].byteSeqNumber
    ensures sent[i].frameID == sent[j].frameID ==> sent[i].byteSeqNumber == sent[j].byteSeqNumber
  {
    var a, b := FirstOf(sent, i), FirstOf(sent, j);
    OffsetOfFirst(sent, i);
    OffsetOfFirst(sent, j);
    hide FrameOffsets, BytesBefore;
    if sent[i].frameID < sent[j].frameID {
      EarlierFrame(sent, i, b);
      AllBytesGrow(sent, i, b);
      if a < i { AllBytesGrow(sent, a, i); }
    } else if sent[i].frameID == sent[j].frameID {
      FirstIsLeast(sent, i, b);
      FirstIsLeast(sent, j, a);
    }
  }

  // ----- One message is counted for each frame -------------------------------------------------------------

  /** Every frame is a single message. */
  ghost predicate SingleMessages(sent: seq<DataMessage>) {
    forall i, j | 0 <= i < j < |sent| :: sent[i].frameID < sent[j].frameID
  }

  /** The message counted last. */
  ghost predicate IsLast(sent: seq<DataMessage>, heads: set<nat>, n: Next, l: nat) {
    l in heads && l < |sent| && sent[l].frameID + 1 == n.frameID && EndOf(sent, l) == n.byteOffset
  }

  ghost predicate HasHead(sent: seq<DataMessage>, heads: set<nat>, f: nat) {
    exists h :: h in heads && h < |sent| && sent[h].frameID == f
  }

  ghost predicate Passed(sent: seq<DataMessage>, n: Next, h: nat) {
    h < |sent| && h < n.packet && sent[h].frameID < n.frameID
  }

  /** Of every received frame exactly one message has its bytes counted. */
  ghost predicate HeadPerFrame(sent: seq<DataMessage>, heads: set<nat>, packets: set<nat>, frames: set<nat>, n: Next) {
    && heads <= packets && (SingleMessages(sent) ==> heads == packets)
    && (forall h | h in heads :: Passed(sent, n, h) && sent[h].frameID as nat in frames)
    && (forall g, h | g in heads && h in heads && sent[g].frameID == sent[h].frameID :: g == h)
    && (forall f | f in frames :: HasHead(sent, heads, f))
    && (if n.frameID == 0 then heads == {} && n.byteOffset == 0 else exists l :: IsLast(sent, heads, n, l))
  }

  /** The bytes of a message are new if and only if its frame is. */
  lemma NewTogether(sent: seq<DataMessage>, heads: set<nat>, packets: set<nat>, frames: set<nat>, n: Next, i: nat)
    requires InOrder(sent) && FrameOffsets(sent) && HeadPerFrame(sent, heads, packets, frames, n) && i < |sent|
    ensures sent[i].byteSeqNumber >= n.byteOffset <==> sent[i].frameID >= n.frameID
  {
    if n.frameID > 0 {
      var l :| IsLast(sent, heads, n, l);
      hide HeadPerFrame, FrameOffsets, InOrder;
      OffsetsGrow(sent, l, i);
      OffsetsGrow(sent, i, l);
    }
  }

  /** The first message counted for a frame. */
  lemma NewHead(sent: seq<DataMessage>, heads: set<nat>, packets: set<nat>, frames: set<nat>, n: Next, i: nat, n': Next)
    requires InOrder(sent) && InStep(sent, n) && i < |sent| && sent[i].frameID >= n.frameID
    requires HeadPerFrame(sent, heads, packets, frames, n)
    requires n'.frameID == sent[i].frameID + 1 && n'.byteOffset == EndOf(sent, i) && n'.packet == if i >= n.packet then i + 1 else n.packet
    ensures i >= n.packet && HeadPerFrame(sent, heads + {i}, packets + {i}, frames + {sent[i].frameID as nat}, n')
  {
    if n.packet > 0 { EarlierFrame(sent, n.packet - 1, i); }
    var heads', frames' := heads + {i}, frames + {sent[i].frameID as nat};
    assert IsLast(sent, heads', n', i);
    assert forall h | h in heads :: Passed(sent, n, h);
    hide InOrder, InStep, SingleMessages, IsLast;
    forall x | x in frames' ensures HasHead(sent, heads', x) {
      if x == sent[i].frameID { assert i in heads'; } else { SameHead(sent, heads, heads', x); }
    }
  }

  lemma SameHead(sent: seq<DataMessage>, heads: set<nat>, heads': set<nat>, f: nat)
    requires HasHead(sent, heads, f) && heads <= heads'
    ensures HasHead(sent, heads', f)
  {
  }

  /** A further message of a frame already counted. */
  lemma OldHead(sent: seq<DataMessage>, heads: set<nat>, packets: set<nat>, frames: set<nat>, n: Next, i: nat, n': Next)
    requires InOrder(sent) && i < |sent| && sent[i].frameID < n.frameID && HeadPerFrame(sent, heads, packets, frames, n)
    requires n'.frameID == n.frameID && n'.byteOffset == n.byteOffset && n'.packet == if i >= n.packet then i + 1 else n.packet
    ensures HeadPerFrame(sent, heads, if i >= n.packet then packets + {i} else packets, frames, n')
  {
    var l :| IsLast(sent, heads, n, l);
    assert Passed(sent, n, l);
    assert SingleMessages(sent) ==> i <= l;
    assert IsLast(sent, heads, n', l);
    assert forall h | h in heads :: Passed(sent, n, h);
    hide InOrder, SingleMessages, IsLast, HasHead;
  }

  lemma HeadIsFramed(sent: seq<DataMessage>, heads: set<nat>, ph: GapCounting.History, fh: GapCounting.History, n: Next, item: Item)
    requires InOrder(sent) && FrameOffsets(sent) && BytesFit(sent) && InStep(sent, n) && WasSent(sent, item)
    requires HeadPerFrame(sent, heads, ph.counted, fh.counted, n)
    ensures var i, f := item.fragment.packetSeqNumber, item.frameID;
      HeadPerFrame(sent, if item.fragment.byteSeqNumber >= n.byteOffset then heads + {i as nat} else heads,
                   GapCounting.Count(ph, n.packet, i).counted, GapCounting.Count(fh, n.frameID, f).counted, CountItem(n, ZERO, item).0)
  {
    var i: nat, f: nat := item.fragment.packetSeqNumber, item.frameID;
    var n' := CountItem(n, ZERO, item).0;
    NewTogether(sent, heads, ph.counted, fh.counted, n, i);
    assert item.fragment.byteSeqNumber == sent[i].byteSeqNumber;
    hide HeadPerFrame, FrameOffsets, InStep;
    if f >= n.frameID {
      NewHead(sent, heads, ph.counted, fh.counted, n, i, n');
    } else {
      OldHead(sent, heads, ph.counted, fh.counted, n, i, n');
    }
  }

  lemma ItemKeysInFront(items: seq<Item>)
    requires items != []
    ensures PacketKeys(items) != [] && FrameKeys(items) != []
    ensures PacketKeys(items)[0] == items[0].fragment.packetSeqNumber && PacketKeys(items)[1..] == PacketKeys(items[1..])
    ensures FrameKeys(items)[0] == items[0].frameID && FrameKeys(items)[1..] == FrameKeys(items[1..])
  {
  }

  lemma {:induction false} HeadsAreFramed(sent: seq<DataMessage>, heads: set<nat>, ph: GapCounting.History, fh: GapCounting.History,
                                          received: nat, n: Next, c: Counts, items: seq<Item>)
    requires InOrder(sent) && FrameOffsets(sent) && BytesFit(sent) && InStep(sent, n) && AllSent(sent, items)
    requires HeadPerFrame(sent, heads, ph.counted, fh.counted, n)
    ensures var pg, fg := GapCounting.Gap(n.packet, c.lostPackets, received), GapCounting.Gap(n.frameID, c.lostFrames, c.receivedFrames);
      HeadPerFrame(sent, CountHeads(heads, n, items), GapCounting.CountAll(ph, pg, PacketKeys(items)).counted,
                   GapCounting.CountAll(fh, fg, FrameKeys(items)).counted, CountItems(n, c, items).0)
    decreases |items|
  {
    var pg, fg := GapCounting.Gap(n.packet, c.lostPackets, received), GapCounting.Gap(n.frameID, c.lostFrames, c.receivedFrames);
    if items == [] {
      hide HeadPerFrame, InOrder, FrameOffsets, BytesFit, InStep, AllSent;
      NoHeads(heads, n, c);
      GapCounting.PassNothing(pg, ph);
      GapCounting.PassNothing(fg, fh);
    } else {
      hide *;
      var item := items[0];
      var i: nat, f: nat := item.fragment.packetSeqNumber, item.frameID;
      SentInFront(sent, items);
      HeadsInFront(heads, n, c, items);
      ItemKeysInFront(items);
      GapCounting.PassInFront(pg, ph, PacketKeys(items));
      GapCounting.PassInFront(fg, fh, FrameKeys(items));
      ItemIsPass(sent, n, c, item, received);
      NextIsTheSame(n, c, item);
      HeadIsFramed(sent, heads, ph, fh, n, item);
      var (n', c') := CountItem(n, c, item);
      HeadsAreFramed(sent, if item.fragment.byteSeqNumber >= n.byteOffset then heads + {i} else heads, GapCounting.Count(ph, n.packet, i),
                     GapCounting.Count(fh, n.frameID, f), if i >= n.packet then received + 1 else received, n', c', items[1..]);
    }
  }

  lemma StartOfFrames(sent: seq<DataMessage>)
    requires InOrder(sent)
    ensures FromSender(sent, []) && RunEvents(sent, []) == Start() && HeadPerFrame(sent, {}, {}, {}, Next(0, 0, 0))
  {
  }

  /** The messages whose bytes are counted: delivered ones, one for each received frame. */
  lemma {:induction false} HeadsOfRun(sent: seq<DataMessage>, events: seq<Event>)
    requires InOrder(sent) && FromSender(sent, events) && FrameOffsets(sent) && BytesFit(sent)
    ensures var s := RunEvents(sent, events); HeadPerFrame(sent, s.heads, s.packetHistory.counted, s.frameHistory.counted, s.next)
    decreases |events|
  {
    hide *;
    if events == [] {
      StartOfFrames(sent);
      StartLooks();
    } else {
      var init, e := events[..|events| - 1], events[|events| - 1];
      LastEvent(sent, events);
      HeadsOfRun(sent, init);
      RunKeeps(sent, init);
      var s := RunEvents(sent, init);
      InvLooks(sent, s);
      match e
      case Arrival(now, number) =>
        ArrivalStep(sent, s, e);
        DeliverCountsNothing(s.packetHistory, s.next.packet, sent[number].seqNumber);
        DeliverCountsNothing(s.frameHistory, s.next.frameID, sent[number].frameID);
      case Purge(now, timeout) =>
        var k := Leading(s.frames, now, timeout);
        PurgeStep(sent, s, now, timeout);
        GoneAndLeft(sent, s, k);
        GapsLook(s);
        HeadsAreFramed(sent, s.heads, s.packetHistory, s.frameHistory, |s.packetHistory.counted|, s.next, s.totals, Flat(s.frames[..k]));
    }
  }

  lemma StartLooks()
    ensures Start().heads == {} && Start().packetHistory.counted == {} && Start().frameHistory.counted == {} && Start().next == Next(0, 0, 0)
  {
  }

  lemma GapsLook(s: State)
    ensures PacketGap(s) == GapCounting.Gap(s.next.packet, s.totals.lostPackets, |s.packetHistory.counted|)
    ensures FrameGap(s) == GapCounting.Gap(s.next.frameID, s.totals.lostFrames, s.totals.receivedFrames)
  {
  }

  lemma DeliverCountsNothing(h: GapCounting.History, next: nat, key: nat)
    ensures GapCounting.Deliver(h, next, key).counted == h.counted
  {
  }

  // ----- What is reported lost ---------------------------------------------------------------------------------

  /** The messages of frames before frame `f`. */
  function EarlierThan(sent: seq<DataMessage>, f: int): set<nat> {
    set i: nat | i < |sent| && sent[i].frameID < f
  }

  /** The bytes before a frame are those of all messages of earlier frames. */
  lemma OffsetIsEarlier(sent: seq<DataMessage>, l: nat)
    requires InOrder(sent) && FrameOffsets(sent) && l < |sent|
    ensures sent[l].byteSeqNumber == BytesIn(sent, EarlierThan(sent, sent[l].frameID))
  {
    var first, earlier := FirstOf(sent, l), EarlierThan(sent, sent[l].frameID);
    OffsetOfFirst(sent, l);
    forall k: nat | k < |sent| ensures k in earlier <==> k < first {
      if sent[k].frameID < sent[l].frameID { EarlierFrame(sent, k, first); }
      if k < first { assert sent[k].frameID <= sent[first - 1].frameID <= sent[first].frameID; }
    }
    hide OffsetAt, FrameOffsets;
    BytesSame(sent, earlier, GapCounting.Below(first), first);
    BytesBeyond(sent, earlier, first, |sent|);
  }

  /** After any run, the bytes reported lost are those of all messages of the frames before the
      last one received, except for the one message counted for each received frame. */
  lemma LostBytesAreUncounted(sent: seq<DataMessage>, events: seq<Event>)
    requires InOrder(sent) && FromSender(sent, events) && FrameOffsets(sent) && BytesFit(sent)
    ensures var s := RunEvents(sent, events);
      && HeadPerFrame(sent, s.heads, s.packetHistory.counted, s.frameHistory.counted, s.next)
      && s.totals.lostBytes == BytesIn(sent, EarlierThan(sent, s.next.frameID - 1) - s.heads)
  {
    hide *;
    BytesTelescope(sent, events);
    HeadsOfRun(sent, events);
    var s := RunEvents(sent, events);
    Uncounted(sent, s.heads, s.packetHistory.counted, s.frameHistory.counted, s.next, s.totals.lostBytes);
  }

  lemma Uncounted(sent: seq<DataMessage>, heads: set<nat>, packets: set<nat>, frames: set<nat>, n: Next, lost: nat)
    requires InOrder(sent) && FrameOffsets(sent) && HeadPerFrame(sent, heads, packets, frames, n)
    requires BytesIn(sent, heads) + lost == n.byteOffset
    ensures lost == BytesIn(sent, EarlierThan(sent, n.frameID - 1) - heads)
  {
    var earlier := EarlierThan(sent, n.frameID - 1);
    if n.frameID == 0 {
      assert earlier == {} == earlier - heads;
      NothingIn(sent, |sent|);
    } else {
      var l :| IsLast(sent, heads, n, l);
      hide FrameOffsets, InOrder, SingleMessages, HasHead;
      var others := heads - {l};
      assert heads == others + {l} && l !in others;
      assert others <= earlier by { forall h | h in others ensures h in earlier { assert Passed(sent, n, h); } }
      assert earlier == others + (earlier - heads) by { assert l !in earlier; }
      OffsetIsEarlier(sent, l);
      BytesPlus(sent, others, l);
      BytesSplit(sent, others, earlier - heads, |sent|);
    }
  }

  /** What is known of the packets after any run. */
  lemma PacketsOfRun(sent: seq<DataMessage>, events: seq<Event>)
    requires InOrder(sent) && FromSender(sent, events)
    ensures var s := RunEvents(sent, events);
      var h, missing := s.packetHistory, GapCounting.Missing(s.packetHistory, s.next.packet);
      && InStep(sent, s.next) && h.counted <= h.delivered && h.late <= h.delivered && missing !! h.delivered
      && GapCounting.Below(s.next.packet) == h.counted + h.late + missing && missing !! h.counted + h.late && h.counted !! h.late
    ensures var s := RunEvents(sent, events);
      && s.frameHistory.delivered <= s.frameHistory.counted + s.frameHistory.late + (set f: nat | f in s.frameHistory.delivered && f >= s.next.frameID)
  {
    RunKeeps(sent, events);
    var s := RunEvents(sent, events);
    hide RunEvents, Flat, PacketKeys, FrameKeys, GapCounting.Keys;
    GapCounting.LossIsMissingPlusLate(PacketGap(s), s.packetHistory, PacketKeys(Flat(s.frames)));
    GapCounting.LossIsMissingPlusLate(FrameGap(s), s.frameHistory, FrameKeys(Flat(s.frames)));
    forall f | f in s.frameHistory.delivered && f < s.next.frameID ensures f in s.frameHistory.counted + s.frameHistory.late {
      assert f in GapCounting.Below(s.next.frameID);
    }
  }

  /** With single-message frames, what is counted is just what comes before the next number. */
  lemma SinglesCounted(sent: seq<DataMessage>, heads: set<nat>, packets: set<nat>, frames: set<nat>, n: Next)
    requires InOrder(sent) && SingleMessages(sent) && InStep(sent, n) && HeadPerFrame(sent, heads, packets, frames, n)
    ensures EarlierThan(sent, n.frameID - 1) - heads == GapCounting.Below(n.packet) - packets
  {
    var earlier := EarlierThan(sent, n.frameID - 1);
    if n.frameID == 0 {
      assert earlier == {} == GapCounting.Below(n.packet);
    } else {
      var l: nat :| IsLast(sent, heads, n, l);
      assert Passed(sent, n, l);
      Singles(sent, l, n.packet - 1);
      forall k: nat ensures k in earlier <==> k in GapCounting.Below(l) { Singles(sent, k, l); }
    }
  }

  lemma Singles(sent: seq<DataMessage>, k: nat, l: nat)
    requires SingleMessages(sent) && l < |sent|
    ensures k < |sent| && sent[k].frameID < sent[l].frameID <==> k < l
  {
    if l < k < |sent| { assert sent[l].frameID < sent[k].frameID; }
  }

  lemma MissingAndLate(sent: seq<DataMessage>, n: nat, counted: set<nat>, late: set<nat>, missing: set<nat>)
    requires n <= |sent| && GapCounting.Below(n) == counted + late + missing && missing !! counted + late && counted !! late
    ensures BytesIn(sent, GapCounting.Below(n) - counted) == BytesIn(sent, missing) + BytesIn(sent, late)
    ensures BytesIn(sent, late) == 0 <==> late == {}
  {
    assert GapCounting.Below(n) - counted == missing + late;
    BytesSplit(sent, missing, late, |sent|);
    NoBytes(sent, late, |sent|);
    assert forall k | k in late :: k in GapCounting.Below(n);
  }

  lemma InStepLooks(sent: seq<DataMessage>, n: Next)
    requires InStep(sent, n)
    ensures n.packet <= |sent|
  {
  }

  /** If every frame is a single message, then after any arrivals, in any order, with losses and
      duplicates, and any purges, the bytes reported lost are those of the missing messages below
      the next expected one plus those that came late; they are exact if and only if nothing came
      late. */
  lemma SinglesLoss(sent: seq<DataMessage>, events: seq<Event>)
    requires InOrder(sent) && FromSender(sent, events) && FrameOffsets(sent) && BytesFit(sent) && SingleMessages(sent)
    ensures var s := RunEvents(sent, events);
      var missing := BytesIn(sent, GapCounting.Missing(s.packetHistory, s.next.packet));
      && s.totals.lostBytes == missing + BytesIn(sent, s.packetHistory.late)
      && (s.totals.lostBytes == missing <==> s.packetHistory.late == {})
  {
    hide *;
    var s := RunEvents(sent, events);
    LostBytesAreUncounted(sent, events);
    PacketsOfRun(sent, events);
    InStepLooks(sent, s.next);
    SinglesCounted(sent, s.heads, s.packetHistory.counted, s.frameHistory.counted, s.next);
    MissingAndLate(sent, s.next.packet, s.packetHistory.counted, s.packetHistory.late, GapCounting.Missing(s.packetHistory, s.next.packet));
  }

  lemma ReportAndTruth(sent: seq<DataMessage>, earlier: set<nat>, heads: set<nat>, delivered: set<nat>, missing: set<nat>)
    requires heads <= delivered && missing !! delivered && earlier <= missing + delivered
    ensures BytesIn(sent, earlier - heads) + BytesIn(sent, missing - earlier) == BytesIn(sent, missing) + BytesIn(sent, (earlier * delivered) - heads)
  {
    assert earlier - heads == (earlier * missing) + ((earlier * delivered) - heads);
    assert missing == (earlier * missing) + (missing - earlier);
    BytesSplit(sent, earlier * missing, (earlier * delivered) - heads, |sent|);
    BytesSplit(sent, earlier * missing, missing - earlier, |sent|);
  }

  /** In general the report differs from the truth in two ways: it includes further messages of
      earlier frames although they were delivered, and it does not include missing messages of
      the last frame. */
  lemma LostBytesAndTruth(sent: seq<DataMessage>, events: seq<Event>)
    requires InOrder(sent) && FromSender(sent, events) && FrameOffsets(sent) && BytesFit(sent)
    ensures var s := RunEvents(sent, events);
      var missing, earlier := GapCounting.Missing(s.packetHistory, s.next.packet), EarlierThan(sent, s.next.frameID - 1);
      s.totals.lostBytes + BytesIn(sent, missing - earlier)
        == BytesIn(sent, missing) + BytesIn(sent, (earlier * s.packetHistory.delivered) - s.heads)
  {
    hide *;
    var s := RunEvents(sent, events);
    LostBytesAreUncounted(sent, events);
    PacketsOfRun(sent, events);
    EarlierIsPassed(sent, s.heads, s.packetHistory.counted, s.frameHistory.counted, s.next);
    ReportAndTruth(sent, EarlierThan(sent, s.next.frameID - 1), s.heads, s.packetHistory.delivered,
                   GapCounting.Missing(s.packetHistory, s.next.packet));
  }

  lemma EarlierIsPassed(sent: seq<DataMessage>, heads: set<nat>, packets: set<nat>, frames: set<nat>, n: Next)
    requires InOrder(sent) && HeadPerFrame(sent, heads, packets, frames, n)
    ensures heads <= packets && EarlierThan(sent, n.frameID - 1) <= GapCounting.Below(n.packet)
  {
    if n.frameID > 0 {
      var l: nat :| IsLast(sent, heads, n, l);
      assert Passed(sent, n, l);
      forall k | k in EarlierThan(sent, n.frameID - 1) ensures k in GapCounting.Below(n.packet) { EarlierFrame(sent, k, l); }
    }
  }

  /** Frames of more than one message are found only from frame `f` on. */
  ghost predicate SinglesBefore(sent: seq<DataMessage>, f: int) {
    forall i, j | 0 <= i < j < |sent| && sent[i].frameID == sent[j].frameID :: sent[i].frameID >= f
  }

  /** If all frames before frame `f` are received, all their messages are counted exactly if each
      frame is a single message. */
  lemma OnlyHeads(sent: seq<DataMessage>, heads: set<nat>, packets: set<nat>, frames: set<nat>, n: Next, f: int)
    requires HeadPerFrame(sent, heads, packets, frames, n)
    requires forall k | k in EarlierThan(sent, f) :: sent[k].frameID as nat in frames
    ensures EarlierThan(sent, f) <= heads <==> SinglesBefore(sent, f)
  {
    hide SingleMessages, IsLast, Passed;
    var earlier := EarlierThan(sent, f);
    if SinglesBefore(sent, f) {
      forall k | k in earlier ensures k in heads {
        assert HasHead(sent, heads, sent[k].frameID);
        var h :| h in heads && h < |sent| && sent[h].frameID == sent[k].frameID;
        assert h == k;
      }
    }
    if earlier <= heads {
      forall i, j | 0 <= i < j < |sent| && sent[i].frameID == sent[j].frameID ensures sent[i].frameID >= f {
        assert sent[i].frameID < f ==> i in earlier && j in earlier;
      }
    }
  }

  lemma FramesCounted(sent: seq<DataMessage>, f: int, h: GapCounting.History, fh: GapCounting.History, below: set<nat>, next: nat)
    requires below <= h.delivered && EarlierThan(sent, f) <= below && f <= next
    requires forall k | k in h.delivered :: k < |sent| && sent[k].frameID as nat in fh.delivered
    requires fh.delivered <= fh.counted + (set x: nat | x in fh.delivered && x >= next)
    ensures forall k | k in EarlierThan(sent, f) :: sent[k].frameID as nat in fh.counted
  {
    forall k | k in EarlierThan(sent, f) ensures sent[k].frameID as nat in fh.counted {
      assert k in h.delivered;
    }
  }

  lemma EarlierIsCounted(sent: seq<DataMessage>, events: seq<Event>)
    requires InOrder(sent) && FromSender(sent, events)
    requires var s := RunEvents(sent, events);
      && GapCounting.Missing(s.packetHistory, s.next.packet) == {} && s.frameHistory.late == {}
      && EarlierThan(sent, s.next.frameID - 1) <= GapCounting.Below(s.next.packet)
    ensures var s := RunEvents(sent, events);
      forall k | k in EarlierThan(sent, s.next.frameID - 1) :: k < |sent| && sent[k].frameID as nat in s.frameHistory.counted
  {
    hide *;
    var s := RunEvents(sent, events);
    PacketsOfRun(sent, events);
    FramesArrived(sent, events);
    EarlierThanLooks(sent, s.next.frameID - 1);
    FramesCounted(sent, s.next.frameID - 1, s.packetHistory, s.frameHistory, GapCounting.Below(s.next.packet), s.next.frameID);
  }

  lemma NoneLeft(sent: seq<DataMessage>, earlier: set<nat>, heads: set<nat>)
    requires forall k | k in earlier :: k < |sent|
    ensures BytesIn(sent, earlier - heads) == 0 <==> earlier <= heads
  {
    NoBytes(sent, earlier - heads, |sent|);
    if BytesIn(sent, earlier - heads) == 0 {
      forall k | k in earlier ensures k in heads { assert k in earlier - heads || k in heads; }
    } else {
      var k :| k in earlier - heads;
    }
  }

  lemma EarlierThanLooks(sent: seq<DataMessage>, f: int)
    ensures forall k | k in EarlierThan(sent, f) :: k < |sent|
  {
  }

  /** When nothing is missing and no frame came late, the counter of lost bytes is zero if and only
      if every frame before the last one is a single message. */
  lemma LosslessByteLoss(sent: seq<DataMessage>, events: seq<Event>)
    requires InOrder(sent) && FromSender(sent, events) && FrameOffsets(sent) && BytesFit(sent)
    requires var s := RunEvents(sent, events); GapCounting.Missing(s.packetHistory, s.next.packet) == {} && s.frameHistory.late == {}
    ensures var s := RunEvents(sent, events); s.totals.lostBytes == 0 <==> SinglesBefore(sent, s.next.frameID - 1)
  {
    hide *;
    var s := RunEvents(sent, events);
    LostBytesAreUncounted(sent, events);
    EarlierIsPassed(sent, s.heads, s.packetHistory.counted, s.frameHistory.counted, s.next);
    EarlierIsCounted(sent, events);
    EarlierThanLooks(sent, s.next.frameID - 1);
    OnlyHeads(sent, s.heads, s.packetHistory.counted, s.frameHistory.counted, s.next, s.next.frameID - 1);
    NoneLeft(sent, EarlierThan(sent, s.next.frameID - 1), s.heads);
  }

  /** A frame has been delivered with each of its messages. */
  lemma FramesArrived(sent: seq<DataMessage>, events: seq<Event>)
    requires InOrder(sent) && FromSender(sent, events)
    ensures var s := RunEvents(sent, events);
      forall k | k in s.packetHistory.delivered :: k < |sent| && sent[k].frameID as nat in s.frameHistory.delivered
  {
    HistoryIsArrivals(sent, events);
    var s := RunEvents(sent, events);
    forall k | k in s.packetHistory.delivered ensures k < |sent| && sent[k].frameID as nat in s.frameHistory.delivered {
      var e :| e in events && e.Arrival? && e.number == k;
    }
  }

  // ----- Complete delivery -----------------------------------------------------------------------------------

  /** Only arrivals, all of them expired at some later time. */
  ghost predicate Early(events: seq<Event>, later: uint64, timeout: uint64) {
    forall e | e in events :: e.Arrival? && (e.now + timeout) % 0x1_0000_0000_0000_0000 <= later
  }

  /** Until the first purge nothing is counted, and everything is in time. */
  ghost predicate Collecting(s: State, later: uint64, timeout: uint64) {
    && s.next == Next(0, 0, 0) && s.packetHistory.late == {} && s.frameHistory.late == {}
    && forall f | f in s.frames :: Expired(f, later, timeout)
  }

  lemma {:induction false} PutExpired(frames: seq<Frame>, now: uint64, id: uint32, f: Fragment, later: uint64, timeout: uint64)
    requires forall x | x in frames :: Expired(x, later, timeout)
    requires (now + timeout) % 0x1_0000_0000_0000_0000 <= later
    ensures forall x | x in Put(frames, now, id, f) :: Expired(x, later, timeout)
  {
    hide PutFragment;
    if frames != [] && frames[0].frameID < id {
      PutExpired(frames[1..], now, id, f, later, timeout);
    } else if frames != [] {
      assert frames[0] in frames && forall x | x in frames[1..] :: x in frames;
    }
  }

  lemma {:induction false} ArrivalsCollect(sent: seq<DataMessage>, events: seq<Event>, later: uint64, timeout: uint64)
    requires InOrder(sent) && FromSender(sent, events) && Early(events, later, timeout)
    ensures Collecting(RunEvents(sent, events), later, timeout)
    decreases |events|
  {
    if events != [] {
      var init, e := events[..|events| - 1], events[|events| - 1];
      LastEvent(sent, events);
      assert e in events && forall x | x in init :: x in events;
      ArrivalsCollect(sent, init, later, timeout);
      var s := RunEvents(sent, init);
      ArrivalStep(sent, s, e);
      PutExpired(s.frames, e.now, sent[e.number].frameID, FragmentOf(sent[e.number]), later, timeout);
    }
  }

  lemma {:induction false} AllLeading(frames: seq<Frame>, now: uint64, timeout: uint64)
    requires forall f | f in frames :: Expired(f, now, timeout)
    ensures Leading(frames, now, timeout) == |frames|
  {
    if frames != [] { AllLeading(frames[1..], now, timeout); }
  }

  /** The purge after that takes everything. */
  lemma PurgeTakesAll(sent: seq<DataMessage>, s: State, now: uint64, timeout: uint64)
    requires Collecting(s, now, timeout)
    ensures var s' := Step(sent, s, Purge(now, timeout));
      && s'.frames == [] && s'.packetHistory.late == {} && s'.frameHistory.late == {}
      && s'.packetHistory.delivered == s.packetHistory.delivered
  {
    AllLeading(s.frames, now, timeout);
    PurgeStep(sent, s, now, timeout);
    var items := Flat(s.frames[..|s.frames|]);
    hide Step;
    GapCounting.CountAllKeeps(s.packetHistory, PacketGap(s), PacketKeys(items));
    GapCounting.CountAllKeeps(s.frameHistory, FrameGap(s), FrameKeys(items));
  }

  ghost predicate Complete(sent: seq<DataMessage>, s: State) {
    && s.next.packet == |sent| && GapCounting.Missing(s.packetHistory, s.next.packet) == {}
    && s.packetHistory.late == {} && s.frameHistory.late == {}
  }

  lemma CompleteLooks(sent: seq<DataMessage>, s: State)
    requires Complete(sent, s)
    ensures s.next.packet == |sent| && GapCounting.Missing(s.packetHistory, s.next.packet) == {}
    ensures s.packetHistory.late == {} && s.frameHistory.late == {}
  {
  }

  function LastFrame(sent: seq<DataMessage>): int {
    if sent == [] then -1 else sent[|sent| - 1].frameID
  }

  /** When everything has been counted, the last frame is the last one received. */
  lemma LastIsCounted(sent: seq<DataMessage>, heads: set<nat>, packets: set<nat>, frames: set<nat>, n: Next)
    requires InOrder(sent) && HeadPerFrame(sent, heads, packets, frames, n) && InStep(sent, n) && n.packet == |sent|
    ensures n.frameID - 1 == LastFrame(sent) || sent == []
  {
    if sent != [] {
      var l: nat :| IsLast(sent, heads, n, l);
      assert sent[l].frameID <= sent[|sent| - 1].frameID;
    }
  }

  lemma LastReceived(sent: seq<DataMessage>, events: seq<Event>)
    requires InOrder(sent) && FromSender(sent, events) && FrameOffsets(sent) && BytesFit(sent) && Complete(sent, RunEvents(sent, events))
    ensures sent == [] || RunEvents(sent, events).next.frameID - 1 == LastFrame(sent)
  {
    hide *;
    var s := RunEvents(sent, events);
    CompleteLooks(sent, s);
    RunKeeps(sent, events);
    InvLooks(sent, s);
    HeadsOfRun(sent, events);
    LastIsCounted(sent, s.heads, s.packetHistory.counted, s.frameHistory.counted, s.next);
  }

  lemma SameSingles(sent: seq<DataMessage>, f: int)
    requires sent == [] || f == LastFrame(sent)
    ensures SinglesBefore(sent, f) <==> SinglesBefore(sent, LastFrame(sent))
  {
  }

  /** After complete delivery the counter of lost bytes is zero if and only if every frame but the
      last one is a single message. */
  lemma CompleteByteLoss(sent: seq<DataMessage>, events: seq<Event>)
    requires InOrder(sent) && FromSender(sent, events) && FrameOffsets(sent) && BytesFit(sent) && Complete(sent, RunEvents(sent, events))
    ensures RunEvents(sent, events).totals.lostBytes == 0 <==> SinglesBefore(sent, LastFrame(sent))
  {
    hide *;
    CompleteLooks(sent, RunEvents(sent, events));
    LosslessByteLoss(sent, events);
    LastReceived(sent, events);
    SameSingles(sent, RunEvents(sent, events).next.frameID - 1);
  }

  lemma NothingPending(sent: seq<DataMessage>, s: State)
    requires Inv(sent, s) && s.frames == [] && s.packetHistory.late == {} && s.frameHistory.late == {}
    requires forall i: nat | i < |sent| :: i in s.packetHistory.delivered
    ensures Complete(sent, s)
  {
    NothingStored();
    hide Flat, PacketKeys;
    assert s.packetHistory.delivered == s.packetHistory.counted;
    if |sent| > 0 { assert |sent| - 1 in GapCounting.Below(s.next.packet); }
  }

  ghost predicate Arrives(events: seq<Event>, i: nat) {
    exists e :: e in events && e.Arrival? && e.number == i
  }

  lemma ArrivedIsDelivered(sent: seq<DataMessage>, events: seq<Event>)
    requires InOrder(sent) && FromSender(sent, events) && forall i: nat | i < |sent| :: Arrives(events, i)
    ensures forall i: nat | i < |sent| :: i in RunEvents(sent, events).packetHistory.delivered
  {
    HistoryIsArrivals(sent, events);
    hide RunEvents;
    forall i: nat | i < |sent| ensures i in RunEvents(sent, events).packetHistory.delivered { assert Arrives(events, i); }
  }

  /** If every message arrives, in any order and with any duplicates, and a purge follows after the
      timeout, then everything is counted and nothing is late. */
  lemma DeliveredIsComplete(sent: seq<DataMessage>, events: seq<Event>, later: uint64, timeout: uint64)
    requires InOrder(sent) && FromSender(sent, events) && Early(events, later, timeout)
    requires forall i: nat | i < |sent| :: Arrives(events, i)
    ensures FromSender(sent, events + [Purge(later, timeout)]) && Complete(sent, RunEvents(sent, events + [Purge(later, timeout)]))
  {
    ArrivedIsDelivered(sent, events);
    hide *;
    RunNext(sent, events, Purge(later, timeout));
    var s, s' := RunEvents(sent, events), RunEvents(sent, events + [Purge(later, timeout)]);
    ArrivalsCollect(sent, events, later, timeout);
    PurgeTakesAll(sent, s, later, timeout);
    RunKeeps(sent, events + [Purge(later, timeout)]);
    NothingPending(sent, s');
  }
}
