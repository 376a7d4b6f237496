/** Whole runs of the defragmenter against the list of messages that was sent. */
module LossAccounting {
  import opened MachineIntegers
  import opened MessageFraming
  import opened DataMessages
  import opened Defragmenters
  import GapCounting

  // ----- What was sent -----------------------------------------------------------------------------

  /** The sent messages, numbered in the order of sending; frames do not interleave. */
  ghost predicate InOrder(sent: seq<DataMessage>) {
    && |sent| < 0xffff_ffff_ffff_ffff
    && (forall i | 0 <= i < |sent| :: sent[i].seqNumber == i && sent[i].frameID < 0xffff_ffff && Sendable(sent[i]))
    && (forall i, j | 0 <= i <= j < |sent| :: sent[i].frameID <= sent[j].frameID)
  }

  predicate Sendable(m: DataMessage) {
    DATA_HEADER_SIZE + |m.payload| < 0x1_0000
  }

  // ----- What happens at the receiver ----------------------------------------------------------------

  /** A message arrives, by its number, or a purge takes place. */
  datatype Event = Arrival(now: uint64, number: nat) | Purge(now: uint64, timeout: uint64)

  ghost predicate FromSender(sent: seq<DataMessage>, events: seq<Event>) {
    forall e | e in events && e.Arrival? :: e.number < |sent|
  }

  /** The defragmenter with its totals, and beside it what happened to the packet and frame
      numbers; `heads` are the numbers of the messages whose bytes were counted as received. */
  datatype State = State(frames: seq<Frame>, next: Next, totals: Counts,
                         packetHistory: GapCounting.History, frameHistory: GapCounting.History, heads: set<nat>)

  const NO_HISTORY: GapCounting.History := GapCounting.History({}, {}, {})

  function Start(): State {
    State([], Next(0, 0, 0), ZERO, NO_HISTORY, NO_HISTORY, {})
  }

  function PacketGap(s: State): GapCounting.Gap {
    GapCounting.Gap(s.next.packet, s.totals.lostPackets, |s.packetHistory.counted|)
  }

  function FrameGap(s: State): GapCounting.Gap {
    GapCounting.Gap(s.next.frameID, s.totals.lostFrames, s.totals.receivedFrames)
  }

  /** The numbers whose bytes a purge counts. */
  function CountHeads(heads: set<nat>, n: Next, items: seq<Item>): set<nat>
    decreases |items|
  {
    if items == [] then heads else
    var f := items[0].fragment;
    CountHeads(if f.byteSeqNumber >= n.byteOffset then heads + {f.packetSeqNumber} else heads, CountItem(n, ZERO, items[0]).0, items[1..])
  }

  function AddCounts(a: Counts, b: Counts): Counts {
    Counts(a.receivedFrames + b.receivedFrames, a.lostFrames + b.lostFrames, a.lostPackets + b.lostPackets, a.lostBytes + b.lostBytes)
  }

  /** The defragmenter's own step, with the history beside it. */
  function Step(sent: seq<DataMessage>, s: State, e: Event): State
    requires e.Arrival? ==> e.number < |sent| && Sendable(sent[e.number])
  {
    match e
    case Arrival(now, number) =>
      var m := sent[number];
      State(Put(s.frames, now, m.frameID, FragmentOf(m)), s.next, s.totals,
            GapCounting.Deliver(s.packetHistory, s.next.packet, m.seqNumber),
            GapCounting.Deliver(s.frameHistory, s.next.frameID, m.frameID), s.heads)
    case Purge(now, timeout) =>
      var k := Leading(s.frames, now, timeout);
      var items := Flat(s.frames[..k]);
      var (next, counts) := CountItems(s.next, ZERO, items);
      State(s.frames[k..], next, AddCounts(s.totals, counts),
            GapCounting.CountAll(s.packetHistory, PacketGap(s), PacketKeys(items)),
            GapCounting.CountAll(s.frameHistory, FrameGap(s), FrameKeys(items)), CountHeads(s.heads, s.next, items))
  }

  function RunEvents(sent: seq<DataMessage>, events: seq<Event>): State
    requires InOrder(sent) && FromSender(sent, events)
    decreases |events|
  {
    if events == [] then Start() else
    var e := events[|events| - 1];
    assert e in events && forall x | x in events[..|events| - 1] :: x in events;
    Step(sent, RunEvents(sent, events[..|events| - 1]), e)
  }

  // ----- Keys ------------------------------------------------------------------------------------------

  function PacketKeys(items: seq<Item>): (keys: seq<nat>)
    ensures |keys| == |items|
  {
    seq(|items|, i requires 0 <= i < |items| => items[i].fragment.packetSeqNumber as nat)
  }

  function FrameKeys(items: seq<Item>): (keys: seq<nat>)
    ensures |keys| == |items|
  {
    seq(|items|, i requires 0 <= i < |items| => items[i].frameID as nat)
  }

  /** Everything stored was sent. */
  ghost predicate WasSent(sent: seq<DataMessage>, item: Item) {
    && item.fragment.packetSeqNumber < |sent| && Sendable(sent[item.fragment.packetSeqNumber])
    && item.fragment == FragmentOf(sent[item.fragment.packetSeqNumber])
    && item.frameID == sent[item.fragment.packetSeqNumber].frameID
  }

  ghost predicate AllSent(sent: seq<DataMessage>, items: seq<Item>) {
    forall i | 0 <= i < |items| :: WasSent(sent, items[i])
  }

  ghost predicate ItemsAscend(items: seq<Item>) {
    forall i, j | 0 <= i < j < |items| ::
      items[i].fragment.packetSeqNumber < items[j].fragment.packetSeqNumber && items[i].frameID <= items[j].frameID
  }

  /** The stored fragments are in the order of their numbers. */
  lemma {:induction false} FlatAscends(sent: seq<DataMessage>, frames: seq<Frame>)
    requires InOrder(sent) && Ordered(frames) && AllSent(sent, Flat(frames))
    ensures ItemsAscend(Flat(frames))
  {
    if frames != [] {
      var first, rest := ItemsOf(frames[0].frameID, frames[0].fragmentSet), Flat(frames[1..]);
      assert Ordered(frames[1..]);
      assert AllSent(sent, rest) by {
        forall i | 0 <= i < |rest| ensures WasSent(sent, rest[i]) { assert rest[i] == Flat(frames)[|first| + i]; }
      }
      FlatAscends(sent, frames[1..]);
      forall i, j | 0 <= i < |first| && 0 <= j < |rest|
        ensures first[i].fragment.packetSeqNumber < rest[j].fragment.packetSeqNumber && first[i].frameID < rest[j].frameID
      {
        FlatFrame(frames[1..], j);
        assert WasSent(sent, Flat(frames)[i]) && WasSent(sent, Flat(frames)[|first| + j]);
      }
    }
  }

  /** Every item belongs to one of the frames. */
  lemma {:induction false} FlatFrame(frames: seq<Frame>, j: nat)
    requires j < |Flat(frames)|
    ensures exists k :: 0 <= k < |frames| && frames[k].frameID == Flat(frames)[j].frameID
  {
    var n := |frames[0].fragmentSet|;
    if j < n {
      assert frames[0].frameID == Flat(frames)[j].frameID;
    } else {
      FlatFrame(frames[1..], j - n);
      var k :| 0 <= k < |frames[1..]| && frames[1..][k].frameID == Flat(frames[1..])[j - n].frameID;
      assert frames[k + 1].frameID == Flat(frames)[j].frameID;
    }
  }

  /** Storing a fragment adds its item, unless it is there already. */
  ghost predicate OneMore(items: seq<Item>, item: Item, items': seq<Item>) {
    (items' == items && exists i :: 0 <= i < |items| && items[i].frameID == item.frameID
                                    && items[i].fragment.packetSeqNumber == item.fragment.packetSeqNumber)
    || exists p :: 0 <= p <= |items| && items' == items[..p] + [item] + items[p..]
  }

  lemma OneMoreBehind(first: seq<Item>, items: seq<Item>, item: Item, items': seq<Item>)
    requires OneMore(items, item, items')
    ensures OneMore(first + items, item, first + items')
  {
    var n := |first|;
    if p :| 0 <= p <= |items| && items' == items[..p] + [item] + items[p..] {
      assert first + items' == (first + items)[..n + p] + [item] + (first + items)[n + p..];
    } else {
      var i :| 0 <= i < |items| && items[i].frameID == item.frameID && items[i].fragment.packetSeqNumber == item.fragment.packetSeqNumber;
      assert (first + items)[n + i] == items[i];
    }
  }

  lemma OneMoreBefore(items: seq<Item>, item: Item, items': seq<Item>, rest: seq<Item>)
    requires OneMore(items, item, items')
    ensures OneMore(items + rest, item, items' + rest)
  {
    if p :| 0 <= p <= |items| && items' == items[..p] + [item] + items[p..] {
      assert items' + rest == (items + rest)[..p] + [item] + (items + rest)[p..];
    } else {
      var i :| 0 <= i < |items| && items[i].frameID == item.frameID && items[i].fragment.packetSeqNumber == item.fragment.packetSeqNumber;
      assert (items + rest)[i] == items[i];
    }
  }

  lemma PutFragmentItems(id: uint32, fs: seq<Fragment>, f: Fragment)
    ensures OneMore(ItemsOf(id, fs), Item(id, f), ItemsOf(id, PutFragment(fs, f)))
  {
    FragmentFound(fs, f);
    var i, items := FindFragment(fs, f.packetSeqNumber), ItemsOf(id, fs);
    if i < |fs| && fs[i].packetSeqNumber == f.packetSeqNumber {
      assert items[i].frameID == id;
    } else {
      assert ItemsOf(id, fs[..i] + [f] + fs[i..]) == items[..i] + [Item(id, f)] + items[i..];
    }
  }

  lemma {:induction false} FlatPut(frames: seq<Frame>, now: uint64, id: uint32, f: Fragment)
    ensures OneMore(Flat(frames), Item(id, f), Flat(Put(frames, now, id, f)))
  {
    hide OneMore, PutFragment;
    if frames == [] || frames[0].frameID > id {
      FlatCons(Frame(id, now, false, [f]), frames);
      NewFrameItem(Flat(frames), id, f);
    } else {
      var rest := frames[1..];
      assert frames == [frames[0]] + rest;
      FlatCons(frames[0], rest);
      if frames[0].frameID == id {
        FlatCons(frames[0].(fragmentSet := PutFragment(frames[0].fragmentSet, f)), rest);
        PutFragmentItems(id, frames[0].fragmentSet, f);
        OneMoreBefore(ItemsOf(id, frames[0].fragmentSet), Item(id, f), ItemsOf(id, PutFragment(frames[0].fragmentSet, f)), Flat(rest));
      } else {
        FlatPut(rest, now, id, f);
        FlatCons(frames[0], Put(rest, now, id, f));
        OneMoreBehind(ItemsOf(frames[0].frameID, frames[0].fragmentSet), Flat(rest), Item(id, f), Flat(Put(rest, now, id, f)));
      }
    }
  }

  lemma NewFrameItem(items: seq<Item>, id: uint32, f: Fragment)
    ensures OneMore(items, Item(id, f), ItemsOf(id, [f]) + items)
  {
    assert ItemsOf(id, [f]) + items == items[..0] + [Item(id, f)] + items[0..];
  }

  lemma OneMoreKeys(items: seq<Item>, item: Item, items': seq<Item>)
    requires OneMore(items, item, items')
    ensures GapCounting.Keys(PacketKeys(items')) == GapCounting.Keys(PacketKeys(items)) + {item.fragment.packetSeqNumber as nat}
    ensures GapCounting.Keys(FrameKeys(items')) == GapCounting.Keys(FrameKeys(items)) + {item.frameID as nat}
  {
    if p :| 0 <= p <= |items| && items' == items[..p] + [item] + items[p..] {
      assert PacketKeys(items') == PacketKeys(items)[..p] + [item.fragment.packetSeqNumber as nat] + PacketKeys(items)[p..];
      assert FrameKeys(items') == FrameKeys(items)[..p] + [item.frameID as nat] + FrameKeys(items)[p..];
      InsertKey(PacketKeys(items), item.fragment.packetSeqNumber, p);
      InsertKey(FrameKeys(items), item.frameID, p);
    } else {
      var i :| 0 <= i < |items| && items[i].frameID == item.frameID && items[i].fragment.packetSeqNumber == item.fragment.packetSeqNumber;
      assert PacketKeys(items)[i] == item.fragment.packetSeqNumber && FrameKeys(items)[i] == item.frameID;
    }
  }

  lemma InsertKey(keys: seq<nat>, key: nat, p: nat)
    requires p <= |keys|
    ensures GapCounting.Keys(keys[..p] + [key] + keys[p..]) == GapCounting.Keys(keys) + {key}
  {
    assert keys == keys[..p] + keys[p..];
  }

  lemma OneMoreSent(sent: seq<DataMessage>, items: seq<Item>, item: Item, items': seq<Item>)
    requires AllSent(sent, items) && WasSent(sent, item) && OneMore(items, item, items')
    ensures AllSent(sent, items')
  {
  }

  lemma KeysAscend(items: seq<Item>)
    requires ItemsAscend(items)
    ensures GapCounting.Ascending(PacketKeys(items)) && GapCounting.Ascending(FrameKeys(items))
  {
  }

  // ----- The invariant -----------------------------------------------------------------------------------

  ghost predicate PacketsSound(s: State) {
    GapCounting.Sound(PacketGap(s), s.packetHistory, PacketKeys(Flat(s.frames)))
  }

  ghost predicate FramesSound(s: State) {
    GapCounting.Sound(FrameGap(s), s.frameHistory, FrameKeys(Flat(s.frames)))
  }

  /** Everything passed belongs to passed frames. */
  ghost predicate InStep(sent: seq<DataMessage>, n: Next) {
    n.packet <= |sent| && (n.packet > 0 ==> sent[n.packet - 1].frameID < n.frameID)
  }

  ghost predicate Inv(sent: seq<DataMessage>, s: State) {
    Ordered(s.frames) && AllSent(sent, Flat(s.frames)) && PacketsSound(s) && FramesSound(s) && InStep(sent, s.next)
  }

  lemma PacketsArrive(s: State, key: nat, s': State)
    requires PacketsSound(s) && s'.next == s.next && s'.totals == s.totals
    requires s'.packetHistory == GapCounting.Deliver(s.packetHistory, s.next.packet, key)
    requires GapCounting.Ascending(PacketKeys(Flat(s'.frames)))
    requires GapCounting.Keys(PacketKeys(Flat(s'.frames))) == GapCounting.Keys(PacketKeys(Flat(s.frames))) + {key}
    ensures PacketsSound(s')
  {
    hide GapCounting.Sound, Flat, PacketKeys;
    GapCounting.SoundDeliver(PacketGap(s), s.packetHistory, PacketKeys(Flat(s.frames)), key, PacketKeys(Flat(s'.frames)));
  }

  lemma FramesArrive(s: State, key: nat, s': State)
    requires FramesSound(s) && s'.next == s.next && s'.totals == s.totals
    requires s'.frameHistory == GapCounting.Deliver(s.frameHistory, s.next.frameID, key)
    requires GapCounting.Ascending(FrameKeys(Flat(s'.frames)))
    requires GapCounting.Keys(FrameKeys(Flat(s'.frames))) == GapCounting.Keys(FrameKeys(Flat(s.frames))) + {key}
    ensures FramesSound(s')
  {
    hide GapCounting.Sound, Flat, FrameKeys;
    GapCounting.SoundDeliver(FrameGap(s), s.frameHistory, FrameKeys(Flat(s.frames)), key, FrameKeys(Flat(s'.frames)));
  }

  lemma ArrivalKeeps(sent: seq<DataMessage>, s: State, now: uint64, number: nat)
    requires InOrder(sent) && Inv(sent, s) && number < |sent|
    ensures Inv(sent, Step(sent, s, Arrival(now, number)))
  {
    var m, s' := sent[number], Step(sent, s, Arrival(now, number));
    var item := Item(m.frameID, FragmentOf(m));
    var items, items' := Flat(s.frames), Flat(s'.frames);
    assert WasSent(sent, item) && Sendable(m);
    hide Ordered, Put, Flat, OneMore, WasSent, AllSent, InOrder, PacketsSound, FramesSound, GapCounting.Deliver, PacketKeys, FrameKeys,
         GapCounting.Ascending, GapCounting.Keys, ItemsAscend, InStep;
    PutOrdered(s.frames, now, m.frameID, FragmentOf(m));
    FlatPut(s.frames, now, m.frameID, FragmentOf(m));
    OneMoreSent(sent, items, item, items');
    OneMoreKeys(items, item, items');
    FlatAscends(sent, s'.frames);
    KeysAscend(items');
    PacketsArrive(s, item.fragment.packetSeqNumber, s');
    FramesArrive(s, m.frameID, s');
  }

  // ----- Purging -----------------------------------------------------------------------------------------

  /** Without wrap-around, counting one item is passing its keys. */
  lemma ItemIsPass(sent: seq<DataMessage>, n: Next, c: Counts, item: Item, received: nat)
    requires InOrder(sent) && WasSent(sent, item)
    ensures var (n', c') := CountItem(n, c, item);
      && GapCounting.Pass(GapCounting.Gap(n.packet, c.lostPackets, received), item.fragment.packetSeqNumber)
           == GapCounting.Gap(n'.packet, c'.lostPackets, if item.fragment.packetSeqNumber >= n.packet then received + 1 else received)
      && GapCounting.Pass(GapCounting.Gap(n.frameID, c.lostFrames, c.receivedFrames), item.frameID)
           == GapCounting.Gap(n'.frameID, c'.lostFrames, c'.receivedFrames)
      && (InStep(sent, n) ==> InStep(sent, n'))
  {
  }

  /** So counting all is passing all keys. */
  lemma {:induction false} CountIsPass(sent: seq<DataMessage>, n: Next, c: Counts, items: seq<Item>, received: nat)
    requires InOrder(sent) && AllSent(sent, items)
    ensures var (n', c') := CountItems(n, c, items);
      && var p := GapCounting.PassAll(GapCounting.Gap(n.packet, c.lostPackets, received), PacketKeys(items));
      && p.next == n'.packet && p.lost == c'.lostPackets
      && GapCounting.PassAll(GapCounting.Gap(n.frameID, c.lostFrames, c.receivedFrames), FrameKeys(items))
           == GapCounting.Gap(n'.frameID, c'.lostFrames, c'.receivedFrames)
      && (InStep(sent, n) ==> InStep(sent, n'))
    decreases |items|
  {
    if items != [] {
      var (n', c') := CountItem(n, c, items[0]);
      var rest := items[1..];
      ItemIsPass(sent, n, c, items[0], received);
      assert AllSent(sent, rest);
      assert PacketKeys(items)[1..] == PacketKeys(rest) && FrameKeys(items)[1..] == FrameKeys(rest);
      hide PacketKeys, FrameKeys, AllSent, WasSent, InOrder, InStep, CountItem, GapCounting.Pass;
      CountIsPass(sent, n', c', rest, if items[0].fragment.packetSeqNumber >= n.packet then received + 1 else received);
    }
  }

  lemma {:induction false} CountsAdd(n: Next, c: Counts, d: Counts, items: seq<Item>)
    ensures CountItems(n, AddCounts(c, d), items).0 == CountItems(n, d, items).0
    ensures CountItems(n, AddCounts(c, d), items).1 == AddCounts(c, CountItems(n, d, items).1)
    decreases |items|
  {
    if items != [] {
      var (n', d') := CountItem(n, d, items[0]);
      CountsAdd(n', c, d', items[1..]);
    }
  }

  lemma {:induction false} FlatSplit(frames: seq<Frame>, k: nat)
    requires k <= |frames|
    ensures Flat(frames) == Flat(frames[..k]) + Flat(frames[k..])
  {
    if k > 0 {
      FlatSplit(frames[1..], k - 1);
      assert frames[..k] == [frames[0]] + frames[1..][..k - 1] && frames[k..] == frames[1..][k - 1..];
      FlatCons(frames[0], frames[1..][..k - 1]);
      Associate(ItemsOf(frames[0].frameID, frames[0].fragmentSet), Flat(frames[1..][..k - 1]), Flat(frames[k..]));
    } else {
      assert frames[..0] == [] && frames[0..] == frames && [] + Flat(frames) == Flat(frames);
    }
  }

  lemma SplitSent(sent: seq<DataMessage>, a: seq<Item>, b: seq<Item>)
    requires AllSent(sent, a + b)
    ensures AllSent(sent, a) && AllSent(sent, b)
    ensures PacketKeys(a + b) == PacketKeys(a) + PacketKeys(b) && FrameKeys(a + b) == FrameKeys(a) + FrameKeys(b)
  {
    forall i | 0 <= i < |a| ensures WasSent(sent, a[i]) { assert (a + b)[i] == a[i]; }
    forall i | 0 <= i < |b| ensures WasSent(sent, b[i]) { assert (a + b)[|a| + i] == b[i]; }
  }

  lemma OrderedRest(frames: seq<Frame>, k: nat)
    requires Ordered(frames) && k <= |frames|
    ensures Ordered(frames[k..])
  {
  }

  lemma PacketsPurged(sent: seq<DataMessage>, s: State, s': State, gone: seq<Item>)
    requires InOrder(sent) && AllSent(sent, gone) && PacketsSound(s)
    requires PacketKeys(Flat(s.frames)) == PacketKeys(gone) + PacketKeys(Flat(s'.frames))
    requires (s'.next, s'.totals) == CountItems(s.next, s.totals, gone)
    requires s'.packetHistory == GapCounting.CountAll(s.packetHistory, PacketGap(s), PacketKeys(gone))
    ensures PacketsSound(s')
  {
    var left, g' := PacketKeys(Flat(s'.frames)), GapCounting.PassAll(PacketGap(s), PacketKeys(gone));
    CountIsPass(sent, s.next, s.totals, gone, |s.packetHistory.counted|);
    hide Flat, PacketKeys, InOrder, AllSent, CountItems, GapCounting.PassAll, GapCounting.CountAll, GapCounting.Sound;
    GapCounting.SoundPassAll(PacketGap(s), s.packetHistory, PacketKeys(gone), left);
    SoundSize(g', s'.packetHistory, left);
  }

  lemma SoundSize(g: GapCounting.Gap, h: GapCounting.History, pending: seq<nat>)
    requires GapCounting.Sound(g, h, pending)
    ensures g == GapCounting.Gap(g.next, g.lost, |h.counted|)
  {
  }

  lemma FramesPurged(sent: seq<DataMessage>, s: State, s': State, gone: seq<Item>)
    requires InOrder(sent) && AllSent(sent, gone) && FramesSound(s)
    requires FrameKeys(Flat(s.frames)) == FrameKeys(gone) + FrameKeys(Flat(s'.frames))
    requires (s'.next, s'.totals) == CountItems(s.next, s.totals, gone)
    requires s'.frameHistory == GapCounting.CountAll(s.frameHistory, FrameGap(s), FrameKeys(gone))
    ensures FramesSound(s')
  {
    CountIsPass(sent, s.next, s.totals, gone, 0);
    hide Flat, FrameKeys, InOrder, AllSent, CountItems, GapCounting.PassAll, GapCounting.CountAll, GapCounting.Sound;
    GapCounting.SoundPassAll(FrameGap(s), s.frameHistory, FrameKeys(gone), FrameKeys(Flat(s'.frames)));
  }

  lemma PurgeStep(sent: seq<DataMessage>, s: State, now: uint64, timeout: uint64)
    ensures var s', k := Step(sent, s, Purge(now, timeout)), Leading(s.frames, now, timeout);
      var gone := Flat(s.frames[..k]);
      && s'.frames == s.frames[k..]
      && s'.packetHistory == GapCounting.CountAll(s.packetHistory, PacketGap(s), PacketKeys(gone))
      && s'.frameHistory == GapCounting.CountAll(s.frameHistory, FrameGap(s), FrameKeys(gone))
      && s'.heads == CountHeads(s.heads, s.next, gone)
      && (s'.next, s'.totals) == CountItems(s.next, s.totals, gone)
  {
    hide GapCounting.CountAll, Flat, PacketKeys, FrameKeys, CountHeads;
    CountsAdd(s.next, s.totals, ZERO, Flat(s.frames[..Leading(s.frames, now, timeout)]));
    assert AddCounts(s.totals, ZERO) == s.totals;
  }

  /** What a purge removes was sent and was delivered. */
  lemma GoneAndLeft(sent: seq<DataMessage>, s: State, k: nat)
    requires AllSent(sent, Flat(s.frames)) && Ordered(s.frames) && k <= |s.frames|
    ensures var gone, left := Flat(s.frames[..k]), Flat(s.frames[k..]);
      && Flat(s.frames) == gone + left && Ordered(s.frames[k..]) && AllSent(sent, gone) && AllSent(sent, left)
      && PacketKeys(Flat(s.frames)) == PacketKeys(gone) + PacketKeys(left)
      && FrameKeys(Flat(s.frames)) == FrameKeys(gone) + FrameKeys(left)
  {
    hide *;
    FlatSplit(s.frames, k);
    OrderedRest(s.frames, k);
    SplitSent(sent, Flat(s.frames[..k]), Flat(s.frames[k..]));
  }

  lemma PurgeKeeps(sent: seq<DataMessage>, s: State, now: uint64, timeout: uint64)
    requires InOrder(sent) && Inv(sent, s)
    ensures Inv(sent, Step(sent, s, Purge(now, timeout)))
  {
    var s', k := Step(sent, s, Purge(now, timeout)), Leading(s.frames, now, timeout);
    var gone := Flat(s.frames[..k]);
    hide Ordered, AllSent, Flat, PacketsSound, FramesSound, InStep, Step, InOrder, Leading, PacketKeys, FrameKeys;
    PurgeStep(sent, s, now, timeout);
    GoneAndLeft(sent, s, k);
    PacketsPurged(sent, s, s', gone);
    FramesPurged(sent, s, s', gone);
    CountIsPass(sent, s.next, s.totals, gone, 0);
  }

  lemma NothingStored()
    ensures PacketKeys(Flat([])) == [] && FrameKeys(Flat([])) == [] && Flat([]) == []
  {
  }

  lemma StartIsSound(sent: seq<DataMessage>)
    ensures Inv(sent, Start())
  {
    NothingStored();
    hide GapCounting.Sound, Flat, PacketKeys, FrameKeys, WasSent;
    GapCounting.SoundStart();
  }

  lemma {:induction false} RunKeeps(sent: seq<DataMessage>, events: seq<Event>)
    requires InOrder(sent) && FromSender(sent, events)
    ensures Inv(sent, RunEvents(sent, events))
    decreases |events|
  {
    if events == [] {
      StartIsSound(sent);
    } else {
      var init, e := events[..|events| - 1], events[|events| - 1];
      assert e in events && forall x | x in init :: x in events;
      RunKeeps(sent, init);
      var s := RunEvents(sent, init);
      hide Inv, Step;
      match e
      case Arrival(now, number) => ArrivalKeeps(sent, s, now, number);
      case Purge(now, timeout) => PurgeKeeps(sent, s, now, timeout);
    }
  }

  /** After any arrivals, in any order, with losses and duplicates, and any purges: the numbers
      below the expected ones are those counted, those that came for the first time after they
      had been passed, and those of which nothing came; the reported losses are the latter two.
      So they are exact if and only if nothing came that late. */
  lemma LossIsExactUnlessLate(sent: seq<DataMessage>, events: seq<Event>)
    requires InOrder(sent) && FromSender(sent, events)
    ensures var s := RunEvents(sent, events);
      && s.totals.lostPackets == |GapCounting.Missing(s.packetHistory, s.next.packet)| + |s.packetHistory.late|
      && (s.totals.lostPackets == |GapCounting.Missing(s.packetHistory, s.next.packet)| <==> s.packetHistory.late == {})
      && |s.packetHistory.counted| + s.totals.lostPackets == s.next.packet
      && s.totals.lostFrames == |GapCounting.Missing(s.frameHistory, s.next.frameID)| + |s.frameHistory.late|
      && (s.totals.lostFrames == |GapCounting.Missing(s.frameHistory, s.next.frameID)| <==> s.frameHistory.late == {})
      && s.totals.receivedFrames == |s.frameHistory.counted|
      && s.totals.receivedFrames + s.totals.lostFrames == s.next.frameID
  {
    var s := RunEvents(sent, events);
    RunKeeps(sent, events);
    hide GapCounting.Missing, RunEvents, Flat, PacketKeys, FrameKeys;
    GapCounting.LossIsMissingPlusLate(PacketGap(s), s.packetHistory, PacketKeys(Flat(s.frames)));
    GapCounting.LossIsMissingPlusLate(FrameGap(s), s.frameHistory, FrameKeys(Flat(s.frames)));
  }

  lemma HistoryStep(sent: seq<DataMessage>, s: State, e: Event)
    requires InOrder(sent) && (e.Arrival? ==> e.number < |sent| && Sendable(sent[e.number]))
    ensures var s' := Step(sent, s, e);
      && s'.packetHistory.delivered == s.packetHistory.delivered + (if e.Arrival? then {e.number} else {})
      && s'.frameHistory.delivered == s.frameHistory.delivered + (if e.Arrival? then {sent[e.number].frameID as nat} else {})
  {
    if e.Purge? {
      var items := Flat(s.frames[..Leading(s.frames, e.now, e.timeout)]);
      GapCounting.CountAllKeeps(s.packetHistory, PacketGap(s), PacketKeys(items));
      GapCounting.CountAllKeeps(s.frameHistory, FrameGap(s), FrameKeys(items));
    }
  }

  /** The numbers of the messages that arrive, and those of their frames. */
  function Arrived(events: seq<Event>): set<nat> {
    set e | e in events && e.Arrival? :: e.number
  }

  function ArrivedFrames(sent: seq<DataMessage>, events: seq<Event>): set<nat>
    requires FromSender(sent, events)
  {
    set e | e in events && e.Arrival? :: sent[e.number].frameID as nat
  }

  lemma ArrivedNext(sent: seq<DataMessage>, init: seq<Event>, e: Event)
    requires FromSender(sent, init + [e])
    ensures FromSender(sent, init) && (e.Arrival? ==> e.number < |sent|)
    ensures Arrived(init + [e]) == Arrived(init) + (if e.Arrival? then {e.number} else {})
    ensures ArrivedFrames(sent, init + [e]) == ArrivedFrames(sent, init) + (if e.Arrival? then {sent[e.number].frameID as nat} else {})
  {
    assert forall x :: x in init + [e] <==> x in init || x == e;
  }

  /** The histories record just the arrivals. */
  lemma {:induction false} HistoryIsArrivals(sent: seq<DataMessage>, events: seq<Event>)
    requires InOrder(sent) && FromSender(sent, events)
    ensures var s := RunEvents(sent, events);
      s.packetHistory.delivered == Arrived(events) && s.frameHistory.delivered == ArrivedFrames(sent, events)
    decreases |events|
  {
    if events != [] {
      hide *;
      var init, e := events[..|events| - 1], events[|events| - 1];
      LastEvent(sent, events);
      HistoryIsArrivals(sent, init);
      HistoryStep(sent, RunEvents(sent, init), e);
      ArrivedNext(sent, init, e);
    }
  }

  // ----- In time -------------------------------------------------------------------------------------------

  /** No message arrives after its frame number has been passed by a purge. */
  ghost predicate Timely(sent: seq<DataMessage>, events: seq<Event>)
    requires InOrder(sent) && FromSender(sent, events)
    decreases |events|
  {
    events == [] ||
      var init, e := events[..|events| - 1], events[|events| - 1];
      assert e in events && forall x | x in init :: x in events;
      Timely(sent, init) && (e.Arrival? ==> RunEvents(sent, init).next.frameID <= sent[e.number].frameID)
  }

  /** A run up to its last event. */
  lemma LastEvent(sent: seq<DataMessage>, events: seq<Event>)
    requires InOrder(sent) && FromSender(sent, events) && events != []
    ensures var init, e := events[..|events| - 1], events[|events| - 1];
      && events == init + [e] && FromSender(sent, init) && (e.Arrival? ==> e.number < |sent| && Sendable(sent[e.number]))
      && RunEvents(sent, events) == Step(sent, RunEvents(sent, init), e)
      && (Timely(sent, events) ==> Timely(sent, init) && (e.Arrival? ==> RunEvents(sent, init).next.frameID <= sent[e.number].frameID))
  {
    var init, e := events[..|events| - 1], events[|events| - 1];
    assert e in events && forall x | x in init :: x in events;
    hide Step, Sendable;
  }

  lemma EarlierFrame(sent: seq<DataMessage>, i: nat, j: nat)
    requires InOrder(sent) && i < |sent| && j < |sent| && sent[i].frameID < sent[j].frameID
    ensures i < j
  {
  }

  lemma StepInTime(sent: seq<DataMessage>, s: State, e: Event)
    requires InOrder(sent) && Inv(sent, s) && (e.Arrival? ==> e.number < |sent| && s.next.frameID <= sent[e.number].frameID)
    requires s.packetHistory.late == {} && s.frameHistory.late == {}
    ensures Step(sent, s, e).packetHistory.late == {} && Step(sent, s, e).frameHistory.late == {}
  {
    match e
    case Arrival(_, number) =>
      if s.next.packet > 0 { EarlierFrame(sent, s.next.packet - 1, number); }
    case Purge(now, timeout) =>
      var items := Flat(s.frames[..Leading(s.frames, now, timeout)]);
      GapCounting.CountAllKeeps(s.packetHistory, PacketGap(s), PacketKeys(items));
      GapCounting.CountAllKeeps(s.frameHistory, FrameGap(s), FrameKeys(items));
  }

  lemma NothingIsLate(sent: seq<DataMessage>)
    requires InOrder(sent)
    ensures FromSender(sent, []) && RunEvents(sent, []).packetHistory.late == {} && RunEvents(sent, []).frameHistory.late == {}
  {
  }

  /** If every message comes before its frame has been passed, nothing is late, so that the
      packet and frame losses are exact. */
  lemma {:induction false} TimelyIsExact(sent: seq<DataMessage>, events: seq<Event>)
    requires InOrder(sent) && FromSender(sent, events) && Timely(sent, events)
    ensures var s := RunEvents(sent, events);
      && s.packetHistory.late == {} && s.frameHistory.late == {}
      && s.totals.lostPackets == |GapCounting.Missing(s.packetHistory, s.next.packet)|
      && s.totals.lostFrames == |GapCounting.Missing(s.frameHistory, s.next.frameID)|
    decreases |events|
  {
    hide *;
    if events == [] {
      NothingIsLate(sent);
    } else {
      var init, e := events[..|events| - 1], events[|events| - 1];
      LastEvent(sent, events);
      TimelyIsExact(sent, init);
      RunKeeps(sent, init);
      StepInTime(sent, RunEvents(sent, init), e);
    }
    LossIsExactUnlessLate(sent, events);
  }

  // ----- In sequence ---------------------------------------------------------------------------------------

  /** The numbers of the messages that arrive, in order. */
  function Numbers(events: seq<Event>): seq<nat> {
    if events == [] then [] else
    Numbers(events[..|events| - 1]) + if events[|events| - 1].Arrival? then [events[|events| - 1].number] else []
  }

  ghost predicate InSequence(numbers: seq<nat>) {
    forall i | 0 <= i < |numbers| :: numbers[i] == i
  }

  /** No frame number is left out. */
  ghost predicate FramesFollow(sent: seq<DataMessage>) {
    forall i | 0 <= i < |sent| :: FollowsAt(sent, i)
  }

  ghost predicate FollowsAt(sent: seq<DataMessage>, i: nat)
    requires i < |sent|
  {
    sent[i].frameID <= if i == 0 then 0 else sent[i - 1].frameID + 1
  }

  function FramesBefore(sent: seq<DataMessage>, m: nat): set<nat>
    requires m <= |sent|
  {
    set i | 0 <= i < m :: sent[i].frameID as nat
  }

  /** Just the first `m` messages have come, each of them in time. */
  ghost predicate Following(sent: seq<DataMessage>, s: State, m: nat) {
    m <= |sent| && GapCounting.KeepsUp(PacketGap(s), s.packetHistory, GapCounting.Below(m))
    && GapCounting.KeepsUp(FrameGap(s), s.frameHistory, FramesBefore(sent, m))
  }

  /** What was passed has come. */
  lemma PassedHasCome(sent: seq<DataMessage>, s: State, m: nat)
    requires InOrder(sent) && Inv(sent, s) && Following(sent, s, m)
    ensures s.next.packet <= m && (s.next.frameID > 0 ==> m > 0 && s.next.frameID <= sent[m - 1].frameID + 1)
  {
    hide Flat, PacketKeys, FrameKeys, GapCounting.Sound, GapCounting.KeepsUp, Ordered, AllSent, InStep;
    if s.next.packet > 0 { GapCounting.LastWasDelivered(PacketGap(s), s.packetHistory, PacketKeys(Flat(s.frames)), GapCounting.Below(m)); }
    if s.next.frameID > 0 { GapCounting.LastWasDelivered(FrameGap(s), s.frameHistory, FrameKeys(Flat(s.frames)), FramesBefore(sent, m)); }
  }

  lemma OneMoreFrame(sent: seq<DataMessage>, m: nat)
    requires m < |sent|
    ensures FramesBefore(sent, m + 1) == FramesBefore(sent, m) + {sent[m].frameID as nat}
    ensures m > 0 ==> sent[m - 1].frameID as nat in FramesBefore(sent, m)
    ensures GapCounting.Below(m + 1) == GapCounting.Below(m) + {m}
  {
  }

  lemma ArrivalStep(sent: seq<DataMessage>, s: State, now: uint64, m: nat)
    requires InOrder(sent) && m < |sent|
    ensures Sendable(sent[m])
    ensures var s' := Step(sent, s, Arrival(now, m));
      && s'.packetHistory == GapCounting.Deliver(s.packetHistory, s.next.packet, m)
      && s'.frameHistory == GapCounting.Deliver(s.frameHistory, s.next.frameID, sent[m].frameID)
      && PacketGap(s').next == PacketGap(s).next && FrameGap(s').next == FrameGap(s).next
    ensures m > 0 ==> sent[m - 1].frameID <= sent[m].frameID
  {
    hide Put, GapCounting.Deliver;
  }

  lemma NextFollows(sent: seq<DataMessage>, s: State, now: uint64, m: nat)
    requires InOrder(sent) && Inv(sent, s) && Following(sent, s, m) && m < |sent|
    ensures Sendable(sent[m]) && Following(sent, Step(sent, s, Arrival(now, m)), m + 1)
  {
    hide Inv, FramesBefore, InOrder, GapCounting.Below, GapCounting.Deliver, Sendable, Step, GapCounting.KeepsUp;
    PassedHasCome(sent, s, m);
    OneMoreFrame(sent, m);
    ArrivalStep(sent, s, now, m);
    var s' := Step(sent, s, Arrival(now, m));
    GapCounting.KeepsUpDeliver(PacketGap(s), s.packetHistory, GapCounting.Below(m), m);
    GapCounting.KeepsUpDeliver(FrameGap(s), s.frameHistory, FramesBefore(sent, m), sent[m].frameID);
    GapCounting.KeepsUpNext(PacketGap(s), PacketGap(s'), s'.packetHistory, GapCounting.Below(m + 1));
    GapCounting.KeepsUpNext(FrameGap(s), FrameGap(s'), s'.frameHistory, FramesBefore(sent, m + 1));
  }

  lemma PurgeFollows(sent: seq<DataMessage>, s: State, now: uint64, timeout: uint64, m: nat)
    requires InOrder(sent) && Inv(sent, s) && Following(sent, s, m)
    ensures Following(sent, Step(sent, s, Purge(now, timeout)), m)
  {
    var s', k := Step(sent, s, Purge(now, timeout)), Leading(s.frames, now, timeout);
    var gone := Flat(s.frames[..k]);
    var p, f := GapCounting.PassAll(PacketGap(s), PacketKeys(gone)), GapCounting.PassAll(FrameGap(s), FrameKeys(gone));
    hide Flat, Step, PacketKeys, FrameKeys, GapCounting.CountAll, GapCounting.PassAll, CountItems, FramesBefore, Ordered, AllSent, InOrder,
         GapCounting.KeepsUp, GapCounting.Sound, GapCounting.Below, InStep;
    PurgeStep(sent, s, now, timeout);
    GoneAndLeft(sent, s, k);
    CountIsPass(sent, s.next, s.totals, gone, |s.packetHistory.counted|);
    GapCounting.KeepsUpPass(PacketGap(s), s.packetHistory, GapCounting.Below(m), PacketKeys(gone));
    GapCounting.KeepsUpPass(FrameGap(s), s.frameHistory, FramesBefore(sent, m), FrameKeys(gone));
    GapCounting.KeepsUpNext(p, PacketGap(s'), s'.packetHistory, GapCounting.Below(m));
    GapCounting.KeepsUpNext(f, FrameGap(s'), s'.frameHistory, FramesBefore(sent, m));
  }

  lemma NothingFollows(sent: seq<DataMessage>)
    requires InOrder(sent)
    ensures FromSender(sent, []) && Following(sent, RunEvents(sent, []), 0) && Numbers([]) == []
  {
  }

  /** One more event. */
  lemma LastNumber(events: seq<Event>)
    requires events != [] && InSequence(Numbers(events))
    ensures var init, e := events[..|events| - 1], events[|events| - 1];
      && InSequence(Numbers(init)) && |Numbers(events)| == |Numbers(init)| + (if e.Arrival? then 1 else 0)
      && (e.Arrival? ==> e.number == |Numbers(init)|)
  {
    var init := events[..|events| - 1];
    assert forall i | 0 <= i < |Numbers(init)| :: Numbers(events)[i] == Numbers(init)[i];
    if events[|events| - 1].Arrival? { assert Numbers(events)[|Numbers(init)|] == events[|events| - 1].number; }
  }

  lemma {:induction false} RunFollows(sent: seq<DataMessage>, events: seq<Event>)
    requires InOrder(sent) && FromSender(sent, events) && InSequence(Numbers(events))
    ensures Following(sent, RunEvents(sent, events), |Numbers(events)|)
    decreases |events|
  {
    hide *;
    if events == [] {
      NothingFollows(sent);
    } else {
      var init, e := events[..|events| - 1], events[|events| - 1];
      LastEvent(sent, events);
      LastNumber(events);
      RunFollows(sent, init);
      RunKeeps(sent, init);
      match e
      case Arrival(now, number) => NextFollows(sent, RunEvents(sent, init), now, number);
      case Purge(now, timeout) => PurgeFollows(sent, RunEvents(sent, init), now, timeout, |Numbers(init)|);
    }
  }

  lemma {:induction false} NumbersOfArrivals(events: seq<Event>, e: Event)
    requires e in events && e.Arrival?
    ensures e.number in Numbers(events)
    decreases |events|
  {
    if e != events[|events| - 1] { NumbersOfArrivals(events[..|events| - 1], e); }
  }

  /** Where no frame number is left out, all up to that of a message are those of messages before. */
  lemma {:induction false} FramesFill(sent: seq<DataMessage>, m: nat, f: nat)
    requires FramesFollow(sent) && m < |sent| && f <= sent[m].frameID
    ensures f in FramesBefore(sent, m + 1)
  {
    if f < sent[m].frameID {
      assert FollowsAt(sent, m);
      FramesFill(sent, m - 1, f);
    } else {
      assert sent[m].frameID as nat in FramesBefore(sent, m + 1);
    }
  }

  lemma NothingMissing(sent: seq<DataMessage>, s: State, m: nat)
    requires InOrder(sent) && FramesFollow(sent) && Inv(sent, s) && Following(sent, s, m)
    ensures GapCounting.Missing(s.packetHistory, s.next.packet) == {} && GapCounting.Missing(s.frameHistory, s.next.frameID) == {}
  {
    PassedHasCome(sent, s, m);
    forall f: nat | f < s.next.frameID ensures f in s.frameHistory.delivered {
      FramesFill(sent, m - 1, f);
    }
  }

  /** If the messages arrive one after the other, no loss is reported, whenever purges take place. */
  lemma InSequenceIsLossless(sent: seq<DataMessage>, events: seq<Event>)
    requires InOrder(sent) && FramesFollow(sent) && FromSender(sent, events) && InSequence(Numbers(events))
    ensures var s := RunEvents(sent, events);
      && s.packetHistory.delivered == GapCounting.Below(|Numbers(events)|)
      && s.packetHistory.late == {} && s.frameHistory.late == {} && s.totals.lostPackets == 0 && s.totals.lostFrames == 0
  {
    var s := RunEvents(sent, events);
    RunFollows(sent, events);
    RunKeeps(sent, events);
    hide InOrder, FramesFollow, FromSender, Inv, RunEvents, InSequence, FramesBefore;
    NothingMissing(sent, s, |Numbers(events)|);
    LossIsExactUnlessLate(sent, events);
  }

  /** Two frames of one message each. */
  function TwoFrames(): seq<DataMessage> {
    [DataMessage(true, true, 0, 0, 0, 0, 0, 0, 0, []), DataMessage(true, true, 0, 0, 0, 1, 1, DATA_HEADER_SIZE, 0, [])]
  }

  lemma SecondArrives()
    ensures var sent := TwoFrames(); var m := sent[1];
      && InOrder(sent) && Step(sent, Start(), Arrival(0, 1)).frames == [Frame(1, 0, false, [FragmentOf(m)])]
      && Step(sent, Start(), Arrival(0, 1)).next == Next(0, 0, 0) && Step(sent, Start(), Arrival(0, 1)).totals == ZERO
  {
  }

  lemma SecondPurged(s: State)
    requires s.frames == [Frame(1, 0, false, [FragmentOf(TwoFrames()[1])])] && s.next == Next(0, 0, 0) && s.totals == ZERO
    ensures var s' := Step(TwoFrames(), s, Purge(0, 0));
      s'.next.frameID == 2 && s'.next.packet == 2 && s'.totals.lostPackets == 1 && s'.totals.lostFrames == 1
  {
    var item := Item(1, FragmentOf(TwoFrames()[1]));
    assert Expired(s.frames[0], 0, 0) && Leading(s.frames[1..], 0, 0) == 0;
    assert Leading(s.frames, 0, 0) == 1 && s.frames[..1] == s.frames;
    FlatInFront(s.frames);
    assert Flat(EraseFirst(s.frames)) == [];
    assert Flat(s.frames) == [item];
    hide Flat, GapCounting.CountAll, PacketKeys, FrameKeys, CountHeads, CountItem;
    CountInFront(s.next, ZERO, item, []);
    assert [item] + [] == [item];
    CountNothing(CountItem(s.next, ZERO, item).0, CountItem(s.next, ZERO, item).1);
    CountSecond(item);
  }

  lemma CountSecond(item: Item)
    requires item == Item(1, FragmentOf(TwoFrames()[1]))
    ensures var (n, c) := CountItem(Next(0, 0, 0), ZERO, item); n.frameID == 2 && n.packet == 2 && c.lostPackets == 1 && c.lostFrames == 1
  {
  }

  lemma BothDelivered(h: GapCounting.History, f: GapCounting.History)
    requires h.delivered == {0, 1} && f.delivered == {0, 1}
    ensures GapCounting.Missing(h, 2) == {} && GapCounting.Missing(f, 2) == {}
  {
  }

  /** The second one arrives and is purged, then the first one arrives: both were delivered, but
      a packet and a frame are reported lost. */
  lemma LateExample()
    ensures var sent, events := TwoFrames(), [Arrival(0, 1), Purge(0, 0), Arrival(0, 0)];
      && InOrder(sent) && FromSender(sent, events)
      && var s := RunEvents(sent, events);
      && GapCounting.Missing(s.packetHistory, s.next.packet) == {} && GapCounting.Missing(s.frameHistory, s.next.frameID) == {}
      && s.totals.lostPackets == 1 && s.totals.lostFrames == 1
  {
    var sent := TwoFrames();
    var e0, e1, e2 := Arrival(0, 1), Purge(0, 0), Arrival(0, 0);
    SecondArrives();
    assert FromSender(sent, []) && RunEvents(sent, []) == Start();
    assert [e0] + [e1] == [e0, e1] && [e0, e1] + [e2] == [e0, e1, e2] && [] + [e0] == [e0];
    hide Step, RunEvents, TwoFrames, InOrder, GapCounting.Missing;
    RunNext(sent, [], e0);
    RunNext(sent, [e0], e1);
    RunNext(sent, [e0, e1], e2);
    SecondPurged(RunEvents(sent, [e0]));
    ThirdStep(sent, RunEvents(sent, [e0, e1]), e2);
    HistoryIsArrivals(sent, [e0, e1, e2]);
    var s := RunEvents(sent, [e0, e1, e2]);
    DeliveredBoth(sent, [e0, e1, e2], s);
    BothDelivered(s.packetHistory, s.frameHistory);
  }

  lemma ThirdStep(sent: seq<DataMessage>, s: State, e: Event)
    requires e.Arrival? && e.number < |sent| && Sendable(sent[e.number])
    ensures Step(sent, s, e).next == s.next && Step(sent, s, e).totals == s.totals
  {
  }

  lemma DeliveredBoth(sent: seq<DataMessage>, events: seq<Event>, s: State)
    requires sent == TwoFrames() && events == [Arrival(0, 1), Purge(0, 0), Arrival(0, 0)]
    requires FromSender(sent, events) && s.packetHistory.delivered == Arrived(events) && s.frameHistory.delivered == ArrivedFrames(sent, events)
    ensures s.packetHistory.delivered == {0, 1} && s.frameHistory.delivered == {0, 1}
  {
    assert events[0] in events && events[2] in events;
  }

  /** A purge removes whole expired frames from the front, up to the first one that has not
      expired, and leaves no empty frame behind. */
  lemma PurgeRemovesExpiredFront(sent: seq<DataMessage>, s: State, now: uint64, timeout: uint64)
    requires Inv(sent, s)
    ensures var frames' := Step(sent, s, Purge(now, timeout)).frames;
      && |frames'| <= |s.frames| && frames' == s.frames[|s.frames| - |frames'|..]
      && (forall i | 0 <= i < |s.frames| - |frames'| :: (s.frames[i].lastUpdate + timeout) % 0x1_0000_0000_0000_0000 <= now)
      && (frames' != [] ==> (frames'[0].lastUpdate + timeout) % 0x1_0000_0000_0000_0000 > now)
      && (forall i | 0 <= i < |frames'| :: frames'[i].fragmentSet != [])
  {
    hide GapCounting.CountAll, Flat, CountItems, PacketKeys, FrameKeys, CountHeads, PacketsSound, FramesSound, AllSent, InStep;
  }

  // ----- Within the timeout ------------------------------------------------------------------------------

  /** The frame number expected next is the old one, or follows one of those counted. */
  lemma {:induction false} CountedFrame(n: Next, c: Counts, items: seq<Item>)
    ensures var n' := CountItems(n, c, items).0;
      n'.frameID == n.frameID || exists i :: 0 <= i < |items| && n'.frameID == (items[i].frameID + 1) % 0x1_0000_0000
    decreases |items|
  {
    if items != [] {
      var (m, d) := CountItem(n, c, items[0]);
      CountedFrame(m, d, items[1..]);
      var n' := CountItems(n, c, items).0;
      if i :| 0 <= i < |items[1..]| && n'.frameID == (items[1..][i].frameID + 1) % 0x1_0000_0000 { assert items[i + 1] == items[1..][i]; }
    }
  }

  /** The frames that a purge removes, and the ones it leaves. */
  lemma PurgedFrames(sent: seq<DataMessage>, s: State, now: uint64, timeout: uint64) returns (n: nat)
    requires InOrder(sent) && Inv(sent, s)
    ensures n <= |s.frames| && AllSent(sent, Flat(s.frames[..n]))
    ensures forall i | 0 <= i < n :: Expired(s.frames[i], now, timeout)
    ensures var s' := Step(sent, s, Purge(now, timeout));
      s'.frames == s.frames[n..] && s'.next == CountItems(s.next, s.totals, Flat(s.frames[..n])).0
  {
    n := Leading(s.frames, now, timeout);
    hide Expired, Flat, CountItems, Ordered, AllSent, PacketsSound, FramesSound, InStep, InOrder, Step, Leading;
    PurgeStep(sent, s, now, timeout);
    GoneAndLeft(sent, s, n);
  }

  /** A purge expects the same frame next, or the one behind a frame that it has removed. */
  lemma PurgedFrame(sent: seq<DataMessage>, s: State, now: uint64, timeout: uint64) returns (k: nat)
    requires InOrder(sent) && Inv(sent, s)
    ensures var s' := Step(sent, s, Purge(now, timeout));
      s'.next.frameID == s.next.frameID ||
      (k < |s.frames| - |s'.frames| && s'.next.frameID == s.frames[k].frameID + 1 && Expired(s.frames[k], now, timeout))
  {
    hide Expired, Step, Inv, InOrder, WasSent, CountItems, Flat;
    var n := PurgedFrames(sent, s, now, timeout);
    var s', gone := Step(sent, s, Purge(now, timeout)), Flat(s.frames[..n]);
    CountedFrame(s.next, s.totals, gone);
    k := 0;
    if s'.next.frameID != s.next.frameID {
      var i :| 0 <= i < |gone| && s'.next.frameID == (gone[i].frameID + 1) % 0x1_0000_0000;
      FlatFrame(s.frames[..n], i);
      k :| 0 <= k < n && s.frames[..n][k].frameID == gone[i].frameID;
      SentFrame(sent, gone[i]);
    }
  }

  lemma SentFrame(sent: seq<DataMessage>, item: Item)
    requires InOrder(sent) && WasSent(sent, item)
    ensures item.frameID < 0xffff_ffff
  {
  }

  /** Every frame that is stored has the time of one of its messages. */
  ghost predicate Stamped(sent: seq<DataMessage>, events: seq<Event>, frameID: uint32, lastUpdate: uint64) {
    exists i :: 0 <= i < |events| && events[i].Arrival? && events[i].number < |sent|
      && sent[events[i].number].frameID == frameID && events[i].now == lastUpdate
  }

  ghost predicate AllStamped(sent: seq<DataMessage>, events: seq<Event>, frames: seq<Frame>) {
    forall x | x in frames :: Stamped(sent, events, x.frameID, x.lastUpdate)
  }

  lemma StampedLater(sent: seq<DataMessage>, events: seq<Event>, e: Event, frameID: uint32, lastUpdate: uint64)
    requires Stamped(sent, events, frameID, lastUpdate)
    ensures Stamped(sent, events + [e], frameID, lastUpdate)
  {
    var i :| 0 <= i < |events| && events[i].Arrival? && events[i].number < |sent|
      && sent[events[i].number].frameID == frameID && events[i].now == lastUpdate;
    assert (events + [e])[i] == events[i];
  }

  lemma StampNext(sent: seq<DataMessage>, events: seq<Event>, s: State, e: Event)
    requires InOrder(sent) && AllStamped(sent, events, s.frames) && (e.Arrival? ==> e.number < |sent| && Sendable(sent[e.number]))
    ensures AllStamped(sent, events + [e], Step(sent, s, e).frames)
  {
    var frames' := Step(sent, s, e).frames;
    hide Stamped;
    forall x | x in frames' ensures Stamped(sent, events + [e], x.frameID, x.lastUpdate) {
      match e
      case Arrival(now, number) =>
        hide Put;
        PutStamps(s.frames, now, sent[number].frameID, FragmentOf(sent[number]));
        if HasStamp(s.frames, x.frameID, x.lastUpdate) {
          StampedLater(sent, events, e, x.frameID, x.lastUpdate);
        } else {
          ArrivalStamps(sent, events, e);
        }
      case Purge(_, _) =>
        StampedLater(sent, events, e, x.frameID, x.lastUpdate);
    }
  }

  lemma ArrivalStamps(sent: seq<DataMessage>, events: seq<Event>, e: Event)
    requires e.Arrival? && e.number < |sent|
    ensures Stamped(sent, events + [e], sent[e.number].frameID, e.now)
  {
    assert (events + [e])[|events|] == e;
  }

  lemma {:induction false} RunStamps(sent: seq<DataMessage>, events: seq<Event>)
    requires InOrder(sent) && FromSender(sent, events)
    ensures AllStamped(sent, events, RunEvents(sent, events).frames)
    decreases |events|
  {
    hide *;
    if events == [] {
      NothingStamped(sent);
    } else {
      var init, e := events[..|events| - 1], events[|events| - 1];
      LastEvent(sent, events);
      RunStamps(sent, init);
      StampNext(sent, init, RunEvents(sent, init), e);
    }
  }

  lemma NothingStamped(sent: seq<DataMessage>)
    requires InOrder(sent)
    ensures FromSender(sent, []) && AllStamped(sent, [], RunEvents(sent, []).frames) && RunEvents(sent, []).next.frameID == 0
  {
  }

  /** A message of this frame came, and its timeout was over at a later purge. */
  ghost predicate TimedOut(sent: seq<DataMessage>, events: seq<Event>, frameID: nat, i: int, p: int) {
    && 0 <= i < p < |events| && events[i].Arrival? && events[i].number < |sent| && events[p].Purge?
    && sent[events[i].number].frameID == frameID && (events[i].now + events[p].timeout) % 0x1_0000_0000_0000_0000 <= events[p].now
  }

  /** A frame is passed only after its timeout. */
  lemma {:induction false} PassedIsTimedOut(sent: seq<DataMessage>, events: seq<Event>) returns (i: int, p: int)
    requires InOrder(sent) && FromSender(sent, events) && RunEvents(sent, events).next.frameID > 0
    ensures TimedOut(sent, events, RunEvents(sent, events).next.frameID - 1, i, p)
    decreases |events|
  {
    hide *;
    if events == [] {
      NothingStamped(sent);
      assert false;
    } else {
      var init, e := events[..|events| - 1], events[|events| - 1];
      LastEvent(sent, events);
      RunKeeps(sent, init);
      var s := RunEvents(sent, init);
      if e.Purge? {
        var k := PurgedFrame(sent, s, e.now, e.timeout);
        if RunEvents(sent, events).next.frameID == s.next.frameID {
          i, p := PassedIsTimedOut(sent, init);
          TimedOutLater(sent, init, e, s.next.frameID - 1, i, p);
        } else {
          RunStamps(sent, init);
          i := StampOf(sent, init, s.frames, k);
          p := |init|;
          TimeIsOver(s.frames[k], e.now, e.timeout);
          TimedOutNow(sent, init, e, s.frames[k].frameID, i);
        }
      } else {
        SameNext(sent, s, e);
        i, p := PassedIsTimedOut(sent, init);
        TimedOutLater(sent, init, e, s.next.frameID - 1, i, p);
      }
    }
  }

  lemma SameNext(sent: seq<DataMessage>, s: State, e: Event)
    requires e.Arrival? && e.number < |sent| && Sendable(sent[e.number])
    ensures Step(sent, s, e).next == s.next
  {
  }

  lemma TimedOutLater(sent: seq<DataMessage>, events: seq<Event>, e: Event, frameID: nat, i: int, p: int)
    requires TimedOut(sent, events, frameID, i, p)
    ensures TimedOut(sent, events + [e], frameID, i, p)
  {
  }

  lemma TimeIsOver(frame: Frame, now: uint64, timeout: uint64)
    requires Expired(frame, now, timeout)
    ensures (frame.lastUpdate + timeout) % 0x1_0000_0000_0000_0000 <= now
  {
  }

  lemma TimedOutNow(sent: seq<DataMessage>, events: seq<Event>, e: Event, frameID: nat, i: int)
    requires 0 <= i < |events| && events[i].Arrival? && events[i].number < |sent| && sent[events[i].number].frameID == frameID
    requires e.Purge? && (events[i].now + e.timeout) % 0x1_0000_0000_0000_0000 <= e.now
    ensures TimedOut(sent, events + [e], frameID, i, |events|)
  {
  }

  lemma StampOf(sent: seq<DataMessage>, events: seq<Event>, frames: seq<Frame>, k: nat) returns (i: int)
    requires AllStamped(sent, events, frames) && k < |frames|
    ensures 0 <= i < |events| && events[i].Arrival? && events[i].number < |sent|
    ensures sent[events[i].number].frameID == frames[k].frameID && events[i].now == frames[k].lastUpdate
  {
    assert Stamped(sent, events, frames[k].frameID, frames[k].lastUpdate);
    i :| 0 <= i < |events| && events[i].Arrival? && events[i].number < |sent|
      && sent[events[i].number].frameID == frames[k].frameID && events[i].now == frames[k].lastUpdate;
  }

  /** However messages are reordered: no purge before a message comes is as late as the timeout of
      any message of the same or of a later frame. */
  ghost predicate WithinTimeout(sent: seq<DataMessage>, events: seq<Event>)
    requires FromSender(sent, events)
  {
    forall i, p, j | 0 <= i < p < j < |events| && events[i].Arrival? && events[p].Purge? && events[j].Arrival?
        && sent[events[j].number].frameID <= sent[events[i].number].frameID ::
      events[p].now < events[i].now + events[p].timeout < 0x1_0000_0000_0000_0000
  }

  lemma WithinInit(sent: seq<DataMessage>, init: seq<Event>, e: Event)
    requires FromSender(sent, init + [e]) && FromSender(sent, init) && WithinTimeout(sent, init + [e])
    ensures WithinTimeout(sent, init)
  {
    var events := init + [e];
    forall i, p, j | 0 <= i < p < j < |init| && init[i].Arrival? && init[p].Purge? && init[j].Arrival?
        && sent[init[j].number].frameID <= sent[init[i].number].frameID
      ensures init[p].now < init[i].now + init[p].timeout < 0x1_0000_0000_0000_0000
    {
      assert events[i] == init[i] && events[p] == init[p] && events[j] == init[j];
    }
  }

  lemma NotTimedOut(sent: seq<DataMessage>, init: seq<Event>, e: Event, frameID: nat, i: int, p: int)
    requires FromSender(sent, init + [e]) && WithinTimeout(sent, init + [e])
    requires e.Arrival? && e.number < |sent| && sent[e.number].frameID <= frameID
    ensures !TimedOut(sent, init, frameID, i, p)
  {
    var events := init + [e];
    assert forall k | 0 <= k < |init| :: events[k] == init[k];
    assert events[|init|] == e;
  }

  lemma {:induction false} WithinTimeoutIsTimely(sent: seq<DataMessage>, events: seq<Event>)
    requires InOrder(sent) && FromSender(sent, events) && WithinTimeout(sent, events)
    ensures Timely(sent, events)
    decreases |events|
  {
    hide InOrder, RunEvents, FromSender, WithinTimeout, TimedOut;
    if events != [] {
      var init, e := events[..|events| - 1], events[|events| - 1];
      LastEvent(sent, events);
      WithinInit(sent, init, e);
      WithinTimeoutIsTimely(sent, init);
      if e.Arrival? && RunEvents(sent, init).next.frameID > sent[e.number].frameID {
        var i, p := PassedIsTimedOut(sent, init);
        NotTimedOut(sent, init, e, RunEvents(sent, init).next.frameID - 1, i, p);
      }
    }
  }

  /** Reordering within the timeout does no harm: nothing is late, and the packet and frame losses
      are exact. */
  lemma ReorderingIsHarmless(sent: seq<DataMessage>, events: seq<Event>)
    requires InOrder(sent) && FromSender(sent, events) && WithinTimeout(sent, events)
    ensures var s := RunEvents(sent, events);
      && s.packetHistory.late == {} && s.frameHistory.late == {}
      && s.totals.lostPackets == |GapCounting.Missing(s.packetHistory, s.next.packet)|
      && s.totals.lostFrames == |GapCounting.Missing(s.frameHistory, s.next.frameID)|
  {
    hide *;
    WithinTimeoutIsTimely(sent, events);
    TimelyIsExact(sent, events);
  }

  /** A frame is there with this time, and has not been passed. */
  ghost predicate Waiting(s: State, frameID: uint32, lastUpdate: uint64) {
    HasStamp(s.frames, frameID, lastUpdate) && s.next.frameID <= frameID
  }

  lemma ArrivalLeavesWaiting(sent: seq<DataMessage>, s: State, e: Event, frameID: uint32, lastUpdate: uint64)
    requires Waiting(s, frameID, lastUpdate) && e.Arrival? && e.number < |sent| && Sendable(sent[e.number])
    ensures Waiting(Step(sent, s, e), frameID, lastUpdate)
  {
    PutStamps(s.frames, e.now, sent[e.number].frameID, FragmentOf(sent[e.number]));
    hide Put, FragmentOf;
  }

  lemma WaitingAt(s: State, frameID: uint32, lastUpdate: uint64) returns (k: nat)
    requires Waiting(s, frameID, lastUpdate)
    ensures k < |s.frames| && s.frames[k].frameID == frameID && s.frames[k].lastUpdate == lastUpdate && s.next.frameID <= frameID
  {
    var x :| x in s.frames && x.frameID == frameID && x.lastUpdate == lastUpdate;
    k :| 0 <= k < |s.frames| && s.frames[k] == x;
  }

  lemma IsWaiting(s: State, k: nat)
    requires k < |s.frames| && s.next.frameID <= s.frames[k].frameID
    ensures Waiting(s, s.frames[k].frameID, s.frames[k].lastUpdate)
  {
  }

  lemma NotYet(frame: Frame, timeout: uint64, now: uint64)
    requires now < frame.lastUpdate + timeout < 0x1_0000_0000_0000_0000
    ensures !Expired(frame, now, timeout)
  {
  }

  /** No purge before the timeout takes it. */
  lemma PurgeLeavesWaiting(sent: seq<DataMessage>, s: State, now: uint64, timeout: uint64, frameID: uint32, lastUpdate: uint64)
    requires InOrder(sent) && Inv(sent, s) && Waiting(s, frameID, lastUpdate)
    requires now < lastUpdate + timeout < 0x1_0000_0000_0000_0000
    ensures Waiting(Step(sent, s, Purge(now, timeout)), frameID, lastUpdate)
  {
    var s' := Step(sent, s, Purge(now, timeout));
    assert Ordered(s.frames);
    hide *;
    var n := PurgedFrames(sent, s, now, timeout);
    var m := PurgedFrame(sent, s, now, timeout);
    var k := WaitingAt(s, frameID, lastUpdate);
    NotYet(s.frames[k], timeout, now);
    StaysBehind(s.frames, n, k, now, timeout);
    if s'.next.frameID != s.next.frameID { LowerFrame(s.frames, m, k); }
    IsWaiting(s', k - n);
  }

  lemma StaysBehind(frames: seq<Frame>, n: nat, k: nat, now: uint64, timeout: uint64)
    requires n <= |frames| && (forall i | 0 <= i < n :: Expired(frames[i], now, timeout))
    requires k < |frames| && !Expired(frames[k], now, timeout)
    ensures n <= k && frames[n..][k - n] == frames[k]
  {
    hide Expired;
  }

  lemma LowerFrame(frames: seq<Frame>, m: nat, k: nat)
    requires Ordered(frames) && m < k < |frames|
    ensures frames[m].frameID < frames[k].frameID
  {
  }

  lemma WaitsOn(sent: seq<DataMessage>, s: State, e: Event, frameID: uint32, lastUpdate: uint64)
    requires InOrder(sent) && Inv(sent, s) && Waiting(s, frameID, lastUpdate)
    requires e.Arrival? ==> e.number < |sent| && Sendable(sent[e.number])
    requires e.Purge? ==> e.now < lastUpdate + e.timeout < 0x1_0000_0000_0000_0000
    ensures Waiting(Step(sent, s, e), frameID, lastUpdate)
  {
    hide *;
    match e
    case Arrival(_, _) => ArrivalLeavesWaiting(sent, s, e, frameID, lastUpdate);
    case Purge(now, timeout) => PurgeLeavesWaiting(sent, s, now, timeout, frameID, lastUpdate);
  }

  lemma {:induction false} KeepsWaiting(sent: seq<DataMessage>, events: seq<Event>, more: seq<Event>, frameID: uint32, lastUpdate: uint64)
    requires InOrder(sent) && FromSender(sent, events) && FromSender(sent, more) && FromSender(sent, events + more)
    requires Waiting(RunEvents(sent, events), frameID, lastUpdate)
    requires forall e | e in more && e.Purge? :: e.now < lastUpdate + e.timeout < 0x1_0000_0000_0000_0000
    ensures Waiting(RunEvents(sent, events + more), frameID, lastUpdate)
    decreases |more|
  {
    hide InOrder, RunEvents, Waiting;
    if more == [] {
      assert events + more == events;
    } else {
      var init, e := more[..|more| - 1], more[|more| - 1];
      assert events + more == (events + init) + [e] && e in more;
      assert (events + more)[..|events + more| - 1] == events + init;
      LastEvent(sent, events + more);
      KeepsWaiting(sent, events, init, frameID, lastUpdate);
      RunKeeps(sent, events + init);
      WaitsOn(sent, RunEvents(sent, events + init), e, frameID, lastUpdate);
    }
  }

  /** A message that comes before a purge has seen the timeout of its frame's first fragment is not
      late, if the first one was not. */
  lemma BeforeTimeoutIsNotLate(sent: seq<DataMessage>, before: seq<Event>, first: Event, more: seq<Event>, now: uint64, number: nat)
    requires InOrder(sent) && FromSender(sent, before) && FromSender(sent, before + [first]) && FromSender(sent, more)
    requires FromSender(sent, before + [first] + more) && first.Arrival? && first.number < |sent| && number < |sent| && Sendable(sent[number])
    requires sent[number].frameID == sent[first.number].frameID
    requires RunEvents(sent, before).next.frameID <= sent[first.number].frameID
    requires forall f | f in RunEvents(sent, before).frames :: f.frameID != sent[first.number].frameID
    requires forall e | e in more && e.Purge? :: e.now < first.now + e.timeout < 0x1_0000_0000_0000_0000
    ensures var s := RunEvents(sent, before + [first] + more);
      var s' := Step(sent, s, Arrival(now, number));
      s'.packetHistory.late == s.packetHistory.late && s'.frameHistory.late == s.frameHistory.late
  {
    hide *;
    var f := sent[number].frameID;
    RunNext(sent, before, first);
    FirstWaits(sent, RunEvents(sent, before), first);
    KeepsWaiting(sent, before + [first], more, f, first.now);
    RunKeeps(sent, before + [first] + more);
    NotLate(sent, RunEvents(sent, before + [first] + more), now, number, first.now);
  }

  lemma FirstWaits(sent: seq<DataMessage>, s: State, first: Event)
    requires InOrder(sent) && first.Arrival? && first.number < |sent| && Sendable(sent[first.number])
    requires s.next.frameID <= sent[first.number].frameID && forall f | f in s.frames :: f.frameID != sent[first.number].frameID
    ensures Waiting(Step(sent, s, first), sent[first.number].frameID, first.now)
  {
    hide Put;
    PutStamps(s.frames, first.now, sent[first.number].frameID, FragmentOf(sent[first.number]));
  }

  lemma NotLate(sent: seq<DataMessage>, s: State, now: uint64, number: nat, lastUpdate: uint64)
    requires InOrder(sent) && Inv(sent, s) && number < |sent| && Sendable(sent[number]) && Waiting(s, sent[number].frameID, lastUpdate)
    ensures var s' := Step(sent, s, Arrival(now, number));
      s'.packetHistory.late == s.packetHistory.late && s'.frameHistory.late == s.frameHistory.late
  {
    hide Put, Flat, PacketsSound, FramesSound, Ordered, AllSent;
    if s.next.packet > 0 { EarlierFrame(sent, s.next.packet - 1, number); }
  }

  // ----- A flow that receives ----------------------------------------------------------------------------

  /** The reception side of a flow: the counters that grow with every data message. */
  class ReceivingFlow {
    const Reassembly: Defragmenter
    const DefragmentTimeout: uint64
    var ReceivedFrames: nat
    var ReceivedPackets: nat
    var ReceivedBytes: nat
    var LostFrames: nat
    var LostPackets: nat
    var LostBytes: nat
    /** What the peer sends, and what has happened here. */
    ghost const Sent: seq<DataMessage>
    ghost var Events: seq<Event>

    ghost predicate Valid()
      reads this, Reassembly
    {
      && InOrder(Sent) && FromSender(Sent, Events) && Reassembly.Valid()
      && var s := RunEvents(Sent, Events);
      && s.frames == Reassembly.FrameSet && s.next == Reassembly.Expected()
      && s.totals == Counts(ReceivedFrames, LostFrames, LostPackets, LostBytes)
    }

    constructor (timeout: uint64, ghost sent: seq<DataMessage>)
      requires InOrder(sent)
      ensures Valid() && Events == [] && Sent == sent && fresh(Reassembly) && DefragmentTimeout == timeout
      ensures ReceivedPackets == ReceivedBytes == 0
    {
      Reassembly := new Defragmenter();
      DefragmentTimeout := timeout;
      ReceivedFrames, ReceivedPackets, ReceivedBytes := 0, 0, 0;
      LostFrames, LostPackets, LostBytes := 0, 0, 0;
      Sent, Events := sent, [];
    }

    /** A data message has been received. */
    method UpdateStatistics(now: uint64, dataMsg: DataMessage, receivedBytes: nat)
      requires Valid() && dataMsg in Sent
      modifies this, Reassembly
      ensures Valid() && Events == old(Events) + [Arrival(now, dataMsg.seqNumber), Purge(now, DefragmentTimeout)]
      ensures ReceivedPackets == old(ReceivedPackets) + 1 && ReceivedBytes == old(ReceivedBytes) + receivedBytes
    {
      hide Put, CountItems, Flat, Leading, InOrder, RunEvents, FromSender, Step, Ordered;
      MessageEvents(Sent, Events, now, dataMsg, DefragmentTimeout);
      Reassembly.AddFragment(now, dataMsg);
      var c := Reassembly.Purge(now, DefragmentTimeout);
      ReceivedFrames := ReceivedFrames + c.receivedFrames;
      ReceivedPackets := ReceivedPackets + 1;
      ReceivedBytes := ReceivedBytes + receivedBytes;
      LostFrames := LostFrames + c.lostFrames;
      LostPackets := LostPackets + c.lostPackets;
      LostBytes := LostBytes + c.lostBytes;
      Events := Events + [Arrival(now, dataMsg.seqNumber), Purge(now, DefragmentTimeout)];
    }
  }

  lemma RunNext(sent: seq<DataMessage>, events: seq<Event>, e: Event)
    requires InOrder(sent) && FromSender(sent, events) && (e.Arrival? ==> e.number < |sent|)
    ensures FromSender(sent, events + [e]) && (e.Arrival? ==> Sendable(sent[e.number]))
    ensures RunEvents(sent, events + [e]) == Step(sent, RunEvents(sent, events), e)
  {
    assert (events + [e])[..|events|] == events;
  }

  /** What one data message does to the run. */
  lemma MessageEvents(sent: seq<DataMessage>, events: seq<Event>, now: uint64, m: DataMessage, timeout: uint64)
    requires InOrder(sent) && FromSender(sent, events) && m in sent
    ensures var events' := events + [Arrival(now, m.seqNumber), Purge(now, timeout)];
      && Sendable(m) && FromSender(sent, events')
      && var s, s' := RunEvents(sent, events), RunEvents(sent, events');
      && var frames := Put(s.frames, now, m.frameID, FragmentOf(m));
      && var k := Leading(frames, now, timeout);
      && var (next, counts) := CountItems(s.next, ZERO, Flat(frames[..k]));
      && s'.frames == frames[k..] && s'.next == next && s'.totals == AddCounts(s.totals, counts)
  {
    var i :| 0 <= i < |sent| && sent[i] == m;
    RunNext(sent, events, Arrival(now, m.seqNumber));
    RunNext(sent, events + [Arrival(now, m.seqNumber)], Purge(now, timeout));
    assert events + [Arrival(now, m.seqNumber)] + [Purge(now, timeout)] == events + [Arrival(now, m.seqNumber), Purge(now, timeout)];
  }
}
