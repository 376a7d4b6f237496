/** Collecting the fragments of frames and counting what has been lost: src/defragmenter.cc. */
module Defragmenters {
  import opened MachineIntegers
  import opened MessageFraming
  import opened DataMessages

  datatype Fragment = Fragment(packetSeqNumber: uint64, byteSeqNumber: uint64, length: uint16, flags: byte)

  /** A frame; both ordered maps are sequences in the order of their keys. */
  datatype Frame = Frame(frameID: uint32, lastUpdate: uint64, completed: bool, fragmentSet: seq<Fragment>)

  // ----- The ordered maps ------------------------------------------------------------------------

  ghost predicate OrderedFragments(fs: seq<Fragment>) {
    forall i, j | 0 <= i < j < |fs| :: fs[i].packetSeqNumber < fs[j].packetSeqNumber
  }

  ghost predicate Ordered(frames: seq<Frame>) {
    && (forall i, j | 0 <= i < j < |frames| :: frames[i].frameID < frames[j].frameID)
    && (forall i | 0 <= i < |frames| :: OrderedFragments(frames[i].fragmentSet) && frames[i].fragmentSet != [])
  }

  /** The fragments of a frame with one more, unless its number is already there. */
  function PutFragment(fs: seq<Fragment>, f: Fragment): (r: seq<Fragment>)
    ensures r != []
  {
    if fs == [] || fs[0].packetSeqNumber > f.packetSeqNumber then [f] + fs
    else if fs[0].packetSeqNumber == f.packetSeqNumber then fs
    else [fs[0]] + PutFragment(fs[1..], f)
  }

  /** The frames with one more fragment; only a new frame gets a time stamp. */
  function Put(frames: seq<Frame>, now: uint64, frameID: uint32, f: Fragment): seq<Frame> {
    if frames == [] || frames[0].frameID > frameID then [Frame(frameID, now, false, [f])] + frames
    else if frames[0].frameID == frameID then [frames[0].(fragmentSet := PutFragment(frames[0].fragmentSet, f))] + frames[1..]
    else [frames[0]] + Put(frames[1..], now, frameID, f)
  }

  /** Where a key is, or would be. */
  function FindFrame(frames: seq<Frame>, frameID: uint32): (r: nat)
    ensures r <= |frames|
  {
    if frames == [] || frames[0].frameID >= frameID then 0 else 1 + FindFrame(frames[1..], frameID)
  }

  function FindFragment(fs: seq<Fragment>, number: uint64): (r: nat)
    ensures r <= |fs|
  {
    if fs == [] || fs[0].packetSeqNumber >= number then 0 else 1 + FindFragment(fs[1..], number)
  }

  lemma {:induction false} FragmentFound(fs: seq<Fragment>, f: Fragment)
    ensures var i := FindFragment(fs, f.packetSeqNumber);
      PutFragment(fs, f) == if i < |fs| && fs[i].packetSeqNumber == f.packetSeqNumber then fs else fs[..i] + [f] + fs[i..]
  {
    if fs != [] && fs[0].packetSeqNumber < f.packetSeqNumber {
      FragmentFound(fs[1..], f);
      assert fs == [fs[0]] + fs[1..];
    }
  }

  lemma {:induction false} FrameFound(frames: seq<Frame>, now: uint64, frameID: uint32, f: Fragment)
    ensures var i := FindFrame(frames, frameID);
      Put(frames, now, frameID, f) ==
        if i < |frames| && frames[i].frameID == frameID
        then frames[i := frames[i].(fragmentSet := PutFragment(frames[i].fragmentSet, f))]
        else frames[..i] + [Frame(frameID, now, false, [f])] + frames[i..]
  {
    hide PutFragment;
    if frames != [] && frames[0].frameID < frameID {
      FrameFound(frames[1..], now, frameID, f);
      assert frames == [frames[0]] + frames[1..];
    }
  }

  /** Frames keep their time stamps; only a new one gets the time of arrival. */
  lemma {:induction false} PutStamps(frames: seq<Frame>, now: uint64, frameID: uint32, f: Fragment)
    ensures var frames' := Put(frames, now, frameID, f);
      && (forall x | x in frames' :: (x.frameID == frameID && x.lastUpdate == now) || HasStamp(frames, x.frameID, x.lastUpdate))
      && (forall x | x in frames :: HasStamp(frames', x.frameID, x.lastUpdate))
      && ((forall x | x in frames :: x.frameID != frameID) ==> HasStamp(frames', frameID, now))
  {
    FrameFound(frames, now, frameID, f);
    hide Put;
    var i, frames' := FindFrame(frames, frameID), Put(frames, now, frameID, f);
    if i < |frames| && frames[i].frameID == frameID {
      forall k | 0 <= k < |frames| ensures frames'[k].frameID == frames[k].frameID && frames'[k].lastUpdate == frames[k].lastUpdate {}
      assert frames[i] in frames;
    } else {
      assert frames == frames[..i] + frames[i..];
      forall x | x in frames ensures x in frames' {}
      assert Frame(frameID, now, false, [f]) in frames';
    }
  }

  ghost predicate HasStamp(frames: seq<Frame>, frameID: uint32, lastUpdate: uint64) {
    exists x :: x in frames && x.frameID == frameID && x.lastUpdate == lastUpdate
  }

  lemma {:induction false} PutFragmentOrdered(fs: seq<Fragment>, f: Fragment)
    requires OrderedFragments(fs)
    ensures OrderedFragments(PutFragment(fs, f))
    ensures forall x | x in PutFragment(fs, f) :: x == f || x in fs
  {
    if fs != [] && fs[0].packetSeqNumber < f.packetSeqNumber {
      PutFragmentOrdered(fs[1..], f);
      var r := PutFragment(fs[1..], f);
      forall x | x in r ensures fs[0].packetSeqNumber < x.packetSeqNumber {}
    }
  }

  lemma {:induction false} PutOrdered(frames: seq<Frame>, now: uint64, frameID: uint32, f: Fragment)
    requires Ordered(frames)
    ensures Ordered(Put(frames, now, frameID, f))
    ensures forall x | x in Put(frames, now, frameID, f) :: x.frameID == frameID || x in frames
  {
    if frames != [] && frames[0].frameID <= frameID {
      if frames[0].frameID == frameID {
        PutFragmentOrdered(frames[0].fragmentSet, f);
      } else {
        PutOrdered(frames[1..], now, frameID, f);
        var r := Put(frames[1..], now, frameID, f);
        forall x | x in r ensures frames[0].frameID < x.frameID {}
      }
    }
  }

  // ----- Purging as a function -------------------------------------------------------------------

  /** The numbers expected next. */
  datatype Next = Next(frameID: uint32, packet: uint64, byteOffset: uint64)

  datatype Counts = Counts(receivedFrames: nat, lostFrames: nat, lostPackets: nat, lostBytes: nat)

  const ZERO: Counts := Counts(0, 0, 0, 0)

  datatype Item = Item(frameID: uint32, fragment: Fragment)

  /** All fragments, in the order of a purge. */
  function Flat(frames: seq<Frame>): seq<Item> {
    if frames == [] then [] else ItemsOf(frames[0].frameID, frames[0].fragmentSet) + Flat(frames[1..])
  }

  function ItemsOf(frameID: uint32, fs: seq<Fragment>): (items: seq<Item>)
    ensures |items| == |fs|
  {
    seq(|fs|, i requires 0 <= i < |fs| => Item(frameID, fs[i]))
  }

  /** What a purge does with one fragment. */
  function CountItem(n: Next, c: Counts, item: Item): (Next, Counts) {
    var f := item.fragment;
    var newFrame, newBytes, newPacket := item.frameID >= n.frameID, f.byteSeqNumber >= n.byteOffset, f.packetSeqNumber >= n.packet;
    (Next(if newFrame then (item.frameID + 1) % 0x1_0000_0000 else n.frameID,
          if newPacket then (f.packetSeqNumber + 1) % 0x1_0000_0000_0000_0000 else n.packet,
          if newBytes then (f.byteSeqNumber + f.length) % 0x1_0000_0000_0000_0000 else n.byteOffset),
     Counts(if newFrame then c.receivedFrames + 1 else c.receivedFrames,
            if newFrame then c.lostFrames + (item.frameID - n.frameID) else c.lostFrames,
            if newPacket then c.lostPackets + (f.packetSeqNumber - n.packet) else c.lostPackets,
            if newBytes then c.lostBytes + (f.byteSeqNumber - n.byteOffset) else c.lostBytes))
  }

  function CountItems(n: Next, c: Counts, items: seq<Item>): (Next, Counts)
    decreases |items|
  {
    if items == [] then (n, c) else
    var (n', c') := CountItem(n, c, items[0]);
    CountItems(n', c', items[1..])
  }

  predicate Expired(frame: Frame, now: uint64, timeout: uint64) {
    (frame.lastUpdate + timeout) % 0x1_0000_0000_0000_0000 <= now
  }

  /** The number of frames at the front that have expired. */
  function Leading(frames: seq<Frame>, now: uint64, timeout: uint64): (k: nat)
    ensures k <= |frames|
    ensures forall i | 0 <= i < k :: Expired(frames[i], now, timeout)
    ensures k < |frames| ==> !Expired(frames[k], now, timeout)
  {
    if frames == [] || !Expired(frames[0], now, timeout) then 0 else 1 + Leading(frames[1..], now, timeout)
  }

  /** The frames after the first fragment has been erased. */
  function EraseFirst(frames: seq<Frame>): seq<Frame>
    requires frames != [] && frames[0].fragmentSet != []
  {
    if |frames[0].fragmentSet| == 1 then frames[1..]
    else [frames[0].(fragmentSet := frames[0].fragmentSet[1..])] + frames[1..]
  }

  lemma EraseFirstOrdered(frames: seq<Frame>)
    requires Ordered(frames) && frames != []
    ensures Ordered(EraseFirst(frames))
  {
  }

  lemma FlatCons(frame: Frame, rest: seq<Frame>)
    ensures Flat([frame] + rest) == ItemsOf(frame.frameID, frame.fragmentSet) + Flat(rest)
  {
    assert ([frame] + rest)[1..] == rest;
  }

  lemma ItemsInFront(frameID: uint32, fs: seq<Fragment>)
    requires fs != []
    ensures ItemsOf(frameID, fs) == [Item(frameID, fs[0])] + ItemsOf(frameID, fs[1..])
    ensures |fs| == 1 ==> ItemsOf(frameID, fs) == [Item(frameID, fs[0])]
  {
  }

  lemma FlatInFront(frames: seq<Frame>)
    requires frames != [] && frames[0].fragmentSet != []
    ensures Flat(frames) == [Item(frames[0].frameID, frames[0].fragmentSet[0])] + Flat(EraseFirst(frames))
  {
    hide Flat, ItemsOf;
    var id, fs, rest := frames[0].frameID, frames[0].fragmentSet, frames[1..];
    assert frames == [frames[0]] + rest;
    FlatCons(frames[0], rest);
    ItemsInFront(id, fs);
    if |fs| > 1 {
      FlatCons(frames[0].(fragmentSet := fs[1..]), rest);
      Associate([Item(id, fs[0])], ItemsOf(id, fs[1..]), Flat(rest));
    }
  }

  lemma LeadingCons(frame: Frame, rest: seq<Frame>, now: uint64, timeout: uint64)
    requires Expired(frame, now, timeout)
    ensures var k := Leading(rest, now, timeout);
      && Leading([frame] + rest, now, timeout) == k + 1
      && ([frame] + rest)[..k + 1] == [frame] + rest[..k] && ([frame] + rest)[k + 1..] == rest[k..]
  {
    assert ([frame] + rest)[1..] == rest;
  }

  /** Erasing a fragment of an expired frame leaves the other expired frames in front. */
  lemma LeadingInFront(frames: seq<Frame>, now: uint64, timeout: uint64)
    requires frames != [] && frames[0].fragmentSet != [] && Expired(frames[0], now, timeout)
    ensures var frames', k := EraseFirst(frames), Leading(frames, now, timeout);
      var k' := Leading(frames', now, timeout);
      && k > 0 && frames'[k'..] == frames[k..] && frames'[..k'] == EraseFirst(frames[..k])
  {
    var frame, rest := frames[0], frames[1..];
    assert Expired(frame.(fragmentSet := frame.fragmentSet[1..]), now, timeout);
    hide Leading, Expired;
    assert frames == [frame] + rest;
    LeadingCons(frame, rest, now, timeout);
    var k := Leading(rest, now, timeout);
    assert ([frame] + rest[..k])[1..] == rest[..k];
    if |frame.fragmentSet| > 1 {
      LeadingCons(frame.(fragmentSet := frame.fragmentSet[1..]), rest, now, timeout);
    }
  }

  /** One step of a purge: what is to be counted and what is to be kept do not change. */
  lemma EraseFirstKeeps(frames: seq<Frame>, now: uint64, timeout: uint64)
    requires Ordered(frames) && frames != [] && Expired(frames[0], now, timeout)
    ensures var frames' := EraseFirst(frames);
      && Ordered(frames') && |Flat(frames')| < |Flat(frames)|
      && frames'[Leading(frames', now, timeout)..] == frames[Leading(frames, now, timeout)..]
      && Flat(frames[..Leading(frames, now, timeout)])
           == [Item(frames[0].frameID, frames[0].fragmentSet[0])] + Flat(frames'[..Leading(frames', now, timeout)])
  {
    EraseFirstOrdered(frames);
    LeadingInFront(frames, now, timeout);
    FlatInFront(frames);
    hide Ordered, Flat, EraseFirst, Leading;
    FlatInFront(frames[..Leading(frames, now, timeout)]);
  }

  // ----- Walking through the fragments ----------------------------------------------------------

  ghost predicate IsPlace(frames: seq<Frame>, i: nat, j: nat) {
    i < |frames| && j < |frames[i].fragmentSet|
  }

  /** The fragments from a place on. */
  function Rest(frames: seq<Frame>, i: nat, j: nat): seq<Item> {
    if i >= |frames| || j > |frames[i].fragmentSet| then []
    else ItemsOf(frames[i].frameID, frames[i].fragmentSet)[j..] + Flat(frames[i + 1..])
  }

  /** The frames without the fragment at a place. */
  function EraseAt(frames: seq<Frame>, i: nat, j: nat): seq<Frame>
    requires i < |frames| && j < |frames[i].fragmentSet|
  {
    var fs := frames[i].fragmentSet;
    if |fs| == 1 then frames[..i] + frames[i + 1..] else frames[i := frames[i].(fragmentSet := fs[..j] + fs[j + 1..])]
  }

  /** The place of the next fragment, when the one at this place is erased or left there. */
  function NextPlace(frames: seq<Frame>, i: nat, j: nat, erase: bool): (nat, nat)
    requires i < |frames| && j < |frames[i].fragmentSet|
  {
    if j + 1 < |frames[i].fragmentSet| then (i, if erase then j else j + 1)
    else (if erase && |frames[i].fragmentSet| == 1 then i else i + 1, 0)
  }

  lemma HasFragment(frames: seq<Frame>, i: nat)
    requires Ordered(frames) && i < |frames|
    ensures frames[i].fragmentSet != []
  {
  }

  lemma EraseAtOrdered(frames: seq<Frame>, i: nat, j: nat)
    requires Ordered(frames) && IsPlace(frames, i, j)
    ensures Ordered(EraseAt(frames, i, j))
  {
    var fs := frames[i].fragmentSet;
    if |fs| > 1 {
      assert OrderedFragments(fs[..j] + fs[j + 1..]);
    }
  }

  lemma EraseAtFront(frames: seq<Frame>)
    requires IsPlace(frames, 0, 0)
    ensures EraseAt(frames, 0, 0) == EraseFirst(frames)
  {
    var fs := frames[0].fragmentSet;
    assert frames[..0] + frames[1..] == frames[1..] && fs[..0] + fs[1..] == fs[1..];
    assert forall frame: Frame :: frames[0 := frame] == [frame] + frames[1..];
  }

  lemma RestInFront(frames: seq<Frame>, i: nat, j: nat)
    requires IsPlace(frames, i, j)
    ensures Rest(frames, i, j) == [Item(frames[i].frameID, frames[i].fragmentSet[j])] + Rest(frames, i, j + 1)
  {
    hide Flat;
    Associate([Item(frames[i].frameID, frames[i].fragmentSet[j])], ItemsOf(frames[i].frameID, frames[i].fragmentSet)[j + 1..], Flat(frames[i + 1..]));
    assert ItemsOf(frames[i].frameID, frames[i].fragmentSet)[j..] ==
      [Item(frames[i].frameID, frames[i].fragmentSet[j])] + ItemsOf(frames[i].frameID, frames[i].fragmentSet)[j + 1..];
  }

  /** Behind the last fragment of a frame comes the next frame. */
  lemma RestOfNext(frames: seq<Frame>, i: nat)
    requires i < |frames|
    ensures Rest(frames, i, |frames[i].fragmentSet|) == Rest(frames, i + 1, 0) == Flat(frames[i + 1..])
  {
    var items := ItemsOf(frames[i].frameID, frames[i].fragmentSet);
    assert items[|items|..] + Flat(frames[i + 1..]) == Flat(frames[i + 1..]);
    if i + 1 < |frames| {
      assert frames[i + 1..][0] == frames[i + 1] && frames[i + 1..][1..] == frames[i + 2..];
      assert ItemsOf(frames[i + 1].frameID, frames[i + 1].fragmentSet)[0..] == ItemsOf(frames[i + 1].frameID, frames[i + 1].fragmentSet);
    }
  }

  /** Erasing the fragment at a place does not change what follows it. */
  lemma RestOfErased(frames: seq<Frame>, i: nat, j: nat)
    requires IsPlace(frames, i, j)
    ensures var frames', n := EraseAt(frames, i, j), |frames[i].fragmentSet|;
      && (n > 1 ==> Rest(frames', i, j) == Rest(frames, i, j + 1) && |frames'| == |frames|
                    && |frames'[i].fragmentSet| == n - 1 && Rest(frames', i + 1, 0) == Rest(frames, i + 1, 0))
      && (n == 1 ==> Rest(frames', i, 0) == Rest(frames, i + 1, 0))
  {
    hide Flat;
    var frames', fs, id := EraseAt(frames, i, j), frames[i].fragmentSet, frames[i].frameID;
    if |fs| > 1 {
      var fs' := fs[..j] + fs[j + 1..];
      assert frames'[i + 1..] == frames[i + 1..];
      assert ItemsOf(id, fs')[j..] == ItemsOf(id, fs)[j + 1..];
      if i + 1 < |frames| { assert frames'[i + 1] == frames[i + 1] && frames'[i + 2..] == frames[i + 2..]; }
    } else if i + 1 < |frames| {
      assert frames'[i] == frames[i + 1] && frames'[i + 1..] == frames[i + 2..];
    }
  }

  // ----- The defragmenter --------------------------------------------------------------------------

  class Defragmenter {
    var FrameSet: seq<Frame>
    /** The place of a walk through the fragments. */
    var FrameIterator: nat
    var FragmentIterator: nat
    var NextFrameID: uint32
    var NextPacketSeqNumber: uint64
    var NextByteSeqNumber: uint64

    ghost predicate Valid()
      reads this
    {
      Ordered(FrameSet)
    }

    ghost function Expected(): Next
      reads this
    {
      Next(NextFrameID, NextPacketSeqNumber, NextByteSeqNumber)
    }

    constructor ()
      ensures Valid() && FrameSet == [] && Expected() == Next(0, 0, 0)
    {
      FrameSet := [];
      FrameIterator, FragmentIterator := 0, 0;
      NextFrameID, NextPacketSeqNumber, NextByteSeqNumber := 0, 0, 0;
    }

    /** Stores a data message with `length` bytes. */
    method AddFragment(now: uint64, dataMsg: DataMessage)
      requires Valid() && DATA_HEADER_SIZE + |dataMsg.payload| < 0x1_0000
      modifies this`FrameSet
      ensures Valid() && FrameSet == Put(old(FrameSet), now, dataMsg.frameID, FragmentOf(dataMsg))
      ensures FragmentOf(dataMsg) == Fragment(dataMsg.seqNumber, dataMsg.byteSeqNumber, 48 + |dataMsg.payload|,
                                              (if dataMsg.isFrameBegin then 1 else 0) + (if dataMsg.isFrameEnd then 2 else 0))
    {
      PutOrdered(FrameSet, now, dataMsg.frameID, FragmentOf(dataMsg));
      FrameFound(FrameSet, now, dataMsg.frameID, FragmentOf(dataMsg));
      ghost var frames := FrameSet;
      hide Ordered, Put;
      var at := FindFrame(FrameSet, dataMsg.frameID);
      if at < |FrameSet| && FrameSet[at].frameID == dataMsg.frameID {
        var frame := FrameSet[at];
        FragmentFound(frame.fragmentSet, FragmentOf(dataMsg));
        var i := FindFragment(frame.fragmentSet, dataMsg.seqNumber);
        if i == |frame.fragmentSet| || frame.fragmentSet[i].packetSeqNumber != dataMsg.seqNumber {
          var fragment := FragmentOf(dataMsg);
          FrameSet := FrameSet[at := frame.(fragmentSet := frame.fragmentSet[..i] + [fragment] + frame.fragmentSet[i..])];
        } else {
          assert frames[at := frame] == frames;
        }
      } else {
        var fragment := FragmentOf(dataMsg);
        FrameSet := FrameSet[..at] + [Frame(dataMsg.frameID, now, false, [fragment])] + FrameSet[at..];
      }
    }

    /** The fragments that a walk has not come to yet. */
    ghost function Ahead(): seq<Item>
      reads this
    {
      Rest(FrameSet, FrameIterator, FragmentIterator)
    }

    ghost predicate AtFragment()
      reads this
    {
      IsPlace(FrameSet, FrameIterator, FragmentIterator)
    }

    /** Starts at the first fragment of the first frame. */
    method GetFirstFragment() returns (found: bool, frame: Frame, fragment: Fragment)
      requires Valid()
      modifies this`FrameIterator, this`FragmentIterator
      ensures FrameIterator == FragmentIterator == 0 && Ahead() == Flat(FrameSet)
      ensures found <==> FrameSet != []
      ensures found ==> AtFragment() && frame == FrameSet[0] && fragment == frame.fragmentSet[0]
    {
      FrameIterator, FragmentIterator := 0, 0;
      if FrameSet != [] {
        assert ItemsOf(FrameSet[0].frameID, FrameSet[0].fragmentSet)[0..] == ItemsOf(FrameSet[0].frameID, FrameSet[0].fragmentSet);
        return true, FrameSet[0], FrameSet[0].fragmentSet[0];
      }
      return false, Frame(0, 0, false, []), Fragment(0, 0, 0, 0);
    }

    /** Goes on to the next fragment, and erases the current one, with its frame if it was the last
        one, if this is wanted. */
    method GetNextFragment(eraseCurrentFrame: bool) returns (found: bool, frame: Frame, fragment: Fragment)
      requires Valid() && AtFragment()
      modifies this`FrameSet, this`FrameIterator, this`FragmentIterator
      ensures Valid() && FrameSet == if eraseCurrentFrame then EraseAt(old(FrameSet), old(FrameIterator), old(FragmentIterator)) else old(FrameSet)
      ensures Ahead() == old(Ahead())[1..] && (found <==> Ahead() != []) && (found <==> FrameIterator < |FrameSet|)
      ensures found ==> AtFragment() && frame == FrameSet[FrameIterator] && fragment == frame.fragmentSet[FragmentIterator]
      ensures (FrameIterator, FragmentIterator) == NextPlace(old(FrameSet), old(FrameIterator), old(FragmentIterator), eraseCurrentFrame)
    {
      hide Flat, EraseAt, ItemsOf, Ordered;
      RestInFront(FrameSet, FrameIterator, FragmentIterator);
      RestOfNext(FrameSet, FrameIterator);
      ghost var goal := Rest(FrameSet, FrameIterator, FragmentIterator + 1);
      var lastFrameIterator, lastFragmentIterator := FrameIterator, FragmentIterator;
      var lastFrame := FrameSet[FrameIterator];
      FragmentIterator := FragmentIterator + 1;
      if FragmentIterator == |lastFrame.fragmentSet| {
        FrameIterator, FragmentIterator := FrameIterator + 1, 0;
      }
      assert Ahead() == goal;
      if eraseCurrentFrame {
        EraseAtOrdered(FrameSet, lastFrameIterator, lastFragmentIterator);
        RestOfErased(FrameSet, lastFrameIterator, lastFragmentIterator);
        FrameSet := EraseAt(FrameSet, lastFrameIterator, lastFragmentIterator);
        if FrameIterator == lastFrameIterator {
          FragmentIterator := FragmentIterator - 1;
        } else if |lastFrame.fragmentSet| == 1 {
          FrameIterator := FrameIterator - 1;
        }
      }
      assert Ahead() == goal;
      if FrameIterator < |FrameSet| {
        HasFragment(FrameSet, FrameIterator);
        RestInFront(FrameSet, FrameIterator, FragmentIterator);
        return true, FrameSet[FrameIterator], FrameSet[FrameIterator].fragmentSet[FragmentIterator];
      }
      return false, Frame(0, 0, false, []), Fragment(0, 0, 0, 0);
    }

    /** Counts one fragment of an expired frame. */
    method CountFragment(frame: Frame, fragment: Fragment, counts: Counts) returns (c: Counts)
      modifies this`NextFrameID, this`NextPacketSeqNumber, this`NextByteSeqNumber
      ensures (Expected(), c) == CountItem(old(Expected()), counts, Item(frame.frameID, fragment))
    {
      c := counts;
      if frame.frameID >= NextFrameID {
        c := c.(receivedFrames := c.receivedFrames + 1, lostFrames := c.lostFrames + (frame.frameID - NextFrameID));
        NextFrameID := (frame.frameID + 1) % 0x1_0000_0000;
      }
      if fragment.byteSeqNumber >= NextByteSeqNumber {
        c := c.(lostBytes := c.lostBytes + (fragment.byteSeqNumber - NextByteSeqNumber));
        NextByteSeqNumber := (fragment.byteSeqNumber + fragment.length) % 0x1_0000_0000_0000_0000;
      }
      if fragment.packetSeqNumber >= NextPacketSeqNumber {
        c := c.(lostPackets := c.lostPackets + (fragment.packetSeqNumber - NextPacketSeqNumber));
        NextPacketSeqNumber := (fragment.packetSeqNumber + 1) % 0x1_0000_0000_0000_0000;
      }
    }

    /** Removes the expired frames at the front and counts. */
    method Purge(now: uint64, defragmentTimeout: uint64) returns (counts: Counts)
      requires Valid()
      modifies this
      ensures Valid() && var k := Leading(old(FrameSet), now, defragmentTimeout);
        && FrameSet == old(FrameSet)[k..]
        && (Expected(), counts) == CountItems(old(Expected()), ZERO, Flat(old(FrameSet)[..k]))
      ensures forall i | 0 <= i < |old(FrameSet)| - |FrameSet| ::
        (old(FrameSet)[i].lastUpdate + defragmentTimeout) % 0x1_0000_0000_0000_0000 <= now
      ensures FrameSet != [] ==> (FrameSet[0].lastUpdate + defragmentTimeout) % 0x1_0000_0000_0000_0000 > now
    {
      hide Ordered, Flat, EraseFirst, EraseAt, CountItem, CountItems, Leading;
      counts := ZERO;
      var found, frame, fragment := GetFirstFragment();
      ghost var goal := CountItems(Expected(), ZERO, Flat(FrameSet[..Leading(FrameSet, now, defragmentTimeout)]));
      ghost var rest := FrameSet[Leading(FrameSet, now, defragmentTimeout)..];
      while found
        invariant Valid() && (found <==> FrameSet != []) && FrameIterator == FragmentIterator == 0
        invariant found ==> AtFragment() && frame == FrameSet[0] && fragment == frame.fragmentSet[0]
        invariant FrameSet[Leading(FrameSet, now, defragmentTimeout)..] == rest
        invariant goal == CountItems(Expected(), counts, Flat(FrameSet[..Leading(FrameSet, now, defragmentTimeout)]))
        decreases |Flat(FrameSet)|
      {
        if (frame.lastUpdate + defragmentTimeout) % 0x1_0000_0000_0000_0000 <= now {
          EraseFirstKeeps(FrameSet, now, defragmentTimeout);
          CountInFront(Expected(), counts, Item(frame.frameID, fragment),
                       Flat(EraseFirst(FrameSet)[..Leading(EraseFirst(FrameSet), now, defragmentTimeout)]));
          counts := CountFragment(frame, fragment, counts);
        } else {
          break;
        }
        EraseAtFront(FrameSet);
        ghost var frames := FrameSet;
        found, frame, fragment := GetNextFragment(true);
        assert NextPlace(frames, 0, 0, true) == (0, 0);
      }
      NothingExpired(FrameSet, now, defragmentTimeout);
      CountNothing(Expected(), counts);
    }
  }

  lemma CountInFront(n: Next, c: Counts, item: Item, items: seq<Item>)
    ensures CountItems(n, c, [item] + items) == CountItems(CountItem(n, c, item).0, CountItem(n, c, item).1, items)
  {
    assert ([item] + items)[1..] == items;
  }

  lemma CountNothing(n: Next, c: Counts)
    ensures CountItems(n, c, []) == (n, c)
  {
  }

  lemma NothingExpired(frames: seq<Frame>, now: uint64, timeout: uint64)
    requires frames == [] || !Expired(frames[0], now, timeout)
    ensures Leading(frames, now, timeout) == 0 && Flat(frames[..0]) == []
  {
  }

  function FragmentOf(m: DataMessage): Fragment
    requires DATA_HEADER_SIZE + |m.payload| < 0x1_0000
  {
    Fragment(m.seqNumber, m.byteSeqNumber, DATA_HEADER_SIZE + |m.payload|, Flags(m))
  }
}
