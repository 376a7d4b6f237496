/** Counting what is missing from a stream of numbers: the arithmetic that the defragmenter
    applies to frame numbers and to packet sequence numbers alike. */
module GapCounting {

  /** The next expected number, the numbers counted as lost and as received so far. */
  datatype Gap = Gap(next: nat, lost: nat, received: nat)

  /** A number is passed: the ones skipped are lost; an old one changes nothing. */
  function Pass(g: Gap, key: nat): Gap {
    if key >= g.next then Gap(key + 1, g.lost + (key - g.next), g.received + 1) else g
  }

  function PassAll(g: Gap, keys: seq<nat>): Gap
    decreases |keys|
  {
    if keys == [] then g else PassAll(Pass(g, keys[0]), keys[1..])
  }

  lemma {:induction false} PassAllAppend(g: Gap, a: seq<nat>, b: seq<nat>)
    ensures PassAll(g, a + b) == PassAll(PassAll(g, a), b)
    decreases |a|
  {
    if a == [] {
      assert a + b == b;
    } else {
      assert (a + b)[1..] == a[1..] + b;
      PassAllAppend(Pass(g, a[0]), a[1..], b);
    }
  }

  /** Received plus lost numbers are all numbers below the next one. */
  lemma {:induction false} PassAllTelescopes(g: Gap, keys: seq<nat>)
    requires g.received + g.lost == g.next
    ensures var g' := PassAll(g, keys); g'.received + g'.lost == g'.next
    decreases |keys|
  {
    if keys != [] { PassAllTelescopes(Pass(g, keys[0]), keys[1..]); }
  }

  /** What has happened so far: which numbers were delivered, which of them were counted as
      received, and which were delivered for the first time only after they had been passed. */
  datatype History = History(delivered: set<nat>, counted: set<nat>, late: set<nat>)

  function Deliver(h: History, next: nat, key: nat): History {
    h.(delivered := h.delivered + {key}, late := if key in h.delivered || key >= next then h.late else h.late + {key})
  }

  /** A number that is passed and not old is counted as received. */
  function Count(h: History, next: nat, key: nat): History {
    if key >= next then h.(counted := h.counted + {key}) else h
  }

  function CountAll(h: History, g: Gap, keys: seq<nat>): History
    decreases |keys|
  {
    if keys == [] then h else CountAll(Count(h, g.next, keys[0]), Pass(g, keys[0]), keys[1..])
  }

  /** Counting changes only what is counted. */
  lemma {:induction false} CountAllKeeps(h: History, g: Gap, keys: seq<nat>)
    ensures var h' := CountAll(h, g, keys);
      h'.delivered == h.delivered && h'.late == h.late && forall k | k in h'.counted :: k in h.counted || k in keys
    decreases |keys|
  {
    if keys != [] { CountAllKeeps(Count(h, g.next, keys[0]), Pass(g, keys[0]), keys[1..]); }
  }

  ghost predicate Ascending(keys: seq<nat>) {
    forall i, j | 0 <= i < j < |keys| :: keys[i] <= keys[j]
  }

  function Keys(keys: seq<nat>): set<nat> {
    set k | k in keys
  }

  /** The numbers below `n`. */
  function Below(n: nat): (s: set<nat>)
    ensures |s| == n && (forall k: nat :: k in s <==> k < n)
  {
    if n == 0 then {} else Below(n - 1) + {n - 1}
  }

  /** What is pending although it was passed has been accounted for. */
  ghost predicate Settled(pending: seq<nat>, next: nat, known: set<nat>) {
    forall k | k in pending && k < next :: k in known
  }

  /** The numbers that were delivered and not yet passed are pending, in ascending order. */
  ghost predicate Sound(g: Gap, h: History, pending: seq<nat>) {
    && Ascending(pending) && h.delivered == h.counted + h.late + Keys(pending)
    && h.counted !! h.late && h.counted + h.late <= Below(g.next) && Settled(pending, g.next, h.counted + h.late)
    && g.received == |h.counted| && g.received + g.lost == g.next
  }

  lemma SoundStart()
    ensures Sound(Gap(0, 0, 0), History({}, {}, {}), [])
  {
  }

  lemma SoundDeliver(g: Gap, h: History, pending: seq<nat>, key: nat, pending': seq<nat>)
    requires Sound(g, h, pending)
    requires Ascending(pending') && Keys(pending') == Keys(pending) + {key}
    ensures Sound(g, Deliver(h, g.next, key), pending')
  {
    forall k | k in pending' && k < g.next ensures k in h.counted + Deliver(h, g.next, key).late {
      assert k in Keys(pending');
      if k != key { assert k in Keys(pending); }
    }
  }

  lemma KeysInFront(pending: seq<nat>)
    requires pending != [] && Ascending(pending)
    ensures Keys(pending) == {pending[0]} + Keys(pending[1..]) && Ascending(pending[1..])
    ensures forall k | k in pending[1..] :: k in pending && pending[0] <= k
  {
    assert pending == [pending[0]] + pending[1..];
  }

  lemma ShiftOne(a: set<nat>, b: set<nat>, c: set<nat>, x: nat)
    ensures a + b + ({x} + c) == (a + {x}) + b + c
    ensures x in a + b ==> a + b + ({x} + c) == a + b + c
    ensures (a + {x}) + b == a + b + {x}
  {
  }

  lemma SettledPass(pending: seq<nat>, next: nat, known: set<nat>)
    requires pending != [] && Ascending(pending) && Settled(pending, next, known)
    ensures pending[0] < next ==> pending[0] in known && Settled(pending[1..], next, known)
    ensures pending[0] >= next ==> Settled(pending[1..], pending[0] + 1, known + {pending[0]})
  {
    KeysInFront(pending);
  }

  lemma SoundPass(g: Gap, h: History, pending: seq<nat>)
    requires Sound(g, h, pending) && pending != []
    ensures Sound(Pass(g, pending[0]), Count(h, g.next, pending[0]), pending[1..])
  {
    var key := pending[0];
    KeysInFront(pending);
    ShiftOne(h.counted, h.late, Keys(pending[1..]), key);
    SettledPass(pending, g.next, h.counted + h.late);
    if key >= g.next { NewKey(h.counted, h.late, g.next, key); }
    hide Keys, Ascending, Settled, Below;
  }

  lemma NewKey(counted: set<nat>, late: set<nat>, next: nat, key: nat)
    requires counted + late <= Below(next) && counted !! late && key >= next
    ensures counted + {key} + late <= Below(key + 1) && counted + {key} !! late && |counted + {key}| == |counted| + 1
  {
    assert key !in Below(next);
  }

  lemma PassInFront(g: Gap, h: History, keys: seq<nat>)
    requires keys != []
    ensures PassAll(g, keys) == PassAll(Pass(g, keys[0]), keys[1..])
    ensures CountAll(h, g, keys) == CountAll(Count(h, g.next, keys[0]), Pass(g, keys[0]), keys[1..])
  {
    hide Pass, Count;
  }

  lemma PassNothing(g: Gap, h: History)
    ensures PassAll(g, []) == g && CountAll(h, g, []) == h
  {
  }

  lemma {:induction false} SoundPassAll(g: Gap, h: History, keys: seq<nat>, pending: seq<nat>)
    requires Sound(g, h, keys + pending)
    ensures Sound(PassAll(g, keys), CountAll(h, g, keys), pending)
    decreases |keys|
  {
    hide *;
    if keys == [] {
      PassNothing(g, h);
      assert keys + pending == pending;
    } else {
      PassInFront(g, h, keys);
      SoundPass(g, h, keys + pending);
      assert (keys + pending)[1..] == keys[1..] + pending;
      SoundPassAll(Pass(g, keys[0]), Count(h, g.next, keys[0]), keys[1..], pending);
    }
  }

  /** Just these numbers were delivered, all of them in time, and the last one passed is one of
      those counted. */
  ghost predicate KeepsUp(g: Gap, h: History, numbers: set<nat>) {
    h.delivered == numbers && h.late == {} && (g.next > 0 ==> g.next - 1 in h.counted)
  }

  lemma KeepsUpDeliver(g: Gap, h: History, numbers: set<nat>, key: nat)
    requires KeepsUp(g, h, numbers) && (key in numbers || key >= g.next)
    ensures KeepsUp(g, Deliver(h, g.next, key), numbers + {key})
  {
  }

  lemma {:induction false} KeepsUpPass(g: Gap, h: History, numbers: set<nat>, keys: seq<nat>)
    requires KeepsUp(g, h, numbers)
    ensures KeepsUp(PassAll(g, keys), CountAll(h, g, keys), numbers)
    decreases |keys|
  {
    if keys != [] { KeepsUpPass(Pass(g, keys[0]), Count(h, g.next, keys[0]), numbers, keys[1..]); }
  }

  lemma KeepsUpNext(g: Gap, g': Gap, h: History, numbers: set<nat>)
    requires KeepsUp(g, h, numbers) && g'.next == g.next
    ensures KeepsUp(g', h, numbers)
  {
  }

  /** What was passed last was delivered. */
  lemma LastWasDelivered(g: Gap, h: History, pending: seq<nat>, numbers: set<nat>)
    requires Sound(g, h, pending) && KeepsUp(g, h, numbers) && g.next > 0
    ensures g.next - 1 in numbers
  {
  }

  /** The numbers below `next` that were never delivered. */
  function Missing(h: History, next: nat): set<nat> {
    Below(next) - h.delivered
  }

  /** The counted loss is the real one plus the numbers that came late; so it is exact if and
      only if nothing came late. */
  lemma LossIsMissingPlusLate(g: Gap, h: History, pending: seq<nat>)
    requires Sound(g, h, pending)
    ensures g.lost == |Missing(h, g.next)| + |h.late|
    ensures g.lost == |Missing(h, g.next)| <==> h.late == {}
    ensures Below(g.next) == h.counted + h.late + Missing(h, g.next) && Missing(h, g.next) !! h.counted + h.late
  {
    var arrived := h.counted + h.late;
    forall k | k in Below(g.next) ensures k in Missing(h, g.next) || k in arrived {
      if k in h.delivered && k in Keys(pending) { assert k in pending; }
    }
    assert Below(g.next) == Missing(h, g.next) + arrived;
    assert Missing(h, g.next) !! arrived;
    assert |arrived| == |h.counted| + |h.late|;
  }
}
