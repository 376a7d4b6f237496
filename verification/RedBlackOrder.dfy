/** Key order, positions and sizes of the abstract tree. */
module RedBlackOrder {
  import opened RedBlackShape

  /** The sign of a comparison function orders the keys; equal keys may be different values. */
  ghost predicate TotalOrder<K(!new)>(cmp: (K, K) -> int) {
    && (forall a, b :: cmp(a, b) < 0 <==> cmp(b, a) > 0)
    && (forall a, b, c :: cmp(a, b) <= 0 && cmp(b, c) <= 0 ==> cmp(a, c) <= 0)
  }

  ghost predicate Sorted<K>(cmp: (K, K) -> int, s: seq<Entry<K>>) {
    forall i, j | 0 <= i < j < |s| :: cmp(s[i].key, s[j].key) < 0
  }

  /** The key belongs between the entries before and after the missing place of `c`. */
  ghost predicate Between<K>(cmp: (K, K) -> int, key: K, c: Ctx<K>) {
    && (forall i | 0 <= i < |Before(c)| :: cmp(key, Before(c)[i].key) > 0)
    && (forall i | 0 <= i < |After(c)| :: cmp(key, After(c)[i].key) < 0)
  }

  lemma DescendLeft<K(!new)>(cmp: (K, K) -> int, key: K, c: Ctx<K>, t: Tree<K>)
    requires TotalOrder(cmp) && Sorted(cmp, Flatten(Plug(c, t))) && t.Branch?
    requires Between(cmp, key, c) && cmp(key, t.e.key) < 0
    ensures Between(cmp, key, InLeft(c, t.e, t.color, t.right))
  {
    var c' := InLeft(c, t.e, t.color, t.right);
    PlugFlatten(c', t.left);
    var s, k := Flatten(Plug(c', t.left)), |Before(c)| + |Flatten(t.left)|;
    forall i | 0 <= i < |After(c')| ensures cmp(key, After(c')[i].key) < 0 {
      assert s[k] == t.e && s[k + i] == After(c')[i];
    }
  }

  lemma DescendRight<K(!new)>(cmp: (K, K) -> int, key: K, c: Ctx<K>, t: Tree<K>)
    requires TotalOrder(cmp) && Sorted(cmp, Flatten(Plug(c, t))) && t.Branch?
    requires Between(cmp, key, c) && cmp(key, t.e.key) > 0
    ensures Between(cmp, key, InRight(c, t.left, t.e, t.color))
  {
    var c' := InRight(c, t.left, t.e, t.color);
    PlugFlatten(c', t.right);
    var s, k := Flatten(Plug(c', t.right)), |Before(c)| + |Flatten(t.left)|;
    forall i | 0 <= i < |Before(c')| ensures cmp(key, Before(c')[i].key) > 0 {
      assert s[k] == t.e && s[i] == Before(c')[i];
    }
  }

  lemma SortedWith<K(!new)>(cmp: (K, K) -> int, a: seq<Entry<K>>, e: Entry<K>, b: seq<Entry<K>>)
    requires TotalOrder(cmp) && Sorted(cmp, a + b)
    requires forall i | 0 <= i < |a| :: cmp(e.key, a[i].key) > 0
    requires forall i | 0 <= i < |b| :: cmp(e.key, b[i].key) < 0
    ensures Sorted(cmp, a + [e] + b)
  {
    var s, s', k := a + b, a + [e] + b, |a|;
    forall i, j | 0 <= i < j < |s'| ensures cmp(s'[i].key, s'[j].key) < 0 {
      if i < k { assert s'[i] == a[i] == s[i]; }
      if j < k { assert s'[j] == a[j] == s[j]; }
      if i > k { assert s'[i] == b[i - k - 1] == s[i - 1]; }
      if j > k { assert s'[j] == b[j - k - 1] == s[j - 1]; }
    }
  }

  /** Where a search ends at a leaf, the key does not occur. */
  lemma Absent<K>(cmp: (K, K) -> int, key: K, c: Ctx<K>)
    requires Between(cmp, key, c)
    ensures forall i | 0 <= i < |Flatten(Plug(c, Leaf))| :: cmp(key, Flatten(Plug(c, Leaf))[i].key) != 0
  {
    PlugFlatten(c, Leaf);
  }

  /** Where a search ends at a leaf, a new entry keeps the order. */
  lemma SortedInsert<K(!new)>(cmp: (K, K) -> int, c: Ctx<K>, e: Entry<K>)
    requires TotalOrder(cmp) && Sorted(cmp, Flatten(Plug(c, Leaf))) && Between(cmp, e.key, c)
    ensures Flatten(Plug(c, Leaf)) == Before(c) + After(c)
    ensures Sorted(cmp, Before(c) + [e] + After(c))
  {
    PlugFlatten(c, Leaf);
    assert Before(c) + Flatten<K>(Leaf) + After(c) == Before(c) + After(c);
    hide Plug, Before, After, Flatten, Sorted;
    SortedWith(cmp, Before(c), e, After(c));
  }

  /** `s[i]` is the last entry below the key, or there is none and `i` is -1. */
  ghost predicate LastBelow<K>(cmp: (K, K) -> int, key: K, s: seq<Entry<K>>, i: int) {
    && -1 <= i < |s| && (i >= 0 ==> cmp(key, s[i].key) > 0)
    && forall j | i < j < |s| :: cmp(key, s[j].key) <= 0
  }

  /** `s[i]` is the first entry above the key, or there is none and `i` is |s|. */
  ghost predicate FirstAbove<K>(cmp: (K, K) -> int, key: K, s: seq<Entry<K>>, i: int) {
    && 0 <= i <= |s| && (i < |s| ==> cmp(key, s[i].key) < 0)
    && forall j | 0 <= j < i :: cmp(key, s[j].key) >= 0
  }

  lemma EqualKeys<K(!new)>(cmp: (K, K) -> int, a: K, b: K, c: K)
    requires TotalOrder(cmp) && cmp(a, b) == 0
    ensures cmp(b, c) < 0 ==> cmp(a, c) < 0
    ensures cmp(c, b) < 0 ==> cmp(a, c) > 0
  {
    assert cmp(b, a) <= 0 && cmp(a, b) <= 0;
    assert cmp(c, a) <= 0 ==> cmp(c, b) <= 0;
    assert cmp(a, c) <= 0 ==> cmp(b, c) <= 0;
  }

  lemma NeighboursOfEqual<K(!new)>(cmp: (K, K) -> int, key: K, s: seq<Entry<K>>, i: nat)
    requires TotalOrder(cmp) && Sorted(cmp, s) && i < |s| && cmp(key, s[i].key) == 0
    ensures LastBelow(cmp, key, s, i - 1) && FirstAbove(cmp, key, s, i + 1)
  {
    hide TotalOrder;
    forall j | i < j < |s| ensures cmp(key, s[j].key) < 0 { EqualKeys(cmp, key, s[i].key, s[j].key); }
    forall j | 0 <= j < i ensures cmp(key, s[j].key) > 0 { EqualKeys(cmp, key, s[i].key, s[j].key); }
  }

  lemma NeighboursOfGap<K>(cmp: (K, K) -> int, key: K, c: Ctx<K>)
    requires Between(cmp, key, c)
    ensures var s := Flatten(Plug(c, Leaf));
      && s == Before(c) + After(c)
      && LastBelow(cmp, key, s, |Before(c)| - 1) && FirstAbove(cmp, key, s, |Before(c)|)
  {
    PlugFlatten(c, Leaf);
    assert Before(c) + Flatten<K>(Leaf) + After(c) == Before(c) + After(c);
  }

  lemma SortedRemove<K>(cmp: (K, K) -> int, s: seq<Entry<K>>, i: nat)
    requires Sorted(cmp, s) && i < |s|
    ensures Sorted(cmp, s[..i] + s[i + 1..])
  {
  }

  /** A node is ordered against its children: what the run-time check looks at. */
  ghost predicate LocalOrder<K>(cmp: (K, K) -> int, t: Tree<K>) {
    t.Branch? ==>
      && (t.left.Branch? ==> cmp(t.e.key, t.left.e.key) > 0) && (t.right.Branch? ==> cmp(t.e.key, t.right.e.key) < 0)
      && LocalOrder(cmp, t.left) && LocalOrder(cmp, t.right)
  }

  lemma OrderAtNode<K(!new)>(cmp: (K, K) -> int, l: seq<Entry<K>>, e: Entry<K>, r: seq<Entry<K>>, i: nat)
    requires TotalOrder(cmp) && Sorted(cmp, l + [e] + r)
    ensures i < |l| ==> cmp(e.key, l[i].key) > 0
    ensures i < |r| ==> cmp(e.key, r[i].key) < 0
    ensures Sorted(cmp, l) && Sorted(cmp, r)
  {
    var s := l + [e] + r;
    assert s[|l|] == e;
    forall a, b | 0 <= a < b < |l| ensures cmp(l[a].key, l[b].key) < 0 { assert s[a] == l[a] && s[b] == l[b]; }
    forall a, b | 0 <= a < b < |r| ensures cmp(r[a].key, r[b].key) < 0 {
      assert s[|l| + 1 + a] == r[a] && s[|l| + 1 + b] == r[b];
    }
    if i < |l| { assert s[i] == l[i]; }
    if i < |r| { assert s[|l| + 1 + i] == r[i]; }
  }

  lemma RootInFlatten<K>(t: Tree<K>)
    requires t.Branch?
    ensures |Flatten(t.left)| < |Flatten(t)| && Flatten(t)[|Flatten(t.left)|] == t.e
  {
  }

  /** The global order implies the local one ... */
  lemma {:induction false} SortedIsLocallyOrdered<K(!new)>(cmp: (K, K) -> int, t: Tree<K>)
    requires TotalOrder(cmp) && Sorted(cmp, Flatten(t))
    ensures LocalOrder(cmp, t)
  {
    if t.Branch? {
      var l, r := Flatten(t.left), Flatten(t.right);
      OrderAtNode(cmp, l, t.e, r, 0);
      if t.left.Branch? {
        RootInFlatten(t.left);
        OrderAtNode(cmp, l, t.e, r, |Flatten(t.left.left)|);
      }
      if t.right.Branch? {
        RootInFlatten(t.right);
        OrderAtNode(cmp, l, t.e, r, |Flatten(t.right.left)|);
      }
      hide Sorted, TotalOrder;
      SortedIsLocallyOrdered(cmp, t.left);
      SortedIsLocallyOrdered(cmp, t.right);
    }
  }

  /** A node without children. */
  function Single(node: Node<int>, key: int, color: Color): Tree<int> {
    Branch(Leaf, Entry(node, key, 0), color, Leaf)
  }

  /** Three above one and seven, and five below one. */
  function FiveBelowThree(n: seq<Node<int>>): Tree<int>
    requires |n| == 4
  {
    Branch(Branch(Leaf, Entry(n[0], 1, 0), Black, Single(n[1], 5, Red)), Entry(n[2], 3, 0), Black, Single(n[3], 7, Black))
  }

  lemma SingleLooks(node: Node<int>, key: int, color: Color, cmp: (int, int) -> int)
    ensures var t := Single(node, key, color);
      && Flatten(t) == [Entry(node, key, 0)] && Nodes(t) == {node} && Distinct(t) && LocalOrder(cmp, t)
      && RedBlack(t, if color == Black then 2 else 1)
  {
    assert RedBlack<int>(Leaf, 1);
  }

  /** ... but not the other way round: this tree has distinct nodes, obeys the color rules and
      passes all comparisons with children, but five comes before three. */
  lemma LocalOrderIsWeaker(n: seq<Node<int>>)
    requires |n| == 4 && forall i, j | 0 <= i < j < 4 :: n[i] != n[j]
    ensures var cmp, t := (a: int, b: int) => a - b, FiveBelowThree(n);
      && Distinct(t) && RootColor(t) == Black && RedBlack(t, 3) && LocalOrder(cmp, t) && !Sorted(cmp, Flatten(t))
  {
    var cmp, t := (a: int, b: int) => a - b, FiveBelowThree(n);
    var l, five, r := t.left, t.left.right, t.right;
    SingleLooks(n[1], 5, Red, cmp);
    SingleLooks(n[3], 7, Black, cmp);
    assert RedBlack<int>(Leaf, 1);
    assert Flatten(l) == [Entry(n[0], 1, 0)] + Flatten(five) && Nodes(l) == {n[0], n[1]};
    assert Distinct(l) && RedBlack(l, 2) && LocalOrder(cmp, l);
    assert Flatten(t) == [Entry(n[0], 1, 0), Entry(n[1], 5, 0), Entry(n[2], 3, 0), Entry(n[3], 7, 0)];
    assert cmp(Flatten(t)[1].key, Flatten(t)[2].key) > 0;
  }

  // ----- Nodes and positions ---------------------------------------------------------------

  lemma {:induction false} EntryOf<K>(t: Tree<K>, n: Node<K>)
    ensures n in Nodes(t) <==> exists i :: 0 <= i < |Flatten(t)| && Flatten(t)[i].node == n
  {
    if t.Branch? {
      EntryOf(t.left, n);
      EntryOf(t.right, n);
      var l, r := Flatten(t.left), Flatten(t.right);
      if i :| 0 <= i < |l| && l[i].node == n { assert Flatten(t)[i].node == n; }
      assert Flatten(t)[|l|] == t.e;
      if i :| 0 <= i < |r| && r[i].node == n { assert Flatten(t)[|l| + 1 + i].node == n; }
    }
  }

  lemma NodeAt<K>(t: Tree<K>, i: nat)
    requires i < |Flatten(t)|
    ensures Flatten(t)[i].node in Nodes(t)
  {
    EntryOf(t, Flatten(t)[i].node);
  }

  /** A node occurs at one position only. */
  lemma {:induction false} Unique<K>(t: Tree<K>, i: nat, j: nat)
    requires Distinct(t) && i < j < |Flatten(t)|
    ensures Flatten(t)[i].node != Flatten(t)[j].node
  {
    var l, r, s := Flatten(t.left), Flatten(t.right), Flatten(t);
    if j < |l| {
      assert s[i] == l[i] && s[j] == l[j];
      Unique(t.left, i, j);
    } else if i > |l| {
      assert s[i] == r[i - |l| - 1] && s[j] == r[j - |l| - 1];
      Unique(t.right, i - |l| - 1, j - |l| - 1);
    } else {
      assert s[|l|] == t.e;
      if i < |l| { NodeAt(t.left, i); }
      if j > |l| {
        assert s[j] == r[j - |l| - 1];
        NodeAt(t.right, j - |l| - 1);
      }
    }
  }

  /** The place of a node in the tree. */
  lemma {:induction false} Locate<K>(c: Ctx<K>, t: Tree<K>, n: Node<K>) returns (c': Ctx<K>, t': Tree<K>)
    requires n in Nodes(t)
    ensures Plug(c', t') == Plug(c, t) && t'.Branch? && t'.e.node == n
    decreases t
  {
    if t.e.node == n {
      c', t' := c, t;
    } else if n in Nodes(t.left) {
      c', t' := Locate(InLeft(c, t.e, t.color, t.right), t.left, n);
    } else {
      c', t' := Locate(InRight(c, t.left, t.e, t.color), t.right, n);
    }
  }

  /** The node in focus is at this position. */
  ghost function Position<K>(c: Ctx<K>, t: Tree<K>): nat
    requires t.Branch?
  {
    |Before(c)| + |Flatten(t.left)|
  }

  lemma SplitAt<T>(a: seq<T>, l: seq<T>, x: T, r: seq<T>, b: seq<T>)
    ensures var s, i := a + (l + [x] + r) + b, |a| + |l|;
      i < |s| && s[i] == x && s[..i] == a + l && s[i + 1..] == r + b
  {
    var s, i := a + (l + [x] + r) + b, |a| + |l|;
    assert s == (a + l) + ([x] + (r + b));
    assert s[i..] == [x] + (r + b);
  }

  lemma AtPosition<K>(c: Ctx<K>, t: Tree<K>)
    requires t.Branch?
    ensures var s, i := Flatten(Plug(c, t)), Position(c, t);
      && i < |s| && s[i] == t.e
      && s[..i] == Before(c) + Flatten(t.left) && s[i + 1..] == Flatten(t.right) + After(c)
  {
    PlugFlatten(c, t);
    assert Flatten(t) == Flatten(t.left) + [t.e] + Flatten(t.right);
    hide Plug, Flatten, Before, After;
    SplitAt(Before(c), Flatten(t.left), t.e, Flatten(t.right), After(c));
  }

  // ----- Weights -----------------------------------------------------------------------------

  lemma {:induction false} SumPrefix<K>(s: seq<Entry<K>>, i: nat)
    requires i <= |s|
    ensures SumOf(s[..i]) <= SumOf(s)
  {
    assert s == s[..i] + s[i..];
    SumAppend(s[..i], s[i..]);
  }

  lemma PrefixSums<K>(s: seq<Entry<K>>, i: nat, a: seq<Entry<K>>, l: seq<Entry<K>>)
    requires i < |s| && s[..i] == a + l
    ensures SumOf(s[..i]) == SumOf(a) + SumOf(l) && SumOf(s[..i + 1]) == SumOf(s[..i]) + s[i].value
    ensures a + l + [s[i]] == s[..i + 1]
  {
    SumAppend(a, l);
    assert s[..i + 1][..i] == s[..i];
  }

  lemma BeforeRight<K>(c: Ctx<K>, t: Tree<K>)
    requires t.Branch?
    ensures Before(InRight(c, t.left, t.e, t.color)) == Before(c) + Flatten(t.left) + [t.e]
    ensures t.right.Leaf? ==> Flatten(t.right) == []
  {
  }

  /** The prefix sums before and after the node in focus. */
  lemma WeightsAt<K>(c: Ctx<K>, t: Tree<K>)
    requires t.Branch?
    ensures var s, i := Flatten(Plug(c, t)), Position(c, t);
      && i < |s| && SumOf(s[..i]) == SumOf(Before(c)) + Sum(t.left)
      && SumOf(s[..i + 1]) == SumOf(Before(c)) + Sum(t.left) + t.e.value
      && SumOf(Before(InRight(c, t.left, t.e, t.color))) == SumOf(s[..i + 1])
      && (t.right.Leaf? && After(c) == [] ==> i + 1 == |s|)
  {
    hide Plug, Flatten, Before, After, SumOf, Sum, Position;
    AtPosition(c, t);
    BeforeRight(c, t);
    SumFlatten(t.left);
    PrefixSums(Flatten(Plug(c, t)), Position(c, t), Before(c), Flatten(t.left));
  }

  lemma SumOfPart<K>(c: Ctx<K>, t: Tree<K>)
    requires t.Branch?
    ensures SumOf(Before(c)) + Sum(t.left) + t.e.value <= Sum(Plug(c, t))
  {
    WeightsAt(c, t);
    SumFlatten(Plug(c, t));
    SumPrefix(Flatten(Plug(c, t)), Position(c, t) + 1);
  }

  // ----- Heights -----------------------------------------------------------------------------

  ghost function Height<K>(t: Tree<K>): nat {
    if t.Leaf? then 0
    else if Height(t.left) < Height(t.right) then Height(t.right) + 1 else Height(t.left) + 1
  }

  ghost function Power2(n: nat): nat {
    if n == 0 then 1 else 2 * Power2(n - 1)
  }

  lemma {:induction false} Power2Add(a: nat, b: nat)
    ensures Power2(a + b) == Power2(a) * Power2(b)
  {
    if a > 0 { Power2Add(a - 1, b); }
  }

  lemma {:induction false} Power2Monotone(a: nat, b: nat)
    requires a <= b
    ensures Power2(a) <= Power2(b)
    decreases b - a
  {
    if a < b { Power2Monotone(a + 1, b); }
  }

  lemma SquareMonotone(a: nat, b: nat)
    requires a <= b
    ensures a * a <= b * b
  {
  }

  /** A tree of black height `h` holds at least 2^(h-1) - 1 nodes, and no path is longer than
      twice the black nodes on it. */
  lemma {:induction false} SizeAndHeight<K>(t: Tree<K>, h: int)
    requires RedBlack(t, h)
    ensures h >= 1 && |Flatten(t)| + 1 >= Power2(h - 1)
    ensures Height(t) <= 2 * (h - 1) + if RootColor(t) == Red then 1 else 0
  {
    if t.Branch? {
      var h' := if t.color == Black then h - 1 else h;
      SizeAndHeight(t.left, h');
      SizeAndHeight(t.right, h');
    }
  }

  /** The height of a red-black tree with a black root is at most 2 log2(n + 1). */
  lemma HeightIsLogarithmic<K>(t: Tree<K>, h: int)
    requires RedBlack(t, h) && RootColor(t) == Black
    ensures Power2(Height(t)) <= (|Flatten(t)| + 1) * (|Flatten(t)| + 1)
  {
    SizeAndHeight(t, h);
    hide RedBlack, Flatten, Height, Power2;
    Power2Monotone(Height(t), (h - 1) + (h - 1));
    Power2Add(h - 1, h - 1);
    SquareMonotone(Power2(h - 1), |Flatten(t)| + 1);
  }
}
