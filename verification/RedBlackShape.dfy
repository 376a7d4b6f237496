/** The abstract side of the intrusive red-black tree: which nodes are linked where, and
    what the heap fields of the nodes must then contain.

    A tree that the pointer code works on is described by a zipper: the subtree the code
    currently looks at (`Tree`) and everything around it (`Ctx`).  `Linked`, `LinkedCtx`
    and the sum predicates tie such a description to the fields of the nodes. */
module RedBlackShape {
  import opened MachineIntegers

  /** Arithmetic of `unsigned long long`. */
  function Plus(a: uint64, b: uint64): (c: uint64)
    ensures a + b < MODULUS ==> c == a + b
  {
    (a + b) % MODULUS
  }

  function Minus(a: uint64, b: uint64): (c: uint64)
    ensures a >= b ==> c == a - b
  {
    (a - b) % MODULUS
  }

  datatype Color = Red | Black

  /** A tree node.  In the program the key is the object the node is embedded in. */
  class Node<K> {
    var Key: K
    var Parent: Node?<K>
    var LeftSubtree: Node?<K>
    var RightSubtree: Node?<K>
    var Color: Color
    var Value: uint64
    var ValueSum: uint64

    constructor (key: K)
      ensures Key == key && Parent == LeftSubtree == RightSubtree == null
      ensures Color == Black && Value == ValueSum == 0
    {
      Key := key;
      Parent, LeftSubtree, RightSubtree := null, null, null;
      Color := Black;
      Value, ValueSum := 0, 0;
    }

    predicate IsLinked()
      reads this
    {
      LeftSubtree != null
    }
  }

  /** What a tree stores at one place: the node with its key and its value. */
  datatype Entry<K> = Entry(node: Node<K>, key: K, value: uint64)

  datatype Tree<K> =
    | Leaf
    | Branch(left: Tree<K>, e: Entry<K>, color: Color, right: Tree<K>)

  /** A tree with one subtree missing, from the missing place up to the root. */
  datatype Ctx<K> =
    | Top
    | InLeft(up: Ctx<K>, e: Entry<K>, color: Color, right: Tree<K>)
    | InRight(up: Ctx<K>, left: Tree<K>, e: Entry<K>, color: Color)

  // ----- Shape -----------------------------------------------------------------------

  ghost function Plug<K>(c: Ctx<K>, t: Tree<K>): Tree<K> {
    match c
    case Top => t
    case InLeft(up, e, color, right) => Plug(up, Branch(t, e, color, right))
    case InRight(up, left, e, color) => Plug(up, Branch(left, e, color, t))
  }

  ghost function Nodes<K>(t: Tree<K>): set<Node<K>> {
    match t
    case Leaf => {}
    case Branch(left, e, _, right) => Nodes(left) + {e.node} + Nodes(right)
  }

  ghost function SideNodes<K>(c: Ctx<K>): set<Node<K>> {
    match c
    case Top => {}
    case InLeft(up, _, _, right) => SideNodes(up) + Nodes(right)
    case InRight(up, left, _, _) => SideNodes(up) + Nodes(left)
  }

  ghost function Spine<K>(c: Ctx<K>): set<Node<K>> {
    if c.Top? then {} else Spine(c.up) + {c.e.node}
  }

  ghost function CtxNodes<K>(c: Ctx<K>): set<Node<K>> {
    match c
    case Top => {}
    case InLeft(up, e, _, right) => CtxNodes(up) + {e.node} + Nodes(right)
    case InRight(up, left, e, _) => CtxNodes(up) + {e.node} + Nodes(left)
  }

  /** The entries in tree order. */
  ghost function Flatten<K>(t: Tree<K>): seq<Entry<K>> {
    match t
    case Leaf => []
    case Branch(left, e, _, right) => Flatten(left) + [e] + Flatten(right)
  }

  ghost function Before<K>(c: Ctx<K>): seq<Entry<K>> {
    match c
    case Top => []
    case InLeft(up, _, _, _) => Before(up)
    case InRight(up, left, e, _) => Before(up) + Flatten(left) + [e]
  }

  ghost function After<K>(c: Ctx<K>): seq<Entry<K>> {
    match c
    case Top => []
    case InLeft(up, e, _, right) => [e] + Flatten(right) + After(up)
    case InRight(up, _, _, _) => After(up)
  }

  /** No node occurs twice. */
  ghost predicate Distinct<K>(t: Tree<K>) {
    match t
    case Leaf => true
    case Branch(left, e, _, right) =>
      && e.node !in Nodes(left) && e.node !in Nodes(right) && Nodes(left) !! Nodes(right)
      && Distinct(left) && Distinct(right)
  }

  ghost predicate CtxDistinct<K>(c: Ctx<K>) {
    match c
    case Top => true
    case InLeft(up, e, _, right) =>
      && e.node !in CtxNodes(up) && e.node !in Nodes(right) && Nodes(right) !! CtxNodes(up)
      && Distinct(right) && CtxDistinct(up)
    case InRight(up, left, e, _) =>
      && e.node !in CtxNodes(up) && e.node !in Nodes(left) && Nodes(left) !! CtxNodes(up)
      && Distinct(left) && CtxDistinct(up)
  }

  /** A zipper whose parts share no node, and do not contain the sentinel. */
  ghost predicate Apart<K>(c: Ctx<K>, t: Tree<K>, nil: Node<K>) {
    && CtxDistinct(c) && Distinct(t) && CtxNodes(c) !! Nodes(t)
    && nil !in CtxNodes(c) && nil !in Nodes(t)
  }

  lemma Regroup<T>(a: seq<T>, b: seq<T>, x: T, d: seq<T>, e: seq<T>)
    ensures a + (b + [x] + d) + e == a + b + ([x] + d + e)
    ensures a + (b + [x] + d) + e == (a + b + [x]) + d + e
  {
  }

  lemma {:induction false} PlugFlatten<K>(c: Ctx<K>, t: Tree<K>)
    ensures Flatten(Plug(c, t)) == Before(c) + Flatten(t) + After(c)
    decreases c
  {
    match c
    case Top =>
    case InLeft(up, e, color, right) =>
      PlugFlatten(up, Branch(t, e, color, right));
      Regroup(Before(up), Flatten(t), e, Flatten(right), After(up));
    case InRight(up, left, e, color) =>
      PlugFlatten(up, Branch(left, e, color, t));
      Regroup(Before(up), Flatten(left), e, Flatten(t), After(up));
  }

  lemma {:induction false} PlugNodes<K>(c: Ctx<K>, t: Tree<K>)
    ensures Nodes(Plug(c, t)) == CtxNodes(c) + Nodes(t)
    decreases c
  {
    match c
    case Top =>
    case InLeft(up, e, color, right) => PlugNodes(up, Branch(t, e, color, right));
    case InRight(up, left, e, color) => PlugNodes(up, Branch(left, e, color, t));
  }

  // ----- Heap ------------------------------------------------------------------------

  ghost function RootOf<K>(t: Tree<K>, nil: Node<K>): Node<K> {
    if t.Leaf? then nil else t.e.node
  }

  ghost function TopOf<K>(c: Ctx<K>, nil: Node<K>): Node<K> {
    if c.Top? then nil else c.e.node
  }

  /** A node carries the entry and the color that the description gives it. */
  ghost predicate Holds<K>(e: Entry<K>, color: Color)
    reads e.node`Key, e.node`Value, e.node`Color
  {
    e.node.Key == e.key && e.node.Value == e.value && e.node.Color == color
  }

  /** The nodes of `t` are linked as `t` says, with `root` on top and `parent` above it. */
  ghost predicate Linked<K>(t: Tree<K>, root: Node?<K>, parent: Node?<K>, nil: Node<K>)
    reads Nodes(t)`Parent, Nodes(t)`LeftSubtree, Nodes(t)`RightSubtree,
          Nodes(t)`Key, Nodes(t)`Value, Nodes(t)`Color
    ensures Linked(t, root, parent, nil) ==> root == RootOf(t, nil)
  {
    match t
    case Leaf => root == nil
    case Branch(left, e, color, right) =>
      && root == e.node && e.node.Parent == parent && Holds(e, color)
      && Linked(left, e.node.LeftSubtree, e.node, nil)
      && Linked(right, e.node.RightSubtree, e.node, nil)
  }

  /** The nodes around the missing subtree are linked as `c` says; `hole` is what the place
      of the missing subtree points to, `parent` the node that owns this place.  The
      sentinel's left pointer is the root pointer. */
  ghost predicate LinkedCtx<K>(c: Ctx<K>, hole: Node?<K>, parent: Node?<K>, nil: Node<K>)
    reads nil`LeftSubtree
    reads CtxNodes(c)`Parent, CtxNodes(c)`LeftSubtree, CtxNodes(c)`RightSubtree,
          CtxNodes(c)`Key, CtxNodes(c)`Value, CtxNodes(c)`Color
    ensures LinkedCtx(c, hole, parent, nil) ==> parent == TopOf(c, nil)
  {
    match c
    case Top => parent == nil && nil.LeftSubtree == hole
    case InLeft(up, e, color, right) =>
      && parent == e.node && e.node.LeftSubtree == hole && Holds(e, color)
      && Linked(right, e.node.RightSubtree, e.node, nil)
      && LinkedCtx(up, e.node, e.node.Parent, nil)
    case InRight(up, left, e, color) =>
      && parent == e.node && e.node.RightSubtree == hole && Holds(e, color)
      && Linked(left, e.node.LeftSubtree, e.node, nil)
      && LinkedCtx(up, e.node, e.node.Parent, nil)
  }

  ghost predicate Zipped<K>(c: Ctx<K>, t: Tree<K>, nil: Node<K>)
    reads nil`LeftSubtree
    reads CtxNodes(c)`Parent, CtxNodes(c)`LeftSubtree, CtxNodes(c)`RightSubtree,
          CtxNodes(c)`Key, CtxNodes(c)`Value, CtxNodes(c)`Color
    reads Nodes(t)`Parent, Nodes(t)`LeftSubtree, Nodes(t)`RightSubtree,
          Nodes(t)`Key, Nodes(t)`Value, Nodes(t)`Color
  {
    && Apart(c, t, nil)
    && Linked(t, RootOf(t, nil), TopOf(c, nil), nil)
    && LinkedCtx(c, RootOf(t, nil), TopOf(c, nil), nil)
  }

  lemma ZipLeft<K>(up: Ctx<K>, t: Tree<K>, e: Entry<K>, color: Color, right: Tree<K>, nil: Node<K>)
    ensures Zipped(InLeft(up, e, color, right), t, nil) <==> Zipped(up, Branch(t, e, color, right), nil)
  {
    var c, u := InLeft(up, e, color, right), Branch(t, e, color, right);
    assert Apart(c, t, nil) <==> Apart(up, u, nil);
  }

  lemma ZipRight<K>(up: Ctx<K>, left: Tree<K>, e: Entry<K>, color: Color, t: Tree<K>, nil: Node<K>)
    ensures Zipped(InRight(up, left, e, color), t, nil) <==> Zipped(up, Branch(left, e, color, t), nil)
  {
    var c, u := InRight(up, left, e, color), Branch(left, e, color, t);
    assert Apart(c, t, nil) <==> Apart(up, u, nil);
  }

  /** A linked tree can be looked at from any place in it. */
  lemma {:induction false} ZipAnywhere<K>(c: Ctx<K>, t: Tree<K>, nil: Node<K>)
    ensures Zipped(c, t, nil) <==> Zipped(Top, Plug(c, t), nil)
    decreases c
  {
    match c
    case Top =>
    case InLeft(up, e, color, right) =>
      ZipLeft(up, t, e, color, right, nil);
      ZipAnywhere(up, Branch(t, e, color, right), nil);
    case InRight(up, left, e, color) =>
      ZipRight(up, left, e, color, t, nil);
      ZipAnywhere(up, Branch(left, e, color, t), nil);
  }

  // ----- Value sums ------------------------------------------------------------------

  ghost function SumOf<K>(s: seq<Entry<K>>): nat {
    if s == [] then 0 else SumOf(s[..|s| - 1]) + s[|s| - 1].value
  }

  ghost function Sum<K>(t: Tree<K>): nat {
    match t
    case Leaf => 0
    case Branch(left, e, _, right) => Sum(left) + e.value + Sum(right)
  }

  /** Every node of `t` stores the sum of its subtree, computed modulo 2^64. */
  ghost predicate SumsOk<K>(t: Tree<K>)
    reads Nodes(t)`ValueSum
  {
    match t
    case Leaf => true
    case Branch(left, e, _, right) =>
      e.node.ValueSum == Sum(t) % MODULUS && SumsOk(left) && SumsOk(right)
  }

  /** The same for the subtrees beside the path from the root to the missing place. */
  ghost predicate SideSumsOk<K>(c: Ctx<K>)
    reads SideNodes(c)`ValueSum
  {
    match c
    case Top => true
    case InLeft(up, _, _, right) => SumsOk(right) && SideSumsOk(up)
    case InRight(up, left, _, _) => SumsOk(left) && SideSumsOk(up)
  }

  /** ... and for the path itself, when the missing subtree has the sum `s`. */
  ghost predicate SpineSumsOk<K>(c: Ctx<K>, s: nat)
    reads Spine(c)`ValueSum
  {
    match c
    case Top => true
    case InLeft(up, e, _, right) =>
      e.node.ValueSum == (s + e.value + Sum(right)) % MODULUS && SpineSumsOk(up, s + e.value + Sum(right))
    case InRight(up, left, e, _) =>
      e.node.ValueSum == (Sum(left) + e.value + s) % MODULUS && SpineSumsOk(up, Sum(left) + e.value + s)
  }

  lemma {:induction false} PlugSums<K>(c: Ctx<K>, t: Tree<K>)
    ensures SumsOk(Plug(c, t)) <==> SumsOk(t) && SideSumsOk(c) && SpineSumsOk(c, Sum(t))
    decreases c
  {
    match c
    case Top =>
    case InLeft(up, e, color, right) => PlugSums(up, Branch(t, e, color, right));
    case InRight(up, left, e, color) => PlugSums(up, Branch(left, e, color, t));
  }

  lemma {:induction false} SumAppend<K>(a: seq<Entry<K>>, b: seq<Entry<K>>)
    ensures SumOf(a + b) == SumOf(a) + SumOf(b)
    decreases |b|
  {
    if b == [] {
      assert a + b == a;
    } else {
      assert (a + b)[..|a + b| - 1] == a + b[..|b| - 1];
      SumAppend(a, b[..|b| - 1]);
    }
  }

  /** A subtree's sum is the sum over its entries. */
  lemma {:induction false} SumFlatten<K>(t: Tree<K>)
    ensures Sum(t) == SumOf(Flatten(t))
  {
    match t
    case Leaf =>
    case Branch(left, e, _, right) =>
      SumFlatten(left);
      SumFlatten(right);
      assert SumOf([e]) == e.value by { assert [e][..0] == []; }
      SumAppend(Flatten(left), [e]);
      SumAppend(Flatten(left) + [e], Flatten(right));
  }

  lemma {:induction false} CtxNodesSplit<K>(c: Ctx<K>)
    ensures CtxNodes(c) == Spine(c) + SideNodes(c)
    ensures CtxDistinct(c) ==> Spine(c) !! SideNodes(c)
  {
    if !c.Top? { CtxNodesSplit(c.up); }
  }

  // ----- The tree as a whole -----------------------------------------------------------

  /** The sentinel's own fields; its parent pointer is scratch space. */
  ghost predicate Sentinel<K>(nil: Node<K>)
    reads nil
  {
    nil.RightSubtree == nil && nil.Value == 0 && nil.ValueSum == 0
  }

  /** All pointers and all value sums are as `c` and `t` say. */
  ghost predicate Good<K>(c: Ctx<K>, t: Tree<K>, nil: Node<K>)
    reads nil, CtxNodes(c), Nodes(t), Nodes(Plug(c, t))
  {
    Zipped(c, t, nil) && SumsOk(Plug(c, t)) && Sentinel(nil)
  }

  /** The same nodes in the same order. */
  ghost predicate Alike<K>(t: Tree<K>, u: Tree<K>) {
    Flatten(t) == Flatten(u) && Nodes(t) == Nodes(u)
  }

  // ----- Moving the focus ---------------------------------------------------------------

  ghost function Sibling<K>(c: Ctx<K>): Tree<K>
    requires !c.Top?
  {
    if c.InLeft? then c.right else c.left
  }

  ghost function WithSibling<K>(c: Ctx<K>, s: Tree<K>): Ctx<K>
    requires !c.Top?
  {
    if c.InLeft? then c.(right := s) else c.(left := s)
  }

  /** The subtree of the owner of the missing place, once `t` is put there. */
  ghost function Closed<K>(c: Ctx<K>, t: Tree<K>): Tree<K>
    requires !c.Top?
  {
    if c.InLeft? then Branch(t, c.e, c.color, c.right) else Branch(c.left, c.e, c.color, t)
  }

  /** What is around the sibling of `t`. */
  ghost function Beside<K>(c: Ctx<K>, t: Tree<K>): Ctx<K>
    requires !c.Top?
  {
    if c.InLeft? then InRight(c.up, t, c.e, c.color) else InLeft(c.up, c.e, c.color, t)
  }

  lemma MoveUp<K>(c: Ctx<K>, t: Tree<K>, nil: Node<K>)
    requires !c.Top?
    ensures Plug(c.up, Closed(c, t)) == Plug(c, t)
    ensures Zipped(c, t, nil) <==> Zipped(c.up, Closed(c, t), nil)
    ensures Good(c, t, nil) <==> Good(c.up, Closed(c, t), nil)
  {
    if c.InLeft? {
      ZipLeft(c.up, t, c.e, c.color, c.right, nil);
    } else {
      ZipRight(c.up, c.left, c.e, c.color, t, nil);
    }
  }

  lemma MoveAside<K>(c: Ctx<K>, t: Tree<K>, nil: Node<K>)
    requires !c.Top?
    ensures Plug(Beside(c, t), Sibling(c)) == Plug(c, t)
    ensures Good(c, t, nil) <==> Good(Beside(c, t), Sibling(c), nil)
  {
    MoveUp(c, t, nil);
    MoveUp(Beside(c, t), Sibling(c), nil);
    assert Closed(Beside(c, t), Sibling(c)) == Closed(c, t);
  }

  lemma GoodAnywhere<K>(c: Ctx<K>, t: Tree<K>, nil: Node<K>)
    ensures Good(c, t, nil) <==> Good(Top, Plug(c, t), nil)
  {
    ZipAnywhere(c, t, nil);
  }

  /** The context `inner` inside the context `outer`. */
  ghost function Compose<K>(inner: Ctx<K>, outer: Ctx<K>): Ctx<K> {
    match inner
    case Top => outer
    case InLeft(up, e, color, right) => InLeft(Compose(up, outer), e, color, right)
    case InRight(up, left, e, color) => InRight(Compose(up, outer), left, e, color)
  }

  lemma {:induction false} PlugCompose<K>(inner: Ctx<K>, outer: Ctx<K>, t: Tree<K>)
    ensures Plug(Compose(inner, outer), t) == Plug(outer, Plug(inner, t))
    decreases inner
  {
    if !inner.Top? { PlugCompose(inner.up, outer, Closed(inner, t)); }
  }

  lemma {:induction false} ComposeSums<K>(inner: Ctx<K>, outer: Ctx<K>)
    ensures SideSumsOk(Compose(inner, outer)) <==> SideSumsOk(inner) && SideSumsOk(outer)
    ensures Spine(Compose(inner, outer)) == Spine(inner) + Spine(outer)
  {
    if !inner.Top? { ComposeSums(inner.up, outer); }
  }

  lemma {:induction false} PlugIsBranch<K>(c: Ctx<K>, t: Tree<K>)
    requires !c.Top?
    ensures Plug(c, t).Branch?
    decreases c
  {
    if !c.up.Top? { PlugIsBranch(c.up, Closed(c, t)); }
  }

  // ----- Red-black rules -------------------------------------------------------------

  ghost function RootColor<K>(t: Tree<K>): (color: Color)
    ensures color == Red ==> t.Branch?
  {
    if t.Leaf? then Black else t.color
  }

  /** Equal black height `h` on every path (a leaf counts one) and no red node with a
      red child. */
  ghost predicate RedBlack<K>(t: Tree<K>, h: int) {
    match t
    case Leaf => h == 1
    case Branch(left, _, color, right) =>
      && RedBlack(left, if color == Black then h - 1 else h)
      && RedBlack(right, if color == Black then h - 1 else h)
      && (color == Red ==> RootColor(left) == Black && RootColor(right) == Black)
  }

  /** A subtree that obeys the rules with black height `h`, with a black root if the owner
      of its place is red, makes the whole tree obey them, up to the color of the root. */
  ghost predicate Expects<K>(c: Ctx<K>, h: int) {
    match c
    case Top => true
    case InLeft(up, _, color, right) =>
      && RedBlack(right, h)
      && (up.Top? || ((color == Red ==> RootColor(right) == Black && !OwnerRed(up))
                      && Expects(up, if color == Black then h + 1 else h)))
    case InRight(up, left, _, color) =>
      && RedBlack(left, h)
      && (up.Top? || ((color == Red ==> RootColor(left) == Black && !OwnerRed(up))
                      && Expects(up, if color == Black then h + 1 else h)))
  }

  /** The owner of the missing place is a red node other than the root. */
  ghost predicate OwnerRed<K>(c: Ctx<K>) {
    !c.Top? && !c.up.Top? && c.color == Red
  }

  ghost function Blacken<K>(t: Tree<K>): Tree<K> {
    if t.Leaf? then t else t.(color := Black)
  }

  lemma {:induction false} PlugBlack<K>(c: Ctx<K>, t: Tree<K>, h: int) returns (total: int)
    requires Expects(c, h)
    requires if c.Top? then RedBlack(Blacken(t), h) else RedBlack(t, h)
    requires RootColor(t) == Red ==> !OwnerRed(c)
    ensures RedBlack(Blacken(Plug(c, t)), total)
    decreases c
  {
    match c
    case Top => total := h;
    case InLeft(up, e, color, right) =>
      var h' := if up.Top? || color == Black then h + 1 else h;
      total := PlugBlack(up, Branch(t, e, color, right), h');
    case InRight(up, left, e, color) =>
      var h' := if up.Top? || color == Black then h + 1 else h;
      total := PlugBlack(up, Branch(left, e, color, t), h');
  }

  /** Conversely, every place of a tree that obeys the rules expects such a subtree. */
  lemma {:induction false} UnplugBlack<K>(c: Ctx<K>, t: Tree<K>, total: int) returns (h: int)
    requires RedBlack(Plug(c, t), total)
    ensures Expects(c, h) && RedBlack(t, h)
    ensures OwnerRed(c) ==> RootColor(t) == Black
    decreases c
  {
    match c
    case Top => h := total;
    case InLeft(up, e, color, right) =>
      h := UnplugBlack(up, Branch(t, e, color, right), total);
      h := if color == Black then h - 1 else h;
    case InRight(up, left, e, color) =>
      h := UnplugBlack(up, Branch(left, e, color, t), total);
      h := if color == Black then h - 1 else h;
  }

  /** What a place expects does not depend on the entries around it. */
  lemma {:induction false} ExpectsCompose<K>(inner: Ctx<K>, up: Ctx<K>, left: Tree<K>, e: Entry<K>, e': Entry<K>, color: Color, h: int)
    requires Expects(Compose(inner, InRight(up, left, e, color)), h)
    ensures Expects(Compose(inner, InRight(up, left, e', color)), h)
    ensures OwnerRed(Compose(inner, InRight(up, left, e', color))) <==> OwnerRed(Compose(inner, InRight(up, left, e, color)))
  {
    if !inner.Top? {
      var c := Compose(inner.up, InRight(up, left, e, color));
      assert !c.Top? && !Compose(inner.up, InRight(up, left, e', color)).Top?;
      ExpectsCompose(inner.up, up, left, e, e', color, if inner.color == Black then h + 1 else h);
    }
  }

  /** The color of the root does not depend on what is plugged in further below. */
  lemma {:induction false} RootColorPlug<K>(c: Ctx<K>, t: Tree<K>, u: Tree<K>)
    requires !c.Top?
    ensures RootColor(Plug(c, t)) == RootColor(Plug(c, u))
    decreases c
  {
    if c.up.Top? {
      assert Plug(c, t) == Plug(c.up, Closed(c, t)) == Closed(c, t);
      assert Plug(c, u) == Plug(c.up, Closed(c, u)) == Closed(c, u);
    } else {
      RootColorPlug(c.up, Closed(c, t), Closed(c, u));
    }
  }
}
