/** Rotations and value-sum updates of src/redblacktree_impl.h. */
module RedBlackRotation {
  import opened MachineIntegers
  import opened RedBlackShape

  ghost function RotatedLeft<K>(t: Tree<K>): Tree<K>
    requires t.Branch? && t.right.Branch?
  {
    Branch(Branch(t.left, t.e, t.color, t.right.left), t.right.e, t.right.color, t.right.right)
  }

  ghost function RotatedRight<K>(t: Tree<K>): Tree<K>
    requires t.Branch? && t.left.Branch?
  {
    Branch(t.left.left, t.left.e, t.left.color, Branch(t.left.right, t.e, t.color, t.right))
  }

  lemma Reassociate<T>(a: seq<T>, x: T, b: seq<T>, y: T, d: seq<T>)
    ensures (a + [x] + b) + [y] + d == a + [x] + (b + [y] + d)
  {
  }

  lemma RotatedLeftKeeps<K>(t: Tree<K>)
    requires t.Branch? && t.right.Branch?
    ensures Flatten(RotatedLeft(t)) == Flatten(t) && Sum(RotatedLeft(t)) == Sum(t)
  {
    Reassociate(Flatten(t.left), t.e, Flatten(t.right.left), t.right.e, Flatten(t.right.right));
  }

  lemma RotatedRightKeeps<K>(t: Tree<K>)
    requires t.Branch? && t.left.Branch?
    ensures Flatten(RotatedRight(t)) == Flatten(t) && Sum(RotatedRight(t)) == Sum(t)
  {
    Reassociate(Flatten(t.left.left), t.left.e, Flatten(t.left.right), t.e, Flatten(t.right));
  }

  lemma RotatedLeftApart<K>(c: Ctx<K>, t: Tree<K>, nil: Node<K>)
    requires t.Branch? && t.right.Branch? && Apart(c, t, nil)
    ensures Apart(c, RotatedLeft(t), nil) && Nodes(RotatedLeft(t)) == Nodes(t)
  {
    var r := t.right;
    assert Distinct(r) && Nodes(r) == Nodes(r.left) + {r.e.node} + Nodes(r.right);
  }

  lemma RotatedLeftAlike<K>(c: Ctx<K>, t: Tree<K>, nil: Node<K>)
    requires t.Branch? && t.right.Branch? && Apart(c, t, nil)
    ensures Alike(Plug(c, RotatedLeft(t)), Plug(c, t))
  {
    var u := RotatedLeft(t);
    RotatedLeftKeeps(t);
    RotatedLeftApart(c, t, nil);
    PlugNodes(c, t);
    PlugNodes(c, u);
    PlugFlatten(c, t);
    PlugFlatten(c, u);
  }

  lemma RotatedRightApart<K>(c: Ctx<K>, t: Tree<K>, nil: Node<K>)
    requires t.Branch? && t.left.Branch? && Apart(c, t, nil)
    ensures Apart(c, RotatedRight(t), nil) && Nodes(RotatedRight(t)) == Nodes(t)
  {
    var l := t.left;
    assert Distinct(l) && Nodes(l) == Nodes(l.left) + {l.e.node} + Nodes(l.right);
  }

  lemma RotatedRightAlike<K>(c: Ctx<K>, t: Tree<K>, nil: Node<K>)
    requires t.Branch? && t.left.Branch? && Apart(c, t, nil)
    ensures Alike(Plug(c, RotatedRight(t)), Plug(c, t))
  {
    var u := RotatedRight(t);
    RotatedRightKeeps(t);
    RotatedRightApart(c, t, nil);
    PlugNodes(c, t);
    PlugNodes(c, u);
    PlugFlatten(c, t);
    PlugFlatten(c, u);
  }

  lemma SumModulo(a: nat, v: nat, b: nat)
    ensures (a % MODULUS + v + b % MODULUS) % MODULUS == (a + v + b) % MODULUS
  {
    var x, y := a / MODULUS, b / MODULUS;
    assert a + v + b == (a % MODULUS + v + b % MODULUS) + MODULUS * (x + y);
  }

  method UpdateValueSum<K>(node: Node<K>)
    requires node.LeftSubtree != null && node.RightSubtree != null
    modifies node`ValueSum
    ensures node.ValueSum == (old(node.LeftSubtree.ValueSum) + node.Value + old(node.RightSubtree.ValueSum)) % MODULUS
  {
    node.ValueSum := (node.LeftSubtree.ValueSum + node.Value + node.RightSubtree.ValueSum) % MODULUS;
  }

  /** The same, for a node that is linked with subtrees whose sums are right. */
  method UpdateLinkedSum<K>(node: Node<K>, ghost t: Tree<K>, ghost parent: Node<K>, ghost nil: Node<K>)
    requires t.Branch? && Distinct(t) && nil !in Nodes(t) && Linked(t, node, parent, nil) && nil.ValueSum == 0
    requires SumsOk(t.left) && SumsOk(t.right)
    modifies node`ValueSum
    ensures SumsOk(t)
  {
    assert t.e.node == node && Holds(t.e, t.color);
    SumModulo(Sum(t.left), t.e.value, Sum(t.right));
    assert node !in Nodes(t.left) && node !in Nodes(t.right);
    assert node.LeftSubtree.ValueSum == Sum(t.left) % MODULUS;
    assert node.RightSubtree.ValueSum == Sum(t.right) % MODULUS;
    assert allocated(Nodes(t.left)) && allocated(Nodes(t.right));
    UpdateValueSum(node);
  }

  // ----- Two states of the heap ---------------------------------------------------------

  /** A subtree whose root gets the parent `parent'`. */
  datatype Move<K> = Move(t: Tree<K>, root: Node?<K>, parent: Node?<K>, parent': Node?<K>, nil: Node<K>)

  /** A subtree keeps its links when nothing but its root's parent pointer changes. */
  twostate lemma Moved<K>(m: Move<K>)
    requires old(allocated(Nodes(m.t))) && Distinct(m.t) && old(Linked(m.t, m.root, m.parent, m.nil))
    requires forall n <- Nodes(m.t) ::
      && n.Parent == (if n == m.root then m.parent' else old(n.Parent))
      && n.LeftSubtree == old(n.LeftSubtree) && n.RightSubtree == old(n.RightSubtree)
      && n.Key == old(n.Key) && n.Value == old(n.Value) && n.Color == old(n.Color)
    ensures Linked(m.t, m.root, m.parent', m.nil)
  {
    if m.t.Branch? {
      assert m.root !in Nodes(m.t.left) && m.root !in Nodes(m.t.right);
    }
  }

  /** A context whose missing place gets the pointer `hole'`. */
  datatype Refill<K> = Refill(c: Ctx<K>, hole: Node?<K>, parent: Node?<K>, hole': Node?<K>, nil: Node<K>)

  /** A context keeps its links when nothing but the pointer to its missing subtree changes. */
  twostate lemma Refilled<K>(m: Refill<K>)
    requires old(allocated(CtxNodes(m.c))) && CtxDistinct(m.c) && old(LinkedCtx(m.c, m.hole, m.parent, m.nil))
    requires forall n <- CtxNodes(m.c) ::
      && n.Parent == old(n.Parent)
      && n.Key == old(n.Key) && n.Value == old(n.Value) && n.Color == old(n.Color)
      && n.LeftSubtree == (if m.c.InLeft? && n == m.c.e.node then m.hole' else old(n.LeftSubtree))
      && n.RightSubtree == (if m.c.InRight? && n == m.c.e.node then m.hole' else old(n.RightSubtree))
    requires m.nil.LeftSubtree == if m.c.Top? then m.hole' else old(m.nil.LeftSubtree)
    ensures LinkedCtx(m.c, m.hole', m.parent, m.nil)
  {
  }

  /** The nodes a rotation works on: the node, the child it changes places with, the root
      of the subtree that moves over (or the sentinel) and the node above. */
  datatype Site<K> = Site(c: Ctx<K>, t: Tree<K>, nil: Node<K>,
                          node: Node<K>, lower: Node<K>, moved: Node<K>, up: Node<K>)

  ghost predicate LeftSite<K>(s: Site<K>) {
    && s.t.Branch? && s.t.right.Branch? && Apart(s.c, s.t, s.nil)
    && s.node == s.t.e.node && s.lower == s.t.right.e.node
    && s.moved == RootOf(s.t.right.left, s.nil) && s.up == TopOf(s.c, s.nil)
  }

  ghost predicate RightSite<K>(s: Site<K>) {
    && s.t.Branch? && s.t.left.Branch? && Apart(s.c, s.t, s.nil)
    && s.node == s.t.e.node && s.lower == s.t.left.e.node
    && s.moved == RootOf(s.t.left.right, s.nil) && s.up == TopOf(s.c, s.nil)
  }

  /** `x` is a subtree of `s.t` without the two nodes of the rotation. */
  ghost predicate Unaffected<K>(s: Site<K>, x: Tree<K>) {
    Distinct(x) && Nodes(x) <= Nodes(s.t) && s.node !in Nodes(x) && s.lower !in Nodes(x) && s.up !in Nodes(x)
  }

  ghost predicate SiteApart<K>(s: Site<K>) {
    && s.moved !in CtxNodes(s.c) && s.node !in CtxNodes(s.c) && s.lower !in CtxNodes(s.c)
    && s.node in Nodes(s.t) && s.lower in Nodes(s.t)
    && s.node != s.lower && s.moved != s.node && s.moved != s.lower
    && s.up != s.node && s.up != s.lower && s.nil != s.node && s.nil != s.lower
    && (s.moved == s.nil || s.moved in Nodes(s.t)) && (s.up == s.nil || s.up in CtxNodes(s.c))
  }

  lemma LeftParts<K>(s: Site<K>)
    requires LeftSite(s)
    ensures Unaffected(s, s.t.left) && Unaffected(s, s.t.right.left) && Unaffected(s, s.t.right.right)
    ensures s.moved !in Nodes(s.t.left) && s.moved !in Nodes(s.t.right.right)
    ensures SiteApart(s)
  {
    var t := s.t;
    assert Distinct(t.right) && Nodes(t.right) == Nodes(t.right.left) + {s.lower} + Nodes(t.right.right);
    assert Nodes(t) == Nodes(t.left) + {s.node} + Nodes(t.right);
  }

  lemma RightParts<K>(s: Site<K>)
    requires RightSite(s)
    ensures Unaffected(s, s.t.left.left) && Unaffected(s, s.t.left.right) && Unaffected(s, s.t.right)
    ensures s.moved !in Nodes(s.t.left.left) && s.moved !in Nodes(s.t.right)
    ensures SiteApart(s)
  {
    var t := s.t;
    assert Distinct(t.left) && Nodes(t.left) == Nodes(t.left.left) + {s.lower} + Nodes(t.left.right);
    assert Nodes(t) == Nodes(t.left) + {s.node} + Nodes(t.right);
  }

  /** The pointers after a left rotation. */
  twostate predicate TurnedLeft<K>(s: Site<K>)
    reads s.nil, Nodes(s.t), CtxNodes(s.c)
    requires old(allocated(Nodes(s.t)) && allocated(CtxNodes(s.c)))
  {
    && (forall n <- Nodes(s.t) + CtxNodes(s.c) ::
         n.Key == old(n.Key) && n.Value == old(n.Value) && n.Color == old(n.Color))
    && (forall n <- Nodes(s.t) + CtxNodes(s.c) ::
         n.Parent == if n == s.node then s.lower else if n == s.lower then s.up else
                     if n == s.moved then s.node else old(n.Parent))
    && (forall n <- Nodes(s.t) + CtxNodes(s.c) ::
         n.LeftSubtree == if n == s.lower then s.node else if n == s.up && s.c.InLeft? then s.lower else old(n.LeftSubtree))
    && (forall n <- Nodes(s.t) + CtxNodes(s.c) ::
         n.RightSubtree == if n == s.node then s.moved else if n == s.up && s.c.InRight? then s.lower else old(n.RightSubtree))
    && s.nil.LeftSubtree == if s.c.Top? then s.lower else old(s.nil.LeftSubtree)
  }

  twostate lemma RelinkedLeftTree<K>(s: Site<K>)
    requires old(allocated(Nodes(s.t)) && allocated(CtxNodes(s.c)))
    requires LeftSite(s) && old(Zipped(s.c, s.t, s.nil)) && TurnedLeft(s)
    ensures Linked(RotatedLeft(s.t), s.lower, s.up, s.nil)
  {
    LeftParts(s);
    assert old(Linked(s.t.right, s.lower, s.node, s.nil));
    Moved(Move(s.t.left, s.node.LeftSubtree, s.node, s.node, s.nil));
    Moved(Move(s.t.right.left, s.moved, s.lower, s.node, s.nil));
    Moved(Move(s.t.right.right, s.lower.RightSubtree, s.lower, s.lower, s.nil));
  }

  /** These pointers make the rotated tree. */
  twostate lemma RelinkedLeft<K>(s: Site<K>)
    requires old(allocated(Nodes(s.t)) && allocated(CtxNodes(s.c)))
    requires LeftSite(s) && old(Zipped(s.c, s.t, s.nil)) && TurnedLeft(s)
    ensures Zipped(s.c, RotatedLeft(s.t), s.nil)
  {
    LeftParts(s);
    RelinkedLeftTree(s);
    Refilled(Refill(s.c, s.node, s.up, s.lower, s.nil));
    RotatedLeftApart(s.c, s.t, s.nil);
  }

  /** The pointers after a right rotation. */
  twostate predicate TurnedRight<K>(s: Site<K>)
    reads s.nil, Nodes(s.t), CtxNodes(s.c)
    requires old(allocated(Nodes(s.t)) && allocated(CtxNodes(s.c)))
  {
    && (forall n <- Nodes(s.t) + CtxNodes(s.c) ::
         n.Key == old(n.Key) && n.Value == old(n.Value) && n.Color == old(n.Color))
    && (forall n <- Nodes(s.t) + CtxNodes(s.c) ::
         n.Parent == if n == s.node then s.lower else if n == s.lower then s.up else
                     if n == s.moved then s.node else old(n.Parent))
    && (forall n <- Nodes(s.t) + CtxNodes(s.c) ::
         n.LeftSubtree == if n == s.node then s.moved else if n == s.up && s.c.InLeft? then s.lower else old(n.LeftSubtree))
    && (forall n <- Nodes(s.t) + CtxNodes(s.c) ::
         n.RightSubtree == if n == s.lower then s.node else if n == s.up && s.c.InRight? then s.lower else old(n.RightSubtree))
    && s.nil.LeftSubtree == if s.c.Top? then s.lower else old(s.nil.LeftSubtree)
  }

  twostate lemma RelinkedRightTree<K>(s: Site<K>)
    requires old(allocated(Nodes(s.t)) && allocated(CtxNodes(s.c)))
    requires RightSite(s) && old(Zipped(s.c, s.t, s.nil)) && TurnedRight(s)
    ensures Linked(RotatedRight(s.t), s.lower, s.up, s.nil)
  {
    RightParts(s);
    assert old(Linked(s.t.left, s.lower, s.node, s.nil));
    Moved(Move(s.t.left.left, s.lower.LeftSubtree, s.lower, s.lower, s.nil));
    Moved(Move(s.t.left.right, s.moved, s.lower, s.node, s.nil));
    Moved(Move(s.t.right, s.node.RightSubtree, s.node, s.node, s.nil));
  }

  /** These pointers make the rotated tree. */
  twostate lemma RelinkedRight<K>(s: Site<K>)
    requires old(allocated(Nodes(s.t)) && allocated(CtxNodes(s.c)))
    requires RightSite(s) && old(Zipped(s.c, s.t, s.nil)) && TurnedRight(s)
    ensures Zipped(s.c, RotatedRight(s.t), s.nil)
  {
    RightParts(s);
    RelinkedRightTree(s);
    Refilled(Refill(s.c, s.node, s.up, s.lower, s.nil));
    RotatedRightApart(s.c, s.t, s.nil);
  }

  /** The pointer part of a left rotation; `lowleft` may be the sentinel, and so may be
      the node above. */
  method RelinkLeft<K>(node: Node<K>, ghost lower: Node<K>, ghost lowleft: Node<K>, ghost up: Node<K>)
    requires node.RightSubtree == lower && lower.LeftSubtree == lowleft && node.Parent == up
    requires node != lower && node != lowleft && node != up && lower != lowleft && lower != up
    requires node == up.LeftSubtree || node == up.RightSubtree
    modifies node`Parent, node`RightSubtree, lower`Parent, lower`LeftSubtree, lowleft`Parent,
             up`LeftSubtree, up`RightSubtree
    ensures node.Parent == lower && lower.Parent == up && lowleft.Parent == node
    ensures node.RightSubtree == lowleft && lower.LeftSubtree == node
    ensures if node == old(up.LeftSubtree)
            then up.LeftSubtree == lower && up.RightSubtree == old(up.RightSubtree)
            else up.RightSubtree == lower && up.LeftSubtree == old(up.LeftSubtree)
  {
    var lower := node.RightSubtree;
    var lowleft := lower.LeftSubtree;
    node.RightSubtree := lowleft;
    lowleft.Parent := node;
    var upparent := node.Parent;
    lower.Parent := upparent;
    if node == upparent.LeftSubtree {
      upparent.LeftSubtree := lower;
    } else {
      upparent.RightSubtree := lower;
    }
    lower.LeftSubtree := node;
    node.Parent := lower;
  }

  /** The value-sum part of a rotation: first the lowered node, then the raised one. */
  method UpdateRotatedSums<K>(node: Node<K>, ghost u: Tree<K>, ghost low: Tree<K>, ghost up: Node<K>, ghost nil: Node<K>)
    requires u.Branch? && Distinct(u) && nil !in Nodes(u) && nil.ValueSum == 0
    requires Linked(u, u.e.node, up, nil)
    requires low.Branch? && node == low.e.node && SumsOk(low.left) && SumsOk(low.right)
    requires (low == u.left && SumsOk(u.right)) || (low == u.right && SumsOk(u.left))
    modifies Nodes(u)`ValueSum
    ensures SumsOk(u)
  {
    assert Linked(low, node, u.e.node, nil);
    assert node in Nodes(low) && Nodes(low) <= Nodes(u);
    assert allocated(Nodes(u)) && allocated(Nodes(u.left)) && allocated(Nodes(u.right));
    UpdateLinkedSum(node, low, u.e.node, nil);
    assert Linked(u, u.e.node, up, nil);
    UpdateLinkedSum(node.Parent, u, up, nil);
  }

  method RelinkLeftInTree<K>(node: Node<K>, ghost c: Ctx<K>, ghost t: Tree<K>, ghost nil: Node<K>)
    requires t.Branch? && t.right.Branch? && node == t.e.node
    requires Zipped(c, t, nil) && nil.RightSubtree == nil
    modifies Nodes(t)`Parent, Nodes(t)`LeftSubtree, Nodes(t)`RightSubtree,
             CtxNodes(c)`LeftSubtree, CtxNodes(c)`RightSubtree,
             nil`LeftSubtree, nil`RightSubtree, nil`Parent
    ensures Zipped(c, RotatedLeft(t), nil) && nil.RightSubtree == nil
  {
    ghost var s := Site(c, t, nil, node, t.right.e.node, RootOf(t.right.left, nil), TopOf(c, nil));
    LeftParts(s);
    assert Linked(t.right, s.lower, node, nil);
    assert allocated(Nodes(t)) && allocated(CtxNodes(c));
    RelinkLeft(node, s.lower, s.moved, s.up);
    RelinkedLeft(s);
  }

  method TurnLeft<K>(node: Node<K>, ghost c: Ctx<K>, ghost t: Tree<K>, ghost nil: Node<K>)
    requires t.Branch? && t.right.Branch? && node == t.e.node
    requires Zipped(c, t, nil) && SumsOk(t) && Sentinel(nil)
    modifies Nodes(t)`Parent, Nodes(t)`LeftSubtree, Nodes(t)`RightSubtree, Nodes(t)`ValueSum,
             CtxNodes(c)`LeftSubtree, CtxNodes(c)`RightSubtree,
             nil`LeftSubtree, nil`RightSubtree, nil`Parent
    ensures Zipped(c, RotatedLeft(t), nil) && SumsOk(RotatedLeft(t)) && Sentinel(nil)
  {
    hide Linked, LinkedCtx, Flatten, Plug, Distinct, CtxDistinct, CtxNodes;
    ghost var u := RotatedLeft(t);
    assert SumsOk(t.right) && allocated(Nodes(t)) && allocated(CtxNodes(c));
    RelinkLeftInTree(node, c, t, nil);
    assert Distinct(u) && nil !in Nodes(u) && Nodes(u) == Nodes(t) by { RotatedLeftApart(c, t, nil); }
    UpdateRotatedSums(node, u, u.left, TopOf(c, nil), nil);
  }

  /** A left rotation at a place of the tree, value sums included. */
  method RotateLeft<K>(node: Node<K>, ghost c: Ctx<K>, ghost t: Tree<K>, ghost nil: Node<K>)
    requires t.Branch? && t.right.Branch? && node == t.e.node && Good(c, t, nil)
    modifies Nodes(Plug(c, t))`Parent, Nodes(Plug(c, t))`LeftSubtree, Nodes(Plug(c, t))`RightSubtree,
             Nodes(Plug(c, t))`ValueSum, nil`LeftSubtree, nil`RightSubtree, nil`Parent
    ensures Good(c, RotatedLeft(t), nil)
    ensures Alike(Plug(c, RotatedLeft(t)), Plug(c, t))
  {
    hide Linked, LinkedCtx, Flatten, Plug, Distinct, CtxDistinct, CtxNodes, Nodes, SumsOk, SideSumsOk, SpineSumsOk;
    ghost var u := RotatedLeft(t);
    PlugNodes(c, t);
    PlugSums(c, t);
    CtxNodesSplit(c);
    assert allocated(SideNodes(c)) && allocated(Spine(c));
    TurnLeft(node, c, t, nil);
    RotatedLeftKeeps(t);
    PlugSums(c, u);
    RotatedLeftAlike(c, t, nil);
  }

  /** The pointer part of a right rotation. */
  method RelinkRight<K>(node: Node<K>, ghost lower: Node<K>, ghost lowright: Node<K>, ghost up: Node<K>)
    requires node.LeftSubtree == lower && lower.RightSubtree == lowright && node.Parent == up
    requires node != lower && node != lowright && node != up && lower != lowright && lower != up
    requires node == up.LeftSubtree || node == up.RightSubtree
    modifies node`Parent, node`LeftSubtree, lower`Parent, lower`RightSubtree, lowright`Parent,
             up`LeftSubtree, up`RightSubtree
    ensures node.Parent == lower && lower.Parent == up && lowright.Parent == node
    ensures node.LeftSubtree == lowright && lower.RightSubtree == node
    ensures if node == old(up.RightSubtree)
            then up.RightSubtree == lower && up.LeftSubtree == old(up.LeftSubtree)
            else up.LeftSubtree == lower && up.RightSubtree == old(up.RightSubtree)
  {
    var lower := node.LeftSubtree;
    var lowright := lower.RightSubtree;
    node.LeftSubtree := lowright;
    lowright.Parent := node;
    var upparent := node.Parent;
    lower.Parent := upparent;
    if node == upparent.RightSubtree {
      upparent.RightSubtree := lower;
    } else {
      upparent.LeftSubtree := lower;
    }
    lower.RightSubtree := node;
    node.Parent := lower;
  }

  method RelinkRightInTree<K>(node: Node<K>, ghost c: Ctx<K>, ghost t: Tree<K>, ghost nil: Node<K>)
    requires t.Branch? && t.left.Branch? && node == t.e.node
    requires Zipped(c, t, nil) && nil.RightSubtree == nil
    modifies Nodes(t)`Parent, Nodes(t)`LeftSubtree, Nodes(t)`RightSubtree,
             CtxNodes(c)`LeftSubtree, CtxNodes(c)`RightSubtree,
             nil`LeftSubtree, nil`RightSubtree, nil`Parent
    ensures Zipped(c, RotatedRight(t), nil) && nil.RightSubtree == nil
  {
    ghost var s := Site(c, t, nil, node, t.left.e.node, RootOf(t.left.right, nil), TopOf(c, nil));
    RightParts(s);
    assert Linked(t.left, s.lower, node, nil);
    assert allocated(Nodes(t)) && allocated(CtxNodes(c));
    RelinkRight(node, s.lower, s.moved, s.up);
    RelinkedRight(s);
  }

  method TurnRight<K>(node: Node<K>, ghost c: Ctx<K>, ghost t: Tree<K>, ghost nil: Node<K>)
    requires t.Branch? && t.left.Branch? && node == t.e.node
    requires Zipped(c, t, nil) && SumsOk(t) && Sentinel(nil)
    modifies Nodes(t)`Parent, Nodes(t)`LeftSubtree, Nodes(t)`RightSubtree, Nodes(t)`ValueSum,
             CtxNodes(c)`LeftSubtree, CtxNodes(c)`RightSubtree,
             nil`LeftSubtree, nil`RightSubtree, nil`Parent
    ensures Zipped(c, RotatedRight(t), nil) && SumsOk(RotatedRight(t)) && Sentinel(nil)
  {
    hide Linked, LinkedCtx, Flatten, Plug, Distinct, CtxDistinct, CtxNodes;
    ghost var u := RotatedRight(t);
    assert SumsOk(t.left) && allocated(Nodes(t)) && allocated(CtxNodes(c));
    RelinkRightInTree(node, c, t, nil);
    assert Distinct(u) && nil !in Nodes(u) && Nodes(u) == Nodes(t) by { RotatedRightApart(c, t, nil); }
    UpdateRotatedSums(node, u, u.right, TopOf(c, nil), nil);
  }

  /** A right rotation at a place of the tree, value sums included. */
  method RotateRight<K>(node: Node<K>, ghost c: Ctx<K>, ghost t: Tree<K>, ghost nil: Node<K>)
    requires t.Branch? && t.left.Branch? && node == t.e.node && Good(c, t, nil)
    modifies Nodes(Plug(c, t))`Parent, Nodes(Plug(c, t))`LeftSubtree, Nodes(Plug(c, t))`RightSubtree,
             Nodes(Plug(c, t))`ValueSum, nil`LeftSubtree, nil`RightSubtree, nil`Parent
    ensures Good(c, RotatedRight(t), nil)
    ensures Alike(Plug(c, RotatedRight(t)), Plug(c, t))
  {
    hide Linked, LinkedCtx, Flatten, Plug, Distinct, CtxDistinct, CtxNodes, Nodes, SumsOk, SideSumsOk, SpineSumsOk;
    ghost var u := RotatedRight(t);
    PlugNodes(c, t);
    PlugSums(c, t);
    CtxNodesSplit(c);
    assert allocated(SideNodes(c)) && allocated(Spine(c));
    TurnRight(node, c, t, nil);
    RotatedRightKeeps(t);
    PlugSums(c, u);
    RotatedRightAlike(c, t, nil);
  }

}
