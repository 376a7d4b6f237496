/** Linking a new leaf, unlinking a node and updating the value sums on the way to the root. */
module RedBlackLinking {
  import opened MachineIntegers
  import opened RedBlackShape
  import opened RedBlackRotation

  /** `node` is where a walk to the root goes on: the owner of the missing place of `c`, or,
      at the start, a node just taken out that still points to that owner. */
  ghost predicate OnWay<K>(node: Node?<K>, out: bool, c: Ctx<K>, t: Tree<K>, nil: Node<K>)
    reads node
  {
    if out
    then node != null && node != nil && node !in Nodes(t) && node !in CtxNodes(c) && node.Parent == TopOf(c, nil)
         && node.LeftSubtree != null && node.RightSubtree != null
    else node == TopOf(c, nil)
  }

  lemma OnWayLooks<K>(c: Ctx<K>, t: Tree<K>, nil: Node<K>)
    requires !c.Top? && Zipped(c, t, nil) && Sentinel(nil)
    ensures var node, u := c.e.node, Closed(c, t);
      && node != nil && node !in Nodes(t) && node !in SideNodes(c) && node in Spine(c)
      && node.LeftSubtree != null && node.RightSubtree != null && node.Parent == TopOf(c.up, nil)
      && (SumsOk(t) && SideSumsOk(c) ==>
           (node.LeftSubtree.ValueSum + node.Value + node.RightSubtree.ValueSum) % MODULUS == Sum(u) % MODULUS)
  {
    CtxNodesSplit(c);
    MoveUp(c, t, nil);
    var node, u := c.e.node, Closed(c, t);
    assert Linked(u, node, TopOf(c.up, nil), nil);
    assert Linked(u.left, node.LeftSubtree, node, nil) && Linked(u.right, node.RightSubtree, node, nil);
    SumModulo(Sum(u.left), u.e.value, Sum(u.right));
  }

  method UpdateOnWay<K>(node: Node<K>, ghost out: bool, ghost c: Ctx<K>, ghost t: Tree<K>, nil: Node<K>)
    requires Zipped(c, t, nil) && Sentinel(nil) && OnWay(node, out, c, t, nil) && node != nil
    modifies node`ValueSum
    ensures out ==> OnWay(node.Parent, false, c, t, nil)
    ensures !out ==> OnWay(node.Parent, false, c.up, Closed(c, t), nil)
    ensures old(SumsOk(t) && SideSumsOk(c)) ==> SumsOk(t) && SideSumsOk(c)
    ensures !out && old(SumsOk(t) && SideSumsOk(c)) ==> SumsOk(Closed(c, t)) && SideSumsOk(c.up)
  {
    hide Zipped, Linked, LinkedCtx, Apart, Distinct, CtxDistinct, Nodes, SideNodes, CtxNodes, Spine, Plug;
    CtxNodesSplit(c);
    assert allocated(Nodes(t)) && allocated(SideNodes(c));
    if !out { OnWayLooks(c, t, nil); }
    UpdateValueSum(node);
  }

  /** Recomputes the value sums from `node0` up to the root. */
  method UpdateValueSumsUpToRoot<K>(node0: Node<K>, ghost out: bool, ghost c: Ctx<K>, ghost t: Tree<K>, nil: Node<K>)
    requires Zipped(c, t, nil) && Sentinel(nil) && OnWay(node0, out, c, t, nil)
    modifies (Spine(c) + if out then {node0} else {})`ValueSum
    ensures Zipped(c, t, nil) && Sentinel(nil)
    ensures old(SumsOk(t) && SideSumsOk(c)) ==> SumsOk(Plug(c, t))
  {
    hide Zipped, Linked, LinkedCtx, Apart, Distinct, CtxDistinct, SumsOk, SideSumsOk, Nodes, SideNodes, CtxNodes, Plug;
    var node: Node<K> := node0;
    ghost var start, cur, sub := out, c, t;
    while node != nil
      invariant Plug(cur, sub) == Plug(c, t) && Zipped(cur, sub, nil) && Spine(cur) <= Spine(c)
      invariant Sentinel(nil) && OnWay(node, start, cur, sub, nil)
      invariant start ==> out && node == node0
      invariant old(SumsOk(t) && SideSumsOk(c)) ==> SumsOk(sub) && SideSumsOk(cur)
      decreases cur, start
    {
      assert allocated(Nodes(sub)) && allocated(CtxNodes(cur));
      if !start {
        OnWayLooks(cur, sub, nil);
        MoveUp(cur, sub, nil);
      }
      UpdateOnWay(node, start, cur, sub, nil);
      node := node.Parent;
      if !start {
        MoveUp(cur, sub, nil);
        cur, sub := cur.up, Closed(cur, sub);
      }
      start := false;
    }
    if !cur.Top? { OnWayLooks(cur, sub, nil); }
    ZipAnywhere(cur, sub, nil);
    ZipAnywhere(c, t, nil);
    PlugSums(cur, sub);
  }

  // ----- Linking and unlinking -------------------------------------------------------------

  /** Places a new node where the search for its key has ended. */
  method LinkLeaf<K>(node: Node<K>, parent: Node<K>, onLeft: bool, ghost c: Ctx<K>, nil: Node<K>)
    requires Zipped(c, Leaf, nil) && Sentinel(nil) && parent == TopOf(c, nil)
    requires node != nil && node !in CtxNodes(c) && (onLeft <==> !c.InRight?)
    modifies node`Parent, node`LeftSubtree, node`RightSubtree, node`ValueSum, parent`LeftSubtree, parent`RightSubtree
    ensures Zipped(c, Branch(Leaf, Entry(node, node.Key, node.Value), node.Color, Leaf), nil) && Sentinel(nil)
    ensures node.ValueSum == node.Value
  {
    hide Linked, CtxDistinct;
    assert allocated(CtxNodes(c)) && (!c.Top? ==> parent in CtxNodes(c) && parent != nil);
    if onLeft {
      parent.LeftSubtree := node;
    } else {
      parent.RightSubtree := node;
    }
    node.Parent := parent;
    node.LeftSubtree := nil;
    node.RightSubtree := nil;
    node.ValueSum := node.Value;
    Refilled(Refill(c, nil, parent, node, nil));
    LeafLinked(node, parent, nil);
    LeafApart(c, Entry(node, node.Key, node.Value), node.Color, nil);
  }

  lemma LeafLinked<K>(node: Node<K>, parent: Node<K>, nil: Node<K>)
    requires node.Parent == parent && node.LeftSubtree == nil && node.RightSubtree == nil
    ensures Linked(Branch(Leaf, Entry(node, node.Key, node.Value), node.Color, Leaf), node, parent, nil)
  {
  }

  lemma LeafApart<K>(c: Ctx<K>, e: Entry<K>, color: Color, nil: Node<K>)
    requires Apart(c, Leaf, nil) && e.node != nil && e.node !in CtxNodes(c)
    ensures Apart(c, Branch(Leaf, e, color, Leaf), nil)
  {
  }

  /** What is left of a node with at most one child when the node is taken out. */
  ghost function OnlyChild<K>(t: Tree<K>): Tree<K>
    requires t.Branch?
  {
    if t.left.Branch? then t.left else t.right
  }

  lemma BypassLooks<K>(c: Ctx<K>, t: Tree<K>, nil: Node<K>)
    requires Zipped(c, t, nil) && t.Branch? && (t.left.Leaf? || t.right.Leaf?)
    ensures var node, rest, parent := t.e.node, OnlyChild(t), TopOf(c, nil);
      && Linked(rest, RootOf(rest, nil), node, nil) && Apart(c, rest, nil) && Distinct(rest) && CtxDistinct(c)
      && node !in Nodes(rest) && node !in CtxNodes(c) && node != nil && node.Parent == parent
      && parent !in Nodes(rest) && RootOf(rest, nil) !in CtxNodes(c)
      && (if c.Top? then parent.LeftSubtree == node
          else parent in CtxNodes(c) && (parent.LeftSubtree == node <==> c.InLeft?))
      && LinkedCtx(c, node, parent, nil) && parent != node
  {
  }

  /** Takes a node with at most one child out; its only child moves up. */
  method Bypass<K>(node: Node<K>, child: Node<K>, parent: Node<K>, ghost c: Ctx<K>, ghost t: Tree<K>, nil: Node<K>)
    requires Zipped(c, t, nil) && Sentinel(nil) && t.Branch? && node == t.e.node && parent == TopOf(c, nil)
    requires (t.left.Leaf? || t.right.Leaf?) && child == RootOf(OnlyChild(t), nil)
    modifies child`Parent, parent`LeftSubtree, parent`RightSubtree
    ensures Zipped(c, OnlyChild(t), nil) && Sentinel(nil) && child.Parent == parent
    ensures node !in Nodes(OnlyChild(t)) && node !in CtxNodes(c)
  {
    hide Linked, LinkedCtx, CtxDistinct, Distinct, Nodes, CtxNodes, Apart;
    ghost var rest := OnlyChild(t);
    BypassLooks(c, t, nil);
    assert allocated(CtxNodes(c)) && allocated(Nodes(rest));
    child.Parent := parent;
    if parent.LeftSubtree == node {
      parent.LeftSubtree := child;
    } else {
      parent.RightSubtree := child;
    }
    Moved(Move(rest, child, node, parent, nil));
    Refilled(Refill(c, node, parent, child, nil));
  }

  ghost function Substituted<K>(t: Tree<K>, e: Entry<K>): Tree<K>
    requires t.Branch?
  {
    Branch(t.left, e, t.color, t.right)
  }

  lemma SubstituteLooks<K>(c: Ctx<K>, t: Tree<K>, e: Entry<K>, nil: Node<K>)
    requires Zipped(c, t, nil) && t.Branch?
    requires e.node != nil && e.node !in Nodes(t) && e.node !in CtxNodes(c)
    ensures Apart(c, Substituted(t, e), nil) && CtxDistinct(c)
    ensures var node, next, up, l, r := t.e.node, e.node, TopOf(c, nil), t.left, t.right;
      && node != nil && node.Parent == up && node.Color == t.color
      && Linked(l, node.LeftSubtree, node, nil) && Linked(r, node.RightSubtree, node, nil)
      && LinkedCtx(c, node, up, nil)
      && node.LeftSubtree == RootOf(l, nil) && node.RightSubtree == RootOf(r, nil)
      && Distinct(l) && Distinct(r) && Nodes(t) == Nodes(l) + {node} + Nodes(r)
      && Nodes(l) !! Nodes(r) && node !in Nodes(l) && node !in Nodes(r) && node !in CtxNodes(c)
      && next !in Nodes(l) && next !in Nodes(r) && next !in CtxNodes(c) && next != nil && next != node
      && up !in Nodes(l) && up !in Nodes(r) && up != node && up != next
      && (l.Branch? ==> RootOf(l, nil) in Nodes(l)) && (r.Branch? ==> RootOf(r, nil) in Nodes(r))
      && CtxNodes(c) !! Nodes(l) && CtxNodes(c) !! Nodes(r)
      && nil !in Nodes(l) && nil !in Nodes(r) && nil !in CtxNodes(c)
      && (if c.Top? then up == nil && nil.LeftSubtree == node
          else up in CtxNodes(c) && (up.LeftSubtree == node <==> c.InLeft?))
  {
  }

  lemma SubstitutedLinked<K>(t: Tree<K>, e: Entry<K>, parent: Node<K>, nil: Node<K>)
    requires t.Branch? && e.node.Parent == parent && Holds(e, t.color)
    requires Linked(t.left, e.node.LeftSubtree, e.node, nil) && Linked(t.right, e.node.RightSubtree, e.node, nil)
    ensures Linked(Substituted(t, e), e.node, parent, nil)
  {
  }

  /** The assignments that let `next` take over the links and the color of `node`. */
  method TakeOver<K>(node: Node<K>, next: Node<K>, ghost left: Node<K>, ghost right: Node<K>, ghost up: Node<K>)
    requires node.LeftSubtree == left && node.RightSubtree == right && node.Parent == up
    requires next != node && next != left && next != right && next != up
    requires node != left && node != right && node != up && (up.LeftSubtree == node || up.RightSubtree == node)
    modifies next`Parent, next`LeftSubtree, next`RightSubtree, next`Color, node`Color,
             left`Parent, right`Parent, up`LeftSubtree, up`RightSubtree
    ensures next.Parent == up && next.LeftSubtree == left && next.RightSubtree == right
    ensures left.Parent == next && right.Parent == next
    ensures next.Color == old(node.Color) && node.Color == old(next.Color)
    ensures if old(up.LeftSubtree) == node
            then up.LeftSubtree == next && up.RightSubtree == old(up.RightSubtree)
            else up.RightSubtree == next && up.LeftSubtree == old(up.LeftSubtree)
  {
    var delParent: Node<K> := node.Parent;
    var nextColor := next.Color;
    next.Parent := delParent;
    next.LeftSubtree := node.LeftSubtree;
    next.RightSubtree := node.RightSubtree;
    next.LeftSubtree.Parent := next;
    next.RightSubtree.Parent := next;
    next.Color := node.Color;
    node.Color := nextColor;
    if delParent.LeftSubtree == node {
      delParent.LeftSubtree := next;
    } else {
      delParent.RightSubtree := next;
    }
  }

  /** Puts the node `next`, already taken out, into the place of `node`. */
  method Substitute<K>(node: Node<K>, next: Node<K>, ghost c: Ctx<K>, ghost t: Tree<K>, nil: Node<K>)
    requires Zipped(c, t, nil) && Sentinel(nil) && t.Branch? && node == t.e.node
    requires next != nil && next !in Nodes(t) && next !in CtxNodes(c)
    modifies next`Parent, next`LeftSubtree, next`RightSubtree, next`Color, node`Color,
             Nodes(t)`Parent, nil`Parent, TopOf(c, nil)`LeftSubtree, TopOf(c, nil)`RightSubtree
    ensures Zipped(c, Substituted(t, Entry(next, next.Key, next.Value)), nil) && Sentinel(nil)
    ensures node.Color == old(next.Color) && node.Parent == TopOf(c, nil)
    ensures node.LeftSubtree != null && node.RightSubtree != null
    ensures nil.Parent == if t.left.Leaf? || t.right.Leaf? then next else old(nil.Parent)
  {
    hide Linked, LinkedCtx, CtxDistinct, Distinct, Nodes, CtxNodes, Apart;
    ghost var l, r, e := t.left, t.right, Entry(next, next.Key, next.Value);
    SubstituteLooks(c, t, e, nil);
    assert allocated(CtxNodes(c)) && allocated(Nodes(l)) && allocated(Nodes(r));
    TakeOver(node, next, RootOf(l, nil), RootOf(r, nil), TopOf(c, nil));
    Moved(Move(l, next.LeftSubtree, node, next, nil));
    Moved(Move(r, next.RightSubtree, node, next, nil));
    Refilled(Refill(c, node, node.Parent, next, nil));
    SubstitutedLinked(t, e, node.Parent, nil);
  }

  // ----- Unlinking with the sums -----------------------------------------------------------

  /** `node` has been taken out of a tree that obeyed the rules; `t` has moved to its place,
      and the color of `node` tells which node is missing. */
  ghost predicate TakenOut<K>(node: Node<K>, child: Node?<K>, c: Ctx<K>, t: Tree<K>, h: int, nil: Node<K>)
    reads nil, node, child, CtxNodes(c), Nodes(t), Nodes(Plug(c, t))
  {
    && Good(c, t, nil) && child == RootOf(t, nil) && child.Parent == TopOf(c, nil)
    && node != nil && node !in Nodes(Plug(c, t))
    && Expects(c, h)
    && if node.Color == Red then RedBlack(t, h) && RootColor(t) == Black else RedBlack(t, h - 1)
  }

  lemma OnlyChildRules<K>(c: Ctx<K>, t: Tree<K>, total: int) returns (h: int)
    requires t.Branch? && (t.left.Leaf? || t.right.Leaf?) && RedBlack(Plug(c, t), total)
    ensures Expects(c, h)
    ensures if t.color == Red then RedBlack(OnlyChild(t), h) && RootColor(OnlyChild(t)) == Black
            else RedBlack(OnlyChild(t), h - 1)
  {
    h := UnplugBlack(c, t, total);
  }

  lemma UnlinkOneLooks<K>(c: Ctx<K>, t: Tree<K>, nil: Node<K>)
    requires Good(c, t, nil) && t.Branch? && (t.left.Leaf? || t.right.Leaf?)
    ensures var node, rest := t.e.node, OnlyChild(t);
      && Zipped(c, t, nil) && Sentinel(nil) && SumsOk(rest) && SideSumsOk(c) && node.Color == t.color
      && node.LeftSubtree == RootOf(t.left, nil) && node.RightSubtree == RootOf(t.right, nil)
      && node.Parent == TopOf(c, nil) && node != nil
      && (t.left.Branch? ==> t.left.e.node != nil)
      && (rest.Branch? ==> rest.e.node in Nodes(Plug(c, t))) && (!c.Top? ==> TopOf(c, nil) in Nodes(Plug(c, t)))
      && Spine(c) <= Nodes(Plug(c, t)) && Spine(c) !! SideNodes(c) && Spine(c) !! Nodes(rest)
      && node !in Nodes(Plug(c, rest))
  {
    BypassLooks(c, t, nil);
    PlugSums(c, t);
    PlugNodes(c, t);
    PlugNodes(c, OnlyChild(t));
    CtxNodesSplit(c);
  }

  /** Unlinks a node with at most one child. */
  method UnlinkOne<K>(node: Node<K>, ghost c: Ctx<K>, ghost t: Tree<K>, ghost total: int, nil: Node<K>)
    returns (child: Node<K>, ghost h: int)
    requires Good(c, t, nil) && t.Branch? && node == t.e.node && (t.left.Leaf? || t.right.Leaf?)
    requires RedBlack(Plug(c, t), total)
    modifies Nodes(Plug(c, t))`Parent, Nodes(Plug(c, t))`LeftSubtree, Nodes(Plug(c, t))`RightSubtree,
             Nodes(Plug(c, t))`ValueSum, nil`Parent, nil`LeftSubtree, nil`RightSubtree
    ensures TakenOut(node, child, c, OnlyChild(t), h, nil)
  {
    hide Zipped, Linked, LinkedCtx, CtxDistinct, Distinct, CtxNodes, SideNodes, SideSumsOk, Plug, Nodes, SumsOk,
         Spine, Expects, RedBlack, Apart;
    UnlinkOneLooks(c, t, nil);
    h := OnlyChildRules(c, t, total);
    ghost var rest := OnlyChild(t);
    assert allocated(Nodes(rest)) && allocated(SideNodes(c));
    child := if node.LeftSubtree != nil then node.LeftSubtree else node.RightSubtree;
    var delParent: Node<K> := node.Parent;
    Bypass(node, child, delParent, c, t, nil);
    UpdateValueSumsUpToRoot(delParent, false, c, rest, nil);
  }

  // ----- Two children ------------------------------------------------------------------------

  /** The successor's place `inner` in the right subtree, seen from the root, with `e` as the
      entry of the node whose successor it is. */
  ghost function Around<K>(inner: Ctx<K>, c: Ctx<K>, t: Tree<K>, e: Entry<K>): Ctx<K>
    requires t.Branch?
  {
    Compose(inner, InRight(c, t.left, e, t.color))
  }

  /** The tree of a node with two children after its successor has taken its place. */
  ghost function Succeeded<K>(inner: Ctx<K>, t: Tree<K>, s: Tree<K>): Tree<K>
    requires t.Branch? && s.Branch?
  {
    Branch(t.left, s.e, t.color, Plug(inner, s.right))
  }

  lemma Rejoin<T>(l: seq<T>, x: T, r: seq<T>, b: seq<T>)
    ensures l + [x] + (r + b) == l + ([x] + r + b)
  {
  }

  lemma SucceededOrder<K>(inner: Ctx<K>, t: Tree<K>, s: Tree<K>)
    requires t.Branch? && s.Branch? && s.left.Leaf? && Plug(inner, s) == t.right && Before(inner) == []
    ensures Flatten(Succeeded(inner, t, s)) == Flatten(t.left) + Flatten(t.right)
  {
    PlugFlatten(inner, s);
    PlugFlatten(inner, s.right);
    assert Flatten(s) == [s.e] + Flatten(s.right);
    assert Flatten(t.right) == [s.e] + Flatten(s.right) + After(inner);
    assert Flatten(Plug(inner, s.right)) == Flatten(s.right) + After(inner);
    Rejoin(Flatten(t.left), s.e, Flatten(s.right), After(inner));
  }

  lemma SucceededShape<K>(inner: Ctx<K>, c: Ctx<K>, t: Tree<K>, s: Tree<K>)
    requires t.Branch? && s.Branch? && Plug(inner, s) == t.right
    ensures Plug(Around(inner, c, t, t.e), s) == Plug(c, t)
    ensures Plug(Around(inner, c, t, t.e), s.right) == Plug(c, Branch(t.left, t.e, t.color, Plug(inner, s.right)))
    ensures Plug(Around(inner, c, t, s.e), s.right) == Plug(c, Succeeded(inner, t, s))
    ensures Plug(InRight(c, t.left, s.e, t.color), Plug(inner, s.right)) == Plug(c, Succeeded(inner, t, s))
  {
    PlugCompose(inner, InRight(c, t.left, t.e, t.color), s);
    PlugCompose(inner, InRight(c, t.left, t.e, t.color), s.right);
    PlugCompose(inner, InRight(c, t.left, s.e, t.color), s.right);
  }

  lemma SucceededRules<K>(inner: Ctx<K>, c: Ctx<K>, t: Tree<K>, s: Tree<K>, total: int) returns (h: int)
    requires t.Branch? && s.Branch? && s.left.Leaf? && Plug(inner, s) == t.right && RedBlack(Plug(c, t), total)
    ensures Expects(Around(inner, c, t, s.e), h)
    ensures if s.color == Red then RedBlack(s.right, h) && RootColor(s.right) == Black else RedBlack(s.right, h - 1)
  {
    SucceededShape(inner, c, t, s);
    h := OnlyChildRules(Around(inner, c, t, t.e), s, total);
    ExpectsCompose(inner, c, t.left, t.e, s.e, t.color, h);
  }

  lemma UnlinkTwoLooks<K>(inner: Ctx<K>, c: Ctx<K>, t: Tree<K>, s: Tree<K>, nil: Node<K>)
    requires Good(c, t, nil) && t.Branch? && s.Branch? && s.left.Leaf? && Plug(inner, s) == t.right
    ensures var place, next := Around(inner, c, t, t.e), s.e.node;
      && Zipped(place, s, nil) && Sentinel(nil) && next.Parent == TopOf(place, nil)
      && next.RightSubtree == RootOf(s.right, nil) && next != nil && Holds(s.e, s.color)
  {
    SucceededShape(inner, c, t, s);
    GoodAnywhere(Around(inner, c, t, t.e), s, nil);
    GoodAnywhere(c, t, nil);
  }

  lemma UnlinkTwoNodes<K>(inner: Ctx<K>, c: Ctx<K>, t: Tree<K>, s: Tree<K>, nil: Node<K>)
    requires Good(c, t, nil) && t.Branch? && s.Branch? && s.left.Leaf? && Plug(inner, s) == t.right
    ensures var all, node, next := Nodes(Plug(c, t)), t.e.node, s.e.node;
      && nil !in all && next in all && node in all && next != node && node !in CtxNodes(c)
      && (s.right.Branch? ==> s.right.e.node in all)
      && TopOf(Around(inner, c, t, t.e), nil) in all && (!c.Top? ==> TopOf(c, nil) in all)
      && Nodes(t) <= all && node !in Nodes(t.left) && node !in Nodes(Plug(inner, s.right))
      && Nodes(t.left) <= all && Nodes(Plug(inner, s.right)) <= all
  {
    PlugNodes(c, t);
    PlugNodes(inner, s);
    PlugNodes(inner, s.right);
    assert s.e.node in Nodes(s) && Nodes(s.right) <= Nodes(s);
    if inner.Top? {
      assert Around(inner, c, t, t.e).e == t.e;
    } else {
      assert Around(inner, c, t, t.e).e == inner.e;
      assert inner.e.node in CtxNodes(inner);
    }
  }

  /** In the tree without the successor: what its parent pointer and the sentinel's say. */
  lemma SuccessorParent<K>(inner: Ctx<K>, c: Ctx<K>, t: Tree<K>, s: Tree<K>, nil: Node<K>)
    requires t.Branch? && t.left.Branch? && s.Branch?
    ensures var t1, place, place' := Branch(t.left, t.e, t.color, Plug(inner, s.right)), Around(inner, c, t, t.e), Around(inner, c, t, s.e);
      && if inner.Top? then TopOf(place', nil) == s.e.node && TopOf(place, nil) == t.e.node && t1.right == s.right
         else TopOf(place', nil) == TopOf(place, nil) == inner.e.node && t1.right.Branch?
  {
    if !inner.Top? { PlugIsBranch(inner, s.right); }
  }

  /** The pointers of the removal of a node with two children. */
  method MoveSuccessor<K>(node: Node<K>, next: Node<K>, nextParent: Node<K>, ghost inner: Ctx<K>, ghost s: Tree<K>,
                          ghost c: Ctx<K>, ghost t: Tree<K>, nil: Node<K>) returns (child: Node<K>)
    requires Good(c, t, nil) && t.Branch? && t.left.Branch? && node == t.e.node
    requires s.Branch? && s.left.Leaf? && next == s.e.node && Plug(inner, s) == t.right && nextParent == next.Parent
    modifies Nodes(Plug(c, t))`Parent, Nodes(Plug(c, t))`LeftSubtree, Nodes(Plug(c, t))`RightSubtree,
             Nodes(Plug(c, t))`Color, nil`Parent, nil`LeftSubtree, nil`RightSubtree
    ensures Zipped(Around(inner, c, t, s.e), s.right, nil) && Zipped(c, Succeeded(inner, t, s), nil)
    ensures Zipped(InRight(c, t.left, s.e, t.color), Plug(inner, s.right), nil) && Sentinel(nil)
    ensures child == RootOf(s.right, nil) && child.Parent == TopOf(Around(inner, c, t, s.e), nil)
    ensures node.Color == s.color
    ensures node !in Nodes(Succeeded(inner, t, s)) && node !in CtxNodes(c) && node != nil
    ensures node.Parent == TopOf(c, nil) && node.LeftSubtree != null && node.RightSubtree != null
  {
    hide Good, Zipped, Linked, LinkedCtx, CtxNodes, Plug, Nodes, Apart, Around, Compose;
    ghost var place, place' := Around(inner, c, t, t.e), Around(inner, c, t, s.e);
    ghost var t1, t2 := Branch(t.left, t.e, t.color, Plug(inner, s.right)), Succeeded(inner, t, s);
    UnlinkTwoLooks(inner, c, t, s, nil);
    UnlinkTwoNodes(inner, c, t, s, nil);
    SucceededShape(inner, c, t, s);
    SuccessorParent(inner, c, t, s, nil);
    child := next.RightSubtree;
    Bypass(next, child, nextParent, place, s, nil);
    ZipAnywhere(place, s.right, nil);
    ZipAnywhere(c, t1, nil);
    SuccessorOut(inner, c, t, s, nil);
    Substitute(node, next, c, t1, nil);
    ZipAnywhere(c, t2, nil);
    ZipAnywhere(place', s.right, nil);
    ZipAnywhere(InRight(c, t.left, s.e, t.color), Plug(inner, s.right), nil);
    ChildParent(place', s.right, nil);
    SubstitutedNodes(t1, s.e, node);
  }

  lemma SuccessorOut<K>(inner: Ctx<K>, c: Ctx<K>, t: Tree<K>, s: Tree<K>, nil: Node<K>)
    requires t.Branch? && s.Branch? && s.e.node != t.e.node
    requires s.e.node !in Nodes(s.right) && s.e.node !in CtxNodes(Around(inner, c, t, t.e))
    ensures s.e.node !in Nodes(Branch(t.left, t.e, t.color, Plug(inner, s.right))) && s.e.node !in CtxNodes(c)
    ensures Nodes(Branch(t.left, t.e, t.color, Plug(inner, s.right))) <= Nodes(t.left) + {t.e.node} + Nodes(Plug(inner, s.right))
  {
    PlugNodes(inner, s.right);
    ComposeNodes(inner, InRight(c, t.left, t.e, t.color));
  }

  lemma {:induction false} ComposeNodes<K>(inner: Ctx<K>, outer: Ctx<K>)
    ensures CtxNodes(Compose(inner, outer)) == CtxNodes(inner) + CtxNodes(outer)
  {
    if !inner.Top? { ComposeNodes(inner.up, outer); }
  }

  lemma ChildParent<K>(c: Ctx<K>, t: Tree<K>, nil: Node<K>)
    requires Zipped(c, t, nil)
    ensures t.Branch? ==> t.e.node.Parent == TopOf(c, nil)
  {
  }

  lemma SubstitutedNodes<K>(t: Tree<K>, e: Entry<K>, node: Node<K>)
    requires t.Branch? && node !in Nodes(t.left) && node !in Nodes(t.right) && node != e.node
    ensures node !in Nodes(Substituted(t, e))
  {
  }

  /** Before the removal: the sums of the parts that keep their entries. */
  lemma SuccessorSums<K>(inner: Ctx<K>, c: Ctx<K>, t: Tree<K>, s: Tree<K>)
    requires t.Branch? && s.Branch? && Plug(inner, s) == t.right && SumsOk(Plug(c, t))
    ensures SumsOk(s.right) && SideSumsOk(Around(inner, c, t, s.e)) && SideSumsOk(InRight(c, t.left, s.e, t.color))
  {
    SucceededShape(inner, c, t, s);
    PlugSums(Around(inner, c, t, t.e), s);
    ComposeSums(inner, InRight(c, t.left, t.e, t.color));
    ComposeSums(inner, InRight(c, t.left, s.e, t.color));
  }

  /** The two walks to the root leave those parts alone. */
  lemma SuccessorSpine<K>(inner: Ctx<K>, c: Ctx<K>, t: Tree<K>, s: Tree<K>, nil: Node<K>)
    requires t.Branch? && s.Branch? && Zipped(Around(inner, c, t, s.e), s.right, nil)
    ensures var place, next := Around(inner, c, t, s.e), InRight(c, t.left, s.e, t.color);
      && Spine(next) !! Nodes(s.right) && Spine(next) !! SideNodes(place)
      && Spine(place) == Spine(inner) + Spine(next) && Spine(c) <= Spine(next)
      && (inner.Top? ==> place == next && Plug(inner, s.right) == s.right)
  {
    CtxNodesSplit(Around(inner, c, t, s.e));
    ComposeSums(inner, InRight(c, t.left, s.e, t.color));
  }

  lemma SucceededSums<K>(inner: Ctx<K>, c: Ctx<K>, t: Tree<K>, s: Tree<K>, nil: Node<K>)
    requires t.Branch? && s.Branch? && inner.Top? && SumsOk(Plug(c, Succeeded(inner, t, s)))
    ensures SumsOk(Succeeded(inner, t, s)) && SideSumsOk(c)
  {
    PlugSums(c, Succeeded(inner, t, s));
  }

  /** The two walks to the root after the successor has moved; the second one starts at the
      removed node if that was the successor's parent. */
  method UpdateSuccessorSums<K>(node: Node<K>, next: Node<K>, nextParent: Node<K>, ghost inner: Ctx<K>, ghost s: Tree<K>,
                                ghost c: Ctx<K>, ghost t: Tree<K>, nil: Node<K>)
    requires t.Branch? && s.Branch? && next == s.e.node
    requires Zipped(Around(inner, c, t, s.e), s.right, nil) && Zipped(c, Succeeded(inner, t, s), nil)
    requires Zipped(InRight(c, t.left, s.e, t.color), Plug(inner, s.right), nil) && Sentinel(nil)
    requires Plug(Around(inner, c, t, s.e), s.right) == Plug(c, Succeeded(inner, t, s))
    requires Plug(InRight(c, t.left, s.e, t.color), Plug(inner, s.right)) == Plug(c, Succeeded(inner, t, s))
    requires SumsOk(s.right) && SideSumsOk(Around(inner, c, t, s.e)) && SideSumsOk(InRight(c, t.left, s.e, t.color))
    requires if inner.Top? then nextParent == node && OnWay(node, true, c, Succeeded(inner, t, s), nil)
             else nextParent == TopOf(Around(inner, c, t, s.e), nil)
    modifies (Spine(Around(inner, c, t, s.e)) + {node})`ValueSum
    ensures Good(Around(inner, c, t, s.e), s.right, nil)
  {
    ghost var place, place', t2 := InRight(c, t.left, s.e, t.color), Around(inner, c, t, s.e), Succeeded(inner, t, s);
    assert Good(place', s.right, nil) <== Zipped(place', s.right, nil) && Sentinel(nil) && SumsOk(Plug(place', s.right));
    assert OnWay(next, false, place, Plug(inner, s.right), nil);
    assert !inner.Top? ==> OnWay(nextParent, false, place', s.right, nil);
    hide Good, Zipped, Linked, LinkedCtx, CtxNodes, Plug, Nodes, Apart, Around, Compose, Spine, SideNodes, SumsOk, SideSumsOk, Succeeded;
    SuccessorSpine(inner, c, t, s, nil);
    assert allocated(Nodes(s.right)) && allocated(SideNodes(place')) && allocated(CtxNodes(place')) && allocated(CtxNodes(c)) && allocated(Nodes(t2));
    UpdateValueSumsUpToRoot(next, false, place, Plug(inner, s.right), nil);
    ZipAnywhere(place, Plug(inner, s.right), nil);
    ZipAnywhere(c, t2, nil);
    ZipAnywhere(place', s.right, nil);
    if inner.Top? { SucceededSums(inner, c, t, s, nil); }
    ghost var c', t' := if inner.Top? then c else place', if inner.Top? then t2 else s.right;
    UpdateValueSumsUpToRoot(nextParent, inner.Top?, c', t', nil);
    ZipAnywhere(c', t', nil);
    ZipAnywhere(place', s.right, nil);
  }

  /** The nodes of the two walks. */
  lemma SuccessorWalks<K>(inner: Ctx<K>, c: Ctx<K>, t: Tree<K>, s: Tree<K>, node: Node<K>, nil: Node<K>)
    requires t.Branch? && t.e.node == node && s.Branch? && s.left.Leaf? && Plug(inner, s) == t.right
    requires node !in Nodes(Succeeded(inner, t, s)) && node !in CtxNodes(c)
    ensures var place := Around(inner, c, t, s.e);
      && Plug(place, s.right) == Plug(c, Succeeded(inner, t, s))
      && Nodes(Plug(place, s.right)) == Nodes(Plug(c, t)) - {node} && Spine(place) <= Nodes(Plug(c, t))
  {
    var place := Around(inner, c, t, s.e);
    SucceededShape(inner, c, t, s);
    PlugNodes(place, s.right);
    PlugNodes(c, Succeeded(inner, t, s));
    PlugNodes(c, t);
    PlugNodes(inner, s);
    PlugNodes(inner, s.right);
    CtxNodesSplit(place);
  }

  /** Unlinks a node with two children. */
  method UnlinkTwo<K>(node: Node<K>, next: Node<K>, ghost inner: Ctx<K>, ghost s: Tree<K>,
                      ghost c: Ctx<K>, ghost t: Tree<K>, ghost total: int, nil: Node<K>)
    returns (child: Node<K>, ghost h: int)
    requires Good(c, t, nil) && t.Branch? && t.left.Branch? && node == t.e.node && RedBlack(Plug(c, t), total)
    requires s.Branch? && s.left.Leaf? && next == s.e.node && Plug(inner, s) == t.right
    modifies Nodes(Plug(c, t))`Parent, Nodes(Plug(c, t))`LeftSubtree, Nodes(Plug(c, t))`RightSubtree,
             Nodes(Plug(c, t))`ValueSum, Nodes(Plug(c, t))`Color, nil`Parent, nil`LeftSubtree, nil`RightSubtree
    ensures TakenOut(node, child, Around(inner, c, t, s.e), s.right, h, nil)
  {
    hide *;
    ghost var place := Around(inner, c, t, s.e);
    GoodSums(c, t, nil);
    UnlinkTwoLooks(inner, c, t, s, nil);
    UnlinkTwoNodes(inner, c, t, s, nil);
    SuccessorParent(inner, c, t, s, nil);
    SucceededShape(inner, c, t, s);
    SuccessorSums(inner, c, t, s);
    h := SucceededRules(inner, c, t, s, total);
    var nextParent: Node<K> := next.Parent;
    assert allocated(Nodes(s.right)) && allocated(SideNodes(place)) && allocated(SideNodes(InRight(c, t.left, s.e, t.color)));
    child := MoveSuccessor(node, next, nextParent, inner, s, c, t, nil);
    SuccessorWalks(inner, c, t, s, node, nil);
    ProceedFrom(node, inner, s, c, t, nil);
    UpdateSuccessorSums(node, next, nextParent, inner, s, c, t, nil);
    MakeTakenOut(node, child, place, s.right, h, nil);
  }

  lemma GoodSums<K>(c: Ctx<K>, t: Tree<K>, nil: Node<K>)
    requires Good(c, t, nil)
    ensures SumsOk(Plug(c, t))
  {
  }

  /** Where the second walk starts. */
  lemma ProceedFrom<K>(node: Node<K>, inner: Ctx<K>, s: Tree<K>, c: Ctx<K>, t: Tree<K>, nil: Node<K>)
    requires t.Branch? && s.Branch? && node != nil
    requires node !in Nodes(Succeeded(inner, t, s)) && node !in CtxNodes(c) && node.Parent == TopOf(c, nil)
    requires node.LeftSubtree != null && node.RightSubtree != null
    ensures OnWay(node, true, c, Succeeded(inner, t, s), nil)
    ensures inner.Top? ==> Around(inner, c, t, t.e).e.node == t.e.node
    ensures !inner.Top? ==> Around(inner, c, t, t.e).e.node == Around(inner, c, t, s.e).e.node
  {
  }

  lemma MakeTakenOut<K>(node: Node<K>, child: Node<K>, c: Ctx<K>, t: Tree<K>, h: int, nil: Node<K>)
    requires Good(c, t, nil) && child == RootOf(t, nil) && child.Parent == TopOf(c, nil)
    requires node != nil && node !in Nodes(Plug(c, t)) && Expects(c, h)
    requires if node.Color == Red then RedBlack(t, h) && RootColor(t) == Black else RedBlack(t, h - 1)
    ensures TakenOut(node, child, c, t, h, nil)
  {
  }
}
