/** Restoring the red-black rules after a red node has been linked at a leaf. */
module RedBlackInsertion {
  import opened RedBlackShape
  import opened RedBlackRotation
  import opened RedBlackPainting

  ghost predicate RootBlack<K>(c: Ctx<K>) {
    c.Top? || (if c.up.Top? then c.color == Black else RootBlack(c.up))
  }

  lemma {:induction false} RootBlackOf<K>(c: Ctx<K>, t: Tree<K>)
    requires RootColor(Plug(c, t)) == Black
    ensures RootBlack(c)
    decreases c
  {
    if !c.Top? {
      if c.up.Top? { assert Plug(c, t) == Closed(c, t); } else { RootBlackOf(c.up, Closed(c, t)); }
    }
  }

  /** Every rule holds, except that the red focus may have a red parent. */
  ghost predicate RedFocus<K>(c: Ctx<K>, t: Tree<K>, h: int) {
    t.Branch? && t.color == Red && RedBlack(t, h) && Expects(c, h) && RootBlack(c)
  }

  /** One recoloring: parent and uncle become black, the grandparent red. */
  ghost function Recolored<K>(c: Ctx<K>, t: Tree<K>): Tree<K>
    requires !c.Top? && !c.up.Top? && Sibling(c.up).Branch?
  {
    var uncle := Sibling(c.up).(color := Black);
    Closed(WithSibling(c.up, uncle).(color := Red), Closed(c.(color := Black), t))
  }

  lemma RecoloredIsRed<K>(c: Ctx<K>, t: Tree<K>, h: int)
    requires RedFocus(c, t, h) && !c.Top? && c.color == Red
    ensures !c.up.Top?
    ensures RootColor(Sibling(c.up)) == Red ==> RedFocus(c.up.up, Recolored(c, t), h + 1)
  {
    assert RootBlack(c.up) && Expects(c.up, h);
    assert RedBlack(Closed(c.(color := Black), t), h + 1);
  }

  method Recolor<K>(parent: Node<K>, uncle: Node<K>, grandpa: Node<K>,
                    ghost c: Ctx<K>, ghost t: Tree<K>, ghost nil: Node<K>)
    requires !c.Top? && !c.up.Top? && Sibling(c.up).Branch? && Good(c, t, nil)
    requires parent == c.e.node && uncle == Sibling(c.up).e.node && grandpa == c.up.e.node
    modifies Nodes(Plug(c, t))`Color
    ensures Good(c.up.up, Recolored(c, t), nil)
    ensures Alike(Plug(c.up.up, Recolored(c, t)), Plug(c, t))
  {
    hide Good, Plug, Flatten, Nodes, CtxNodes;
    SetOwnerColor(parent, Black, c, t, nil);
    ghost var p := Closed(c.(color := Black), t);
    MoveUp(c.(color := Black), t, nil);
    SetSiblingColor(uncle, Black, c.up, p, nil);
    ghost var up := WithSibling(c.up, Sibling(c.up).(color := Black));
    SetOwnerColor(grandpa, Red, up, p, nil);
    MoveUp(up.(color := Red), p, nil);
  }

  /** The parent's subtree with the red child on the outer side. */
  ghost function Straightened<K>(c: Ctx<K>, t: Tree<K>): (p: Tree<K>)
    requires !c.Top? && !c.up.Top? && t.Branch?
    ensures p.Branch?
  {
    var p := Closed(c, t);
    if c.up.InLeft? && c.InRight? then RotatedLeft(p)
    else if c.up.InRight? && c.InLeft? then RotatedRight(p)
    else p
  }

  /** The grandparent's subtree after the final rotation. */
  ghost function Settled<K>(c: Ctx<K>, t: Tree<K>): (g: Tree<K>)
    requires !c.Top? && !c.up.Top? && t.Branch?
    ensures g.Branch?
  {
    var up := c.up.(color := Red);
    var g := Closed(up, Straightened(c, t).(color := Black));
    if c.up.InLeft? then RotatedRight(g) else RotatedLeft(g)
  }

  lemma SettledIsRedBlack<K>(c: Ctx<K>, t: Tree<K>, h: int)
    requires RedFocus(c, t, h) && !c.Top? && c.color == Red && !c.up.Top?
    requires RootColor(Sibling(c.up)) == Black
    ensures RedBlack(Settled(c, t), h + 1) && Settled(c, t).color == Black
    ensures Expects(c.up.up, h + 1)
  {
    assert RootBlack(c.up) && Expects(c.up, h);
    assert RedBlack(Sibling(c), h) && RootColor(Sibling(c)) == Black;
    var p := Straightened(c, t);
    assert RedBlack(p.left, h) && RedBlack(p.right, h);
    assert RootColor(p.left) == Red || RootColor(p.right) == Red;
  }

  /** The case of a black uncle on the right: at most one rotation of the parent, then one
      of the grandparent. */
  method SettleLeft<K>(node: Node<K>, parent: Node<K>, grandpa: Node<K>,
                       ghost c: Ctx<K>, ghost t: Tree<K>, ghost nil: Node<K>)
    requires !c.Top? && c.up.InLeft? && t.Branch? && Good(c, t, nil)
    requires node == t.e.node && parent == c.e.node && grandpa == c.up.e.node
    modifies Nodes(Plug(c, t))`Parent, Nodes(Plug(c, t))`LeftSubtree, Nodes(Plug(c, t))`RightSubtree,
             Nodes(Plug(c, t))`ValueSum, Nodes(Plug(c, t))`Color,
             nil`LeftSubtree, nil`RightSubtree, nil`Parent
    ensures Good(c.up.up, Settled(c, t), nil)
    ensures Alike(Plug(c.up.up, Settled(c, t)), Plug(c, t))
  {
    LookAround(c, t, nil);
    MoveUp(c, t, nil);
    hide Good, Plug, Flatten, Nodes, CtxNodes;
    ghost var p := Closed(c, t);
    ghost var cp := c.up;
    var middle := parent;
    if node == parent.RightSubtree {
      RotateLeft(parent, cp, p, nil);
      p := RotatedLeft(p);
      middle := node;
    }
    SetColor(middle, Black, cp, p, nil);
    p := p.(color := Black);
    SetOwnerColor(grandpa, Red, cp, p, nil);
    cp := InLeft(cp.up, cp.e, Red, cp.right);
    MoveUp(cp, p, nil);
    RotateRight(grandpa, cp.up, Closed(cp, p), nil);
  }
  /** The case of a black uncle on the left: at most one rotation of the parent, then one
      of the grandparent. */
  method SettleRight<K>(node: Node<K>, parent: Node<K>, grandpa: Node<K>,
                       ghost c: Ctx<K>, ghost t: Tree<K>, ghost nil: Node<K>)
    requires !c.Top? && c.up.InRight? && t.Branch? && Good(c, t, nil)
    requires node == t.e.node && parent == c.e.node && grandpa == c.up.e.node
    modifies Nodes(Plug(c, t))`Parent, Nodes(Plug(c, t))`LeftSubtree, Nodes(Plug(c, t))`RightSubtree,
             Nodes(Plug(c, t))`ValueSum, Nodes(Plug(c, t))`Color,
             nil`LeftSubtree, nil`RightSubtree, nil`Parent
    ensures Good(c.up.up, Settled(c, t), nil)
    ensures Alike(Plug(c.up.up, Settled(c, t)), Plug(c, t))
  {
    LookAround(c, t, nil);
    MoveUp(c, t, nil);
    hide Good, Plug, Flatten, Nodes, CtxNodes;
    ghost var p := Closed(c, t);
    ghost var cp := c.up;
    var middle := parent;
    if node == parent.LeftSubtree {
      RotateRight(parent, cp, p, nil);
      p := RotatedRight(p);
      middle := node;
    }
    SetColor(middle, Black, cp, p, nil);
    p := p.(color := Black);
    SetOwnerColor(grandpa, Red, cp, p, nil);
    cp := InRight(cp.up, cp.left, cp.e, Red);
    MoveUp(cp, p, nil);
    RotateLeft(grandpa, cp.up, Closed(cp, p), nil);
  }

  /** Both ends of the fix-up loop leave a tree whose rules hold once its root is black. */
  lemma FixedUpIsRedBlack<K>(c: Ctx<K>, t: Tree<K>, h: int)
    requires (RedFocus(c, t, h) && (c.Top? || c.color == Black))
          || (RedBlack(t, h) && RootColor(t) == Black && Expects(c, h))
    ensures exists total: int :: RedBlack(Blacken(Plug(c, t)), total)
  {
    var total := PlugBlack(c, t, if c.Top? && RootColor(t) == Red then h + 1 else h);
  }

  /** The invariant of the fix-up loop: `node` is red, nothing else is wrong, and the tree
      holds the nodes of `was` in the same order. */
  ghost predicate Climbing<K>(c: Ctx<K>, t: Tree<K>, h: int, node: Node<K>, parent: Node?<K>, was: Tree<K>, nil: Node<K>)
    reads nil, CtxNodes(c), Nodes(t), Nodes(Plug(c, t))
  {
    && RedFocus(c, t, h) && Good(c, t, nil) && nil.Color == Black
    && node == t.e.node && parent == TopOf(c, nil) && Alike(Plug(c, t), was)
  }

  lemma StartClimb<K>(c: Ctx<K>, t: Tree<K>, h: int, nil: Node<K>)
    requires RedFocus(c, t, h) && Good(c, t, nil) && nil.Color == Black
    ensures Climbing(c, t, h, t.e.node, t.e.node.Parent, Plug(c, t), nil)
  {
    LookAround(c, t, nil);
  }

  lemma ClimbingLooks<K>(c: Ctx<K>, t: Tree<K>, h: int, node: Node<K>, parent: Node?<K>, was: Tree<K>, nil: Node<K>)
    requires Climbing(c, t, h, node, parent, was, nil)
    ensures parent != null && node.Parent == parent && t.Branch? && node == t.e.node
    ensures parent.Color == (if c.Top? then Black else c.color)
    ensures parent.Color == Red ==>
      && !c.Top? && !c.up.Top? && parent == c.e.node && parent.Parent == c.up.e.node
      && var grandpa := c.up.e.node;
      && (parent == grandpa.LeftSubtree <==> c.up.InLeft?)
      && var uncle := if c.up.InLeft? then grandpa.RightSubtree else grandpa.LeftSubtree;
      && uncle == RootOf(Sibling(c.up), nil) && uncle.Color == RootColor(Sibling(c.up))
    ensures parent.Color == Black ==> FixedUp(Plug(c, t), was, nil)
  {
    LookAround(c, t, nil);
    if !c.Top? {
      MoveUp(c, t, nil);
      LookAround(c.up, Closed(c, t), nil);
    }
    if parent.Color == Black {
      FixedUpIsRedBlack(c, t, h);
      GoodAnywhere(c, t, nil);
    }
  }

  method RecolorAndClimb<K>(parent: Node<K>, uncle: Node<K>, grandpa: Node<K>,
                            ghost c: Ctx<K>, ghost t: Tree<K>, ghost h: int, ghost node: Node<K>,
                            ghost was: Tree<K>, ghost nil: Node<K>)
    requires Climbing(c, t, h, node, parent, was, nil) && !c.Top? && c.color == Red && !c.up.Top?
    requires RootColor(Sibling(c.up)) == Red && uncle == RootOf(Sibling(c.up), nil) && grandpa == c.up.e.node
    modifies Nodes(was)`Color
    ensures Climbing(c.up.up, Recolored(c, t), h + 1, grandpa, grandpa.Parent, was, nil)
  {
    RecoloredIsRed(c, t, h);
    PlugNodes(c, t);
    assert nil !in Nodes(was);
    hide Good, Plug, Flatten, Nodes, CtxNodes, RedFocus;
    Recolor(parent, uncle, grandpa, c, t, nil);
    LookAround(c.up.up, Recolored(c, t), nil);
  }

  method FinishLeft<K>(node: Node<K>, parent: Node<K>, grandpa: Node<K>, ghost c: Ctx<K>, ghost t: Tree<K>,
                       ghost h: int, ghost was: Tree<K>, ghost nil: Node<K>)
    requires Climbing(c, t, h, node, parent, was, nil) && !c.Top? && c.color == Red && c.up.InLeft?
    requires RootColor(Sibling(c.up)) == Black && grandpa == c.up.e.node
    modifies Nodes(was)`Parent, Nodes(was)`LeftSubtree, Nodes(was)`RightSubtree, Nodes(was)`ValueSum,
             Nodes(was)`Color, nil`LeftSubtree, nil`RightSubtree, nil`Parent
    ensures FixedUp(Plug(c.up.up, Settled(c, t)), was, nil)
  {
    SettledIsRedBlack(c, t, h);
    FixedUpIsRedBlack(c.up.up, Settled(c, t), h + 1);
    hide Good, Plug, Flatten, Nodes, CtxNodes, Settled, RedFocus, RedBlack;
    SettleLeft(node, parent, grandpa, c, t, nil);
    GoodAnywhere(c.up.up, Settled(c, t), nil);
  }

  method FinishRight<K>(node: Node<K>, parent: Node<K>, grandpa: Node<K>, ghost c: Ctx<K>, ghost t: Tree<K>,
                       ghost h: int, ghost was: Tree<K>, ghost nil: Node<K>)
    requires Climbing(c, t, h, node, parent, was, nil) && !c.Top? && c.color == Red && c.up.InRight?
    requires RootColor(Sibling(c.up)) == Black && grandpa == c.up.e.node
    modifies Nodes(was)`Parent, Nodes(was)`LeftSubtree, Nodes(was)`RightSubtree, Nodes(was)`ValueSum,
             Nodes(was)`Color, nil`LeftSubtree, nil`RightSubtree, nil`Parent
    ensures FixedUp(Plug(c.up.up, Settled(c, t)), was, nil)
  {
    SettledIsRedBlack(c, t, h);
    FixedUpIsRedBlack(c.up.up, Settled(c, t), h + 1);
    hide Good, Plug, Flatten, Nodes, CtxNodes, Settled, RedFocus, RedBlack;
    SettleRight(node, parent, grandpa, c, t, nil);
    GoodAnywhere(c.up.up, Settled(c, t), nil);
  }

  /** The fix-up loop of an insertion. */
  method FixInsertion<K>(node0: Node<K>, ghost c0: Ctx<K>, ghost t0: Tree<K>, ghost h0: int,
                         ghost was: Tree<K>, ghost nil: Node<K>)
    returns (ghost t': Tree<K>)
    requires Climbing(c0, t0, h0, node0, node0.Parent, was, nil)
    modifies Nodes(was)`Parent, Nodes(was)`LeftSubtree, Nodes(was)`RightSubtree, Nodes(was)`ValueSum,
             Nodes(was)`Color, nil`LeftSubtree, nil`RightSubtree, nil`Parent
    ensures FixedUp(t', was, nil)
  {
    hide *;
    var node: Node<K> := node0;
    var parent: Node?<K> := node.Parent;
    ghost var c, t, h := c0, t0, h0;
    ClimbingLooks(c, t, h, node, parent, was, nil);
    t' := Plug(c, t);
    while parent.Color == Red
      invariant Climbing(c, t, h, node, parent, was, nil) && parent != null && t' == Plug(c, t)
      invariant parent.Color == Black ==> FixedUp(t', was, nil)
      decreases c
    {
      ClimbingLooks(c, t, h, node, parent, was, nil);
      var grandpa: Node<K> := parent.Parent;
      if parent == grandpa.LeftSubtree {
        var uncle: Node<K> := grandpa.RightSubtree;
        if uncle.Color == Red {
          RecolorAndClimb(parent, uncle, grandpa, c, t, h, node, was, nil);
          c, t, h := c.up.up, Recolored(c, t), h + 1;
          node, parent := grandpa, grandpa.Parent;
        } else {
          FinishLeft(node, parent, grandpa, c, t, h, was, nil);
          t' := Plug(c.up.up, Settled(c, t));
          break;
        }
      } else {
        var uncle: Node<K> := grandpa.LeftSubtree;
        if uncle.Color == Red {
          RecolorAndClimb(parent, uncle, grandpa, c, t, h, node, was, nil);
          c, t, h := c.up.up, Recolored(c, t), h + 1;
          node, parent := grandpa, grandpa.Parent;
        } else {
          FinishRight(node, parent, grandpa, c, t, h, was, nil);
          t' := Plug(c.up.up, Settled(c, t));
          break;
        }
      }
      ClimbingLooks(c, t, h, node, parent, was, nil);
      t' := Plug(c, t);
    }
  }
}
