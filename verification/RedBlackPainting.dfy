/** Reading and recoloring the nodes around the focus. */
module RedBlackPainting {
  import opened RedBlackShape
  import opened RedBlackRotation

  /** What the pointers around the focus say about its place. */
  lemma LookAround<K>(c: Ctx<K>, t: Tree<K>, nil: Node<K>)
    requires Good(c, t, nil)
    ensures t.Branch? ==>
      var n := t.e.node;
      && n.Parent == TopOf(c, nil) && n.Color == t.color && n != nil
      && n.LeftSubtree == RootOf(t.left, nil) && n.RightSubtree == RootOf(t.right, nil)
    ensures !c.Top? ==>
      var p := c.e.node;
      && p.Parent == TopOf(c.up, nil) && p.Color == c.color && p != nil
      && p.LeftSubtree == RootOf(if c.InLeft? then t else c.left, nil)
      && p.RightSubtree == RootOf(if c.InLeft? then c.right else t, nil)
      && p != RootOf(t, nil) && p != RootOf(Sibling(c), nil)
      && (t.Branch? ==> RootOf(t, nil) != RootOf(Sibling(c), nil))
      && (Sibling(c).Branch? ==> RootOf(Sibling(c), nil).Color == Sibling(c).color && Sibling(c).e.node != nil)
    ensures c.Top? ==> nil.LeftSubtree == RootOf(t, nil)
  {
    if t.Branch? {
      assert Linked(t.left, t.e.node.LeftSubtree, t.e.node, nil);
      assert Linked(t.right, t.e.node.RightSubtree, t.e.node, nil);
    }
    if !c.Top? {
      assert LinkedCtx(c.up, c.e.node, c.e.node.Parent, nil);
      var s := Sibling(c);
      if c.InLeft? {
        assert Linked(s, c.e.node.RightSubtree, c.e.node, nil);
      } else {
        assert Linked(s, c.e.node.LeftSubtree, c.e.node, nil);
      }
      assert s.Branch? ==> s.e.node in Nodes(s) && s.e.node in CtxNodes(c);
    }
  }

  lemma PlugColor<K>(c: Ctx<K>, t: Tree<K>, color: Color)
    requires t.Branch?
    ensures Alike(Plug(c, t.(color := color)), Plug(c, t))
    ensures SumsOk(Plug(c, t)) <==> SumsOk(Plug(c, t.(color := color)))
  {
    var u := t.(color := color);
    PlugNodes(c, t);
    PlugNodes(c, u);
    PlugFlatten(c, t);
    PlugFlatten(c, u);
    PlugSums(c, t);
    PlugSums(c, u);
  }

  method SetColor<K>(node: Node<K>, color: Color, ghost c: Ctx<K>, ghost t: Tree<K>, ghost nil: Node<K>)
    requires t.Branch? && node == t.e.node && Good(c, t, nil)
    modifies Nodes(Plug(c, t))`Color
    ensures Good(c, t.(color := color), nil)
    ensures Alike(Plug(c, t.(color := color)), Plug(c, t))
  {
    assert node !in Nodes(t.left) && node !in Nodes(t.right) && node !in CtxNodes(c);
    PlugNodes(c, t);
    node.Color := color;
    PlugColor(c, t, color);
  }

  method SetOwnerColor<K>(node: Node<K>, color: Color, ghost c: Ctx<K>, ghost t: Tree<K>, ghost nil: Node<K>)
    requires !c.Top? && node == c.e.node && Good(c, t, nil)
    modifies Nodes(Plug(c, t))`Color
    ensures Good(c.(color := color), t, nil)
    ensures Alike(Plug(c.(color := color), t), Plug(c, t))
  {
    hide Good, Plug, Alike;
    MoveUp(c, t, nil);
    assert Closed(c, t).(color := color) == Closed(c.(color := color), t);
    SetColor(node, color, c.up, Closed(c, t), nil);
    MoveUp(c.(color := color), t, nil);
  }

  method SetSiblingColor<K>(node: Node<K>, color: Color, ghost c: Ctx<K>, ghost t: Tree<K>, ghost nil: Node<K>)
    requires !c.Top? && Sibling(c).Branch? && node == Sibling(c).e.node && Good(c, t, nil)
    modifies Nodes(Plug(c, t))`Color
    ensures Good(WithSibling(c, Sibling(c).(color := color)), t, nil)
    ensures Alike(Plug(WithSibling(c, Sibling(c).(color := color)), t), Plug(c, t))
  {
    hide Good, Plug, Alike;
    MoveAside(c, t, nil);
    SetColor(node, color, Beside(c, t), Sibling(c), nil);
    MoveAside(WithSibling(c, Sibling(c).(color := color)), t, nil);
  }

  /** The tree after the fix-up: rules, order and sums hold; the root may still be red. */
  ghost predicate FixedUp<K>(t: Tree<K>, was: Tree<K>, nil: Node<K>)
    reads nil, Nodes(t)
  {
    Good(Top, t, nil) && Alike(t, was) && exists h: int :: RedBlack(Blacken(t), h)
  }

  lemma FixedUpAlike<K>(t: Tree<K>, was: Tree<K>, nil: Node<K>)
    requires FixedUp(t, was, nil)
    ensures Alike(t, was)
  {
  }

  /** The last statement of both fix-ups: the root becomes black. */
  method BlackenRoot<K>(ghost t: Tree<K>, nil: Node<K>, ghost was: Tree<K>) returns (ghost t': Tree<K>)
    requires FixedUp(t, was, nil) && (t.Branch? ==> nil.Color == Black)
    modifies Nodes(t)`Color, nil`Color
    ensures t' == Blacken(t) && Good(Top, t', nil) && Alike(t', was) && nil.Color == Black
    ensures exists h: int :: RedBlack(t', h)
  {
    LookAround(Top, t, nil);
    t' := Blacken(t);
    var root := nil.LeftSubtree;
    if root == nil {
      root.Color := Black;
    } else {
      SetColor(root, Black, Top, t, nil);
    }
  }
}
