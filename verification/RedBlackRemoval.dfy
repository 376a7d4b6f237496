/** Restoring the red-black rules after a black node has been unlinked. */
module RedBlackRemoval {
  import opened RedBlackShape
  import opened RedBlackRotation
  import opened RedBlackPainting

  /** The root was painted red, so that the fix-up loop stops there at the latest. */
  ghost predicate RootPainted<K>(c: Ctx<K>) {
    c.Top? || (if c.up.Top? then c.color == Red else RootPainted(c.up))
  }

  /** The focus has black height `h`, one less than its place expects.  A red focus only
      needs to become black. */
  ghost predicate Lacking<K>(c: Ctx<K>, t: Tree<K>, h: int) {
    && Expects(c, h + 1)
    && if RootColor(t) == Red then RedBlack(t.left, h) && RedBlack(t.right, h)
       else if c.Top? then t.Leaf? else RedBlack(t, h) && RootPainted(c)
  }

  /** The same with a black focus and a black sister. */
  ghost predicate LackingBeside<K>(c: Ctx<K>, t: Tree<K>, h: int) {
    && !c.Top? && Expects(c, h + 1) && RedBlack(t, h) && RootColor(t) == Black
    && RootColor(Sibling(c)) == Black && (c.color == Red || RootPainted(c))
  }

  ghost function Outer<K>(c: Ctx<K>): Tree<K>
    requires !c.Top? && Sibling(c).Branch?
  {
    if c.InLeft? then Sibling(c).right else Sibling(c).left
  }

  ghost function Inner<K>(c: Ctx<K>): Tree<K>
    requires !c.Top? && Sibling(c).Branch?
  {
    if c.InLeft? then Sibling(c).left else Sibling(c).right
  }

  lemma {:induction false} HeightPositive<K>(t: Tree<K>, h: int)
    requires RedBlack(t, h)
    ensures h >= 1
  {
    if t.Branch? { HeightPositive(t.left, if t.color == Black then h - 1 else h); }
  }

  // ----- Step one: a red sister is rotated up --------------------------------------------

  ghost function Raised<K>(c: Ctx<K>): Ctx<K>
    requires !c.Top? && Sibling(c).Branch?
  {
    var s := Sibling(c);
    if c.InLeft? then InLeft(InLeft(c.up, s.e, Black, s.right), c.e, Red, s.left)
    else InRight(InRight(c.up, s.left, s.e, Black), s.right, c.e, Red)
  }

  lemma RaisedIsLacking<K>(c: Ctx<K>, t: Tree<K>, h: int)
    requires Lacking(c, t, h) && !c.Top? && RootColor(t) == Black && RootColor(Sibling(c)) == Red
    ensures LackingBeside(Raised(c), t, h)
  {
  }

  // ----- Step two: both nephews black, the sister gives up a level -----------------------

  ghost function Weakened<K>(c: Ctx<K>, t: Tree<K>): Tree<K>
    requires !c.Top? && Sibling(c).Branch?
  {
    Closed(WithSibling(c, Sibling(c).(color := Red)), t)
  }

  lemma SisterExists<K>(c: Ctx<K>, t: Tree<K>, h: int)
    requires LackingBeside(c, t, h)
    ensures Sibling(c).Branch?
  {
    HeightPositive(t, h);
  }

  lemma WeakenedIsLacking<K>(c: Ctx<K>, t: Tree<K>, h: int)
    requires LackingBeside(c, t, h) && Sibling(c).Branch?
    requires RootColor(Outer(c)) == Black && RootColor(Inner(c)) == Black
    ensures exists h' :: Lacking(c.up, Weakened(c, t), h')
  {
    assert RedBlack(Sibling(c).(color := Red), h);
    assert Lacking(c.up, Weakened(c, t), if c.color == Red then h else h + 1);
  }

  // ----- Step three: a red nephew is rotated in ------------------------------------------

  /** The sister's subtree with a red outer nephew. */
  ghost function Twisted<K>(c: Ctx<K>): (s: Tree<K>)
    requires !c.Top? && Sibling(c).Branch? && (Inner(c).Branch? || RootColor(Outer(c)) == Red)
    ensures s.Branch?
  {
    var s := Sibling(c);
    if RootColor(Outer(c)) == Red then s
    else if c.InLeft? then RotatedRight(Branch(Inner(c).(color := Black), s.e, Red, s.right))
    else RotatedLeft(Branch(s.left, s.e, Red, Inner(c).(color := Black)))
  }

  /** The parent's subtree after the last rotation. */
  ghost function Balanced<K>(c: Ctx<K>, t: Tree<K>): Tree<K>
    requires !c.Top? && Sibling(c).Branch? && Outer(c).Branch?
  {
    var s := Sibling(c);
    if c.InLeft? then Branch(Branch(t, c.e, Black, s.left), s.e, c.color, s.right.(color := Black))
    else Branch(s.left.(color := Black), s.e, c.color, Branch(s.right, c.e, Black, t))
  }

  lemma TwistedIsLacking<K>(c: Ctx<K>, t: Tree<K>, h: int)
    requires LackingBeside(c, t, h) && Sibling(c).Branch?
    requires RootColor(Outer(c)) == Red || RootColor(Inner(c)) == Red
    ensures LackingBeside(WithSibling(c, Twisted(c)), t, h)
    ensures RootColor(Outer(WithSibling(c, Twisted(c)))) == Red
  {
    var w := Twisted(c);
    assert RedBlack(Sibling(c).left, h) && RedBlack(Sibling(c).right, h);
    assert RedBlack(w.left, h) && RedBlack(w.right, h);
  }

  lemma BalancedIsRedBlack<K>(c: Ctx<K>, t: Tree<K>, h: int)
    requires LackingBeside(c, t, h) && Sibling(c).Branch? && RootColor(Outer(c)) == Red
    ensures exists total: int :: RedBlack(Blacken(Plug(c.up, Balanced(c, t))), total)
  {
    var b := Balanced(c, t);
    assert RedBlack(Sibling(c).left, h) && RedBlack(Sibling(c).right, h);
    assert RedBlack(b.left, h + 1) && RedBlack(b.right, h + 1);
    if c.up.Top? {
      assert Plug(c.up, b) == b && RedBlack(Blacken(b), h + 2);
    } else {
      var total := PlugBlack(c.up, b, if c.color == Black then h + 2 else h + 1);
    }
  }

  // ----- The steps on the heap -----------------------------------------------------------

  /** The child is on the left and its sister is red. */
  method RaiseLeft<K>(parent: Node<K>, sister: Node<K>, ghost c: Ctx<K>, ghost t: Tree<K>, ghost nil: Node<K>)
    requires c.InLeft? && Sibling(c).Branch? && Good(c, t, nil)
    requires parent == c.e.node && sister == Sibling(c).e.node
    modifies Nodes(Plug(c, t))`Parent, Nodes(Plug(c, t))`LeftSubtree, Nodes(Plug(c, t))`RightSubtree,
             Nodes(Plug(c, t))`ValueSum, Nodes(Plug(c, t))`Color,
             nil`LeftSubtree, nil`RightSubtree, nil`Parent
    ensures Good(Raised(c), t, nil) && Alike(Plug(Raised(c), t), Plug(c, t))
  {
    hide Good, Plug, Nodes, CtxNodes, Flatten;
    ghost var s := c.right;
    SetSiblingColor(sister, Black, c, t, nil);
    SetOwnerColor(parent, Red, InLeft(c.up, c.e, c.color, s.(color := Black)), t, nil);
    ghost var c2 := InLeft(c.up, c.e, Red, s.(color := Black));
    MoveUp(c2, t, nil);
    RotateLeft(parent, c.up, Closed(c2, t), nil);
    MoveUp(Raised(c).up, Closed(Raised(c), t), nil);
    MoveUp(Raised(c), t, nil);
  }

  /** The child is on the left and its outer nephew is black, the inner one red. */
  method TwistLeft<K>(sister: Node<K>, nephew: Node<K>, ghost c: Ctx<K>, ghost t: Tree<K>, ghost nil: Node<K>)
    requires c.InLeft? && Sibling(c).Branch? && Inner(c).Branch? && RootColor(Outer(c)) == Black && Good(c, t, nil)
    requires sister == Sibling(c).e.node && nephew == Inner(c).e.node
    modifies Nodes(Plug(c, t))`Parent, Nodes(Plug(c, t))`LeftSubtree, Nodes(Plug(c, t))`RightSubtree,
             Nodes(Plug(c, t))`ValueSum, Nodes(Plug(c, t))`Color,
             nil`LeftSubtree, nil`RightSubtree, nil`Parent
    ensures Good(WithSibling(c, Twisted(c)), t, nil)
    ensures Alike(Plug(WithSibling(c, Twisted(c)), t), Plug(c, t))
  {
    hide Good, Plug, Nodes, CtxNodes, Flatten;
    ghost var s := c.right;
    ghost var beside := Beside(c, t);
    MoveAside(c, t, nil);
    MoveUp(InLeft(beside, s.e, s.color, s.right), s.left, nil);
    SetColor(nephew, Black, InLeft(beside, s.e, s.color, s.right), s.left, nil);
    ghost var i := s.left.(color := Black);
    MoveUp(InLeft(beside, s.e, s.color, s.right), i, nil);
    SetColor(sister, Red, beside, Branch(i, s.e, s.color, s.right), nil);
    RotateRight(sister, beside, Branch(i, s.e, Red, s.right), nil);
    MoveAside(WithSibling(c, Twisted(c)), t, nil);
  }

  /** The child is on the left and its outer nephew is red. */
  method BalanceLeft<K>(parent: Node<K>, sister: Node<K>, nephew: Node<K>,
                        ghost c: Ctx<K>, ghost t: Tree<K>, ghost nil: Node<K>)
    requires c.InLeft? && Sibling(c).Branch? && Outer(c).Branch? && Good(c, t, nil)
    requires parent == c.e.node && sister == Sibling(c).e.node && nephew == Outer(c).e.node
    modifies Nodes(Plug(c, t))`Parent, Nodes(Plug(c, t))`LeftSubtree, Nodes(Plug(c, t))`RightSubtree,
             Nodes(Plug(c, t))`ValueSum, Nodes(Plug(c, t))`Color,
             nil`LeftSubtree, nil`RightSubtree, nil`Parent
    ensures Good(c.up, Balanced(c, t), nil) && Alike(Plug(c.up, Balanced(c, t)), Plug(c, t))
  {
    LookAround(c, t, nil);
    hide Good, Plug, Nodes, CtxNodes, Flatten;
    ghost var s := c.right;
    SetSiblingColor(sister, parent.Color, c, t, nil);
    ghost var s1 := s.(color := c.color);
    ghost var c1 := InLeft(c.up, c.e, c.color, s1);
    ghost var beside := Beside(c1, t);
    MoveAside(c1, t, nil);
    MoveUp(InRight(beside, s.left, s.e, c.color), s.right, nil);
    SetColor(nephew, Black, InRight(beside, s.left, s.e, c.color), s.right, nil);
    ghost var o := s.right.(color := Black);
    MoveUp(InRight(beside, s.left, s.e, c.color), o, nil);
    ghost var c2 := InLeft(c.up, c.e, c.color, Branch(s.left, s.e, c.color, o));
    MoveAside(c2, t, nil);
    SetOwnerColor(parent, Black, c2, t, nil);
    ghost var c3 := InLeft(c.up, c.e, Black, Branch(s.left, s.e, c.color, o));
    MoveUp(c3, t, nil);
    RotateLeft(parent, c.up, Closed(c3, t), nil);
  }

  /** The child is on the right and its sister is red. */
  method RaiseRight<K>(parent: Node<K>, sister: Node<K>, ghost c: Ctx<K>, ghost t: Tree<K>, ghost nil: Node<K>)
    requires c.InRight? && Sibling(c).Branch? && Good(c, t, nil)
    requires parent == c.e.node && sister == Sibling(c).e.node
    modifies Nodes(Plug(c, t))`Parent, Nodes(Plug(c, t))`RightSubtree, Nodes(Plug(c, t))`LeftSubtree,
             Nodes(Plug(c, t))`ValueSum, Nodes(Plug(c, t))`Color,
             nil`RightSubtree, nil`LeftSubtree, nil`Parent
    ensures Good(Raised(c), t, nil) && Alike(Plug(Raised(c), t), Plug(c, t))
  {
    hide Good, Plug, Nodes, CtxNodes, Flatten;
    ghost var s := c.left;
    SetSiblingColor(sister, Black, c, t, nil);
    SetOwnerColor(parent, Red, InRight(c.up, s.(color := Black), c.e, c.color), t, nil);
    ghost var c2 := InRight(c.up, s.(color := Black), c.e, Red);
    MoveUp(c2, t, nil);
    RotateRight(parent, c.up, Closed(c2, t), nil);
    MoveUp(Raised(c).up, Closed(Raised(c), t), nil);
    MoveUp(Raised(c), t, nil);
  }

  /** The child is on the right and its outer nephew is black, the inner one red. */
  method TwistRight<K>(sister: Node<K>, nephew: Node<K>, ghost c: Ctx<K>, ghost t: Tree<K>, ghost nil: Node<K>)
    requires c.InRight? && Sibling(c).Branch? && Inner(c).Branch? && RootColor(Outer(c)) == Black && Good(c, t, nil)
    requires sister == Sibling(c).e.node && nephew == Inner(c).e.node
    modifies Nodes(Plug(c, t))`Parent, Nodes(Plug(c, t))`RightSubtree, Nodes(Plug(c, t))`LeftSubtree,
             Nodes(Plug(c, t))`ValueSum, Nodes(Plug(c, t))`Color,
             nil`RightSubtree, nil`LeftSubtree, nil`Parent
    ensures Good(WithSibling(c, Twisted(c)), t, nil)
    ensures Alike(Plug(WithSibling(c, Twisted(c)), t), Plug(c, t))
  {
    hide Good, Plug, Nodes, CtxNodes, Flatten;
    ghost var s := c.left;
    ghost var beside := Beside(c, t);
    MoveAside(c, t, nil);
    MoveUp(InRight(beside, s.left, s.e, s.color), s.right, nil);
    SetColor(nephew, Black, InRight(beside, s.left, s.e, s.color), s.right, nil);
    ghost var i := s.right.(color := Black);
    MoveUp(InRight(beside, s.left, s.e, s.color), i, nil);
    SetColor(sister, Red, beside, Branch(s.left, s.e, s.color, i), nil);
    RotateLeft(sister, beside, Branch(s.left, s.e, Red, i), nil);
    MoveAside(WithSibling(c, Twisted(c)), t, nil);
  }

  /** The child is on the right and its outer nephew is red. */
  method BalanceRight<K>(parent: Node<K>, sister: Node<K>, nephew: Node<K>,
                        ghost c: Ctx<K>, ghost t: Tree<K>, ghost nil: Node<K>)
    requires c.InRight? && Sibling(c).Branch? && Outer(c).Branch? && Good(c, t, nil)
    requires parent == c.e.node && sister == Sibling(c).e.node && nephew == Outer(c).e.node
    modifies Nodes(Plug(c, t))`Parent, Nodes(Plug(c, t))`RightSubtree, Nodes(Plug(c, t))`LeftSubtree,
             Nodes(Plug(c, t))`ValueSum, Nodes(Plug(c, t))`Color,
             nil`RightSubtree, nil`LeftSubtree, nil`Parent
    ensures Good(c.up, Balanced(c, t), nil) && Alike(Plug(c.up, Balanced(c, t)), Plug(c, t))
  {
    LookAround(c, t, nil);
    hide Good, Plug, Nodes, CtxNodes, Flatten;
    ghost var s := c.left;
    SetSiblingColor(sister, parent.Color, c, t, nil);
    ghost var s1 := s.(color := c.color);
    ghost var c1 := InRight(c.up, s1, c.e, c.color);
    ghost var beside := Beside(c1, t);
    MoveAside(c1, t, nil);
    MoveUp(InLeft(beside, s.e, c.color, s.right), s.left, nil);
    SetColor(nephew, Black, InLeft(beside, s.e, c.color, s.right), s.left, nil);
    ghost var o := s.left.(color := Black);
    MoveUp(InLeft(beside, s.e, c.color, s.right), o, nil);
    ghost var c2 := InRight(c.up, Branch(o, s.e, c.color, s.right), c.e, c.color);
    MoveAside(c2, t, nil);
    SetOwnerColor(parent, Black, c2, t, nil);
    ghost var c3 := InRight(c.up, Branch(o, s.e, c.color, s.right), c.e, Black);
    MoveUp(c3, t, nil);
    RotateRight(parent, c.up, Closed(c3, t), nil);
  }

  // ----- The loop -------------------------------------------------------------------------

  ghost function Depth<K>(c: Ctx<K>): nat {
    if c.Top? then 0 else Depth(c.up) + 1
  }

  /** The invariant of the fix-up loop: only the subtree of `child` lacks one black node. */
  ghost predicate Sinking<K>(c: Ctx<K>, t: Tree<K>, h: int, child: Node?<K>, was: Tree<K>, nil: Node<K>)
    reads nil, CtxNodes(c), Nodes(t), Nodes(Plug(c, t)), child
  {
    && Lacking(c, t, h) && Good(c, t, nil) && Alike(Plug(c, t), was) && child == RootOf(t, nil)
    && (!c.Top? ==> child.Parent == TopOf(c, nil))
    && nil.Color == if c.Top? && t.Leaf? then Red else Black
  }

  /** In the middle of a loop body. */
  ghost predicate SinkingBeside<K>(c: Ctx<K>, t: Tree<K>, h: int, child: Node?<K>, parent: Node<K>, sister: Node?<K>,
                                   was: Tree<K>, nil: Node<K>)
    reads nil, CtxNodes(c), Nodes(t), Nodes(Plug(c, t))
  {
    && LackingBeside(c, t, h) && Good(c, t, nil) && Alike(Plug(c, t), was) && child == RootOf(t, nil)
    && nil.Color == Black && parent == c.e.node && sister == RootOf(Sibling(c), nil)
  }

  lemma TallIsBranch<K>(t: Tree<K>, h: int)
    requires RedBlack(t, h) && h > 1
    ensures t.Branch?
  {
  }

  lemma SinkingLooks<K>(c: Ctx<K>, t: Tree<K>, h: int, child: Node?<K>, was: Tree<K>, nil: Node<K>)
    requires Sinking(c, t, h, child, was, nil)
    ensures child != null && nil !in Nodes(was) && (child == nil || child in Nodes(was))
    ensures !c.Top? ==> Depth(c.up) == Depth(c) - 1
    ensures child.Color == Red ==> RootColor(t) == Red || (c.Top? && t.Leaf?)
    ensures child.Color == Black ==>
      && !c.Top? && RootColor(t) == Black && nil.Color == Black && child.Parent == c.e.node
      && var parent := c.e.node;
      && (child == parent.LeftSubtree <==> c.InLeft?)
      && var sister := if c.InLeft? then parent.RightSubtree else parent.LeftSubtree;
      && sister == RootOf(Sibling(c), nil) && sister.Color == RootColor(Sibling(c))
      && (RootColor(Sibling(c)) == Black ==> SinkingBeside(c, t, h, child, parent, sister, was, nil))
  {
    LookAround(c, t, nil);
    PlugNodes(c, t);
    if !c.Top? && t.Leaf? {
      HeightPositive(t, h);
      TallIsBranch(Sibling(c), h + 1);
    }
  }

  lemma SinkingBesideLooks<K>(c: Ctx<K>, t: Tree<K>, h: int, child: Node?<K>, parent: Node<K>, sister: Node?<K>,
                              was: Tree<K>, nil: Node<K>)
    requires SinkingBeside(c, t, h, child, parent, sister, was, nil)
    ensures child != null && child.Color == Black
    ensures Sibling(c).Branch? && sister != null && sister == Sibling(c).e.node && nil !in Nodes(was)
    ensures sister.LeftSubtree == RootOf(Sibling(c).left, nil) && sister.RightSubtree == RootOf(Sibling(c).right, nil)
    ensures sister.LeftSubtree.Color == RootColor(Sibling(c).left)
    ensures sister.RightSubtree.Color == RootColor(Sibling(c).right)
  {
    LookAround(c, t, nil);
    PlugNodes(c, t);
    SisterExists(c, t, h);
    var s := Sibling(c);
    MoveAside(c, t, nil);
    LookAround(Beside(c, t), s, nil);
    MoveUp(InLeft(Beside(c, t), s.e, s.color, s.right), s.left, nil);
    LookAround(InLeft(Beside(c, t), s.e, s.color, s.right), s.left, nil);
  }

  method WeakenSister<K>(parent: Node<K>, sister: Node<K>, ghost c: Ctx<K>, ghost t: Tree<K>, ghost h: int,
                         ghost child: Node?<K>, ghost was: Tree<K>, ghost nil: Node<K>) returns (ghost h': int)
    requires SinkingBeside(c, t, h, child, parent, sister, was, nil) && Sibling(c).Branch?
    requires RootColor(Outer(c)) == Black && RootColor(Inner(c)) == Black
    modifies Nodes(was)`Color
    ensures Sinking(c.up, Weakened(c, t), h', parent, was, nil)
    ensures RootColor(Weakened(c, t)) == c.color
  {
    SinkingBesideLooks(c, t, h, child, parent, sister, was, nil);
    WeakenedIsLacking(c, t, h);
    h' :| Lacking(c.up, Weakened(c, t), h');
    hide Good, Plug, Nodes, CtxNodes, Flatten, LackingBeside, Lacking;
    SetSiblingColor(sister, Red, c, t, nil);
    MoveUp(WithSibling(c, Sibling(c).(color := Red)), t, nil);
    LookAround(c.up, Weakened(c, t), nil);
  }

  lemma BlackenedChild<K>(c: Ctx<K>, t: Tree<K>, h: int, was: Tree<K>, nil: Node<K>)
    requires Good(c, Blacken(t), nil) && Lacking(c, t, h) && RootColor(t) == Red && Alike(Plug(c, Blacken(t)), was)
    ensures FixedUp(Plug(c, Blacken(t)), was, nil)
  {
    hide Good, Plug, Alike;
    GoodAnywhere(c, Blacken(t), nil);
    var total := PlugBlack(c, Blacken(t), h + 1);
  }

  lemma ChildInTree<K>(c: Ctx<K>, t: Tree<K>, h: int, child: Node<K>, was: Tree<K>, nil: Node<K>)
    requires Sinking(c, t, h, child, was, nil)
    ensures t.Branch? ==> child == t.e.node && child !in Nodes(t.left) && child !in Nodes(t.right) && child !in CtxNodes(c)
    ensures t.Branch? ==> child in Nodes(was) && child != nil && nil.Color == Black
    ensures Good(c, t, nil) && Alike(Plug(c, t), was) && Lacking(c, t, h) && (t.Leaf? ==> child == nil)
  {
    PlugNodes(c, t);
  }

  lemma EmptyFixedUp<K>(t: Tree<K>, was: Tree<K>, nil: Node<K>)
    requires t.Leaf? && Good(Top, t, nil) && Alike(t, was)
    ensures FixedUp(t, was, nil)
  {
    assert RedBlack(Blacken(t), 1);
  }

  method PaintBlack<K>(child: Node<K>, ghost done: bool, ghost c: Ctx<K>, ghost t: Tree<K>, ghost nil: Node<K>)
    requires !done ==> Good(c, t, nil) && child == RootOf(t, nil)
    modifies child`Color
    ensures child.Color == Black && (old(child.Color) == Black ==> unchanged(child))
    ensures !done ==> Good(c, Blacken(t), nil)
  {
    if !done {
      assert t.Branch? ==> child !in Nodes(t.left) && child !in Nodes(t.right) && child !in CtxNodes(c);
      assert t.Branch? ==> Blacken(t) == t.(color := Black);
      if t.Branch? { PlugColor(c, t, Black); }
    }
    hide Distinct, CtxDistinct, SumsOk;
    child.Color := Black;
  }

  /** After the loop: at a red node, in an empty tree, or done already. */
  method BlackenChild<K>(child: Node<K>, ghost done: bool, ghost tree: Tree<K>, ghost c: Ctx<K>, ghost t: Tree<K>,
                         ghost h: int, ghost was: Tree<K>, ghost nil: Node<K>) returns (ghost t': Tree<K>)
    requires if done then FixedUp(tree, was, nil) && nil.Color == Black && child.Color == Black
             else Sinking(c, t, h, child, was, nil) && child.Color == Red
    modifies child`Color
    ensures FixedUp(t', was, nil) && nil.Color == Black
  {
    hide Plug, Nodes, CtxNodes, Flatten, Good, Sinking, FixedUp, Lacking, Alike;
    if !done {
      SinkingLooks(c, t, h, child, was, nil);
      ChildInTree(c, t, h, child, was, nil);
      BlackenedAlike(c, t, was);
    }
    assert allocated(Nodes(tree));
    PaintBlack(child, done, c, t, nil);
    if done {
      t' := tree;
    } else {
      t' := Plug(c, Blacken(t));
      if t.Leaf? { EmptyFixedUp(t', was, nil); } else { BlackenedChild(c, t, h, was, nil); }
    }
  }

  lemma BlackenedAlike<K>(c: Ctx<K>, t: Tree<K>, was: Tree<K>)
    requires Alike(Plug(c, t), was)
    ensures Alike(Plug(c, Blacken(t)), was)
    ensures c.Top? ==> Plug(c, Blacken(t)) == Blacken(t)
  {
    if t.Branch? { PlugColor(c, t, Black); }
  }

  method RaiseSisterFromLeft<K>(parent: Node<K>, sister: Node<K>, ghost c: Ctx<K>, ghost t: Tree<K>, ghost h: int,
                             ghost child: Node<K>, ghost was: Tree<K>, ghost nil: Node<K>)
    requires Sinking(c, t, h, child, was, nil) && c.InLeft? && RootColor(t) == Black
    requires RootColor(Sibling(c)) == Red && sister == RootOf(Sibling(c), nil) && parent == c.e.node
    modifies Nodes(was)`Parent, Nodes(was)`LeftSubtree, Nodes(was)`RightSubtree, Nodes(was)`ValueSum,
             Nodes(was)`Color, nil`LeftSubtree, nil`RightSubtree, nil`Parent
    ensures SinkingBeside(Raised(c), t, h, child, parent, parent.RightSubtree, was, nil)
    ensures !Raised(c).Top? && Raised(c).color == Red && Depth(Raised(c).up) == Depth(c)
  {
    SinkingLooks(c, t, h, child, was, nil);
    RaisedIsLacking(c, t, h);
    hide Good, Plug, Nodes, CtxNodes, Flatten, LackingBeside, Lacking;
    RaiseLeft(parent, sister, c, t, nil);
    LookAround(Raised(c), t, nil);
  }

  method RotateInFromLeft<K>(parent: Node<K>, sister0: Node<K>, ghost c0: Ctx<K>, ghost t: Tree<K>, ghost h: int,
                         ghost child: Node?<K>, ghost was: Tree<K>, ghost nil: Node<K>)
    returns (ghost t': Tree<K>)
    requires SinkingBeside(c0, t, h, child, parent, sister0, was, nil) && c0.InLeft? && Sibling(c0).Branch?
    requires RootColor(Outer(c0)) == Red || RootColor(Inner(c0)) == Red
    modifies Nodes(was)`Parent, Nodes(was)`LeftSubtree, Nodes(was)`RightSubtree, Nodes(was)`ValueSum,
             Nodes(was)`Color, nil`LeftSubtree, nil`RightSubtree, nil`Parent
    ensures FixedUp(t', was, nil) && nil.Color == Black && child != null && child.Color == Black
  {
    hide Good, Plug, Nodes, CtxNodes, Flatten, SinkingBeside, FixedUp, Twisted;
    var sister: Node<K> := sister0;
    ghost var c := c0;
    SinkingBesideLooks(c, t, h, child, parent, sister, was, nil);
    if sister.RightSubtree.Color == Black {
      TwistAndLookFromLeft(parent, sister, c, t, h, child, was, nil);
      c := WithSibling(c, Twisted(c));
      SinkingBesideLooks(c, t, h, child, parent, parent.RightSubtree, was, nil);
      sister := parent.RightSubtree;
    }
    t' := BalanceAndFinishFromLeft(parent, sister, sister.RightSubtree, c, t, h, child, was, nil);
  }

  method TwistAndLookFromLeft<K>(parent: Node<K>, sister: Node<K>, ghost c: Ctx<K>, ghost t: Tree<K>, ghost h: int,
                             ghost child: Node?<K>, ghost was: Tree<K>, ghost nil: Node<K>)
    requires SinkingBeside(c, t, h, child, parent, sister, was, nil) && c.InLeft? && Sibling(c).Branch?
    requires RootColor(Outer(c)) == Black && RootColor(Inner(c)) == Red
    modifies Nodes(was)`Parent, Nodes(was)`LeftSubtree, Nodes(was)`RightSubtree, Nodes(was)`ValueSum,
             Nodes(was)`Color, nil`LeftSubtree, nil`RightSubtree, nil`Parent
    ensures SinkingBeside(WithSibling(c, Twisted(c)), t, h, child, parent, parent.RightSubtree, was, nil)
    ensures RootColor(Outer(WithSibling(c, Twisted(c)))) == Red
  {
    SinkingBesideLooks(c, t, h, child, parent, sister, was, nil);
    TwistedIsLacking(c, t, h);
    hide Good, Plug, Nodes, CtxNodes, Flatten, LackingBeside, Lacking;
    TwistLeft(sister, sister.LeftSubtree, c, t, nil);
    LookAround(WithSibling(c, Twisted(c)), t, nil);
  }

  method BalanceAndFinishFromLeft<K>(parent: Node<K>, sister: Node<K>, nephew: Node?<K>, ghost c: Ctx<K>, ghost t: Tree<K>,
                                 ghost h: int, ghost child: Node?<K>, ghost was: Tree<K>, ghost nil: Node<K>)
    returns (ghost t': Tree<K>)
    requires SinkingBeside(c, t, h, child, parent, sister, was, nil) && c.InLeft? && Sibling(c).Branch?
    requires RootColor(Outer(c)) == Red && nephew == RootOf(Outer(c), nil)
    modifies Nodes(was)`Parent, Nodes(was)`LeftSubtree, Nodes(was)`RightSubtree, Nodes(was)`ValueSum,
             Nodes(was)`Color, nil`LeftSubtree, nil`RightSubtree, nil`Parent
    ensures FixedUp(t', was, nil) && nil.Color == Black && child != null && child.Color == Black
  {
    SinkingBesideLooks(c, t, h, child, parent, sister, was, nil);
    BalancedIsRedBlack(c, t, h);
    assert RootColor(t) == Black;
    hide Good, Plug, Nodes, CtxNodes, Flatten, LackingBeside, Lacking;
    BalanceLeft(parent, sister, nephew, c, t, nil);
    ghost var b := Balanced(c, t);
    ghost var upper := InLeft(c.up, b.e, b.color, b.right);
    MoveUp(upper, b.left, nil);
    MoveUp(InLeft(upper, c.e, Black, b.left.right), t, nil);
    LookAround(InLeft(upper, c.e, Black, b.left.right), t, nil);
    GoodAnywhere(c.up, b, nil);
    t' := Plug(c.up, b);
  }

  method RaiseSisterFromRight<K>(parent: Node<K>, sister: Node<K>, ghost c: Ctx<K>, ghost t: Tree<K>, ghost h: int,
                             ghost child: Node<K>, ghost was: Tree<K>, ghost nil: Node<K>)
    requires Sinking(c, t, h, child, was, nil) && c.InRight? && RootColor(t) == Black
    requires RootColor(Sibling(c)) == Red && sister == RootOf(Sibling(c), nil) && parent == c.e.node
    modifies Nodes(was)`Parent, Nodes(was)`RightSubtree, Nodes(was)`LeftSubtree, Nodes(was)`ValueSum,
             Nodes(was)`Color, nil`RightSubtree, nil`LeftSubtree, nil`Parent
    ensures SinkingBeside(Raised(c), t, h, child, parent, parent.LeftSubtree, was, nil)
    ensures !Raised(c).Top? && Raised(c).color == Red && Depth(Raised(c).up) == Depth(c)
  {
    SinkingLooks(c, t, h, child, was, nil);
    RaisedIsLacking(c, t, h);
    hide Good, Plug, Nodes, CtxNodes, Flatten, LackingBeside, Lacking;
    RaiseRight(parent, sister, c, t, nil);
    LookAround(Raised(c), t, nil);
  }

  method RotateInFromRight<K>(parent: Node<K>, sister0: Node<K>, ghost c0: Ctx<K>, ghost t: Tree<K>, ghost h: int,
                         ghost child: Node?<K>, ghost was: Tree<K>, ghost nil: Node<K>)
    returns (ghost t': Tree<K>)
    requires SinkingBeside(c0, t, h, child, parent, sister0, was, nil) && c0.InRight? && Sibling(c0).Branch?
    requires RootColor(Outer(c0)) == Red || RootColor(Inner(c0)) == Red
    modifies Nodes(was)`Parent, Nodes(was)`RightSubtree, Nodes(was)`LeftSubtree, Nodes(was)`ValueSum,
             Nodes(was)`Color, nil`RightSubtree, nil`LeftSubtree, nil`Parent
    ensures FixedUp(t', was, nil) && nil.Color == Black && child != null && child.Color == Black
  {
    hide Good, Plug, Nodes, CtxNodes, Flatten, SinkingBeside, FixedUp, Twisted;
    var sister: Node<K> := sister0;
    ghost var c := c0;
    SinkingBesideLooks(c, t, h, child, parent, sister, was, nil);
    if sister.LeftSubtree.Color == Black {
      TwistAndLookFromRight(parent, sister, c, t, h, child, was, nil);
      c := WithSibling(c, Twisted(c));
      SinkingBesideLooks(c, t, h, child, parent, parent.LeftSubtree, was, nil);
      sister := parent.LeftSubtree;
    }
    t' := BalanceAndFinishFromRight(parent, sister, sister.LeftSubtree, c, t, h, child, was, nil);
  }

  method TwistAndLookFromRight<K>(parent: Node<K>, sister: Node<K>, ghost c: Ctx<K>, ghost t: Tree<K>, ghost h: int,
                             ghost child: Node?<K>, ghost was: Tree<K>, ghost nil: Node<K>)
    requires SinkingBeside(c, t, h, child, parent, sister, was, nil) && c.InRight? && Sibling(c).Branch?
    requires RootColor(Outer(c)) == Black && RootColor(Inner(c)) == Red
    modifies Nodes(was)`Parent, Nodes(was)`RightSubtree, Nodes(was)`LeftSubtree, Nodes(was)`ValueSum,
             Nodes(was)`Color, nil`RightSubtree, nil`LeftSubtree, nil`Parent
    ensures SinkingBeside(WithSibling(c, Twisted(c)), t, h, child, parent, parent.LeftSubtree, was, nil)
    ensures RootColor(Outer(WithSibling(c, Twisted(c)))) == Red
  {
    SinkingBesideLooks(c, t, h, child, parent, sister, was, nil);
    TwistedIsLacking(c, t, h);
    hide Good, Plug, Nodes, CtxNodes, Flatten, LackingBeside, Lacking;
    TwistRight(sister, sister.RightSubtree, c, t, nil);
    LookAround(WithSibling(c, Twisted(c)), t, nil);
  }

  method BalanceAndFinishFromRight<K>(parent: Node<K>, sister: Node<K>, nephew: Node?<K>, ghost c: Ctx<K>, ghost t: Tree<K>,
                                 ghost h: int, ghost child: Node?<K>, ghost was: Tree<K>, ghost nil: Node<K>)
    returns (ghost t': Tree<K>)
    requires SinkingBeside(c, t, h, child, parent, sister, was, nil) && c.InRight? && Sibling(c).Branch?
    requires RootColor(Outer(c)) == Red && nephew == RootOf(Outer(c), nil)
    modifies Nodes(was)`Parent, Nodes(was)`RightSubtree, Nodes(was)`LeftSubtree, Nodes(was)`ValueSum,
             Nodes(was)`Color, nil`RightSubtree, nil`LeftSubtree, nil`Parent
    ensures FixedUp(t', was, nil) && nil.Color == Black && child != null && child.Color == Black
  {
    SinkingBesideLooks(c, t, h, child, parent, sister, was, nil);
    BalancedIsRedBlack(c, t, h);
    assert RootColor(t) == Black;
    hide Good, Plug, Nodes, CtxNodes, Flatten, LackingBeside, Lacking;
    BalanceRight(parent, sister, nephew, c, t, nil);
    ghost var b := Balanced(c, t);
    ghost var upper := InRight(c.up, b.left, b.e, b.color);
    MoveUp(upper, b.right, nil);
    MoveUp(InRight(upper, b.right.left, c.e, Black), t, nil);
    LookAround(InRight(upper, b.right.left, c.e, Black), t, nil);
    GoodAnywhere(c.up, b, nil);
    t' := Plug(c.up, b);
  }

  /** The fix-up loop of a removal. */
  method FixRemoval<K>(child0: Node<K>, ghost c0: Ctx<K>, ghost t0: Tree<K>, ghost h0: int,
                       ghost was: Tree<K>, ghost nil: Node<K>)
    returns (ghost t': Tree<K>)
    requires Sinking(c0, t0, h0, child0, was, nil)
    modifies Nodes(was)`Parent, Nodes(was)`LeftSubtree, Nodes(was)`RightSubtree, Nodes(was)`ValueSum,
             Nodes(was)`Color, nil`LeftSubtree, nil`RightSubtree, nil`Parent, nil`Color
    ensures FixedUp(t', was, nil) && nil.Color == Black
  {
    hide Good, Plug, Nodes, CtxNodes, Flatten, Sinking, SinkingBeside, FixedUp, Depth, Alike, Weakened;
    var child: Node<K> := child0;
    ghost var c, t, h := c0, t0, h0;
    SinkingLooks(c, t, h, child, was, nil);
    t' := was;
    ghost var done := false;
    while child.Color == Black
      invariant !done && Sinking(c, t, h, child, was, nil)
      invariant child == nil || child in Nodes(was)
      decreases Depth(c) + if RootColor(t) == Black then 1 else 0
    {
      SinkingLooks(c, t, h, child, was, nil);
      var parent: Node<K> := child.Parent;
      if child == parent.LeftSubtree {
        var sister: Node<K> := parent.RightSubtree;
        ghost var b := c;
        if sister.Color == Red {
          RaiseSisterFromLeft(parent, sister, c, t, h, child, was, nil);
          b := Raised(c);
          SinkingBesideLooks(b, t, h, child, parent, parent.RightSubtree, was, nil);
          sister := parent.RightSubtree;
        }
        SinkingBesideLooks(b, t, h, child, parent, sister, was, nil);
        if sister.LeftSubtree.Color == Black && sister.RightSubtree.Color == Black {
          h := WeakenSister(parent, sister, b, t, h, child, was, nil);
          t, c := Weakened(b, t), b.up;
          child := parent;
          SinkingLooks(c, t, h, child, was, nil);
        } else {
          t' := RotateInFromLeft(parent, sister, b, t, h, child, was, nil);
          done := true;
          break;
        }
      } else {
        var sister: Node<K> := parent.LeftSubtree;
        ghost var b := c;
        if sister.Color == Red {
          RaiseSisterFromRight(parent, sister, c, t, h, child, was, nil);
          b := Raised(c);
          SinkingBesideLooks(b, t, h, child, parent, parent.LeftSubtree, was, nil);
          sister := parent.LeftSubtree;
        }
        SinkingBesideLooks(b, t, h, child, parent, sister, was, nil);
        if sister.RightSubtree.Color == Black && sister.LeftSubtree.Color == Black {
          h := WeakenSister(parent, sister, b, t, h, child, was, nil);
          t, c := Weakened(b, t), b.up;
          child := parent;
          SinkingLooks(c, t, h, child, was, nil);
        } else {
          t' := RotateInFromRight(parent, sister, b, t, h, child, was, nil);
          done := true;
          break;
        }
      }
    }
    t' := BlackenChild(child, done, t', c, t, h, was, nil);
  }

  // ----- From the unlinked node to the loop and back ------------------------------------------

  /** The surroundings of the focus with a red root. */
  ghost function PaintRoot<K>(c: Ctx<K>): (c': Ctx<K>)
    ensures c'.Top? <==> c.Top?
    ensures !c.Top? ==> c'.e == c.e && (c'.InLeft? <==> c.InLeft?)
  {
    match c
    case Top => Top
    case InLeft(up, e, color, right) => InLeft(PaintRoot(up), e, if up.Top? then Red else color, right)
    case InRight(up, left, e, color) => InRight(PaintRoot(up), left, e, if up.Top? then Red else color)
  }

  ghost function Redden<K>(t: Tree<K>): Tree<K> {
    if t.Leaf? then t else Branch(t.left, t.e, Red, t.right)
  }

  lemma {:induction false} PaintRootPlug<K>(c: Ctx<K>, t: Tree<K>)
    ensures Plug(PaintRoot(c), if c.Top? then Redden(t) else t) == Redden(Plug(c, t))
    decreases c
  {
    if !c.Top? { PaintRootPlug(c.up, Closed(c, t)); }
  }

  lemma {:induction false} PaintRootRules<K>(c: Ctx<K>, h: int)
    ensures Expects(c, h) ==> Expects(PaintRoot(c), h)
    ensures OwnerRed(PaintRoot(c)) <==> OwnerRed(c)
    ensures RootPainted(PaintRoot(c))
  {
    if !c.Top? { PaintRootRules(c.up, if c.color == Black then h + 1 else h); }
  }

  lemma PaintedIsLacking<K>(c: Ctx<K>, t: Tree<K>, h: int) returns (h': int)
    requires Expects(c, h) && RedBlack(t, h - 1)
    ensures Lacking(PaintRoot(c), if c.Top? then Redden(t) else t, h')
  {
    PaintRootRules(c, h);
    h' := if c.Top? && RootColor(t) == Black then h - 2 else h - 1;
    if !c.Top? && t.Branch? && t.color == Black { assert RedBlack(t, h'); }
  }

  lemma RootInPlug<K>(c: Ctx<K>, t: Tree<K>, nil: Node<K>)
    requires Good(c, t, nil)
    ensures Good(Top, Plug(c, t), nil) && nil.LeftSubtree == RootOf(Plug(c, t), nil)
    ensures nil !in Nodes(Plug(c, t))
  {
    GoodAnywhere(c, t, nil);
    LookAround(Top, Plug(c, t), nil);
  }

  lemma PaintedLooks<K>(c: Ctx<K>, t: Tree<K>, nil: Node<K>)
    ensures t.Branch? || !c.Top? ==> Plug(c, t).Branch?
    ensures c.Top? && t.Leaf? ==> Plug(c, t) == t
    ensures RootOf(if c.Top? then Redden(t) else t, nil) == RootOf(t, nil)
    ensures c.Top? || TopOf(PaintRoot(c), nil) == TopOf(c, nil)
  {
    if !c.Top? { PlugIsBranch(c, t); }
  }

  /** Paints the root red, so that the fix-up loop stops there. */
  method PaintRootRed<K>(child: Node<K>, ghost c: Ctx<K>, ghost t: Tree<K>, ghost h: int, nil: Node<K>)
    returns (ghost h': int)
    requires Good(c, t, nil) && child == RootOf(t, nil) && child.Parent == TopOf(c, nil) && nil.Color == Black
    requires Expects(c, h) && RedBlack(t, h - 1)
    modifies Nodes(Plug(c, t))`Color, nil`Color
    ensures Sinking(PaintRoot(c), if c.Top? then Redden(t) else t, h', child, Plug(c, t), nil)
  {
    ghost var c', t' := PaintRoot(c), if c.Top? then Redden(t) else t;
    h' := PaintedIsLacking(c, t, h);
    hide Good, Plug, Nodes, CtxNodes, Flatten, Lacking, Alike, PaintRoot, Expects, RedBlack;
    RootInPlug(c, t, nil);
    PaintRootPlug(c, t);
    PaintedLooks(c, t, nil);
    ghost var tree := Plug(c, t);
    var root: Node<K> := nil.LeftSubtree;
    if root == nil {
      PlugAlike(c', t', tree, nil);
      root.Color := Red;
    } else {
      SetColor(root, Red, Top, tree, nil);
      PlugAlike(c', t', tree, nil);
    }
    GoodAnywhere(c', t', nil);
  }

  lemma PlugAlike<K>(c: Ctx<K>, t: Tree<K>, was: Tree<K>, nil: Node<K>)
    requires Plug(c, t) == Redden(was)
    ensures Alike(Plug(c, t), was) && Plug<K>(Top, Plug(c, t)) == Plug(c, t)
    ensures was.Branch? ==> was.(color := Red) == Redden(was)
  {
  }
}
