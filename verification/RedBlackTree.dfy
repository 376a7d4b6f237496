/** The intrusive red-black tree of src/redblacktree_impl.h (without the leaf-linked list). */
module RedBlackTrees {
  import opened MachineIntegers
  import opened RedBlackShape
  import opened RedBlackRotation
  import opened RedBlackPainting
  import opened RedBlackLinking
  import opened RedBlackOrder
  import Insertion = RedBlackInsertion
  import Removal = RedBlackRemoval

  class RedBlackTree<K(!new)> {
    const NullNode: Node<K>
    const ComparisonFunction: (K, K) -> int
    var Elements: nat
    ghost var Root: Tree<K>

    ghost predicate Valid()
      reads this, NullNode, Nodes(Root)
    {
      && Good(Top, Root, NullNode) && NullNode.Color == Black
      && RootColor(Root) == Black && (exists h: int :: RedBlack(Root, h))
      && TotalOrder(ComparisonFunction) && Sorted(ComparisonFunction, Flatten(Root))
      && Elements == |Flatten(Root)|
    }

    /** `sentinelKey` stands for the memory around the sentinel, which is never looked at. */
    constructor (comparisonFunction: (K, K) -> int, sentinelKey: K)
      requires TotalOrder(comparisonFunction)
      ensures Valid() && Root == Leaf && ComparisonFunction == comparisonFunction
      ensures fresh(NullNode)
    {
      NullNode := new Node(sentinelKey);
      ComparisonFunction := comparisonFunction;
      Elements := 0;
      Root := Leaf;
      new;
      NullNode.Parent := NullNode;
      NullNode.LeftSubtree := NullNode;
      NullNode.RightSubtree := NullNode;
      assert RedBlack(Root, 1);
    }

    method IsEmpty() returns (empty: bool)
      requires Valid()
      ensures empty <==> Flatten(Root) == []
    {
      LookAround(Top, Root, NullNode);
      empty := NullNode.LeftSubtree == NullNode;
    }

    // ----- Searching --------------------------------------------------------------------------

    /** A search for `key` has come from the root to the focus. */
    ghost predicate Searching(key: K, node: Node?<K>, c: Ctx<K>, t: Tree<K>)
      reads this, NullNode, Nodes(Root), CtxNodes(c), Nodes(t), Nodes(Plug(c, t))
      ensures Searching(key, node, c, t) ==> node != null && Valid()
    {
      && Valid() && Plug(c, t) == Root && Good(c, t, NullNode) && node == RootOf(t, NullNode)
      && Between(ComparisonFunction, key, c)
    }

    lemma StartSearch(key: K)
      requires Valid()
      ensures Searching(key, NullNode.LeftSubtree, Top, Root) && TopOf<K>(Top, NullNode) == NullNode
    {
      LookAround(Top, Root, NullNode);
    }

    /** A node with this key is linked. */
    ghost predicate Occurs(key: K)
      reads this
    {
      exists i :: 0 <= i < |Flatten(Root)| && ComparisonFunction(key, Flatten(Root)[i].key) == 0
    }

    /** What one comparison tells. */
    lemma SearchStep(key: K, node: Node<K>, c: Ctx<K>, t: Tree<K>)
      requires Searching(key, node, c, t) && node != NullNode
      ensures t.Branch? && node == t.e.node && node.Key == t.e.key && node in Nodes(Root)
      ensures Position(c, t) < |Flatten(Root)| && Flatten(Root)[Position(c, t)].node == node
      ensures Height(t.left) < Height(t) && Height(t.right) < Height(t)
      ensures TopOf(InLeft(c, t.e, t.color, t.right), NullNode) == node
      ensures TopOf(InRight(c, t.left, t.e, t.color), NullNode) == node
      ensures ComparisonFunction(key, node.Key) < 0 ==>
        Searching(key, node.LeftSubtree, InLeft(c, t.e, t.color, t.right), t.left)
      ensures ComparisonFunction(key, node.Key) > 0 ==>
        Searching(key, node.RightSubtree, InRight(c, t.left, t.e, t.color), t.right)
    {
      hide Flatten, Plug, CtxNodes, Between, Position;
      LookAround(c, t, NullNode);
      PlugNodes(c, t);
      AtPosition(c, t);
      var l, r := InLeft(c, t.e, t.color, t.right), InRight(c, t.left, t.e, t.color);
      MoveUp(l, t.left, NullNode);
      MoveUp(r, t.right, NullNode);
      if ComparisonFunction(key, node.Key) < 0 { DescendLeft(ComparisonFunction, key, c, t); }
      if ComparisonFunction(key, node.Key) > 0 { DescendRight(ComparisonFunction, key, c, t); }
    }

    lemma SearchEnd(key: K, node: Node<K>, c: Ctx<K>, t: Tree<K>)
      requires Searching(key, node, c, t) && node == NullNode
      ensures t.Leaf? && !Occurs(key) && ComparisonFunction(key, key) == 0
      ensures forall i | 0 <= i < |Flatten(Root)| :: ComparisonFunction(key, Flatten(Root)[i].key) != 0
    {
      LookAround(c, t, NullNode);
      Absent(ComparisonFunction, key, c);
    }

    lemma ComparisonBound()
      requires Valid()
      ensures Power2(Height(Root)) <= (Elements + 1) * (Elements + 1)
    {
      var h: int :| RedBlack(Root, h);
      HeightIsLogarithmic(Root, h);
    }

    /** Looks for a node with the key of `cmpNode`; counts the comparisons. */
    method Find(cmpNode: Node<K>) returns (result: Node?<K>, ghost comparisons: nat)
      requires Valid()
      ensures result != null ==> result in Nodes(Root) && ComparisonFunction(cmpNode.Key, result.Key) == 0
      ensures result == null ==>
        forall i | 0 <= i < |Flatten(Root)| :: ComparisonFunction(cmpNode.Key, Flatten(Root)[i].key) != 0
      ensures Power2(comparisons) <= (Elements + 1) * (Elements + 1)
    {
      hide *;
      comparisons := 0;
      ghost var key, c, t := cmpNode.Key, Top, Root;
      StartSearch(key);
      ComparisonBound();
      var node: Node<K> := NullNode.LeftSubtree;
      while node != NullNode
        invariant Searching(key, node, c, t) && comparisons + Height(t) <= Height(Root)
        decreases t
      {
        SearchStep(key, node, c, t);
        var cmpResult := ComparisonFunction(cmpNode.Key, node.Key);
        comparisons := comparisons + 1;
        if cmpResult == 0 {
          Power2Monotone(comparisons, Height(Root));
          return node, comparisons;
        } else if cmpResult < 0 {
          node := node.LeftSubtree;
          c, t := InLeft(c, t.e, t.color, t.right), t.left;
        } else {
          node := node.RightSubtree;
          c, t := InRight(c, t.left, t.e, t.color), t.right;
        }
      }
      SearchEnd(key, node, c, t);
      Power2Monotone(comparisons, Height(Root));
      result := null;
    }

    // ----- Walking ----------------------------------------------------------------------------

    /** A walk has come to `node`, the root of the focus. */
    ghost predicate Walking(node: Node?<K>, c: Ctx<K>, t: Tree<K>)
      reads this, NullNode, Nodes(Root), CtxNodes(c), Nodes(t), Nodes(Plug(c, t))
      ensures Walking(node, c, t) ==> t.Branch? && node == t.e.node && node.Parent == TopOf(c, NullNode)
    {
      Valid() && Plug(c, t) == Root && Good(c, t, NullNode) && t.Branch? && node == t.e.node
    }

    lemma StartWalk(node: Node<K>) returns (c: Ctx<K>, t: Tree<K>)
      requires Valid() && node in Nodes(Root)
      ensures Walking(node, c, t)
      ensures forall i | 0 <= i < |Flatten(Root)| && Flatten(Root)[i].node == node :: i == Position(c, t)
      ensures Position(c, t) < |Flatten(Root)| && Flatten(Root)[Position(c, t)].node == node
    {
      c, t := Locate(Top, Root, node);
      GoodAnywhere(c, t, NullNode);
      AtPosition(c, t);
      forall i | 0 <= i < |Flatten(Root)| && Flatten(Root)[i].node == node ensures i == Position(c, t) {
        if i < Position(c, t) { Unique(Root, i, Position(c, t)); }
        if i > Position(c, t) { Unique(Root, Position(c, t), i); }
      }
    }

    lemma WalkLooks(node: Node<K>, c: Ctx<K>, t: Tree<K>)
      requires Walking(node, c, t)
      ensures node != NullNode && (TopOf(c, NullNode) == NullNode <==> c.Top?)
      ensures node.LeftSubtree == RootOf(t.left, NullNode) && node.RightSubtree == RootOf(t.right, NullNode)
      ensures if t.left.Leaf? then node.LeftSubtree == NullNode
              else node.LeftSubtree != NullNode && Walking(node.LeftSubtree, InLeft(c, t.e, t.color, t.right), t.left)
      ensures if t.right.Leaf? then node.RightSubtree == NullNode
              else node.RightSubtree != NullNode && Walking(node.RightSubtree, InRight(c, t.left, t.e, t.color), t.right)
      ensures !c.Top? ==> Walking(c.e.node, c.up, Closed(c, t))
      ensures !c.Top? ==> (node == c.e.node.LeftSubtree <==> c.InLeft?) && (node == c.e.node.RightSubtree <==> c.InRight?)
    {
      LookAround(c, t, NullNode);
      MoveUp(InLeft(c, t.e, t.color, t.right), t.left, NullNode);
      MoveUp(InRight(c, t.left, t.e, t.color), t.right, NullNode);
      LookAround(InLeft(c, t.e, t.color, t.right), t.left, NullNode);
      LookAround(InRight(c, t.left, t.e, t.color), t.right, NullNode);
      if !c.Top? {
        MoveUp(c, t, NullNode);
        LookAround(c.up, Closed(c, t), NullNode);
      }
    }

    /** Where the focus is in the sequence of nodes. */
    lemma WalkPosition(node: Node<K>, c: Ctx<K>, t: Tree<K>)
      requires Walking(node, c, t)
      ensures var s, i := Flatten(Root), Position(c, t);
        && i < |s| && s[i].node == node
        && (t.left.Leaf? ==> s[..i] == Before(c)) && (t.right.Leaf? ==> s[i + 1..] == After(c))
        && |Before(InRight(c, t.left, t.e, t.color))| == i + 1
        && |After(InLeft(c, t.e, t.color, t.right))| == |s| - i
      ensures forall j | 0 <= j < |Flatten(Root)| :: Flatten(Root)[j].node != NullNode
    {
      AtPosition(c, t);
      forall j | 0 <= j < |Flatten(Root)| ensures Flatten(Root)[j].node != NullNode { NodeAt(Root, j); }
    }

    /** Goes down to the leftmost node below `start`. */
    method Leftmost(start: Node<K>, ghost base: Ctx<K>, ghost s: Tree<K>)
      returns (node: Node<K>, ghost inner: Ctx<K>, ghost t: Tree<K>)
      requires Walking(start, base, s)
      ensures Walking(node, Compose(inner, base), t) && t.left.Leaf?
      ensures Before(Compose(inner, base)) == Before(base) && Plug(inner, t) == s && Before(inner) == []
    {
      node := start;
      inner, t := Top, s;
      assert Plug(inner, t) == s;
      hide Valid, Good, Walking, Plug, Nodes, CtxNodes, Flatten;
      WalkLooks(node, base, t);
      while node.LeftSubtree != NullNode
        invariant Walking(node, Compose(inner, base), t)
        invariant node.LeftSubtree == RootOf(t.left, NullNode) && (t.left.Leaf? <==> node.LeftSubtree == NullNode)
        invariant Before(Compose(inner, base)) == Before(base) && Plug(inner, t) == s && Before(inner) == []
        decreases t
      {
        WalkLooks(node, Compose(inner, base), t);
        ghost var down := InLeft(inner, t.e, t.color, t.right);
        MoveUp(down, t.left, NullNode);
        node := node.LeftSubtree;
        inner, t := down, t.left;
        WalkLooks(node, Compose(inner, base), t);
      }
    }

    /** Climbs from `start` to the first node that has it in its left subtree. */
    method ClimbToNext(start: Node<K>, ghost c0: Ctx<K>, ghost t0: Tree<K>) returns (parent: Node<K>)
      requires Walking(start, c0, t0)
      ensures parent == if After(c0) == [] then NullNode else After(c0)[0].node
    {
      hide Valid, Good, Walking, Plug, Nodes, CtxNodes, Flatten;
      var node: Node<K> := start;
      parent := node.Parent;
      ghost var c, t := c0, t0;
      WalkLooks(node, c, t);
      while parent != NullNode && node == parent.RightSubtree
        invariant Walking(node, c, t) && parent == TopOf(c, NullNode) && After(c) == After(c0)
        decreases c
      {
        WalkLooks(node, c, t);
        node := parent;
        c, t := c.up, Closed(c, t);
        parent := parent.Parent;
      }
      WalkLooks(node, c, t);
    }

    /** Goes down to the rightmost node below `start`. */
    method Rightmost(start: Node<K>, ghost base: Ctx<K>, ghost s: Tree<K>)
      returns (node: Node<K>, ghost inner: Ctx<K>, ghost t: Tree<K>)
      requires Walking(start, base, s)
      ensures Walking(node, Compose(inner, base), t) && t.right.Leaf?
      ensures After(Compose(inner, base)) == After(base) && Plug(inner, t) == s
    {
      node := start;
      inner, t := Top, s;
      assert Plug(inner, t) == s;
      hide Valid, Good, Walking, Plug, Nodes, CtxNodes, Flatten;
      WalkLooks(node, base, t);
      while node.RightSubtree != NullNode
        invariant Walking(node, Compose(inner, base), t)
        invariant node.RightSubtree == RootOf(t.right, NullNode) && (t.right.Leaf? <==> node.RightSubtree == NullNode)
        invariant After(Compose(inner, base)) == After(base) && Plug(inner, t) == s
        decreases t
      {
        WalkLooks(node, Compose(inner, base), t);
        ghost var down := InRight(inner, t.left, t.e, t.color);
        MoveUp(down, t.right, NullNode);
        node := node.RightSubtree;
        inner, t := down, t.right;
        WalkLooks(node, Compose(inner, base), t);
      }
    }

    /** Climbs from `start` to the first node that has it in its right subtree. */
    method ClimbToPrev(start: Node<K>, ghost c0: Ctx<K>, ghost t0: Tree<K>) returns (parent: Node<K>)
      requires Walking(start, c0, t0)
      ensures parent == if Before(c0) == [] then NullNode else Before(c0)[|Before(c0)| - 1].node
    {
      hide Valid, Good, Walking, Plug, Nodes, CtxNodes, Flatten;
      var node: Node<K> := start;
      parent := node.Parent;
      ghost var c, t := c0, t0;
      WalkLooks(node, c, t);
      while parent != NullNode && node == parent.LeftSubtree
        invariant Walking(node, c, t) && parent == TopOf(c, NullNode) && Before(c) == Before(c0)
        decreases c
      {
        WalkLooks(node, c, t);
        node := parent;
        c, t := c.up, Closed(c, t);
        parent := parent.Parent;
      }
      WalkLooks(node, c, t);
    }

    method InternalFindNext(cmpNode: Node<K>, ghost c: Ctx<K>, ghost t: Tree<K>)
      returns (next: Node<K>, ghost inner: Ctx<K>, ghost s: Tree<K>)
      requires Walking(cmpNode, c, t)
      ensures var i := Position(c, t);
        next == if i + 1 < |Flatten(Root)| then Flatten(Root)[i + 1].node else NullNode
      ensures t.right.Branch? ==>
        && Walking(next, Compose(inner, InRight(c, t.left, t.e, t.color)), s)
        && s.left.Leaf? && Plug(inner, s) == t.right && Before(inner) == []
    {
      hide Valid, Good, Walking, Plug, Nodes, CtxNodes, Flatten, Before, After, Position;
      WalkPosition(cmpNode, c, t);
      WalkLooks(cmpNode, c, t);
      var node: Node<K> := cmpNode.RightSubtree;
      if node != NullNode {
        ghost var base := InRight(c, t.left, t.e, t.color);
        next, inner, s := Leftmost(node, base, t.right);
        WalkPosition(next, Compose(inner, base), s);
      } else {
        inner, s := c, t;
        next := ClimbToNext(cmpNode, c, t);
      }
    }

    method InternalFindPrev(cmpNode: Node<K>, ghost c: Ctx<K>, ghost t: Tree<K>) returns (prev: Node<K>)
      requires Walking(cmpNode, c, t)
      ensures var i := Position(c, t);
        i <= |Flatten(Root)| && prev == if i > 0 then Flatten(Root)[i - 1].node else NullNode
    {
      hide Valid, Good, Walking, Plug, Nodes, CtxNodes, Flatten, Before, After, Position;
      WalkPosition(cmpNode, c, t);
      WalkLooks(cmpNode, c, t);
      var node: Node<K> := cmpNode.LeftSubtree;
      if node != NullNode {
        ghost var base, inner, s := InLeft(c, t.e, t.color, t.right), c, t;
        prev, inner, s := Rightmost(node, base, t.left);
        WalkPosition(prev, Compose(inner, base), s);
      } else {
        prev := ClimbToPrev(cmpNode, c, t);
      }
    }

    /** The node after a node of the tree. */
    method GetNext(node: Node<K>) returns (result: Node?<K>)
      requires Valid() && node in Nodes(Root)
      ensures forall i {:trigger Flatten(Root)[i]} | 0 <= i < |Flatten(Root)| && Flatten(Root)[i].node == node ::
        result == if i + 1 < |Flatten(Root)| then Flatten(Root)[i + 1].node else null
    {
      hide Valid, Good, Walking, Plug, Nodes, CtxNodes, Flatten, Before, After, Position;
      ghost var c, t := StartWalk(node);
      WalkPosition(node, c, t);
      ghost var inner, s;
      result, inner, s := InternalFindNext(node, c, t);
      if result != NullNode {
        return result;
      }
      return null;
    }

    /** The node before a node of the tree. */
    method GetPrev(node: Node<K>) returns (result: Node?<K>)
      requires Valid() && node in Nodes(Root)
      ensures forall i {:trigger Flatten(Root)[i]} | 0 <= i < |Flatten(Root)| && Flatten(Root)[i].node == node ::
        result == if i > 0 then Flatten(Root)[i - 1].node else null
    {
      hide Valid, Good, Walking, Plug, Nodes, CtxNodes, Flatten, Before, After, Position;
      ghost var c, t := StartWalk(node);
      WalkPosition(node, c, t);
      result := InternalFindPrev(node, c, t);
      if result != NullNode {
        return result;
      }
      return null;
    }

    method GetFirst() returns (result: Node?<K>)
      requires Valid()
      ensures result == if Flatten(Root) == [] then null else Flatten(Root)[0].node
    {
      LookAround(Top, Root, NullNode);
      var node: Node<K> := NullNode.LeftSubtree;
      if node == NullNode {
        node := NullNode.RightSubtree;
      }
      if node == NullNode {
        return null;
      }
      ghost var inner, t;
      result, inner, t := Leftmost(node, Top, Root);
      AtPosition(Compose(inner, Top), t);
    }

    method GetLast() returns (result: Node?<K>)
      requires Valid()
      ensures result == if Flatten(Root) == [] then null else Flatten(Root)[|Flatten(Root)| - 1].node
    {
      LookAround(Top, Root, NullNode);
      var node: Node<K> := NullNode.RightSubtree;
      if node == NullNode {
        node := NullNode.LeftSubtree;
      }
      if node == NullNode {
        return null;
      }
      ghost var inner, t;
      result, inner, t := Rightmost(node, Top, Root);
      AtPosition(Compose(inner, Top), t);
    }
    // ----- Nearest nodes ----------------------------------------------------------------------

    lemma SearchHit(key: K, node: Node<K>, c: Ctx<K>, t: Tree<K>)
      requires Searching(key, node, c, t) && node != NullNode && ComparisonFunction(key, node.Key) == 0
      ensures node in Nodes(Root) && Position(c, t) < |Flatten(Root)| && Flatten(Root)[Position(c, t)].node == node
      ensures Occurs(key) && ComparisonFunction(key, Flatten(Root)[Position(c, t)].key) == 0
      ensures LastBelow(ComparisonFunction, key, Flatten(Root), Position(c, t) - 1)
      ensures FirstAbove(ComparisonFunction, key, Flatten(Root), Position(c, t) + 1)
    {
      SearchStep(key, node, c, t);
      AtPosition(c, t);
      NeighboursOfEqual(ComparisonFunction, key, Flatten(Root), Position(c, t));
    }

    lemma SearchGap(key: K, node: Node<K>, c: Ctx<K>, t: Tree<K>)
      requires Searching(key, node, c, t) && node == NullNode
      ensures t.Leaf? && Flatten(Root) == Before(c) + After(c)
      ensures LastBelow(ComparisonFunction, key, Flatten(Root), |Before(c)| - 1)
      ensures FirstAbove(ComparisonFunction, key, Flatten(Root), |Before(c)|)
      ensures !c.Top? ==> Walking(c.e.node, c.up, Closed(c, t)) && c.e.node != NullNode
      ensures forall i | 0 <= i < |Flatten(Root)| :: Flatten(Root)[i].node != NullNode
    {
      SearchEnd(key, node, c, t);
      NeighboursOfGap(ComparisonFunction, key, c);
      if !c.Top? {
        MoveUp(c, t, NullNode);
        LookAround(c, t, NullNode);
      }
      forall i | 0 <= i < |Flatten(Root)| ensures Flatten(Root)[i].node != NullNode { NodeAt(Root, i); }
    }

    /** The greatest node below the key of `cmpNode`, whether or not the key occurs. */
    method GetNearestPrev(cmpNode: Node<K>) returns (result: Node?<K>, ghost index: int)
      requires Valid()
      ensures LastBelow(ComparisonFunction, cmpNode.Key, Flatten(Root), index)
      ensures result == if index >= 0 then Flatten(Root)[index].node else null
    {
      hide Valid, Good, Searching, Walking, Plug, Nodes, CtxNodes, Flatten, Position, Between, TotalOrder, Sorted, LastBelow, FirstAbove;
      ghost var key, c, t := cmpNode.Key, Top, Root;
      StartSearch(key);
      var parent: Node?<K> := null;
      var onRight := false;
      var node: Node<K> := NullNode.LeftSubtree;
      while node != NullNode
        invariant Searching(key, node, c, t)
        invariant parent == if c.Top? then null else c.e.node
        invariant !c.Top? ==> (onRight <==> c.InRight?)
        decreases t
      {
        SearchStep(key, node, c, t);
        var cmpResult := ComparisonFunction(cmpNode.Key, node.Key);
        if cmpResult < 0 {
          parent := node;
          onRight := false;
          node := node.LeftSubtree;
          c, t := InLeft(c, t.e, t.color, t.right), t.left;
        } else if cmpResult > 0 {
          parent := node;
          onRight := true;
          node := node.RightSubtree;
          c, t := InRight(c, t.left, t.e, t.color), t.right;
        } else {
          SearchHit(key, node, c, t);
          index := Position(c, t) - 1;
          result := GetPrev(node);
          return;
        }
      }
      SearchGap(key, node, c, t);
      index := |Before(c)| - 1;
      // Without a parent the tree is empty, and no comparison has been made.
      if parent == null {
        return null, index;
      }
      // The key would be the right child of its parent: the parent is the nearest node.
      if onRight {
        return parent, index;
      }
      // The parent's left subtree is empty, so the nearest node is an ancestor.
      node := ClimbToPrev(parent, c.up, Closed(c, t));
      if node != NullNode {
        return node, index;
      }
      return null, index;
    }

    /** The least node above the key of `cmpNode`, whether or not the key occurs. */
    method GetNearestNext(cmpNode: Node<K>) returns (result: Node?<K>, ghost index: int)
      requires Valid()
      ensures FirstAbove(ComparisonFunction, cmpNode.Key, Flatten(Root), index)
      ensures result == if index < |Flatten(Root)| then Flatten(Root)[index].node else null
    {
      hide Valid, Good, Searching, Walking, Plug, Nodes, CtxNodes, Flatten, Position, Between, TotalOrder, Sorted, LastBelow, FirstAbove;
      ghost var key, c, t := cmpNode.Key, Top, Root;
      StartSearch(key);
      var parent: Node?<K> := null;
      var onLeft := false;
      var node: Node<K> := NullNode.LeftSubtree;
      while node != NullNode
        invariant Searching(key, node, c, t)
        invariant parent == if c.Top? then null else c.e.node
        invariant !c.Top? ==> (onLeft <==> c.InLeft?)
        decreases t
      {
        SearchStep(key, node, c, t);
        var cmpResult := ComparisonFunction(cmpNode.Key, node.Key);
        if cmpResult < 0 {
          parent := node;
          onLeft := true;
          node := node.LeftSubtree;
          c, t := InLeft(c, t.e, t.color, t.right), t.left;
        } else if cmpResult > 0 {
          parent := node;
          onLeft := false;
          node := node.RightSubtree;
          c, t := InRight(c, t.left, t.e, t.color), t.right;
        } else {
          SearchHit(key, node, c, t);
          index := Position(c, t) + 1;
          result := GetNext(node);
          return;
        }
      }
      SearchGap(key, node, c, t);
      index := |Before(c)|;
      // Without a parent the tree is empty, and no comparison has been made.
      if parent == null {
        return null, index;
      }
      // The key would be the left child of its parent: the parent is the nearest node.
      if onLeft {
        return parent, index;
      }
      // The parent's right subtree is empty, so the nearest node is an ancestor.
      node := ClimbToNext(parent, c.up, Closed(c, t));
      if node != NullNode {
        return node, index;
      }
      return null, index;
    }

    // ----- Weighted selection -----------------------------------------------------------------

    /** A selection has come to the focus with `value` left to pass. */
    ghost predicate Selecting(total: nat, value: int, node: Node?<K>, c: Ctx<K>, t: Tree<K>)
      reads this, NullNode, Nodes(Root), CtxNodes(c), Nodes(t), Nodes(Plug(c, t))
    {
      && Walking(node, c, t) && Sum(Root) < MODULUS
      && value == total - SumOf(Before(c)) && 0 <= value && (value < Sum(t) || After(c) == [])
    }

    /** The stored sum of the left subtree. */
    lemma StoredSum(node: Node<K>, c: Ctx<K>, t: Tree<K>)
      requires Walking(node, c, t)
      ensures node.LeftSubtree != null && node.LeftSubtree.ValueSum == Sum(t.left) % MODULUS
      ensures node.Value == t.e.value
    {
      WalkLooks(node, c, t);
      PlugSums(c, t);
      assert SumsOk(t.left);
    }

    /** It is the real sum when the total does not overflow. */
    lemma StoredSumExact(node: Node<K>, c: Ctx<K>, t: Tree<K>)
      requires Walking(node, c, t) && Sum(Root) < MODULUS
      ensures node.LeftSubtree != null && node.LeftSubtree.ValueSum == Sum(t.left)
      ensures node.Value == t.e.value && Sum(t.left) + t.e.value < MODULUS
    {
      assert Plug(c, t) == Root && t.Branch?;
      hide Walking, Plug, Sum, SumOf;
      StoredSum(node, c, t);
      SumOfPart(c, t);
    }

    lemma SelectingFacts(total: nat, value: int, node: Node<K>, c: Ctx<K>, t: Tree<K>)
      requires Selecting(total, value, node, c, t)
      ensures Walking(node, c, t) && Sum(Root) < MODULUS && Plug(c, t) == Root && t.Branch?
      ensures value == total - SumOf(Before(c)) && 0 <= value && (value < Sum(t) || After(c) == [])
      ensures Sum(t) == Sum(t.left) + t.e.value + Sum(t.right)
      ensures (t.left.Leaf? ==> Sum(t.left) == 0) && (t.right.Leaf? ==> Sum(t.right) == 0)
      ensures Before(InLeft(c, t.e, t.color, t.right)) == Before(c) && After(InRight(c, t.left, t.e, t.color)) == After(c)
    {
    }

    lemma MakeSelecting(total: nat, value: int, node: Node<K>, c: Ctx<K>, t: Tree<K>)
      requires Walking(node, c, t) && Sum(Root) < MODULUS
      requires value == total - SumOf(Before(c)) && 0 <= value && (value < Sum(t) || After(c) == [])
      ensures Selecting(total, value, node, c, t)
    {
    }

    lemma SelectionLeft(total: nat, value: int, node: Node<K>, c: Ctx<K>, t: Tree<K>)
      requires Selecting(total, value, node, c, t)
      ensures t.left.Leaf? ==> Sum(t.left) == 0
      ensures t.left.Branch? && value < Sum(t.left) ==>
        Selecting(total, value, node.LeftSubtree, InLeft(c, t.e, t.color, t.right), t.left)
    {
      hide *;
      SelectingFacts(total, value, node, c, t);
      WalkLooks(node, c, t);
      if t.left.Branch? && value < Sum(t.left) {
        MakeSelecting(total, value, node.LeftSubtree, InLeft(c, t.e, t.color, t.right), t.left);
      }
    }

    lemma SelectionRight(total: nat, value: int, node: Node<K>, c: Ctx<K>, t: Tree<K>)
      requires Selecting(total, value, node, c, t) && t.right.Branch? && value >= Sum(t.left) + t.e.value
      ensures Selecting(total, value - Sum(t.left) - t.e.value, node.RightSubtree,
                        InRight(c, t.left, t.e, t.color), t.right)
    {
      hide *;
      SelectingFacts(total, value, node, c, t);
      WalkLooks(node, c, t);
      WeightsAt(c, t);
      MakeSelecting(total, value - Sum(t.left) - t.e.value, node.RightSubtree, InRight(c, t.left, t.e, t.color), t.right);
    }

    lemma SelectionEnd(total: nat, value: int, node: Node<K>, c: Ctx<K>, t: Tree<K>)
      requires Selecting(total, value, node, c, t) && Sum(t.left) <= value
      requires value < Sum(t.left) + t.e.value || t.right.Leaf?
      ensures var s, i := Flatten(Root), Position(c, t);
        && i < |s| && s[i].node == node
        && if value < Sum(t.left) + t.e.value
           then value <= total < Sum(Root) && SumOf(s[..i]) <= total < SumOf(s[..i + 1])
           else i == |s| - 1 && Sum(Root) <= total
    {
      hide *;
      SelectingFacts(total, value, node, c, t);
      SumFlatten(Root);
      SumOfPart(c, t);
      var s, i := Flatten(Root), Position(c, t);
      WalkPosition(node, c, t);
      WeightsAt(c, t);
      if i + 1 == |s| { assert s[..i + 1] == s; }
    }

    lemma SentinelSum(node: Node<K>, c: Ctx<K>, t: Tree<K>)
      requires Walking(node, c, t)
      ensures NullNode.ValueSum == 0
    {
    }

    /** Everything one step of the selection needs to know. */
    lemma SelectionLooks(exact: bool, total: nat, value: uint64, node: Node<K>, c: Ctx<K>, t: Tree<K>)
      requires Walking(node, c, t) && (exact ==> Selecting(total, value, node, c, t))
      ensures node != NullNode && node.LeftSubtree != null && node.RightSubtree != null
      ensures node.LeftSubtree == NullNode ==> node.LeftSubtree.ValueSum == 0
      ensures node.LeftSubtree != NullNode ==> Walking(node.LeftSubtree, InLeft(c, t.e, t.color, t.right), t.left)
      ensures node.RightSubtree != NullNode ==> Walking(node.RightSubtree, InRight(c, t.left, t.e, t.color), t.right)
      ensures exact ==>
        var l, w := node.LeftSubtree.ValueSum, node.LeftSubtree.ValueSum + node.Value;
        var s, i := Flatten(Root), Position(c, t);
        && w < MODULUS && i < |s| && s[i].node == node
        && (value < l && node.LeftSubtree != NullNode ==>
             Selecting(total, value, node.LeftSubtree, InLeft(c, t.e, t.color, t.right), t.left))
        && (value >= w && node.RightSubtree != NullNode ==>
             Selecting(total, value - w, node.RightSubtree, InRight(c, t.left, t.e, t.color), t.right))
        && (l <= value < w ==> total < Sum(Root) && SumOf(s[..i]) <= total < SumOf(s[..i + 1]))
        && (value >= w && node.RightSubtree == NullNode ==> i == |s| - 1 && Sum(Root) <= total)
    {
      hide *;
      SentinelSum(node, c, t);
      WalkLooks(node, c, t);
      WalkPosition(node, c, t);
      if exact {
        SelectingFacts(total, value, node, c, t);
        StoredSumExact(node, c, t);
        SelectionLeft(total, value, node, c, t);
        var w := Sum(t.left) + t.e.value;
        if value >= w && t.right.Branch? { SelectionRight(total, value, node, c, t); }
        if Sum(t.left) <= value && (value < w || t.right.Leaf?) { SelectionEnd(total, value, node, c, t); }
      }
    }

    /** The node at which the running sum of the values passes `value0`. */
    method GetNodeByValue(value0: uint64) returns (result: Node?<K>)
      requires Valid()
      ensures Flatten(Root) == [] ==> result == null
      ensures Sum(Root) < MODULUS && value0 < Sum(Root) ==>
        exists i | 0 <= i < |Flatten(Root)| :: result == Flatten(Root)[i].node
          && SumOf(Flatten(Root)[..i]) <= value0 < SumOf(Flatten(Root)[..i + 1])
      ensures Sum(Root) < MODULUS && Sum(Root) <= value0 && Flatten(Root) != [] ==>
        result == Flatten(Root)[|Flatten(Root)| - 1].node
    {
      LookAround(Top, Root, NullNode);
      ghost var exact := Sum(Root) < MODULUS && Root.Branch?;
      ghost var c, t := Top, Root;
      assert Flatten(Root) == [] <==> Root.Leaf?;
      assert Root.Branch? ==> Walking(NullNode.LeftSubtree, c, t);
      assert exact ==> Selecting(value0, value0, NullNode.LeftSubtree, c, t);
      assert Sum<K>(Leaf) == 0;
      var value: uint64 := value0;
      var node: Node<K> := NullNode.LeftSubtree;
      hide Valid, Good, Walking, Selecting, Plug, Nodes, CtxNodes, Flatten, Position, Sum, SumOf, Plus, Minus;
      while true
        invariant if Root.Leaf? then node == NullNode && Sentinel(node) && node.LeftSubtree == node else Walking(node, c, t)
        invariant exact ==> Selecting(value0, value, node, c, t)
        decreases t
      {
        if Root.Branch? { SelectionLooks(exact, value0, value, node, c, t); }
        if value < node.LeftSubtree.ValueSum {
          if node.LeftSubtree != NullNode {
            node := node.LeftSubtree;
            c, t := InLeft(c, t.e, t.color, t.right), t.left;
          } else {
            break;
          }
        } else if value < Plus(node.LeftSubtree.ValueSum, node.Value) {
          break;
        } else {
          if node.RightSubtree != NullNode {
            value := Minus(value, Plus(node.LeftSubtree.ValueSum, node.Value));
            node := node.RightSubtree;
            c, t := InRight(c, t.left, t.e, t.color), t.right;
          } else {
            break;
          }
        }
      }
      if node != NullNode {
        return node;
      }
      return null;
    }

    /** The sum of all values, modulo 2^64. */
    method GetValueSum() returns (sum: uint64)
      requires Valid()
      ensures sum == SumOf(Flatten(Root)) % MODULUS
    {
      LookAround(Top, Root, NullNode);
      SumFlatten(Root);
      sum := NullNode.LeftSubtree.ValueSum;
    }

    // ----- Insertion --------------------------------------------------------------------------

    /** Links `node` as a leaf and brings the sums up to date. */
    method LinkWithSums(node: Node<K>, parent: Node<K>, onLeft: bool, ghost c: Ctx<K>)
      requires Good(c, Leaf, NullNode) && parent == TopOf(c, NullNode)
      requires node != NullNode && node !in CtxNodes(c) && (onLeft <==> !c.InRight?)
      modifies node`Parent, node`LeftSubtree, node`RightSubtree, node`ValueSum,
               parent`LeftSubtree, parent`RightSubtree, CtxNodes(c)`ValueSum, `Elements
      ensures Good(c, Branch(Leaf, Entry(node, node.Key, node.Value), node.Color, Leaf), NullNode)
      ensures Elements == old(Elements) + 1
    {
      ghost var t := Branch(Leaf, Entry(node, node.Key, node.Value), node.Color, Leaf);
      PlugSums<K>(c, Leaf);
      CtxNodesSplit(c);
      assert allocated(SideNodes(c));
      assert SideSumsOk(c) && Sentinel(NullNode) && Zipped(c, Leaf, NullNode);
      hide Linked, LinkedCtx, CtxDistinct, Distinct, CtxNodes, SideNodes, SideSumsOk, Plug, Zipped, Spine, Nodes;
      LinkLeaf(node, parent, onLeft, c, NullNode);
      assert SumsOk(t);
      Elements := Elements + 1;
      UpdateValueSumsUpToRoot(node.Parent, false, c, t, NullNode);
    }

    /** The key of a linked node occurs. */
    lemma LinkedOccurs(node: Node<K>)
      requires Valid() && node in Nodes(Root)
      ensures Occurs(node.Key)
    {
      var c, t := StartWalk(node);
      LookAround(c, t, NullNode);
      AtPosition(c, t);
      assert ComparisonFunction(node.Key, Flatten(Root)[Position(c, t)].key) == 0;
    }

    lemma InsertReady(node: Node<K>, c: Ctx<K>) returns (t: Tree<K>)
      requires Searching(node.Key, NullNode, c, Leaf) && node != NullNode && node !in Nodes(Root)
      ensures var e := Entry(node, node.Key, node.Value);
        && t == Branch(Leaf, e, Red, Leaf) && Insertion.RedFocus(c, t, 1)
        && Good(c, Leaf, NullNode) && NullNode.Color == Black
        && CtxNodes(c) == Nodes(Root) && Nodes(Plug(c, t)) == Nodes(Root) + {node}
        && Nodes(Plug(c, Branch(Leaf, e, node.Color, Leaf))) == Nodes(Root) + {node}
        && Flatten(Plug(c, t)) == Before(c) + [e] + After(c)
        && Sorted(ComparisonFunction, Flatten(Plug(c, t))) && |Flatten(Plug(c, t))| == Elements + 1
        && NullNode !in Nodes(Root) && TotalOrder(ComparisonFunction)
    {
      var total: int :| RedBlack(Root, total);
      var h := UnplugBlack(c, Leaf, total);
      Insertion.RootBlackOf(c, Leaf);
      PlugNodes<K>(c, Leaf);
      var e := Entry(node, node.Key, node.Value);
      t := Branch(Leaf, e, Red, Leaf);
      SortedInsert(ComparisonFunction, c, e);
      assert Flatten(t) == [e];
      PlugFlatten(c, t);
      PlugNodes(c, t);
      PlugNodes(c, Branch(Leaf, e, node.Color, Leaf));
    }

    lemma MakeValid()
      requires Good(Top, Root, NullNode) && NullNode.Color == Black && RootColor(Root) == Black
      requires exists h: int :: RedBlack(Root, h)
      requires TotalOrder(ComparisonFunction) && Sorted(ComparisonFunction, Flatten(Root)) && Elements == |Flatten(Root)|
      ensures Valid()
    {
    }

    /** The insertion at the place where the search has ended. */
    method InsertAt(node: Node<K>, parent: Node<K>, onLeft: bool, ghost c: Ctx<K>)
      requires Searching(node.Key, NullNode, c, Leaf) && parent == TopOf(c, NullNode)
      requires node != NullNode && node !in Nodes(Root) && (onLeft <==> !c.InRight?)
      modifies this`Elements, this`Root,
               Nodes(Root)`Parent, Nodes(Root)`LeftSubtree, Nodes(Root)`RightSubtree, Nodes(Root)`ValueSum, Nodes(Root)`Color,
               node`Parent, node`LeftSubtree, node`RightSubtree, node`ValueSum, node`Color,
               NullNode`Parent, NullNode`LeftSubtree, NullNode`RightSubtree, NullNode`Color
      ensures Valid() && Nodes(Root) == old(Nodes(Root)) + {node}
      ensures Flatten(Root) == Before(c) + [Entry(node, node.Key, node.Value)] + After(c)
    {
      hide Good, Plug, Flatten, CtxNodes, Nodes, Before, After, Insertion.RedFocus, Sorted, TotalOrder, Between, RedBlack,
           Valid, Searching, FixedUp, SumsOk;
      ghost var t := InsertReady(node, c);
      ghost var was := Plug(c, t);
      assert !c.Top? ==> parent in CtxNodes(c) by { OwnerInCtx(c); }
      LinkWithSums(node, parent, onLeft, c);
      SetColor(node, Red, c, Branch(Leaf, t.e, node.Color, Leaf), NullNode);
      Insertion.StartClimb(c, t, 1, NullNode);
      ghost var u := Insertion.FixInsertion(node, c, t, 1, was, NullNode);
      FixedUpAlike(u, was, NullNode);
      u := BlackenRoot(u, NullNode, was);
      Root := u;
      MakeValid();
    }

    lemma OwnerInCtx(c: Ctx<K>)
      ensures !c.Top? ==> c.e.node in CtxNodes(c)
    {
    }

    /** Inserts `node` unless its key occurs already; then the node with that key is returned
        and nothing changes. */
    method Insert(node: Node<K>) returns (result: Node<K>, ghost index: nat)
      requires Valid() && node != NullNode
      modifies this`Elements, this`Root,
               Nodes(Root)`Parent, Nodes(Root)`LeftSubtree, Nodes(Root)`RightSubtree, Nodes(Root)`ValueSum, Nodes(Root)`Color,
               node`Parent, node`LeftSubtree, node`RightSubtree, node`ValueSum, node`Color,
               NullNode`Parent, NullNode`LeftSubtree, NullNode`RightSubtree, NullNode`Color
      ensures Valid() && index < |Flatten(Root)| && Flatten(Root)[index].node == result
      ensures ComparisonFunction(node.Key, Flatten(Root)[index].key) == 0
      ensures old(Occurs(node.Key)) ==>
        unchanged(this) && unchanged(node) && unchanged(NullNode)
      ensures !old(Occurs(node.Key)) ==>
        && result == node && index <= |old(Flatten(Root))| && Nodes(Root) == old(Nodes(Root)) + {node}
        && Flatten(Root) == old(Flatten(Root))[..index] + [Entry(node, node.Key, node.Value)] + old(Flatten(Root))[index..]
    {
      hide *;
      ghost var key, c, t := node.Key, Top, Root;
      StartSearch(key);
      var cmpResult := -1;
      var where: Node<K> := NullNode.LeftSubtree;
      var parent: Node<K> := NullNode;
      while where != NullNode
        invariant Searching(key, where, c, t) && parent == TopOf(c, NullNode)
        invariant c.Top? ==> cmpResult < 0
        invariant !c.Top? ==> (cmpResult < 0 <==> c.InLeft?)
        modifies {}
        decreases t
      {
        SearchStep(key, where, c, t);
        parent := where;
        cmpResult := ComparisonFunction(node.Key, where.Key);
        if cmpResult < 0 {
          where := where.LeftSubtree;
          c, t := InLeft(c, t.e, t.color, t.right), t.left;
        } else if cmpResult > 0 {
          where := where.RightSubtree;
          c, t := InRight(c, t.left, t.e, t.color), t.right;
        } else {
          index := Position(c, t);
          SearchHit(key, where, c, t);
          return where, index;
        }
      }
      SearchGap(key, where, c, t);
      SearchEnd(key, where, c, t);
      if node in Nodes(Root) { LinkedOccurs(node); }
      index := |Before(c)|;
      result := node;
      InsertAt(node, parent, cmpResult < 0, c);
    }

    // ----- Removal ----------------------------------------------------------------------------

    /** Where the red node was missing nothing needs to be repaired. */
    lemma RedRemoved(place: Ctx<K>, rest: Tree<K>, h: int)
      requires Expects(place, h) && RedBlack(rest, h) && RootColor(rest) == Black
      requires place.Top? || RootColor(Plug(place, rest)) == Black
      ensures RootColor(Plug(place, rest)) == Black && exists total: int :: RedBlack(Plug(place, rest), total)
    {
      var total := PlugBlack(place, rest, h);
      assert place.Top? ==> Plug(place, rest) == rest;
    }

    /** The root keeps its color when another node is unlinked. */
    lemma RootColorKept(inner: Ctx<K>, c: Ctx<K>, t: Tree<K>, s: Tree<K>)
      requires t.Branch? && s.Branch? && Plug(inner, s) == t.right
      ensures !c.Top? ==> RootColor(Plug(c, OnlyChild(t))) == RootColor(Plug(c, t))
      ensures RootColor(Plug(Around(inner, c, t, s.e), s.right)) == RootColor(Plug(c, t))
    {
      SucceededShape(inner, c, t, s);
      if !c.Top? {
        RootColorPlug(c, OnlyChild(t), t);
        RootColorPlug(c, Succeeded(inner, t, s), t);
      }
    }

    /** `index` was the position of the unlinked node. */
    ghost predicate Without(place: Ctx<K>, rest: Tree<K>, was: Tree<K>, index: nat) {
      index < |Flatten(was)| && Flatten(Plug(place, rest)) == Flatten(was)[..index] + Flatten(was)[index + 1..]
    }

    lemma WithoutOne(c: Ctx<K>, t: Tree<K>)
      requires t.Branch? && (t.left.Leaf? || t.right.Leaf?)
      ensures Without(c, OnlyChild(t), Plug(c, t), Position(c, t))
    {
      AtPosition(c, t);
      PlugFlatten(c, OnlyChild(t));
    }

    lemma WithoutTwo(inner: Ctx<K>, c: Ctx<K>, t: Tree<K>, s: Tree<K>)
      requires t.Branch? && s.Branch? && s.left.Leaf? && Plug(inner, s) == t.right && Before(inner) == []
      ensures Without(Around(inner, c, t, s.e), s.right, Plug(c, t), Position(c, t))
    {
      AtPosition(c, t);
      SucceededShape(inner, c, t, s);
      SucceededOrder(inner, t, s);
      PlugFlatten(c, Succeeded(inner, t, s));
      Regrouped(Before(c), Flatten(t.left), Flatten(t.right), After(c));
      hide Flatten, Before, After, Plug, Succeeded, Around, Position;
    }

    lemma Regrouped<T>(a: seq<T>, b: seq<T>, x: seq<T>, d: seq<T>)
      ensures a + (b + x) + d == (a + b) + (x + d)
    {
    }

    lemma UnlinkedNodes(node: Node<K>, c: Ctx<K>, t: Tree<K>)
      requires t.Branch? && (t.left.Leaf? || t.right.Leaf?) && t.e.node == node && Good(c, t, NullNode)
      ensures Nodes(Plug(c, OnlyChild(t))) == Nodes(Plug(c, t)) - {node}
    {
      BypassLooks(c, t, NullNode);
      PlugNodes(c, t);
      PlugNodes(c, OnlyChild(t));
    }

    /** What a removal has to start from. */
    lemma RemoveLooks(node: Node<K>, c: Ctx<K>, t: Tree<K>) returns (total: int)
      requires Walking(node, c, t)
      ensures Good(c, t, NullNode) && t.Branch? && node == t.e.node && Plug(c, t) == Root && RedBlack(Root, total)
      ensures NullNode !in Nodes(Root) && NullNode.Color == Black && RootColor(Root) == Black
      ensures t.left.Leaf? ==> node.LeftSubtree == NullNode
      ensures t.right.Leaf? ==> node.RightSubtree == NullNode
      ensures t.left.Branch? ==> node.LeftSubtree != NullNode
      ensures t.right.Branch? ==> node.RightSubtree != NullNode
    {
      assert Good(c, t, NullNode) && Plug(c, t) == Root && NullNode !in Nodes(Root);
      assert NullNode.Color == Black && RootColor(Root) == Black;
      total :| RedBlack(Root, total);
      hide Valid, Good, Walking, Plug, Nodes, CtxNodes, RedBlack;
      WalkLooks(node, c, t);
    }

    lemma RemoveReady(node: Node<K>, c: Ctx<K>, t: Tree<K>)
      requires Walking(node, c, t)
      ensures Position(c, t) < |Flatten(Root)| && Elements == |Flatten(Root)| && TotalOrder(ComparisonFunction)
      ensures Sorted(ComparisonFunction, Flatten(Root)[..Position(c, t)] + Flatten(Root)[Position(c, t) + 1..])
    {
      AtPosition(c, t);
      SortedRemove(ComparisonFunction, Flatten(Root), Position(c, t));
    }

    lemma SuccessorLooks(node: Node<K>, next: Node<K>, inner: Ctx<K>, s: Tree<K>, c: Ctx<K>, t: Tree<K>)
      requires t.Branch? && Walking(next, Compose(inner, InRight(c, t.left, t.e, t.color)), s)
      ensures s.Branch? && next == s.e.node
    {
    }

    lemma SucceededNodes(node: Node<K>, inner: Ctx<K>, s: Tree<K>, c: Ctx<K>, t: Tree<K>)
      requires t.Branch? && t.e.node == node && s.Branch? && s.left.Leaf? && Plug(inner, s) == t.right
      requires node !in Nodes(Plug(Around(inner, c, t, s.e), s.right))
      ensures Nodes(Plug(Around(inner, c, t, s.e), s.right)) == Nodes(Plug(c, t)) - {node}
    {
      SucceededShape(inner, c, t, s);
      PlugNodes(c, Succeeded(inner, t, s));
      SuccessorWalks(inner, c, t, s, node, NullNode);
    }

    /** Takes `node` out of the links and brings the sums up to date. */
    method Unlink(node: Node<K>, ghost c: Ctx<K>, ghost t: Tree<K>)
      returns (child: Node<K>, ghost place: Ctx<K>, ghost rest: Tree<K>, ghost h: int)
      requires Walking(node, c, t)
      modifies Nodes(Root)`Parent, Nodes(Root)`LeftSubtree, Nodes(Root)`RightSubtree, Nodes(Root)`ValueSum, Nodes(Root)`Color,
               NullNode`Parent, NullNode`LeftSubtree, NullNode`RightSubtree
      ensures TakenOut(node, child, place, rest, h, NullNode) && Without(place, rest, Root, Position(c, t))
      ensures Nodes(Plug(place, rest)) == Nodes(Root) - {node}
      ensures place.Top? || RootColor(Plug(place, rest)) == Black
    {
      hide Good, Walking, Plug, Nodes, CtxNodes, Flatten, Before, After, Position, Compose, Around, TakenOut, Without,
           RedBlack, Sorted, TotalOrder, Valid;
      ghost var total := RemoveLooks(node, c, t);
      if node.LeftSubtree != NullNode && node.RightSubtree != NullNode {
        var next: Node<K>;
        ghost var inner, s;
        assert allocated(CtxNodes(c)) && allocated(Nodes(t)) && allocated(Nodes(Plug(c, t)));
        next, inner, s := InternalFindNext(node, c, t);
        SuccessorLooks(node, next, inner, s, c, t);
        WithoutTwo(inner, c, t, s);
        RootColorKept(inner, c, t, s);
        place, rest := Around(inner, c, t, s.e), s.right;
        child, h := UnlinkTwo(node, next, inner, s, c, t, total, NullNode);
        TakenOutLooks(node, child, place, rest, h);
        SucceededNodes(node, inner, s, c, t);
      } else {
        UnlinkedNodes(node, c, t);
        WithoutOne(c, t);
        if !c.Top? { RootColorPlug(c, OnlyChild(t), t); }
        place, rest := c, OnlyChild(t);
        child, h := UnlinkOne(node, c, t, total, NullNode);
      }
    }

    lemma TakenOutLooks(node: Node<K>, child: Node?<K>, place: Ctx<K>, rest: Tree<K>, h: int)
      requires TakenOut(node, child, place, rest, h, NullNode)
      ensures Good(place, rest, NullNode) && child == RootOf(rest, NullNode) && child.Parent == TopOf(place, NullNode)
      ensures Expects(place, h) && node !in Nodes(Plug(place, rest)) && child != node
      ensures if node.Color == Red then RedBlack(rest, h) && RootColor(rest) == Black else RedBlack(rest, h - 1)
    {
      PlugNodes(place, rest);
    }

    lemma RedRemovedValid(place: Ctx<K>, rest: Tree<K>, h: int)
      requires Good(place, rest, NullNode) && Expects(place, h) && RedBlack(rest, h) && RootColor(rest) == Black
      requires place.Top? || RootColor(Plug(place, rest)) == Black
      ensures Good(Top, Plug(place, rest), NullNode) && Alike(Plug(place, rest), Plug(place, rest))
      ensures RootColor(Plug(place, rest)) == Black && exists total: int :: RedBlack(Plug(place, rest), total)
    {
      RedRemoved(place, rest, h);
      GoodAnywhere(place, rest, NullNode);
    }

    /** Brings the red-black rules back. */
    method Rebalance(node: Node<K>, child: Node<K>, ghost place: Ctx<K>, ghost rest: Tree<K>, ghost h: int) returns (ghost u: Tree<K>)
      requires Good(place, rest, NullNode) && child == RootOf(rest, NullNode) && child.Parent == TopOf(place, NullNode)
      requires Expects(place, h) && NullNode.Color == Black && node !in Nodes(Plug(place, rest)) && node != NullNode
      requires if node.Color == Red then RedBlack(rest, h) && RootColor(rest) == Black else RedBlack(rest, h - 1)
      requires place.Top? || RootColor(Plug(place, rest)) == Black
      modifies Nodes(Plug(place, rest))`Parent, Nodes(Plug(place, rest))`LeftSubtree, Nodes(Plug(place, rest))`RightSubtree,
               Nodes(Plug(place, rest))`ValueSum, Nodes(Plug(place, rest))`Color,
               NullNode`Parent, NullNode`LeftSubtree, NullNode`RightSubtree, NullNode`Color
      ensures Good(Top, u, NullNode) && Alike(u, Plug(place, rest)) && NullNode.Color == Black
      ensures RootColor(u) == Black && exists total: int :: RedBlack(u, total)
    {
      hide Good, Plug, Nodes, CtxNodes, Flatten, RedBlack, Expects, Removal.Sinking, FixedUp, Alike;
      ghost var was := Plug(place, rest);
      if node.Color == Black {
        ghost var h' := Removal.PaintRootRed(child, place, rest, h, NullNode);
        u := Removal.FixRemoval(child, Removal.PaintRoot(place), if place.Top? then Removal.Redden(rest) else rest, h', was, NullNode);
        FixedUpAlike(u, was, NullNode);
        u := BlackenRoot(u, NullNode, was);
      } else {
        RedRemovedValid(place, rest, h);
        u := was;
      }
    }

    lemma RemovedOrder(u: Tree<K>, place: Ctx<K>, rest: Tree<K>, was: Tree<K>, index: nat)
      requires Without(place, rest, was, index) && Alike(u, Plug(place, rest))
      ensures index < |Flatten(was)| && Flatten(u) == Flatten(was)[..index] + Flatten(was)[index + 1..]
      ensures |Flatten(u)| == |Flatten(was)| - 1 && Nodes(u) == Nodes(Plug(place, rest))
    {
    }

    /** Removes a linked node. */
    method Remove(node: Node<K>) returns (result: Node<K>, ghost index: nat)
      requires Valid() && node in Nodes(Root)
      modifies this`Elements, this`Root,
               Nodes(Root)`Parent, Nodes(Root)`LeftSubtree, Nodes(Root)`RightSubtree, Nodes(Root)`ValueSum, Nodes(Root)`Color,
               NullNode`Parent, NullNode`LeftSubtree, NullNode`RightSubtree, NullNode`Color
      ensures Valid() && result == node && Nodes(Root) == old(Nodes(Root)) - {node}
      ensures index < |old(Flatten(Root))| && old(Flatten(Root))[index].node == node
      ensures Flatten(Root) == old(Flatten(Root))[..index] + old(Flatten(Root))[index + 1..]
      ensures !node.IsLinked() && node.Parent == null && node.RightSubtree == null
    {
      hide *;
      ghost var c, t := StartWalk(node);
      ghost var total := RemoveLooks(node, c, t);
      RemoveReady(node, c, t);
      index := Position(c, t);
      result := node;
      var child: Node<K>;
      ghost var place, rest, h;
      child, place, rest, h := Unlink(node, c, t);
      TakenOutLooks(node, child, place, rest, h);
      assert allocated(CtxNodes(place)) && allocated(Nodes(rest)) && allocated(Nodes(Plug(place, rest)));
      Invalidate(node, place, rest);
      Elements := Elements - 1;
      ghost var u := Rebalance(node, child, place, rest, h);
      RemovedOrder(u, place, rest, Root, index);
      assert !node.IsLinked() by { Unlinked(node); }
      assert allocated(CtxNodes<K>(Top)) && allocated(Nodes(u)) && allocated(Nodes(Plug(Top, u)));
      Root := u;
      MakeValid();
    }

    lemma Unlinked(node: Node<K>)
      ensures node.IsLinked() <==> node.LeftSubtree != null
    {
    }

    /** A node outside the tree loses its pointers. */
    method Invalidate(node: Node<K>, ghost place: Ctx<K>, ghost rest: Tree<K>)
      requires Good(place, rest, NullNode) && node !in Nodes(Plug(place, rest)) && node != NullNode
      modifies node`Parent, node`LeftSubtree, node`RightSubtree
      ensures Good(place, rest, NullNode)
      ensures node.Parent == null && node.LeftSubtree == null && node.RightSubtree == null
    {
      PlugNodes(place, rest);
      assert allocated(CtxNodes(place)) && allocated(Nodes(rest)) && allocated(Nodes(Plug(place, rest)));
      hide Zipped, SumsOk;
      node.Parent := null;
      node.RightSubtree := null;
      node.LeftSubtree := null;
    }

    // ----- The run-time check -------------------------------------------------------------------

    /** What the run-time check finds at a node. */
    lemma VerifyLooks(node: Node<K>, c: Ctx<K>, t: Tree<K>, h: int)
      requires Walking(node, c, t) && RedBlack(t, h)
      requires LocalOrder(ComparisonFunction, t)
      ensures node.LeftSubtree == RootOf(t.left, NullNode) && node.RightSubtree == RootOf(t.right, NullNode)
      ensures node != NullNode && node.Color == t.color
      ensures node.LeftSubtree.Color == RootColor(t.left) && node.RightSubtree.Color == RootColor(t.right)
      ensures t.left.Leaf? ==> node.LeftSubtree == NullNode
      ensures t.right.Leaf? ==> node.RightSubtree == NullNode
      ensures t.left.Branch? ==> node.LeftSubtree != NullNode && ComparisonFunction(node.Key, node.LeftSubtree.Key) > 0
      ensures t.right.Branch? ==> node.RightSubtree != NullNode && ComparisonFunction(node.Key, node.RightSubtree.Key) < 0
      ensures node.ValueSum == Plus(Plus(node.LeftSubtree.ValueSum, node.Value), node.RightSubtree.ValueSum)
    {
      WalkLooks(node, c, t);
      var l, r := InLeft(c, t.e, t.color, t.right), InRight(c, t.left, t.e, t.color);
      assert node.Key == t.e.key && node.Value == t.e.value && node.Color == t.color;
      assert t.left.Branch? ==> node.LeftSubtree.Key == t.left.e.key && node.LeftSubtree.Color == t.left.color;
      assert t.right.Branch? ==> node.RightSubtree.Key == t.right.e.key && node.RightSubtree.Color == t.right.color;
      StoredSums(node, c, t);
    }

    lemma SumFacts(node: Node<K>, c: Ctx<K>, t: Tree<K>)
      requires Walking(node, c, t)
      ensures node.LeftSubtree != null && node.RightSubtree != null && node.Value == t.e.value
      ensures node.ValueSum == (Sum(t.left) + t.e.value + Sum(t.right)) % MODULUS
      ensures node.LeftSubtree.ValueSum == Sum(t.left) % MODULUS && node.RightSubtree.ValueSum == Sum(t.right) % MODULUS
    {
      WalkLooks(node, c, t);
      PlugSums(c, t);
      assert SumsOk(t) && SumsOk(t.left) && SumsOk(t.right) && node.Value == t.e.value && NullNode.ValueSum == 0;
    }

    lemma PlusThree(a: uint64, v: uint64, b: uint64)
      ensures Plus(Plus(a, v), b) == (a + v + b) % MODULUS
    {
      if a + v >= MODULUS { assert (a + v) % MODULUS == a + v - MODULUS; }
    }

    lemma StoredSums(node: Node<K>, c: Ctx<K>, t: Tree<K>)
      requires Walking(node, c, t)
      ensures node.LeftSubtree != null && node.RightSubtree != null
      ensures node.ValueSum == Plus(Plus(node.LeftSubtree.ValueSum, node.Value), node.RightSubtree.ValueSum)
    {
      hide *;
      SumFacts(node, c, t);
      SumModulo(Sum(t.left), t.e.value, Sum(t.right));
      PlusThree(node.LeftSubtree.ValueSum, node.Value, node.RightSubtree.ValueSum);
    }

    /** The subtrees are ready for the check. */
    lemma VerifyBelow(node: Node<K>, c: Ctx<K>, t: Tree<K>, h: int)
      requires Walking(node, c, t) && RedBlack(t, h) && LocalOrder(ComparisonFunction, t)
      ensures var l, r, below := InLeft(c, t.e, t.color, t.right), InRight(c, t.left, t.e, t.color), if t.color == Black then h - 1 else h;
        && Valid() && Plug(l, t.left) == Root && Good(l, t.left, NullNode) && node == TopOf(l, NullNode)
        && Plug(r, t.right) == Root && Good(r, t.right, NullNode) && node == TopOf(r, NullNode)
        && RedBlack(t.left, below) && RedBlack(t.right, below)
        && LocalOrder(ComparisonFunction, t.left) && LocalOrder(ComparisonFunction, t.right)
        && node.Parent == TopOf(c, NullNode) && node != NullNode
        && |Flatten(t)| == |Flatten(t.left)| + 1 + |Flatten(t.right)|
        && (t.color == Red ==> RootColor(t.left) == Black && RootColor(t.right) == Black) && below >= 1
    {
      SizeAndHeight(t.left, if t.color == Black then h - 1 else h);
      WalkLooks(node, c, t);
      MoveUp(InLeft(c, t.e, t.color, t.right), t.left, NullNode);
      MoveUp(InRight(c, t.left, t.e, t.color), t.right, NullNode);
    }

    lemma NothingBelow(node: Node<K>, c: Ctx<K>, t: Tree<K>, h: int)
      requires Valid() && Plug(c, t) == Root && Good(c, t, NullNode) && node == RootOf(t, NullNode) && RedBlack(t, h)
      ensures if node == NullNode then h == 1 && |Flatten(t)| == 0 else Walking(node, c, t)
    {
      LookAround(c, t, NullNode);
    }

    /** The check below one node: whether everything is as it should be, the black height and the
        number of nodes. */
    method InternalVerify(parent: Node<K>, node: Node<K>, ghost c: Ctx<K>, ghost t: Tree<K>, ghost h: int)
      returns (okay: bool, height: int, counter: nat)
      requires Valid() && Plug(c, t) == Root && Good(c, t, NullNode) && node == RootOf(t, NullNode) && parent == TopOf(c, NullNode)
      requires RedBlack(t, h) && LocalOrder(ComparisonFunction, t)
      ensures okay && height == h && counter == |Flatten(t)|
      decreases t
    {
      hide *;
      NothingBelow(node, c, t, h);
      if node == NullNode {
        return true, 1, 0;
      }
      VerifyLooks(node, c, t, h);
      VerifyBelow(node, c, t, h);
      ghost var l, r := InLeft(c, t.e, t.color, t.right), InRight(c, t.left, t.e, t.color);
      okay := node.Parent == parent;
      if node.LeftSubtree != NullNode {
        okay := okay && ComparisonFunction(node.Key, node.LeftSubtree.Key) > 0;
      }
      if node.RightSubtree != NullNode {
        okay := okay && ComparisonFunction(node.Key, node.RightSubtree.Key) < 0;
      }
      okay := okay && node.ValueSum == Plus(Plus(node.LeftSubtree.ValueSum, node.Value), node.RightSubtree.ValueSum);
      ghost var below := if t.color == Black then h - 1 else h;
      assert allocated(Nodes(Root)) && allocated(CtxNodes(r)) && allocated(Nodes(t.right)) && allocated(Nodes(Plug(r, t.right)));
      var leftOkay, leftHeight, leftCounter := InternalVerify(node, node.LeftSubtree, l, t.left, below);
      var rightOkay, rightHeight, rightCounter := InternalVerify(node, node.RightSubtree, r, t.right, below);
      okay := okay && leftOkay && rightOkay && (leftHeight != 0 || rightHeight != 0) && leftHeight == rightHeight;
      counter := leftCounter + 1 + rightCounter;
      if node.Color == Red {
        okay := okay && node.LeftSubtree.Color == Black && node.RightSubtree.Color == Black;
        height := leftHeight;
      } else {
        height := leftHeight + 1;
      }
    }

    lemma VerifyReady() returns (h: int)
      requires Valid()
      ensures RedBlack(Root, h) && LocalOrder(ComparisonFunction, Root) && Plug<K>(Top, Root) == Root
      ensures Good(Top, Root, NullNode) && NullNode.LeftSubtree == RootOf(Root, NullNode) && TopOf<K>(Top, NullNode) == NullNode
      ensures NullNode.Color == Black && NullNode.Value == 0 && NullNode.ValueSum == 0 && Elements == |Flatten(Root)| && h >= 1
    {
      h :| RedBlack(Root, h);
      LookAround(Top, Root, NullNode);
      SortedIsLocallyOrdered(ComparisonFunction, Root);
      SizeAndHeight(Root, h);
    }

    /** The run-time check of the whole tree: it never fails. */
    method Verify() returns (okay: bool)
      requires Valid()
      ensures okay
    {
      ghost var h := VerifyReady();
      hide Valid, Good, Plug, LocalOrder;
      okay := NullNode.Color == Black && NullNode.Value == 0 && NullNode.ValueSum == 0;
      var subtreesOkay, height, counter := InternalVerify(NullNode, NullNode.LeftSubtree, Top, Root, h);
      okay := okay && subtreesOkay && height != 0 && counter == Elements;
    }
  }
}
