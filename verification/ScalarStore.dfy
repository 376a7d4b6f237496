/** The summary store of src/createsummary.cc: a keyed multi-value store on top of the
    red-black tree, and the ordered dump into one file per scalar name. */
module ScalarStores {
  import opened RedBlackShape
  import opened RedBlackOrder
  import opened RedBlackPainting
  import opened RedBlackTrees
  import opened ScalarTable
  import opened ScalarNames

  /** The object that a tree node is embedded in; the node's key holds the five key fields. */
  class ScalarNode {
    const Node: Node<ScalarKey>
    var AggNames: string
    var Entries: nat
    var ValueSet: seq<real>

    constructor (node: Node<ScalarKey>)
      ensures Node == node && AggNames == "" && Entries == 0 && ValueSet == []
    {
      Node := node;
      AggNames, Entries, ValueSet := "", 0, [];
    }
  }

  lemma KeysAreOrdered()
    ensures TotalOrder(CompareKeys)
  {
    forall a, b ensures CompareKeys(a, b) < 0 <==> CompareKeys(b, a) > 0 { CompareKeysMirror(a, b); }
    forall a, b, c | CompareKeys(a, b) <= 0 && CompareKeys(b, c) <= 0 ensures CompareKeys(a, c) <= 0 {
      CompareKeysTransitive(a, b, c);
    }
  }

  /** The mutable fields of a scalar node. */
  datatype Contents = Contents(aggNames: string, values: seq<real>, entries: nat)

  /** The items describe the tree entries, in tree order. */
  ghost predicate Lists(items: seq<Item>, s: seq<Entry<ScalarKey>>, objects: map<Node<ScalarKey>, Contents>) {
    |items| == |s| && forall i | 0 <= i < |s| :: Describes(items[i], s[i], objects)
  }

  ghost predicate Describes(item: Item, e: Entry<ScalarKey>, objects: map<Node<ScalarKey>, Contents>) {
    && e.node in objects && item == Item(e.key, objects[e.node].aggNames, objects[e.node].values)
    && item.values != [] && objects[e.node].entries == |item.values|
  }

  lemma ListsFrame(items: seq<Item>, s: seq<Entry<ScalarKey>>, before: map<Node<ScalarKey>, Contents>,
                   after: map<Node<ScalarKey>, Contents>)
    requires Lists(items, s, before) && before.Keys <= after.Keys
    requires forall i | 0 <= i < |s| && s[i].node in before :: after[s[i].node] == before[s[i].node]
    ensures Lists(items, s, after)
  {
    forall i | 0 <= i < |s| ensures Describes(items[i], s[i], after) { assert Describes(items[i], s[i], before); }
  }

  /** Where `e` was added to `was` (or not), and its object has got one more value. */
  lemma ListsAdded(items: seq<Item>, was: seq<Entry<ScalarKey>>, s: seq<Entry<ScalarKey>>, index: nat, isNew: bool,
                   before: map<Node<ScalarKey>, Contents>, after: map<Node<ScalarKey>, Contents>, value: real)
    requires Lists(items, was, before) && index < |s|
    requires if isNew then index <= |was| && s == was[..index] + [s[index]] + was[index..] else s == was
    requires before.Keys <= after.Keys && s[index].node in before
    requires forall i | 0 <= i < |s| && i != index && s[i].node in before :: after[s[i].node] == before[s[i].node]
    requires var o, o' := before[s[index].node], after[s[index].node];
      && o' == Contents(o.aggNames, o.values + [value], o.entries + 1)
      && (isNew ==> o.values == [] && o.entries == 0)
    ensures Lists(Added(items, index, isNew, s[index].key, after[s[index].node].aggNames, value), s, after)
  {
    var items' := Added(items, index, isNew, s[index].key, after[s[index].node].aggNames, value);
    forall i | 0 <= i < |s| ensures Describes(items'[i], s[i], after) {
      if isNew && i < index {
        assert s[i] == was[i] && items'[i] == items[i] && Describes(items[i], was[i], before);
      } else if isNew && i > index {
        assert s[i] == was[i - 1] && items'[i] == items[i - 1] && Describes(items[i - 1], was[i - 1], before);
      } else if !isNew {
        assert Describes(items[i], was[i], before);
      }
    }
  }

  lemma AddedName(items: seq<Item>, index: nat, isNew: bool, key: ScalarKey, a: string, b: string, value: real)
    requires if isNew then index <= |items| && a == b else index < |items|
    ensures Added(items, index, isNew, key, a, value) == Added(items, index, isNew, key, b, value)
  {
  }

  class Store {
    const StatisticsStorage: RedBlackTree<ScalarKey>
    /** A node that is ready for the next new key, if there is one. */
    var NextScalarNode: ScalarNode?
    /** From an embedded tree node to the object around it; pointer arithmetic in the program. */
    var Container: map<Node<ScalarKey>, ScalarNode>
    ghost var Items: seq<Item>

    ghost function Footprint(): set<object>
      reads this, StatisticsStorage
    {
      {this, StatisticsStorage, StatisticsStorage.NullNode} + Nodes(StatisticsStorage.Root) + Container.Keys + Container.Values
    }

    /** What the objects around the nodes contain. */
    ghost function Objects(): map<Node<ScalarKey>, Contents>
      reads this, Container.Values
    {
      map n | n in Container :: Contents(Container[n].AggNames, Container[n].ValueSet, Container[n].Entries)
    }

    ghost predicate Valid()
      reads Footprint()
    {
      Intact() && Lists(Items, Flatten(StatisticsStorage.Root), Objects())
    }

    ghost predicate Intact()
      reads Footprint()
    {
      && StatisticsStorage.Valid() && StatisticsStorage.ComparisonFunction == CompareKeys
      && Container.Keys == Nodes(StatisticsStorage.Root) + (if NextScalarNode == null then {} else {NextScalarNode.Node})
      && (forall n | n in Container :: Container[n].Node == n)
      && (NextScalarNode != null ==>
           && NextScalarNode.Node !in Nodes(StatisticsStorage.Root) && NextScalarNode.Node != StatisticsStorage.NullNode
           && Container[NextScalarNode.Node] == NextScalarNode && NextScalarNode.ValueSet == [] && NextScalarNode.Entries == 0)
    }

    constructor ()
      ensures Valid() && Items == [] && fresh(Footprint())
    {
      KeysAreOrdered();
      StatisticsStorage := new RedBlackTree(CompareKeys, ScalarKey("", "", "", "", 0));
      NextScalarNode := null;
      Container := map[];
      Items := [];
    }

    lemma ItemsAscend()
      requires Valid()
      ensures Ascending(Items)
    {
    }

    /** Makes sure that there is a spare node. */
    method Spare(key: ScalarKey)
      requires Valid()
      modifies this
      ensures Valid() && Items == old(Items) && NextScalarNode != null
      ensures old(NextScalarNode) == null ==> fresh(NextScalarNode) && fresh(NextScalarNode.Node)
      ensures old(NextScalarNode) != null ==> NextScalarNode == old(NextScalarNode)
      ensures fresh(Footprint() - old(Footprint()))
    {
      hide StatisticsStorage.Valid, Nodes, Flatten;
      if NextScalarNode == null {
        var node := new Node(key);
        var spare := new ScalarNode(node);
        NextScalarNode := spare;
        Container := Container[node := spare];
      }
    }

    /** Gives the spare node the key. */
    method Prepare(key: ScalarKey, aggNames: string)
      requires Valid() && NextScalarNode != null
      modifies NextScalarNode, NextScalarNode.Node
      ensures Valid() && Footprint() == old(Footprint())
      ensures NextScalarNode.Node.Key == key && NextScalarNode.AggNames == aggNames
    {
      hide StatisticsStorage.Valid, Nodes, Flatten;
      NextScalarNode.Node.Key := key;
      NextScalarNode.AggNames := aggNames;
    }

    /** The tree's answer to the insertion of the spare node. */
    ghost predicate Answered(result: Node<ScalarKey>, index: nat, isNew: bool, key: ScalarKey, aggNames: string,
                             was: seq<Entry<ScalarKey>>)
      reads Footprint(), if NextScalarNode == null then {} else {NextScalarNode, NextScalarNode.Node}
    {
      var s := Flatten(StatisticsStorage.Root);
      && NextScalarNode != null && StatisticsStorage.Valid() && StatisticsStorage.ComparisonFunction == CompareKeys
      && Container.Keys == Nodes(StatisticsStorage.Root) + {NextScalarNode.Node}
      && (forall n | n in Container :: Container[n].Node == n) && Lists(Items, was, Objects())
      && Container[NextScalarNode.Node] == NextScalarNode && NextScalarNode.ValueSet == [] && NextScalarNode.Entries == 0
      && NextScalarNode.AggNames == aggNames && NextScalarNode.Node != StatisticsStorage.NullNode
      && index < |s| && s[index].node == result && s[index].key == key && (isNew <==> result == NextScalarNode.Node)
      && if isNew then index <= |was| && s == was[..index] + [s[index]] + was[index..]
         else s == was && NextScalarNode.Node !in Nodes(StatisticsStorage.Root)
    }

    /** The other entries have other nodes. */
    lemma OtherNodes(index: nat)
      requires StatisticsStorage.Valid() && index < |Flatten(StatisticsStorage.Root)|
      ensures forall i | 0 <= i < |Flatten(StatisticsStorage.Root)| && i != index ::
        Flatten(StatisticsStorage.Root)[i].node != Flatten(StatisticsStorage.Root)[index].node
    {
      forall i | 0 <= i < |Flatten(StatisticsStorage.Root)| && i != index
        ensures Flatten(StatisticsStorage.Root)[i].node != Flatten(StatisticsStorage.Root)[index].node
      {
        if i < index { Unique(StatisticsStorage.Root, i, index); } else { Unique(StatisticsStorage.Root, index, i); }
      }
    }

    /** Everything but the value is in place. */
    ghost predicate Ready(result: Node<ScalarKey>, index: nat, isNew: bool, key: ScalarKey, aggNames: string,
                          was: seq<Entry<ScalarKey>>)
      reads Footprint()
    {
      var s := Flatten(StatisticsStorage.Root);
      && Intact() && Lists(Items, was, Objects())
      && index < |s| && s[index].node == result && s[index].key == key && result in Container
      && (NextScalarNode != null ==> NextScalarNode.Node != result)
      && if isNew
         then index <= |was| && s == was[..index] + [s[index]] + was[index..] && Objects()[result] == Contents(aggNames, [], 0)
         else s == was
    }

    /** Keeps the spare node for the next key unless the tree has taken it. */
    method KeepSpare(result: Node<ScalarKey>, ghost index: nat, ghost isNew: bool, ghost key: ScalarKey,
                     ghost aggNames: string, ghost was: seq<Entry<ScalarKey>>) returns (scalarNode: ScalarNode)
      requires Answered(result, index, isNew, key, aggNames, was)
      modifies this, NextScalarNode`AggNames
      ensures Ready(result, index, isNew, key, aggNames, was) && scalarNode == Container[result]
      ensures Container == old(Container) && Items == old(Items)
    {
      hide StatisticsStorage.Valid, Nodes, Flatten, Lists;
      NodeAt(StatisticsStorage.Root, index);
      ghost var before := Objects();
      ghost var spare := NextScalarNode.Node;
      assert !isNew ==> forall i | 0 <= i < |was| :: was[i].node != spare by {
        forall i | 0 <= i < |was| && !isNew ensures was[i].node != spare { NodeAt(StatisticsStorage.Root, i); }
      }
      scalarNode := Container[result];
      if scalarNode == NextScalarNode {
        NextScalarNode := null;
        assert Objects() == before;
      } else {
        NextScalarNode.AggNames := "";
        assert forall n | n in before && n != spare :: Objects()[n] == before[n];
        ListsFrame(Items, was, before, Objects());
      }
    }

    /** Appends a value to an object that is not the spare one. */
    method Append(scalarNode: ScalarNode, value: real)
      requires Intact() && scalarNode.Node in Container && Container[scalarNode.Node] == scalarNode
      requires scalarNode != NextScalarNode
      modifies scalarNode`ValueSet, scalarNode`Entries
      ensures Intact()
      ensures Objects() == old(Objects())[scalarNode.Node := Contents(scalarNode.AggNames, old(scalarNode.ValueSet) + [value], old(scalarNode.Entries) + 1)]
    {
      hide StatisticsStorage.Valid, Nodes, Flatten;
      scalarNode.ValueSet := scalarNode.ValueSet + [value];
      scalarNode.Entries := scalarNode.Entries + 1;
    }

    lemma Appended(result: Node<ScalarKey>, index: nat, isNew: bool, key: ScalarKey, aggNames: string,
                   was: seq<Entry<ScalarKey>>, value: real, after: map<Node<ScalarKey>, Contents>)
      requires Ready(result, index, isNew, key, aggNames, was)
      requires after == Objects()[result := Contents(Objects()[result].aggNames, Objects()[result].values + [value], Objects()[result].entries + 1)]
      ensures if isNew then index <= |Items| else index < |Items| && Items[index].key == key
      ensures Lists(Added(Items, index, isNew, key, aggNames, value), Flatten(StatisticsStorage.Root), after)
    {
      OtherNodes(index);
      var s := Flatten(StatisticsStorage.Root);
      assert !isNew ==> Describes(Items[index], s[index], Objects());
      hide StatisticsStorage.Valid, Nodes, Flatten, Lists, Added, Intact, Objects;
      ListsAdded(Items, was, s, index, isNew, Objects(), after, value);
      AddedName(Items, index, isNew, key, after[result].aggNames, aggNames, value);
    }

    /** What is known of the keys before an insertion. */
    lemma KeysBefore(key: ScalarKey)
      requires Valid()
      ensures forall i, j | 0 <= i < j < |Items| :: Items[i].key != Items[j].key
      ensures StatisticsStorage.Occurs(key) <==> exists i :: 0 <= i < |Items| && Items[i].key == key
    {
      ItemsAscend();
      var s := Flatten(StatisticsStorage.Root);
      forall i | 0 <= i < |s| ensures Items[i].key == s[i].key { assert Describes(Items[i], s[i], Objects()); }
      if StatisticsStorage.Occurs(key) {
        var i :| 0 <= i < |s| && CompareKeys(key, s[i].key) == 0;
        assert Items[i].key == key;
      }
    }

    /** Hands the spare node to the tree. */
    method InsertSpare(ghost key: ScalarKey, ghost aggNames: string)
      returns (result: Node<ScalarKey>, ghost index: nat, ghost isNew: bool)
      requires Valid() && NextScalarNode != null && NextScalarNode.Node.Key == key && NextScalarNode.AggNames == aggNames
      modifies StatisticsStorage, StatisticsStorage.NullNode, Nodes(StatisticsStorage.Root), NextScalarNode.Node
      ensures Answered(result, index, isNew, key, aggNames, old(Flatten(StatisticsStorage.Root)))
      ensures Objects() == old(Objects()) && Footprint() == old(Footprint())
      ensures isNew <==> !old(StatisticsStorage.Occurs(key))
    {
      hide StatisticsStorage.Valid, Nodes, Flatten, Lists;
      result, index := StatisticsStorage.Insert(NextScalarNode.Node);
      NodeAt(StatisticsStorage.Root, index);
      isNew := result == NextScalarNode.Node;
    }

    /** Where the value goes, once the tree has answered. */
    method Record(result: Node<ScalarKey>, value: real, ghost index: nat, ghost isNew: bool, ghost key: ScalarKey,
                  ghost aggNames: string, ghost was: seq<Entry<ScalarKey>>)
      requires Answered(result, index, isNew, key, aggNames, was)
      modifies this, Container.Values
      ensures Valid() && Footprint() == old(Footprint())
      ensures if isNew then index <= |old(Items)| else index < |old(Items)| && old(Items)[index].key == key
      ensures Items == Added(old(Items), index, isNew, key, aggNames, value)
    {
      hide StatisticsStorage.Valid, Nodes, Flatten, Lists, Added, Intact, Objects, Answered, Ready, Valid;
      NextInContainer(result, index, isNew, key, aggNames, was);
      var scalarNode := KeepSpare(result, index, isNew, key, aggNames, was);
      ReadyLooks(result, index, isNew, key, aggNames, was);
      ghost var o := Objects()[result];
      ghost var after := Objects()[result := Contents(o.aggNames, o.values + [value], o.entries + 1)];
      Appended(result, index, isNew, key, aggNames, was, value, after);
      Append(scalarNode, value);
      assert Objects() == after;
      Describe(Added(Items, index, isNew, key, aggNames, value));
    }

    lemma ReadyLooks(result: Node<ScalarKey>, index: nat, isNew: bool, key: ScalarKey, aggNames: string, was: seq<Entry<ScalarKey>>)
      requires Ready(result, index, isNew, key, aggNames, was)
      ensures Intact() && result in Container && Container[result].Node == result && Container[result] != NextScalarNode
      ensures result in Objects() && Objects()[result] == Contents(Container[result].AggNames, Container[result].ValueSet, Container[result].Entries)
    {
    }

    ghost method Describe(items: seq<Item>)
      requires Intact() && Lists(items, Flatten(StatisticsStorage.Root), Objects())
      modifies this`Items
      ensures Valid() && Items == items && Container == old(Container)
    {
      hide StatisticsStorage.Valid, Nodes, Flatten, Lists;
      Items := items;
      assert Objects() == old(Objects());
    }

    lemma NextInContainer(result: Node<ScalarKey>, index: nat, isNew: bool, key: ScalarKey, aggNames: string, was: seq<Entry<ScalarKey>>)
      requires Answered(result, index, isNew, key, aggNames, was)
      ensures NextScalarNode != null && NextScalarNode in Container.Values
    {
    }

    lemma SpareLooks()
      requires Valid()
      ensures NextScalarNode != null ==> NextScalarNode in Container.Values && NextScalarNode.Node in Container.Keys
    {
    }

    /** Adds one value to the store. */
    method AddScalar(key: ScalarKey, aggNames: string, value: real) returns (ghost index: nat, ghost isNew: bool)
      requires Valid()
      modifies Footprint()
      ensures Valid() && fresh(Footprint() - old(Footprint()))
      ensures if isNew then index <= |old(Items)| else index < |old(Items)| && old(Items)[index].key == key
      ensures Items == Added(old(Items), index, isNew, key, aggNames, value)
      ensures forall k :: Lookup(Items, k) == Lookup(old(Items), k) + if k == key then [value] else []
      ensures forall k :: HeaderOf(Items, k) == if k == key && HeaderOf(old(Items), key) == [] then [aggNames] else HeaderOf(old(Items), k)
      ensures Count(Items) == Count(old(Items)) + 1
    {
      hide StatisticsStorage.Valid, Nodes, Flatten, Lists, Added, Lookup, HeaderOf, Count, Answered, Objects, Intact, Valid;
      Spare(key);
      SpareLooks();
      Prepare(key, aggNames);
      ghost var was, items := Flatten(StatisticsStorage.Root), Items;
      KeysBefore(key);
      var result;
      result, index, isNew := InsertSpare(key, aggNames);
      Record(result, value, index, isNew, key, aggNames, was);
      AddedIsAppendAll(items, index, isNew, key, aggNames, value);
    }

    // ----- Scalars of a file ----------------------------------------------------------------------

    /** Works out where a scalar belongs and adds it, unless its name is to be skipped. */
    method HandleScalar(scalar: Scalar, splitting: bool, skipList: seq<string>)
      requires Valid()
      modifies Footprint()
      ensures Valid() && fresh(Footprint() - old(Footprint())) && (old(Named(Items)) ==> Named(Items))
      ensures Handled(old(Items), Items, ReadingOf(scalar, splitting), skipList)
    {
      hide Valid, Added, Lookup, HeaderOf, Count, Aggregate, Without, ReplaceSlashes, Named, SplitStatistic, Skipped, Nodes, StemsFit;
      assert allocated(Footprint());
      var statName, splitName := scalar.statName, "";
      if splitting {
        statName, splitName := SplitStatistic(statName).0, SplitStatistic(statName).1;
      }
      statName := ReplaceSlashes(Without(statName, ' '));
      ObjectFits(scalar);
      var names, levels := GetAggregate(Without(Without(scalar.objectName, '['), ']'), statName, true);
      KeyIsNamed(scalar, splitting);
      var skipping := IsSkipped(names.scalarName, skipList);
      if !skipping {
        var key := ScalarKey(names.scalarName, splitName, names.aggValues, scalar.varValues, scalar.run);
        ghost var items := Items;
        ghost var footprint := Footprint();
        label Before:
        ghost var index, isNew := AddScalar(key, names.aggNames, scalar.value);
        forall o | o in Footprint() && o !in footprint ensures fresh(o) { assert fresh@Before(o); }
        if Named(items) { AddedIsNamed(items, index, isNew, key, names.aggNames, scalar.value); }
      }
    }

    /** Adds all scalars of a file in their order. */
    method HandleScalars(scalars: seq<Scalar>, splitting: bool, skipList: seq<string>)
      requires Valid() && Named(Items)
      modifies Footprint()
      ensures Valid() && fresh(Footprint() - old(Footprint())) && Named(Items)
      ensures Count(Items) == Count(old(Items)) + |Recorded(ReadingsOf(scalars, splitting), skipList)|
      ensures Extends(old(Items), Items, Recorded(ReadingsOf(scalars, splitting), skipList))
    {
      hide *;
      ghost var items, readings := Items, ReadingsOf(scalars, splitting);
      var i := 0;
      NothingRecorded(readings, skipList, items);
      while i < |scalars|
        invariant 0 <= i <= |scalars| && Valid() && fresh(Footprint() - old(Footprint())) && Named(Items)
        invariant Count(Items) == Count(items) + |Recorded(readings[..i], skipList)|
        invariant Extends(items, Items, Recorded(readings[..i], skipList))
      {
        ghost var before, footprint := Items, Footprint();
        label Before:
        HandleScalar(scalars[i], splitting, skipList);
        forall o | o in Footprint() && o !in old(Footprint()) ensures fresh(o) { assert o in footprint || fresh@Before(o); }
        ReadingAt(scalars, splitting, i);
        RecordedNext(readings, i, skipList);
        RecordNext(items, before, Items, Recorded(readings[..i], skipList), readings[i], skipList);
        i := i + 1;
      }
      assert readings[..i] == readings;
    }

    // ----- The dump ---------------------------------------------------------------------------

    /** The loop has come to the entry at position `i`. */
    lemma ItemAt(i: nat)
      requires Valid() && i < |Flatten(StatisticsStorage.Root)|
      ensures |Items| == |Flatten(StatisticsStorage.Root)|
      ensures var node := Flatten(StatisticsStorage.Root)[i].node;
        && node in Nodes(StatisticsStorage.Root) && node in Container
        && Items[i] == Item(node.Key, Container[node].AggNames, Container[node].ValueSet)
    {
      var s := Flatten(StatisticsStorage.Root);
      NodeAt(StatisticsStorage.Root, i);
      var c, t := StatisticsStorage.StartWalk(s[i].node);
      LookAround(c, t, StatisticsStorage.NullNode);
      AtPosition(c, t);
      assert Describes(Items[i], s[i], Objects());
    }

    /** Writes the rows of one entry; without an open file nothing is written. */
    method WriteRows(scalarNode: ScalarNode, key: ScalarKey, isOpen: bool, files0: seq<File>, lineNumber0: nat)
      returns (files: seq<File>, lineNumber: nat)
      requires isOpen <==> files0 != []
      ensures var item := Item(key, scalarNode.AggNames, scalarNode.ValueSet);
        files == WithRows(files0, ItemRows(item, |item.values|))
      ensures lineNumber == lineNumber0 + |scalarNode.ValueSet|
    {
      ghost var item := Item(key, scalarNode.AggNames, scalarNode.ValueSet);
      files, lineNumber := files0, lineNumber0;
      var valueNumber := 1;
      WithNoRows(files, item);
      while valueNumber <= |scalarNode.ValueSet|
        invariant 1 <= valueNumber <= |item.values| + 1 && lineNumber == lineNumber0 + valueNumber - 1
        invariant files == WithRows(files0, ItemRows(item, valueNumber - 1)) && |files| == |files0|
      {
        var row := Row(key.run, valueNumber, key.splitName, key.aggValues, key.varValues, scalarNode.ValueSet[valueNumber - 1]);
        WithNextRow(files0, item, valueNumber - 1);
        if isOpen {
          files := files[|files| - 1 := files[|files| - 1].(rows := files[|files| - 1].rows + [row])];
        }
        valueNumber := valueNumber + 1;
        lineNumber := lineNumber + 1;
      }
    }

    /** Counts a file when it is closed: then every file is counted, and every line of it, the
        header and the rows. */
    method CloseOutputFile(isOpen: bool, lineNumber: nat, totalLines: nat, totalFiles: nat, ghost files: seq<File>)
      returns (totalLines': nat, totalFiles': nat)
      requires LinesSoFar(files, lineNumber, totalLines, totalFiles) && (isOpen <==> files != [])
      ensures totalFiles' == |files| && totalLines' == |files| + RowCount(files)
    {
      totalLines', totalFiles' := totalLines, totalFiles;
      if isOpen {
        totalLines' := totalLines' + lineNumber;
        totalFiles' := totalFiles' + 1;
      }
    }

    /** One round of the dump loop. */
    method DumpItem(scalarNode: ScalarNode, key: ScalarKey, varNames: string, d0: Dump, ghost init: seq<Item>) returns (d: Dump)
      requires DumpedSoFar(init, varNames, d0)
      ensures DumpedSoFar(init + [Item(key, scalarNode.AggNames, scalarNode.ValueSet)], varNames, d)
    {
      hide DumpFiles, WithRows, ItemRows, RowCount, LinesSoFar, LastName;
      ghost var item := Item(key, scalarNode.AggNames, scalarNode.ValueSet);
      d := d0;
      if d.lastStatisticsName != key.scalarName {
        var file := File(key.scalarName, scalarNode.AggNames, varNames, []);
        var totalLines, totalFiles := CloseOutputFile(d.isOpen, d.lineNumber, d.totalLines, d.totalFiles, d.files);
        ClosedLines(d.files, file);
        d := Dump(d.files + [file], key.scalarName, true, 1, totalLines, totalFiles);
      }
      DumpStep(init, item, varNames);
      RowsAreLines(d.files, ItemRows(item, |item.values|), d.lineNumber, d.totalLines, d.totalFiles);
      var files, lineNumber := WriteRows(scalarNode, key, d.isOpen, d.files, d.lineNumber);
      d := Dump(files, d.lastStatisticsName, d.isOpen, lineNumber, d.totalLines, d.totalFiles);
    }

    /** Writes the table into one file for each scalar name. */
    method DumpScalars(varNames: string) returns (files: seq<File>, totalLines: nat, totalFiles: nat)
      requires Valid()
      ensures Grouped(Items, varNames, files) && FilesTell(Items, files)
      ensures totalFiles == |files| && totalLines == totalFiles + NamedCount(Items) && RowCount(files) == NamedCount(Items)
      ensures totalLines == totalFiles + Count(Items) <==> Named(Items)
    {
      hide *;
      var d := Dump([], "", false, 0, 0, 0);
      ghost var i := 0;
      ghost var s := Flatten(StatisticsStorage.Root);
      TableLooks();
      assert allocated(Footprint());
      var node := StatisticsStorage.GetFirst();
      DumpNothing(varNames);
      while node != null
        invariant 0 <= i <= |s| == |Items| && node == if i < |s| then s[i].node else null
        invariant DumpedSoFar(Items[..i], varNames, d) && Valid()
        decreases |s| - i
      {
        ItemAt(i);
        TableLooks();
        assert allocated(Footprint());
        d := DumpItem(Container[node], node.Key, varNames, d, Items[..i]);
        assert Items[..i + 1] == Items[..i] + [Items[i]];
        TableLooks();
        node := StatisticsStorage.GetNext(node);
        i := i + 1;
      }
      assert Items[..i] == Items;
      AllDumped(Items, varNames, d);
      totalLines, totalFiles := CloseOutputFile(d.isOpen, d.lineNumber, d.totalLines, d.totalFiles, d.files);
      files := d.files;
      DumpGroups(Items, varNames);
      DumpCounts(Items, varNames);
      AllWritten(Items);
    }

    /** Takes all entries out of the tree, first one first. */
    method Clear()
      requires Valid()
      modifies StatisticsStorage, StatisticsStorage.NullNode, Nodes(StatisticsStorage.Root)
      ensures StatisticsStorage.Valid() && Flatten(StatisticsStorage.Root) == [] && StatisticsStorage.Elements == 0
      ensures forall n | n in old(Nodes(StatisticsStorage.Root)) :: !n.IsLinked()
    {
      hide StatisticsStorage.Valid, Nodes, Flatten;
      ghost var all := Nodes(StatisticsStorage.Root);
      SentinelApart();
      assert allocated(all);
      var node := StatisticsStorage.GetFirst();
      while node != null
        invariant StatisticsStorage.Valid() && Nodes(StatisticsStorage.Root) <= all
        invariant node == if Flatten(StatisticsStorage.Root) == [] then null else Flatten(StatisticsStorage.Root)[0].node
        invariant forall n | n in all && n !in Nodes(StatisticsStorage.Root) :: !n.IsLinked()
        decreases |Flatten(StatisticsStorage.Root)|
      {
        NodeAt(StatisticsStorage.Root, 0);
        ghost var index;
        node, index := StatisticsStorage.Remove(node);
        node := StatisticsStorage.GetFirst();
      }
      EmptyTree(StatisticsStorage.Root);
      CountsElements();
    }

    lemma SentinelApart()
      requires StatisticsStorage.Valid()
      ensures StatisticsStorage.NullNode !in Nodes(StatisticsStorage.Root)
    {
    }

    lemma EmptyTree(t: Tree<ScalarKey>)
      requires Flatten(t) == []
      ensures Nodes(t) == {}
    {
    }

    lemma CountsElements()
      requires StatisticsStorage.Valid()
      ensures StatisticsStorage.Elements == |Flatten(StatisticsStorage.Root)|
    {
    }

    lemma TableLooks()
      requires Valid()
      ensures |Items| == |Flatten(StatisticsStorage.Root)| && StatisticsStorage.Valid() && Ascending(Items)
      ensures forall i | 0 <= i < |Items| :: Items[i].values != []
      ensures Flatten(StatisticsStorage.Root) == [] <==> Items == []
    {
      ItemsAscend();
      forall i | 0 <= i < |Items| ensures Items[i].values != [] {
        assert Describes(Items[i], Flatten(StatisticsStorage.Root)[i], Objects());
      }
    }
  }

  /** Each key has got its recorded values behind those it had before, and its first columns. */
  ghost predicate Extends(before: seq<Item>, after: seq<Item>, records: seq<Reading>) {
    && (forall k :: Lookup(after, k) == Lookup(before, k) + ValuesOf(records, k))
    && (forall k :: HeaderOf(after, k) == First(HeaderOf(before, k) + ColumnsFor(records, k)))
  }

  lemma OneMoreExtends(before: seq<Item>, middle: seq<Item>, after: seq<Item>, records: seq<Reading>, r: Reading)
    requires Extends(before, middle, records)
    requires forall k :: Lookup(after, k) == Lookup(middle, k) + if k == r.key then [r.value] else []
    requires forall k :: HeaderOf(after, k) == if k == r.key && HeaderOf(middle, r.key) == [] then [r.aggNames] else HeaderOf(middle, k)
    ensures Extends(before, after, records + [r])
  {
    hide Lookup, HeaderOf, ValuesOf, ColumnsFor;
    forall k ensures Lookup(after, k) == Lookup(before, k) + ValuesOf(records + [r], k) {
      OneMoreRecord(records, r, k);
    }
    forall k ensures HeaderOf(after, k) == First(HeaderOf(before, k) + ColumnsFor(records + [r], k)) {
      OneMoreRecord(records, r, k);
    }
  }

  lemma {:induction false} HeaderOnce(items: seq<Item>, key: ScalarKey)
    ensures |HeaderOf(items, key)| <= 1
  {
    if items != [] { HeaderOnce(items[1..], key); }
  }

  lemma NothingRecorded(readings: seq<Reading>, skipList: seq<string>, items: seq<Item>)
    ensures Recorded(readings[..0], skipList) == [] && Extends(items, items, [])
  {
    forall k ensures HeaderOf(items, k) == First(HeaderOf(items, k) + ColumnsFor([], k)) { HeaderOnce(items, k); }
  }

  lemma ReadingAt(scalars: seq<Scalar>, splitting: bool, i: nat)
    requires i < |scalars|
    ensures ReadingsOf(scalars, splitting)[i] == ReadingOf(scalars[i], splitting)
  {
    hide ReadingOf;
  }

  /** What one scalar does to the table. */
  ghost predicate Handled(before: seq<Item>, after: seq<Item>, r: Reading, skipList: seq<string>) {
    if Skipped(r.key.scalarName, skipList) then after == before
    else && Count(after) == Count(before) + 1
         && (forall k :: Lookup(after, k) == Lookup(before, k) + if k == r.key then [r.value] else [])
         && (forall k :: HeaderOf(after, k) == if k == r.key && HeaderOf(before, r.key) == [] then [r.aggNames] else HeaderOf(before, k))
  }

  lemma RecordNext(items: seq<Item>, before: seq<Item>, after: seq<Item>, records: seq<Reading>, r: Reading, skipList: seq<string>)
    requires Handled(before, after, r, skipList)
    requires Extends(items, before, records) && Count(before) == Count(items) + |records|
    ensures var records' := if Skipped(r.key.scalarName, skipList) then records else records + [r];
      Extends(items, after, records') && Count(after) == Count(items) + |records'|
  {
    hide Skipped, Extends, Count, Lookup, HeaderOf;
    if !Skipped(r.key.scalarName, skipList) { OneMoreExtends(items, before, after, records, r); }
  }

  lemma RecordedNext(readings: seq<Reading>, i: nat, skipList: seq<string>)
    requires i < |readings|
    ensures var records := Recorded(readings[..i], skipList);
      Recorded(readings[..i + 1], skipList) == if Skipped(readings[i].key.scalarName, skipList) then records else records + [readings[i]]
  {
    hide Skipped;
    assert readings[..i + 1][..i] == readings[..i];
    assert Recorded(readings[..i], skipList) + [] == Recorded(readings[..i], skipList);
  }

  lemma NothingYet()
    ensures Count([]) == 0 && Named([])
  {
  }

  lemma FromNothing(items: seq<Item>, records: seq<Reading>)
    requires Extends([], items, records) && Ascending(items) && Named(items) && forall i | 0 <= i < |items| :: items[i].values != []
    ensures Tells(items, records)
  {
    hide ValuesOf, ColumnsFor;
    forall k ensures Lookup(items, k) == ValuesOf(records, k) && HeaderOf(items, k) == First(ColumnsFor(records, k)) {
      assert Lookup([], k) == [] && HeaderOf([], k) == [];
      assert [] + ValuesOf(records, k) == ValuesOf(records, k) && [] + ColumnsFor(records, k) == ColumnsFor(records, k);
    }
  }

  /** Compares a name with the prefixes of the skip list. */
  method IsSkipped(name: string, skipList: seq<string>) returns (skipping: bool)
    ensures skipping <==> Skipped(name, skipList)
  {
    var i := 0;
    while i < |skipList|
      invariant 0 <= i <= |skipList| && forall k | 0 <= k < i :: !(skipList[k] <= name)
    {
      if skipList[i] <= name {
        return true;
      }
      i := i + 1;
    }
    return false;
  }

  lemma ToldOfRecords(items: seq<Item>, records: seq<Reading>, files: seq<File>)
    requires Tells(items, records) && FilesTell(items, files)
    ensures Reports(files, records)
  {
    hide RowsFor, HoldValues, Lookup, HeaderOf, ValuesOf, ColumnsFor, HasFile, RowsInOrder, Ascending;
    forall i, key: ScalarKey | 0 <= i < |files| && files[i].name == key.scalarName
      ensures HoldValues(RowsFor(files[i].rows, key), ValuesOf(records, key))
    {
      assert Lookup(items, key) == ValuesOf(records, key);
    }
    forall key: ScalarKey | key.scalarName != "" && ValuesOf(records, key) != [] ensures HasFile(files, key.scalarName) {
      assert Lookup(items, key) == ValuesOf(records, key);
    }
  }

  /** From the scalars to the files: everything that is not skipped is written, each value in the
      file of its scalar name; the reported lines are these values and a header for each file. */
  method Summarize(scalars: seq<Scalar>, splitting: bool, skipList: seq<string>, varNames: string)
    returns (files: seq<File>, totalLines: nat, totalFiles: nat, ghost items: seq<Item>)
    ensures Grouped(items, varNames, files) && totalFiles == |files|
    ensures Tells(items, Recorded(ReadingsOf(scalars, splitting), skipList))
    ensures Reports(files, Recorded(ReadingsOf(scalars, splitting), skipList))
    ensures RowCount(files) == |Recorded(ReadingsOf(scalars, splitting), skipList)|
    ensures totalLines == totalFiles + |Recorded(ReadingsOf(scalars, splitting), skipList)|
  {
    hide *;
    var store := new Store();
    NothingYet();
    store.HandleScalars(scalars, splitting, skipList);
    items := store.Items;
    store.TableLooks();
    FromNothing(items, Recorded(ReadingsOf(scalars, splitting), skipList));
    files, totalLines, totalFiles := store.DumpScalars(varNames);
    ToldOfRecords(items, Recorded(ReadingsOf(scalars, splitting), skipList), files);
  }

  /** The counters while the last file is still open. */
  ghost predicate LinesSoFar(files: seq<File>, lineNumber: nat, totalLines: nat, totalFiles: nat) {
    if files == [] then totalFiles == totalLines == 0
    else
      && totalFiles == |files| - 1 && totalLines == totalFiles + RowCount(files[..|files| - 1])
      && lineNumber == 1 + |files[|files| - 1].rows|
  }

  /** The variables of the dump loop; the last file is the open one. */
  datatype Dump = Dump(files: seq<File>, lastStatisticsName: string, isOpen: bool, lineNumber: nat,
                       totalLines: nat, totalFiles: nat)

  ghost predicate DumpedSoFar(items: seq<Item>, varNames: string, d: Dump) {
    && d.files == DumpFiles(items, varNames) && d.lastStatisticsName == LastName(items) && (d.isOpen <==> d.files != [])
    && LinesSoFar(d.files, d.lineNumber, d.totalLines, d.totalFiles)
  }

  lemma DumpNothing(varNames: string)
    ensures DumpedSoFar([], varNames, Dump([], "", false, 0, 0, 0))
  {
  }

  lemma ClosedLines(files: seq<File>, file: File)
    requires file.rows == []
    ensures LinesSoFar(files + [file], 1, |files| + RowCount(files), |files|)
  {
    assert (files + [file])[..|files|] == files;
  }

  lemma RowsAreLines(files: seq<File>, rows: seq<Row>, lineNumber: nat, totalLines: nat, totalFiles: nat)
    requires LinesSoFar(files, lineNumber, totalLines, totalFiles)
    ensures LinesSoFar(WithRows(files, rows), lineNumber + |rows|, totalLines, totalFiles)
    ensures |WithRows(files, rows)| == |files|
  {
    if files != [] { assert WithRows(files, rows)[..|files| - 1] == files[..|files| - 1]; }
  }

  lemma AllDumped(items: seq<Item>, varNames: string, d: Dump)
    requires DumpedSoFar(items, varNames, d)
    ensures d.files == DumpFiles(items, varNames) && (d.isOpen <==> d.files != [])
    ensures LinesSoFar(d.files, d.lineNumber, d.totalLines, d.totalFiles)
  {
  }

  lemma WithNoRows(files: seq<File>, item: Item)
    ensures WithRows(files, ItemRows(item, 0)) == files
  {
    assert ItemRows(item, 0) == [];
    if files != [] { assert files[|files| - 1].rows + [] == files[|files| - 1].rows; }
  }

  lemma WithNextRow(files: seq<File>, item: Item, n: nat)
    requires n < |item.values|
    ensures var so := WithRows(files, ItemRows(item, n));
      WithRows(files, ItemRows(item, n + 1)) ==
        if files == [] then so else so[|files| - 1 := so[|files| - 1].(rows := so[|files| - 1].rows + [RowOf(item, n)])]
  {
    assert ItemRows(item, n + 1) == ItemRows(item, n) + [RowOf(item, n)];
    if files != [] {
      var rows := files[|files| - 1].rows;
      assert rows + (ItemRows(item, n) + [RowOf(item, n)]) == (rows + ItemRows(item, n)) + [RowOf(item, n)];
    }
  }

  lemma AddedIsAppendAll(items: seq<Item>, index: nat, isNew: bool, key: ScalarKey, aggNames: string, value: real)
    requires if isNew then index <= |items| else index < |items| && items[index].key == key
    requires forall i, j | 0 <= i < j < |items| :: items[i].key != items[j].key
    requires isNew ==> forall i | 0 <= i < |items| :: items[i].key != key
    ensures forall k :: Lookup(Added(items, index, isNew, key, aggNames, value), k) == Lookup(items, k) + if k == key then [value] else []
    ensures forall k :: HeaderOf(Added(items, index, isNew, key, aggNames, value), k)
                     == if k == key && HeaderOf(items, key) == [] then [aggNames] else HeaderOf(items, k)
    ensures Count(Added(items, index, isNew, key, aggNames, value)) == Count(items) + 1
  {
    hide Lookup, HeaderOf, Added, Count;
    forall k ensures HeaderOf(Added(items, index, isNew, key, aggNames, value), k) ==
      if k == key && HeaderOf(items, key) == [] then [aggNames] else HeaderOf(items, k)
    {
      AddedKeepsHeaders(items, index, isNew, key, aggNames, value, k);
    }
    forall k ensures Lookup(Added(items, index, isNew, key, aggNames, value), k) == Lookup(items, k) + if k == key then [value] else [] {
      AddedIsAppend(items, index, isNew, key, aggNames, value, k);
    }
    AddedIsAppend(items, index, isNew, key, aggNames, value, key);
  }
}
