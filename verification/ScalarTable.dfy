/** The table that src/createsummary.cc collects: keys, their order, and what is written for
    each scalar name. */
module ScalarTable {

  /** What identifies one entry of the table. */
  datatype ScalarKey = ScalarKey(scalarName: string, splitName: string, aggValues: string, varValues: string, run: nat)

  /** The sign of C's `strcmp`; a string that ends first is the smaller one. */
  function StrCmp(a: string, b: string): (r: int)
    ensures r == 0 <==> a == b
    decreases |a|
  {
    if a == [] then (if b == [] then 0 else -1)
    else if b == [] then 1
    else if a[0] != b[0] then a[0] as int - b[0] as int
    else
      assert a == [a[0]] + a[1..] && b == [b[0]] + b[1..];
      StrCmp(a[1..], b[1..])
  }

  function CompareKeys(a: ScalarKey, b: ScalarKey): (r: int)
    ensures r == 0 <==> a == b
  {
    var byName := StrCmp(a.scalarName, b.scalarName);
    if byName != 0 then byName else
    var bySplit := StrCmp(a.splitName, b.splitName);
    if bySplit != 0 then bySplit else
    var byAggregate := StrCmp(a.aggValues, b.aggValues);
    if byAggregate != 0 then byAggregate else
    var byVariables := StrCmp(a.varValues, b.varValues);
    if byVariables != 0 then byVariables else
    if a.run < b.run then -1 else if a.run > b.run then 1 else 0
  }

  lemma {:induction false} StrCmpMirror(a: string, b: string)
    ensures StrCmp(a, b) < 0 <==> StrCmp(b, a) > 0
    decreases |a|
  {
    if a != [] && b != [] && a[0] == b[0] { StrCmpMirror(a[1..], b[1..]); }
  }

  lemma {:induction false} StrCmpTransitive(a: string, b: string, c: string)
    requires StrCmp(a, b) <= 0 && StrCmp(b, c) <= 0
    ensures StrCmp(a, c) <= 0
    ensures StrCmp(a, b) < 0 || StrCmp(b, c) < 0 ==> StrCmp(a, c) < 0
    decreases |a|
  {
    if a != [] && b != [] && c != [] && a[0] == b[0] == c[0] { StrCmpTransitive(a[1..], b[1..], c[1..]); }
  }

  lemma CompareKeysMirror(a: ScalarKey, b: ScalarKey)
    ensures CompareKeys(a, b) < 0 <==> CompareKeys(b, a) > 0
  {
    StrCmpMirror(a.scalarName, b.scalarName);
    StrCmpMirror(b.scalarName, a.scalarName);
    StrCmpMirror(a.splitName, b.splitName);
    StrCmpMirror(b.splitName, a.splitName);
    StrCmpMirror(a.aggValues, b.aggValues);
    StrCmpMirror(b.aggValues, a.aggValues);
    StrCmpMirror(a.varValues, b.varValues);
    StrCmpMirror(b.varValues, a.varValues);
  }

  lemma CompareKeysTransitive(a: ScalarKey, b: ScalarKey, c: ScalarKey)
    requires CompareKeys(a, b) <= 0 && CompareKeys(b, c) <= 0
    ensures CompareKeys(a, c) <= 0
  {
    StrCmpTransitive(a.scalarName, b.scalarName, c.scalarName);
    if a.scalarName == b.scalarName == c.scalarName {
      StrCmpTransitive(a.splitName, b.splitName, c.splitName);
      if a.splitName == b.splitName == c.splitName {
        StrCmpTransitive(a.aggValues, b.aggValues, c.aggValues);
        if a.aggValues == b.aggValues == c.aggValues {
          StrCmpTransitive(a.varValues, b.varValues, c.varValues);
        }
      }
    }
  }

  /** The order of a dictionary, by the first characters that differ. */
  ghost predicate Before(a: string, b: string) {
    exists k :: FirstDifference(a, b, k) && (k == |a| || a[k] < b[k])
  }

  ghost predicate FirstDifference(a: string, b: string, k: int) {
    0 <= k <= |a| && k < |b| && a[..k] == b[..k]
  }

  /** The order of the table: by scalar name, split name, aggregate values, variable values and run,
      where each decides if all before it are equal. */
  ghost predicate KeyBefore(a: ScalarKey, b: ScalarKey) {
    || Before(a.scalarName, b.scalarName)
    || (a.scalarName == b.scalarName &&
        (Before(a.splitName, b.splitName)
         || (a.splitName == b.splitName &&
             (Before(a.aggValues, b.aggValues)
              || (a.aggValues == b.aggValues &&
                  (Before(a.varValues, b.varValues) || (a.varValues == b.varValues && a.run < b.run)))))))
  }

  lemma {:induction false} StrCmpIsBefore(a: string, b: string)
    ensures StrCmp(a, b) < 0 <==> Before(a, b)
    decreases |a|
  {
    if a == [] || b == [] {
      if b != [] { assert FirstDifference(a, b, 0); }
    } else if a[0] != b[0] {
      if a[0] < b[0] { assert FirstDifference(a, b, 0); }
      if k :| FirstDifference(a, b, k) && (k == |a| || a[k] < b[k]) {
        if k > 0 { SameFirst(a, b, k); }
      }
    } else {
      StrCmpIsBefore(a[1..], b[1..]);
      if k :| FirstDifference(a[1..], b[1..], k) && (k == |a[1..]| || a[1..][k] < b[1..][k]) {
        assert a[..k + 1] == [a[0]] + a[1..][..k] && b[..k + 1] == [b[0]] + b[1..][..k];
        assert FirstDifference(a, b, k + 1);
      }
      if k :| FirstDifference(a, b, k) && (k == |a| || a[k] < b[k]) {
        assert a[1..][..k - 1] == a[..k][1..] && b[1..][..k - 1] == b[..k][1..];
        assert FirstDifference(a[1..], b[1..], k - 1);
      }
    }
  }

  lemma SameFirst(a: string, b: string, k: int)
    requires FirstDifference(a, b, k) && k > 0
    ensures a[0] == b[0]
  {
    assert a[0] == a[..k][0] && b[0] == b[..k][0];
  }

  /** What the comparison decides by. */
  lemma CompareKeysIsBefore(a: ScalarKey, b: ScalarKey)
    ensures CompareKeys(a, b) < 0 <==> KeyBefore(a, b)
  {
    hide StrCmp, Before;
    StrCmpIsBefore(a.scalarName, b.scalarName);
    StrCmpIsBefore(a.splitName, b.splitName);
    StrCmpIsBefore(a.aggValues, b.aggValues);
    StrCmpIsBefore(a.varValues, b.varValues);
    NotBefore(a.scalarName);
    NotBefore(a.splitName);
    NotBefore(a.aggValues);
    NotBefore(a.varValues);
  }

  lemma NotBefore(a: string)
    ensures !Before(a, a)
  {
    if k :| FirstDifference(a, a, k) && (k == |a| || a[k] < a[k]) { assert false; }
  }

  // ----- The table as a map --------------------------------------------------------------------

  /** One entry; its values are in the order of their arrival. */
  datatype Item = Item(key: ScalarKey, aggNames: string, values: seq<real>)

  ghost predicate Ascending(items: seq<Item>) {
    forall i, j | 0 <= i < j < |items| :: CompareKeys(items[i].key, items[j].key) < 0
  }

  /** The values collected for `key`. */
  function Lookup(items: seq<Item>, key: ScalarKey): seq<real> {
    if items == [] then [] else if items[0].key == key then items[0].values else Lookup(items[1..], key)
  }

  /** The number of values in the table. */
  function Count(items: seq<Item>): nat {
    if items == [] then 0 else |items[0].values| + Count(items[1..])
  }

  lemma {:induction false} LookupAppend(a: seq<Item>, b: seq<Item>, key: ScalarKey)
    ensures (exists i :: 0 <= i < |a| && a[i].key == key) || Lookup(a + b, key) == Lookup(b, key)
    ensures (forall i :: 0 <= i < |a| ==> a[i].key != key) || Lookup(a + b, key) == Lookup(a, key)
    ensures Count(a + b) == Count(a) + Count(b)
  {
    if a == [] {
      assert a + b == b;
    } else {
      assert (a + b)[1..] == a[1..] + b;
      LookupAppend(a[1..], b, key);
      if a[0].key != key && exists i :: 0 <= i < |a[1..]| && a[1..][i].key == key {
        var i :| 0 <= i < |a[1..]| && a[1..][i].key == key;
        assert a[i + 1].key == key;
      }
    }
  }

  /** What adding one value does: either a new entry or a longer one at `index`. */
  function Added(items: seq<Item>, index: nat, isNew: bool, key: ScalarKey, aggNames: string, value: real): seq<Item>
    requires if isNew then index <= |items| else index < |items|
  {
    if isNew then items[..index] + [Item(key, aggNames, [value])] + items[index..]
    else items[index := items[index].(values := items[index].values + [value])]
  }

  lemma LookupSplit(items: seq<Item>, index: nat, item: Item, rest: seq<Item>, k: ScalarKey)
    requires index <= |items| && forall i | 0 <= i < index :: items[i].key != item.key
    ensures Lookup(items[..index] + [item] + rest, item.key) == item.values
    ensures k != item.key ==> Lookup(items[..index] + [item] + rest, k) == Lookup(items[..index] + rest, k)
  {
    assert items[..index] + [item] + rest == items[..index] + ([item] + rest);
    assert ([item] + rest)[1..] == rest;
    LookupAppend(items[..index], [item] + rest, item.key);
    LookupAppend(items[..index], [item] + rest, k);
    LookupAppend(items[..index], rest, k);
    if k != item.key { assert Lookup([item] + rest, k) == Lookup(rest, k); }
  }

  lemma NewIsAppend(items: seq<Item>, index: nat, item: Item, k: ScalarKey)
    requires index <= |items| && forall i | 0 <= i < |items| :: items[i].key != item.key
    ensures var items' := items[..index] + [item] + items[index..];
      && Lookup(items', k) == (if k == item.key then item.values else Lookup(items, k)) && Count(items') == Count(items) + |item.values|
    ensures Lookup(items, item.key) == []
  {
    hide Lookup, Count;
    var before, after := items[..index], items[index..];
    assert before + after == items && items + [] == items;
    LookupSplit(items, index, item, after, k);
    LookupAppend(before + [item], after, k);
    LookupAppend(before, [item], k);
    LookupAppend(before, after, k);
    LookupAppend(items, [], item.key);
    OneItem(item);
  }

  lemma OneItem(item: Item)
    ensures Count([item]) == |item.values| && forall k :: Lookup([], k) == []
  {
  }

  lemma LongerIsAppend(items: seq<Item>, index: nat, value: real, k: ScalarKey)
    requires index < |items| && forall i, j | 0 <= i < j < |items| :: items[i].key != items[j].key
    ensures var item := items[index];
      var items' := items[index := item.(values := item.values + [value])];
      && Lookup(items', k) == Lookup(items, k) + (if k == item.key then [value] else []) && Count(items') == Count(items) + 1
  {
    hide Lookup, Count;
    var before, item, rest := items[..index], items[index], items[index + 1..];
    var item' := item.(values := item.values + [value]);
    assert items == before + [item] + rest && items[index := item'] == before + [item'] + rest;
    LookupSplit(items, index, item, rest, k);
    LookupSplit(items, index, item', rest, k);
    LookupAppend(before + [item], rest, k);
    LookupAppend(before, [item], k);
    LookupAppend(before + [item'], rest, k);
    LookupAppend(before, [item'], k);
    OneItem(item);
    OneItem(item');
    assert Lookup(items, k) + [] == Lookup(items, k);
  }

  /** Adding a value appends it to the values of its key and leaves all other keys alone. */
  lemma AddedIsAppend(items: seq<Item>, index: nat, isNew: bool, key: ScalarKey, aggNames: string, value: real, k: ScalarKey)
    requires if isNew then index <= |items| else index < |items| && items[index].key == key
    requires forall i, j | 0 <= i < j < |items| :: items[i].key != items[j].key
    requires isNew ==> forall i | 0 <= i < |items| :: items[i].key != key
    ensures Lookup(Added(items, index, isNew, key, aggNames, value), k) == Lookup(items, k) + if k == key then [value] else []
    ensures Count(Added(items, index, isNew, key, aggNames, value)) == Count(items) + 1
  {
    hide Lookup, Count;
    if isNew {
      NewIsAppend(items, index, Item(key, aggNames, [value]), k);
      assert Lookup(items, k) + [] == Lookup(items, k) && [] + [value] == [value];
    } else {
      LongerIsAppend(items, index, value, k);
    }
  }

  /** The header of the entry for `key`, if there is one. */
  function HeaderOf(items: seq<Item>, key: ScalarKey): seq<string> {
    if items == [] then [] else if items[0].key == key then [items[0].aggNames] else HeaderOf(items[1..], key)
  }

  ghost predicate DistinctKeys(items: seq<Item>) {
    forall i, j | 0 <= i < j < |items| :: items[i].key != items[j].key
  }

  /** What can be looked up is the entry with the key. */
  lemma {:induction false} EntryAt(items: seq<Item>, i: nat)
    requires DistinctKeys(items) && i < |items|
    ensures HeaderOf(items, items[i].key) == [items[i].aggNames] && Lookup(items, items[i].key) == items[i].values
  {
    if i > 0 {
      assert items[0].key != items[i].key;
      EntryAt(items[1..], i - 1);
    }
  }

  lemma {:induction false} EntryFound(items: seq<Item>, key: ScalarKey) returns (k: nat)
    requires Lookup(items, key) != []
    ensures k < |items| && items[k].key == key
  {
    if items[0].key == key {
      k := 0;
    } else {
      k := EntryFound(items[1..], key);
      k := k + 1;
    }
  }

  lemma {:induction false} NoEntry(items: seq<Item>, key: ScalarKey)
    requires forall i | 0 <= i < |items| :: items[i].key != key
    ensures HeaderOf(items, key) == [] && Lookup(items, key) == []
  {
    if items != [] { NoEntry(items[1..], key); }
  }

  /** A new entry brings its header; the others keep theirs. */
  lemma AddedKeepsHeaders(items: seq<Item>, index: nat, isNew: bool, key: ScalarKey, aggNames: string, value: real, k: ScalarKey)
    requires if isNew then index <= |items| else index < |items| && items[index].key == key
    requires DistinctKeys(items) && (isNew ==> forall i | 0 <= i < |items| :: items[i].key != key)
    ensures DistinctKeys(Added(items, index, isNew, key, aggNames, value))
    ensures HeaderOf(Added(items, index, isNew, key, aggNames, value), k) ==
      if k == key && HeaderOf(items, key) == [] then [aggNames] else HeaderOf(items, k)
  {
    var added := Added(items, index, isNew, key, aggNames, value);
    hide HeaderOf, Lookup;
    if i :| 0 <= i < |items| && items[i].key == k {
      EntryAt(items, i);
      var j := if isNew && i >= index then i + 1 else i;
      assert added[j].key == k && added[j].aggNames == items[i].aggNames;
      EntryAt(added, j);
    } else {
      NoEntry(items, k);
      if k == key { EntryAt(added, index); } else { NoEntry(added, k); }
    }
  }

  /** Every entry has a scalar name. */
  ghost predicate Named(items: seq<Item>) {
    forall i | 0 <= i < |items| :: items[i].key.scalarName != ""
  }

  lemma AddedIsNamed(items: seq<Item>, index: nat, isNew: bool, key: ScalarKey, aggNames: string, value: real)
    requires if isNew then index <= |items| else index < |items|
    requires Named(items) && key.scalarName != ""
    ensures Named(Added(items, index, isNew, key, aggNames, value))
  {
  }

  // ----- The files ------------------------------------------------------------------------------

  datatype Row = Row(run: nat, valueNumber: nat, splitName: string, aggValues: string, varValues: string, value: real)

  /** A written file: its name without directory and suffix, the table header, the rows. */
  datatype File = File(name: string, aggNames: string, varNames: string, rows: seq<Row>)

  function RowOf(item: Item, i: nat): Row
    requires i < |item.values|
  {
    Row(item.key.run, i + 1, item.key.splitName, item.key.aggValues, item.key.varValues, item.values[i])
  }

  function ItemRows(item: Item, n: nat): (rows: seq<Row>)
    requires n <= |item.values|
    ensures |rows| == n
  {
    seq(n, i requires 0 <= i < n => RowOf(item, i))
  }

  /** The rows of all entries with one scalar name, in table order. */
  function RowsOf(items: seq<Item>, name: string): seq<Row> {
    if items == [] then [] else
    var last := items[|items| - 1];
    RowsOf(items[..|items| - 1], name) + if last.key.scalarName == name then ItemRows(last, |last.values|) else []
  }

  function WithRows(files: seq<File>, rows: seq<Row>): seq<File> {
    if files == [] then []
    else files[|files| - 1 := files[|files| - 1].(rows := files[|files| - 1].rows + rows)]
  }

  function LastName(items: seq<Item>): string {
    if items == [] then "" else items[|items| - 1].key.scalarName
  }

  /** A new file is started when the name differs from the previous one. */
  function Opened(files: seq<File>, lastName: string, item: Item, varNames: string): seq<File> {
    if lastName != item.key.scalarName then files + [File(item.key.scalarName, item.aggNames, varNames, [])] else files
  }

  /** The files that the dump loop writes, item by item. */
  function DumpFiles(items: seq<Item>, varNames: string): seq<File> {
    if items == [] then [] else
    var last, init := items[|items| - 1], items[..|items| - 1];
    WithRows(Opened(DumpFiles(init, varNames), LastName(init), last, varNames), ItemRows(last, |last.values|))
  }

  /** Each non-empty scalar name has exactly one file, with all its rows, in the order of the
      names; the header comes from the first entry. */
  ghost predicate Grouped(items: seq<Item>, varNames: string, files: seq<File>) {
    NamesInOrder(files) && RowsComplete(items, varNames, files) && AllHeaded(items, files) && AllCovered(items, files)
  }

  ghost predicate NamesInOrder(files: seq<File>) {
    forall i, j | 0 <= i < j < |files| :: StrCmp(files[i].name, files[j].name) < 0
  }

  ghost predicate RowsComplete(items: seq<Item>, varNames: string, files: seq<File>) {
    forall i | 0 <= i < |files| :: files[i].name != "" && files[i].varNames == varNames && files[i].rows == RowsOf(items, files[i].name)
  }

  ghost predicate AllHeaded(items: seq<Item>, files: seq<File>) {
    forall i | 0 <= i < |files| :: HeadedBy(items, files[i])
  }

  ghost predicate AllCovered(items: seq<Item>, files: seq<File>) {
    forall j | 0 <= j < |items| && items[j].key.scalarName != "" :: HasFile(files, items[j].key.scalarName)
  }

  ghost predicate HeadedBy(items: seq<Item>, file: File) {
    exists j :: 0 <= j < |items| && items[j].key.scalarName == file.name && items[j].aggNames == file.aggNames
      && forall k | 0 <= k < j :: items[k].key.scalarName != file.name
  }

  ghost predicate HasFile(files: seq<File>, name: string) {
    exists i :: 0 <= i < |files| && files[i].name == name
  }

  lemma {:induction false} NoRows(items: seq<Item>, name: string)
    requires forall i | 0 <= i < |items| :: items[i].key.scalarName != name
    ensures RowsOf(items, name) == []
  {
    if items != [] { NoRows(items[..|items| - 1], name); }
  }

  lemma NamesAscend(items: seq<Item>, i: nat, j: nat)
    requires Ascending(items) && i <= j < |items|
    ensures StrCmp(items[i].key.scalarName, items[j].key.scalarName) <= 0
  {
    if i < j { assert CompareKeys(items[i].key, items[j].key) < 0; }
  }

  lemma RowsStep(init: seq<Item>, last: Item, name: string)
    ensures RowsOf(init + [last], name) == RowsOf(init, name) + if last.key.scalarName == name then ItemRows(last, |last.values|) else []
  {
    assert (init + [last])[..|init|] == init;
  }

  lemma HeadStep(init: seq<Item>, last: Item, file: File)
    requires HeadedBy(init, file)
    ensures HeadedBy(init + [last], file)
  {
    var j :| 0 <= j < |init| && init[j].key.scalarName == file.name && init[j].aggNames == file.aggNames
      && forall k | 0 <= k < j :: init[k].key.scalarName != file.name;
    assert (init + [last])[j] == init[j];
  }

  lemma StrCmpEmpty(a: string)
    ensures StrCmp(a, "") <= 0 ==> a == ""
    ensures StrCmp("", a) <= 0
  {
  }

  /** `files` ends with the file of the name that came last. */
  ghost predicate EndsWith(files: seq<File>, lastName: string) {
    if lastName == "" then files == [] else files != [] && files[|files| - 1].name == lastName
  }

  ghost predicate UpTo(items: seq<Item>, name: string) {
    forall j | 0 <= j < |items| :: StrCmp(items[j].key.scalarName, name) <= 0
  }

  lemma HasFileIn(files: seq<File>, files': seq<File>, name: string)
    requires HasFile(files, name) && |files| <= |files'|
    requires forall i | 0 <= i < |files| :: files'[i].name == files[i].name
    ensures HasFile(files', name)
  {
    var i :| 0 <= i < |files| && files[i].name == name;
    assert files'[i].name == name;
  }

  /** What the next item does to the headers and the coverage. */
  lemma HeadedStep(init: seq<Item>, last: Item, files: seq<File>, files': seq<File>)
    requires AllHeaded(init, files) && AllCovered(init, files)
    requires |files| <= |files'| <= |files| + 1
    requires forall i | 0 <= i < |files| :: files'[i].name == files[i].name && files'[i].aggNames == files[i].aggNames
    requires |files'| > |files| ==> HeadedBy(init + [last], files'[|files|])
    requires last.key.scalarName == "" || HasFile(files', last.key.scalarName)
    ensures AllHeaded(init + [last], files') && AllCovered(init + [last], files')
  {
    var items := init + [last];
    forall i | 0 <= i < |files'| ensures HeadedBy(items, files'[i]) {
      if i < |files| {
        assert HeadedBy(init, files[i]);
        HeadStep(init, last, files[i]);
      }
    }
    forall j | 0 <= j < |items| && items[j].key.scalarName != "" ensures HasFile(files', items[j].key.scalarName) {
      if j < |init| {
        assert items[j] == init[j];
        HasFileIn(files, files', items[j].key.scalarName);
      }
    }
  }

  lemma GroupSame(init: seq<Item>, last: Item, varNames: string, files: seq<File>)
    requires Grouped(init, varNames, files) && last.key.scalarName == LastName(init)
    requires EndsWith(files, LastName(init))
    ensures Grouped(init + [last], varNames, WithRows(files, ItemRows(last, |last.values|)))
  {
    hide StrCmp, RowsOf, ItemRows, HeadedBy, AllHeaded, AllCovered, HasFile, LastName;
    var items, files', name := init + [last], WithRows(files, ItemRows(last, |last.values|)), last.key.scalarName;
    var n := |files|;
    assert name != "" ==> HasFile(files', name) by { HasLast(files', name); }
    HeadedStep(init, last, files, files');
    forall i | 0 <= i < n ensures files'[i].rows == RowsOf(items, files'[i].name) {
      RowsStep(init, last, files[i].name);
      if i < n - 1 { DifferentNames(files, i, n - 1); }
    }
  }

  lemma HasLast(files: seq<File>, name: string)
    ensures files != [] && files[|files| - 1].name == name ==> HasFile(files, name)
  {
  }

  lemma DifferentNames(files: seq<File>, i: nat, j: nat)
    requires NamesInOrder(files) && i < j < |files|
    ensures files[i].name != files[j].name
  {
    assert StrCmp(files[i].name, files[j].name) < 0;
  }

  lemma NewName(init: seq<Item>, files: seq<File>, name: string)
    requires UpTo(init, LastName(init)) && StrCmp(LastName(init), name) < 0
    requires EndsWith(files, LastName(init)) && NamesInOrder(files)
    ensures forall j | 0 <= j < |init| :: init[j].key.scalarName != name
    ensures forall i | 0 <= i < |files| :: StrCmp(files[i].name, name) < 0
    ensures name != ""
  {
    forall j | 0 <= j < |init| ensures init[j].key.scalarName != name {
      if init[j].key.scalarName == name { StrCmpMirror(LastName(init), name); }
    }
    forall i | 0 <= i < |files| ensures StrCmp(files[i].name, name) < 0 {
      if i < |files| - 1 { StrCmpTransitive(files[i].name, files[|files| - 1].name, name); }
    }
    StrCmpEmpty(LastName(init));
  }

  lemma NewHeaded(init: seq<Item>, last: Item, file: File)
    requires forall j | 0 <= j < |init| :: init[j].key.scalarName != file.name
    requires last.key.scalarName == file.name && last.aggNames == file.aggNames
    ensures HeadedBy(init + [last], file)
  {
    assert (init + [last])[|init|] == last;
  }

  lemma WithRowsAtLast(files: seq<File>, file: File, rows: seq<Row>)
    ensures WithRows(files + [file], rows) == files + [file.(rows := file.rows + rows)]
  {
  }

  lemma GroupNew(init: seq<Item>, last: Item, varNames: string, files: seq<File>)
    requires Grouped(init, varNames, files) && StrCmp(LastName(init), last.key.scalarName) < 0
    requires EndsWith(files, LastName(init)) && UpTo(init, LastName(init))
    ensures Grouped(init + [last], varNames,
              WithRows(files + [File(last.key.scalarName, last.aggNames, varNames, [])], ItemRows(last, |last.values|)))
  {
    hide StrCmp, RowsOf, ItemRows, HeadedBy, AllHeaded, AllCovered, HasFile, LastName, UpTo, WithRows;
    var items, rows, name := init + [last], ItemRows(last, |last.values|), last.key.scalarName;
    var file := File(name, last.aggNames, varNames, rows);
    var files' := files + [file];
    assert [] + rows == rows;
    WithRowsAtLast(files, File(name, last.aggNames, varNames, []), rows);
    NewName(init, files, name);
    NewHeaded(init, last, file);
    NoRows(init, name);
    HasLast(files', name);
    HeadedStep(init, last, files, files');
    forall i | 0 <= i < |files'| ensures files'[i].rows == RowsOf(items, files'[i].name) {
      RowsStep(init, last, files'[i].name);
      if i < |files| { DifferentNames(files', i, |files|); }
    }
  }

  lemma NamesUpTo(items: seq<Item>)
    requires Ascending(items)
    ensures UpTo(items, LastName(items))
  {
    hide StrCmp;
    forall j | 0 <= j < |items| ensures StrCmp(items[j].key.scalarName, LastName(items)) <= 0 {
      NamesAscend(items, j, |items| - 1);
    }
  }

  lemma InitAscending(items: seq<Item>)
    requires Ascending(items) && items != []
    ensures Ascending(items[..|items| - 1]) && items == items[..|items| - 1] + [items[|items| - 1]]
    ensures StrCmp(LastName(items[..|items| - 1]), LastName(items)) <= 0
  {
    hide CompareKeys;
    StrCmpEmpty(LastName(items));
    if |items| > 1 { NamesAscend(items, |items| - 2, |items| - 1); }
  }

  /** What the loop does with the next item. */
  lemma DumpStep(init: seq<Item>, last: Item, varNames: string)
    ensures var files, rows, name := DumpFiles(init, varNames), ItemRows(last, |last.values|), last.key.scalarName;
      && LastName(init + [last]) == name
      && DumpFiles(init + [last], varNames) == if name == LastName(init) then WithRows(files, rows)
                                              else WithRows(files + [File(name, last.aggNames, varNames, [])], rows)
    ensures var files, rows, name := DumpFiles(init, varNames), ItemRows(last, |last.values|), last.key.scalarName;
      && (EndsWith(files, LastName(init)) && name == LastName(init) ==> EndsWith(DumpFiles(init + [last], varNames), name))
      && (name != LastName(init) && name != "" ==> EndsWith(DumpFiles(init + [last], varNames), name))
  {
    assert (init + [last])[..|init|] == init;
  }

  /** The loop's files are the groups of the table. */
  lemma {:induction false} DumpGroups(items: seq<Item>, varNames: string)
    requires Ascending(items)
    ensures Grouped(items, varNames, DumpFiles(items, varNames)) && FilesTell(items, DumpFiles(items, varNames))
    ensures EndsWith(DumpFiles(items, varNames), LastName(items))
  {
    if items != [] {
      var last, init := items[|items| - 1], items[..|items| - 1];
      InitAscending(items);
      DumpGroups(init, varNames);
      GroupNext(init, last, varNames);
    }
    GroupsTell(items, varNames, DumpFiles(items, varNames));
  }

  lemma GroupNext(init: seq<Item>, last: Item, varNames: string)
    requires Ascending(init) && StrCmp(LastName(init), last.key.scalarName) <= 0
    requires Grouped(init, varNames, DumpFiles(init, varNames)) && EndsWith(DumpFiles(init, varNames), LastName(init))
    ensures Grouped(init + [last], varNames, DumpFiles(init + [last], varNames))
    ensures EndsWith(DumpFiles(init + [last], varNames), LastName(init + [last]))
  {
    hide *;
    DumpStep(init, last, varNames);
    NamesUpTo(init);
    StrCmpEmpty(LastName(init));
    if last.key.scalarName == LastName(init) {
      GroupSame(init, last, varNames, DumpFiles(init, varNames));
    } else {
      GroupNew(init, last, varNames, DumpFiles(init, varNames));
    }
  }

  // ----- What the rows say -------------------------------------------------------------------------

  /** The rows with the run and the texts of a key. */
  function RowsFor(rows: seq<Row>, key: ScalarKey): seq<Row> {
    if rows == [] then [] else
    var last := rows[|rows| - 1];
    RowsFor(rows[..|rows| - 1], key) +
      if last.run == key.run && last.splitName == key.splitName && last.aggValues == key.aggValues && last.varValues == key.varValues
      then [last] else []
  }

  /** These rows hold the values of a key, in order and numbered from 1. */
  ghost predicate HoldValues(rows: seq<Row>, values: seq<real>) {
    |rows| == |values| && forall n | 0 <= n < |rows| :: rows[n].valueNumber == n + 1 && rows[n].value == values[n]
  }

  /** Each key's values are in the file of its name, in order; each key with values has a file. */
  ghost predicate FilesTell(items: seq<Item>, files: seq<File>) {
    && (forall i, key: ScalarKey | 0 <= i < |files| && files[i].name == key.scalarName ::
          HoldValues(RowsFor(files[i].rows, key), Lookup(items, key)))
    && (forall key: ScalarKey | key.scalarName != "" && Lookup(items, key) != [] :: HasFile(files, key.scalarName))
    && (forall i | 0 <= i < |files| :: RowsInOrder(files[i]))
  }

  /** What a row says of the key it was collected under. */
  function KeyOfRow(name: string, row: Row): ScalarKey {
    ScalarKey(name, row.splitName, row.aggValues, row.varValues, row.run)
  }

  /** The rows of a file are in the order of the keys. */
  ghost predicate RowsInOrder(file: File) {
    forall i, j | 0 <= i < j < |file.rows| :: InOrder(KeyOfRow(file.name, file.rows[i]), KeyOfRow(file.name, file.rows[j]))
  }

  ghost predicate InOrder(a: ScalarKey, b: ScalarKey) {
    a == b || KeyBefore(a, b)
  }

  /** Each row comes from an entry. */
  lemma {:induction false} RowFrom(items: seq<Item>, name: string, n: nat) returns (i: nat)
    requires n < |RowsOf(items, name)|
    ensures i < |items| && items[i].key == KeyOfRow(name, RowsOf(items, name)[n])
  {
    var init := items[..|items| - 1];
    if n < |RowsOf(init, name)| { i := RowFrom(init, name, n); } else { i := |items| - 1; }
  }

  lemma {:induction false} RowsAscend(items: seq<Item>, name: string, m: nat, n: nat)
    requires Ascending(items) && m < n < |RowsOf(items, name)|
    ensures InOrder(KeyOfRow(name, RowsOf(items, name)[m]), KeyOfRow(name, RowsOf(items, name)[n]))
  {
    hide CompareKeys, KeyBefore, KeyOfRow;
    var init, last, rows := items[..|items| - 1], items[|items| - 1], RowsOf(items, name);
    if n < |RowsOf(init, name)| {
      RowsAscend(init, name, m, n);
    } else {
      assert KeyOfRow(name, rows[n]) == last.key by { LastRows(items, name, n); }
      if m < |RowsOf(init, name)| {
        var i := RowFrom(init, name, m);
        assert items[i] == init[i];
        CompareKeysIsBefore(items[i].key, last.key);
      } else {
        assert KeyOfRow(name, rows[m]) == last.key by { LastRows(items, name, m); }
      }
    }
  }

  lemma LastRows(items: seq<Item>, name: string, n: nat)
    requires items != [] && |RowsOf(items[..|items| - 1], name)| <= n < |RowsOf(items, name)|
    ensures KeyOfRow(name, RowsOf(items, name)[n]) == items[|items| - 1].key
  {
  }

  lemma {:induction false} RowsForAppend(a: seq<Row>, b: seq<Row>, key: ScalarKey)
    ensures RowsFor(a + b, key) == RowsFor(a, key) + RowsFor(b, key)
    decreases |b|
  {
    if b == [] {
      assert a + b == a;
    } else {
      RowsForAppend(a, b[..|b| - 1], key);
      assert (a + b)[..|a + b| - 1] == a + b[..|b| - 1];
    }
  }

  /** All rows of an entry are rows of its key, and of no other key of the same name. */
  lemma {:induction false} RowsForItem(item: Item, n: nat, key: ScalarKey)
    requires n <= |item.values| && item.key.scalarName == key.scalarName
    ensures RowsFor(ItemRows(item, n), key) == if item.key == key then ItemRows(item, n) else []
  {
    if n > 0 {
      RowsForItem(item, n - 1, key);
      assert ItemRows(item, n)[..n - 1] == ItemRows(item, n - 1);
      assert ItemRows(item, n) == ItemRows(item, n - 1) + [RowOf(item, n - 1)];
    }
  }

  lemma ItemRowsHold(item: Item)
    ensures HoldValues(ItemRows(item, |item.values|), item.values)
  {
  }

  /** The rows for the key of one entry, and for a key without one. */
  lemma {:induction false} RowsForEntry(items: seq<Item>, i: nat)
    requires DistinctKeys(items) && i < |items|
    ensures RowsFor(RowsOf(items, items[i].key.scalarName), items[i].key) == ItemRows(items[i], |items[i].values|)
  {
    hide RowsFor, ItemRows;
    var init, last, key := items[..|items| - 1], items[|items| - 1], items[i].key;
    var rows := if last.key.scalarName == key.scalarName then ItemRows(last, |last.values|) else [];
    RowsForAppend(RowsOf(init, key.scalarName), rows, key);
    NoRowsFor(key);
    if last.key.scalarName == key.scalarName { RowsForItem(last, |last.values|, key); }
    if i < |init| {
      RowsForEntry(init, i);
    } else {
      NoEntryNoRows(init, key);
    }
  }

  lemma {:induction false} NoEntryNoRows(items: seq<Item>, key: ScalarKey)
    requires forall i | 0 <= i < |items| :: items[i].key != key
    ensures RowsFor(RowsOf(items, key.scalarName), key) == []
  {
    hide RowsFor, ItemRows;
    NoRowsFor(key);
    if items != [] {
      var init, last := items[..|items| - 1], items[|items| - 1];
      NoEntryNoRows(init, key);
      RowsForAppend(RowsOf(init, key.scalarName), if last.key.scalarName == key.scalarName then ItemRows(last, |last.values|) else [], key);
      if last.key.scalarName == key.scalarName { RowsForItem(last, |last.values|, key); }
    }
  }

  lemma NoRowsFor(key: ScalarKey)
    ensures RowsFor([], key) == []
  {
  }

  /** The rows of a key are its values. */
  lemma RowsForKey(items: seq<Item>, key: ScalarKey)
    requires DistinctKeys(items)
    ensures HoldValues(RowsFor(RowsOf(items, key.scalarName), key), Lookup(items, key))
    ensures Lookup(items, key) != [] ==> exists j :: 0 <= j < |items| && items[j].key == key
  {
    hide RowsFor, RowsOf, ItemRows, Lookup;
    if i :| 0 <= i < |items| && items[i].key == key {
      EntryAt(items, i);
      RowsForEntry(items, i);
      ItemRowsHold(items[i]);
    } else {
      NoEntry(items, key);
      NoEntryNoRows(items, key);
    }
  }

  /** The files of a table hold all of its values, each where it belongs. */
  lemma GroupsTell(items: seq<Item>, varNames: string, files: seq<File>)
    requires Ascending(items) && Grouped(items, varNames, files)
    ensures FilesTell(items, files)
  {
    KeysDistinct(items);
    hide RowsFor, RowsOf, HoldValues, Lookup, HasFile, Ascending, NamesInOrder, AllHeaded, InOrder, KeyOfRow;
    forall i, m, n | 0 <= i < |files| && 0 <= m < n < |files[i].rows|
      ensures InOrder(KeyOfRow(files[i].name, files[i].rows[m]), KeyOfRow(files[i].name, files[i].rows[n]))
    {
      RowsAscend(items, files[i].name, m, n);
    }
    forall i, key: ScalarKey | 0 <= i < |files| && files[i].name == key.scalarName
      ensures HoldValues(RowsFor(files[i].rows, key), Lookup(items, key))
    {
      RowsForKey(items, key);
    }
    forall key: ScalarKey | key.scalarName != "" && Lookup(items, key) != [] ensures HasFile(files, key.scalarName) {
      RowsForKey(items, key);
    }
  }

  lemma KeysDistinct(items: seq<Item>)
    requires Ascending(items)
    ensures DistinctKeys(items)
  {
    forall i, j | 0 <= i < j < |items| ensures items[i].key != items[j].key { assert CompareKeys(items[i].key, items[j].key) < 0; }
  }

  // ----- Lines and files -------------------------------------------------------------------------

  function RowCount(files: seq<File>): nat {
    if files == [] then 0 else RowCount(files[..|files| - 1]) + |files[|files| - 1].rows|
  }

  /** The number of values whose scalar name is not empty. */
  function NamedCount(items: seq<Item>): nat {
    if items == [] then 0
    else NamedCount(items[..|items| - 1]) + (if items[|items| - 1].key.scalarName == "" then 0 else |items[|items| - 1].values|)
  }

  lemma RowCountGrows(files: seq<File>, lastName: string, item: Item, varNames: string, rows: seq<Row>)
    ensures var files' := Opened(files, lastName, item, varNames);
      RowCount(WithRows(files', rows)) == RowCount(files) + if files' == [] then 0 else |rows|
  {
    var files' := Opened(files, lastName, item, varNames);
    if files' != [] {
      var written := WithRows(files', rows);
      assert written[..|written| - 1] == files'[..|files'| - 1];
      assert RowCount(written) == RowCount(files'[..|files'| - 1]) + |files'[|files'| - 1].rows| + |rows|;
      if files' != files { assert files'[..|files'| - 1] == files; }
    }
  }

  lemma {:induction false} DumpCounts(items: seq<Item>, varNames: string)
    requires Ascending(items)
    ensures RowCount(DumpFiles(items, varNames)) == NamedCount(items)
  {
    hide Grouped, Ascending, ItemRows, StrCmp, WithRows, Opened;
    if items != [] {
      var last, init := items[|items| - 1], items[..|items| - 1];
      InitAscending(items);
      DumpCounts(init, varNames);
      DumpGroups(items, varNames);
      var files := DumpFiles(init, varNames);
      RowCountGrows(files, LastName(init), last, varNames, ItemRows(last, |last.values|));
      WithRowsEmpty(Opened(files, LastName(init), last, varNames), ItemRows(last, |last.values|));
    }
  }

  lemma WithRowsEmpty(files: seq<File>, rows: seq<Row>)
    ensures WithRows(files, rows) == [] <==> files == []
  {
  }

  lemma {:induction false} CountFromTheEnd(items: seq<Item>)
    requires items != []
    ensures Count(items) == Count(items[..|items| - 1]) + |items[|items| - 1].values|
  {
    LookupAppend(items[..|items| - 1], [items[|items| - 1]], items[0].key);
    assert items == items[..|items| - 1] + [items[|items| - 1]];
  }

  /** Every value is written if and only if no scalar name is empty. */
  lemma {:induction false} AllWritten(items: seq<Item>)
    requires forall i | 0 <= i < |items| :: items[i].values != []
    ensures NamedCount(items) <= Count(items)
    ensures NamedCount(items) == Count(items) <==> Named(items)
  {
    if items != [] {
      AllWritten(items[..|items| - 1]);
      CountFromTheEnd(items);
      assert items == items[..|items| - 1] + [items[|items| - 1]];
    }
  }
}
