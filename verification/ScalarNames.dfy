/** From the objects and statistics of a scalar file to the keys of the table: getAggregate and
    the string handling around it in src/createsummary.cc.  Strings are without zero characters. */
module ScalarNames {
  import opened ScalarTable

  const SCALAR_NAME_SIZE: nat := 4096
  const MAX_NAME_SIZE: nat := 256
  const MAX_VALUES_SIZE: nat := 8192
  const AGGREGATE_SIZE: nat := 4096

  /** What fits the buffers into which a line of a scalar file is split. */
  type Word = s: string | |s| < 4096

  /** Appending to a buffer of the given size, with a terminating zero. */
  function Append(dest: string, src: string, size: nat): (r: string)
    ensures |dest| + |src| < size ==> r == dest + src
    ensures dest <= r && (|dest| < size ==> |r| < size)
    ensures src != "" && |dest| + 1 < size ==> dest < r
  {
    if |dest| + 1 >= size then dest
    else if |dest| + |src| < size then dest + src
    else dest + src[..size - 1 - |dest|]
  }

  predicate IsDigit(c: char) {
    '0' <= c <= '9'
  }

  predicate AllDigits(s: string) {
    forall k | 0 <= k < |s| :: IsDigit(s[k])
  }

  /** The length of a segment without the number at its end. */
  function Stem(segment: string): (n: nat)
    ensures n <= |segment| && AllDigits(segment[n..]) && (n > 0 ==> !IsDigit(segment[n - 1]))
  {
    if segment == [] || !IsDigit(segment[|segment| - 1]) then |segment| else Stem(segment[..|segment| - 1])
  }

  /** The last position of a character, or -1. */
  function LastIndex(s: string, c: char): (i: int)
    ensures -1 <= i < |s| && (i >= 0 ==> s[i] == c) && forall k | i < k < |s| :: s[k] != c
  {
    if s == [] then -1 else if s[|s| - 1] == c then |s| - 1 else LastIndex(s[..|s| - 1], c)
  }

  /** The first position of a character, or the length. */
  function FirstIndex(s: string, c: char): (i: nat)
    ensures i <= |s| && (i < |s| ==> s[i] == c) && forall k | 0 <= k < i :: s[k] != c
  {
    if s == [] || s[0] == c then 0 else 1 + FirstIndex(s[1..], c)
  }

  /** A number without leading zeros. */
  function Number(digits: string): string {
    if |digits| > 1 && digits[0] == '0' then Number(digits[1..]) else digits
  }

  /** The value of a row of digits. */
  function Decimal(digits: string): int {
    if digits == "" then 0 else Decimal(digits[..|digits| - 1]) * 10 + (digits[|digits| - 1] as int - '0' as int)
  }

  lemma {:induction false} LeadingZero(digits: string)
    requires digits != "" && digits[0] == '0'
    ensures Decimal(digits) == Decimal(digits[1..])
  {
    if |digits| > 1 {
      var init := digits[..|digits| - 1];
      LeadingZero(init);
      assert init[1..] == digits[1..][..|digits| - 2];
    } else {
      assert digits[..0] == "" && digits[1..] == "";
    }
  }

  /** A number keeps its value, and has no zero in front unless it is one. */
  lemma {:induction false} NumberKeepsValue(digits: string)
    ensures Decimal(Number(digits)) == Decimal(digits) && (AllDigits(digits) ==> AllDigits(Number(digits)))
    ensures |Number(digits)| > 1 ==> Number(digits)[0] != '0'
    ensures digits != "" ==> Number(digits) != ""
  {
    if |digits| > 1 && digits[0] == '0' {
      LeadingZero(digits);
      NumberKeepsValue(digits[1..]);
    }
  }

  datatype Names = Names(scalarName: string, aggNames: string, aggValues: string)

  /** The names after one more segment of the object name. */
  function AddSegment(names: Names, segment: string): Names {
    var n, scalarName := Stem(segment), names.scalarName;
    var numbered := if n < |segment| then AddAggregate(names, segment[..n], segment[n..]) else names;
    var prefix := if scalarName != "" then Append(scalarName, ".", SCALAR_NAME_SIZE) else scalarName;
    numbered.(scalarName := Append(prefix, segment[..n], SCALAR_NAME_SIZE))
  }

  /** The names of the aggregates and their values get one more word. */
  function AddAggregate(names: Names, aggregate: string, digits: string): (r: Names)
    ensures r.scalarName == names.scalarName
  {
    var spaced := if names.aggNames != "" then Append(names.aggNames, " ", MAX_NAME_SIZE) else names.aggNames;
    var prefixed := if names.scalarName != "" then Append(Append(spaced, names.scalarName, MAX_NAME_SIZE), ".", MAX_NAME_SIZE) else spaced;
    var values := if names.aggValues != "" then Append(names.aggValues, " ", MAX_VALUES_SIZE) else names.aggValues;
    Names(names.scalarName, Append(prefixed, aggregate, MAX_NAME_SIZE), Append(values, Number(digits), MAX_VALUES_SIZE))
  }

  function Hierarchy(objectName: string): Names
    decreases |objectName|
  {
    var dot := LastIndex(objectName, '.');
    AddSegment(if dot < 0 then Names("", "", "") else Hierarchy(objectName[..dot]), objectName[dot + 1..])
  }

  /** The statistics name ends the scalar name; a number behind it is one more value. */
  function AddStatistic(names: Names, statName: string): Names {
    var at := FirstIndex(statName, '#');
    if at < |statName| && AllDigits(statName[at + 1..]) then
      var aggNames := if names.aggNames != "" then Append(names.aggNames, " ", MAX_NAME_SIZE) else names.aggNames;
      var aggValues := if names.aggValues != "" then Append(names.aggValues, " ", MAX_VALUES_SIZE) else names.aggValues;
      Names(WithStatistic(names.scalarName, statName[..at]), Append(aggNames, statName[..at], MAX_NAME_SIZE),
            Append(aggValues, statName[at + 1..], MAX_VALUES_SIZE))
    else names.(scalarName := WithStatistic(names.scalarName, statName))
  }

  function WithStatistic(scalarName: string, statName: string): string {
    Append(Append(scalarName, "-", SCALAR_NAME_SIZE), statName, SCALAR_NAME_SIZE)
  }

  function Aggregate(objectName: string, statName: string): Names {
    AddStatistic(Hierarchy(objectName), statName)
  }

  // ----- The program's own form ----------------------------------------------------------------------

  /** The demand of the program's assertion: no segment without its number is longer than the
      buffer for it. */
  ghost predicate StemsFit(objectName: string) {
    forall s | s in Segments(objectName) :: Stem(s) < AGGREGATE_SIZE
  }

  /** Splits off the last segment, works on what is above it, and adds the segment. */
  method GetAggregate(objectName: string, statName: string, topLevel: bool) returns (names: Names, levels: nat)
    requires StemsFit(objectName)
    ensures names == if topLevel then Aggregate(objectName, statName) else Hierarchy(objectName)
    ensures levels == |Segments(objectName)|
    decreases |objectName|
  {
    hide AddSegment, AddStatistic, Dotted, Stem;
    var dot := LastIndex(objectName, '.');
    LastSegment(objectName);
    assert objectName[dot + 1..] in Segments(objectName);
    if dot < 0 {
      names, levels := Names("", "", ""), 0;
    } else {
      assert forall s | s in Segments(objectName[..dot]) :: s in Segments(objectName);
      names, levels := GetAggregate(objectName[..dot], statName, false);
    }
    names := ProcessSegment(names, objectName[dot + 1..]);
    if topLevel {
      names := ProcessStatistic(names, statName);
    }
    levels := levels + 1;
  }

  /** Looks for a number at the end of a segment. */
  method FindStem(segment: string) returns (n: nat)
    ensures n == Stem(segment)
  {
    var i := |segment| - 1;
    assert segment[..|segment|] == segment;
    while i >= 0
      invariant -1 <= i < |segment| && Stem(segment[..i + 1]) == Stem(segment)
    {
      if !IsDigit(segment[i]) {
        break;
      }
      assert segment[..i + 1][..i] == segment[..i];
      i := i - 1;
    }
    n := i + 1;
  }

  method ProcessSegment(names0: Names, segment: string) returns (names: Names)
    requires Stem(segment) < AGGREGATE_SIZE
    ensures names == AddSegment(names0, segment)
  {
    hide Append;
    names := names0;
    var n := FindStem(segment);
    assert n < AGGREGATE_SIZE;
    var aggregate := segment[..n];
    if n < |segment| {
      var aggNames, aggValues := names.aggNames, names.aggValues;
      if aggNames != "" {
        aggNames := Append(aggNames, " ", MAX_NAME_SIZE);
      }
      if names.scalarName != "" {
        aggNames := Append(aggNames, names.scalarName, MAX_NAME_SIZE);
        aggNames := Append(aggNames, ".", MAX_NAME_SIZE);
      }
      aggNames := Append(aggNames, aggregate, MAX_NAME_SIZE);
      if aggValues != "" {
        aggValues := Append(aggValues, " ", MAX_VALUES_SIZE);
      }
      aggValues := Append(aggValues, Number(segment[n..]), MAX_VALUES_SIZE);
      names := Names(names.scalarName, aggNames, aggValues);
    }
    if names.scalarName != "" {
      names := names.(scalarName := Append(names.scalarName, ".", SCALAR_NAME_SIZE));
    }
    names := names.(scalarName := Append(names.scalarName, aggregate, SCALAR_NAME_SIZE));
  }

  /** Looks for a number behind the statistics name, and cuts it off if it is one. */
  method ProcessStatistic(names0: Names, statName0: string) returns (names: Names)
    ensures names == AddStatistic(names0, statName0)
  {
    names := names0;
    var statName, identifier := statName0, FirstIndex(statName0, '#');
    if identifier < |statName| {
      var isNumber, i := true, identifier + 1;
      while i < |statName|
        invariant identifier < i <= |statName| && isNumber && AllDigits(statName[identifier + 1..i])
      {
        if !IsDigit(statName[i]) {
          isNumber := false;
          break;
        }
        assert statName[identifier + 1..i + 1] == statName[identifier + 1..i] + [statName[i]];
        i := i + 1;
      }
      assert statName[identifier + 1..|statName|] == statName[identifier + 1..];
      assert !isNumber ==> !IsDigit(statName[identifier + 1..][i - identifier - 1]);
      if isNumber {
        var aggNames, aggValues := names.aggNames, names.aggValues;
        if aggNames != "" {
          aggNames := Append(aggNames, " ", MAX_NAME_SIZE);
        }
        aggNames := Append(aggNames, statName[..identifier], MAX_NAME_SIZE);
        if aggValues != "" {
          aggValues := Append(aggValues, " ", MAX_VALUES_SIZE);
        }
        aggValues := Append(aggValues, statName[identifier + 1..], MAX_VALUES_SIZE);
        names := Names(names.scalarName, aggNames, aggValues);
        statName := statName[..identifier];
      }
    }
    names := names.(scalarName := Append(names.scalarName, "-", SCALAR_NAME_SIZE));
    names := names.(scalarName := Append(names.scalarName, statName, SCALAR_NAME_SIZE));
  }

  // ----- What the names mean ---------------------------------------------------------------------------

  /** The segments between the dots of an object name. */
  function Segments(objectName: string): (segments: seq<string>)
    ensures segments != [] && Dotted(segments) == objectName
    ensures forall s | s in segments :: '.' !in s
    decreases |objectName|
  {
    var dot := LastIndex(objectName, '.');
    if dot < 0 then
      [objectName]
    else
      assert objectName == objectName[..dot] + "." + objectName[dot + 1..];
      Segments(objectName[..dot]) + [objectName[dot + 1..]]
  }

  function Dotted(segments: seq<string>): string {
    if segments == [] then "" else
    if |segments| == 1 then segments[0] else Dotted(segments[..|segments| - 1]) + "." + segments[|segments| - 1]
  }

  /** The same without the numbers at the end of the segments. */
  function Stems(segments: seq<string>): (stems: seq<string>)
    ensures |stems| == |segments|
  {
    seq(|segments|, i requires 0 <= i < |segments| => segments[i][..Stem(segments[i])])
  }

  /** Names joined by dots, as far as the buffer reaches; empty ones at the front are left out. */
  function Joined(stems: seq<string>): string {
    if stems == [] then "" else
    var front := Joined(stems[..|stems| - 1]);
    Append(if front != "" then Append(front, ".", SCALAR_NAME_SIZE) else front, stems[|stems| - 1], SCALAR_NAME_SIZE)
  }

  lemma LastSegment(objectName: string)
    ensures var dot, segments := LastIndex(objectName, '.'), Segments(objectName);
      && segments[|segments| - 1] == objectName[dot + 1..]
      && segments[..|segments| - 1] == if dot < 0 then [] else Segments(objectName[..dot])
  {
    hide Dotted;
  }

  lemma LastStem(segments: seq<string>)
    requires segments != []
    ensures var n, last := |segments| - 1, segments[|segments| - 1];
      && Joined(Stems(segments)) ==
           var front := Joined(Stems(segments[..n]));
           Append(if front != "" then Append(front, ".", SCALAR_NAME_SIZE) else front, last[..Stem(last)], SCALAR_NAME_SIZE)
  {
    hide Append, Stem;
    assert Stems(segments)[..|segments| - 1] == Stems(segments[..|segments| - 1]);
  }

  lemma NameAfterSegment(names: Names, segment: string)
    ensures AddSegment(names, segment).scalarName ==
      Append(if names.scalarName != "" then Append(names.scalarName, ".", SCALAR_NAME_SIZE) else names.scalarName, segment[..Stem(segment)], SCALAR_NAME_SIZE)
  {
    hide Append, Stem;
  }

  /** The scalar name is made of the segments without their numbers: objects that differ only in
      these numbers share it. */
  lemma {:induction false} NameOfHierarchy(objectName: string)
    ensures Hierarchy(objectName).scalarName == Joined(Stems(Segments(objectName)))
    decreases |objectName|
  {
    hide Append, Stem, AddSegment, Segments, Stems, Joined, Dotted;
    var dot := LastIndex(objectName, '.');
    LastSegment(objectName);
    LastStem(Segments(objectName));
    if dot >= 0 {
      NameOfHierarchy(objectName[..dot]);
      NameAfterSegment(Hierarchy(objectName[..dot]), objectName[dot + 1..]);
    } else {
      NoStems();
      NameAfterSegment(Names("", "", ""), objectName[dot + 1..]);
    }
  }

  lemma NoStems()
    ensures Joined(Stems([])) == ""
  {
  }

  /** Two objects whose segments differ only in their numbers are aggregated under one name. */
  lemma Aggregated(objectName: string, otherName: string, statName: string)
    requires Stems(Segments(objectName)) == Stems(Segments(otherName))
    ensures Aggregate(objectName, statName).scalarName == Aggregate(otherName, statName).scalarName
  {
    NameOfHierarchy(objectName);
    NameOfHierarchy(otherName);
    hide Hierarchy, Append, Joined, Stems;
  }

  /** No scalar name is empty. */
  lemma NameIsNotEmpty(objectName: string, statName: string)
    ensures Aggregate(objectName, statName).scalarName != ""
  {
    hide Hierarchy;
  }

  lemma {:induction false} StemIsUnique(stem: string, digits: string)
    requires AllDigits(digits) && (stem != "" ==> !IsDigit(stem[|stem| - 1]))
    ensures Stem(stem + digits) == |stem|
  {
    var segment := stem + digits;
    if digits == "" {
      assert segment == stem;
    } else {
      assert segment[..|segment| - 1] == stem + digits[..|digits| - 1];
      assert segment[|segment| - 1] == digits[|digits| - 1];
      StemIsUnique(stem, digits[..|digits| - 1]);
    }
  }

  lemma {:induction false} NumberIsShorter(digits: string)
    ensures |Number(digits)| <= |digits|
  {
    if |digits| > 1 && digits[0] == '0' { NumberIsShorter(digits[1..]); }
  }

  lemma OneSegment(stem: string, digits: string)
    requires Stem(stem + digits) == |stem| && |stem| + |digits| < MAX_NAME_SIZE
    ensures AddSegment(Names("", "", ""), stem + digits) == Names(stem, if digits == "" then "" else stem, if digits == "" then "" else Number(digits))
  {
    NumberIsShorter(digits);
    assert (stem + digits)[..|stem|] == stem && (stem + digits)[|stem|..] == digits;
    hide Stem, Number;
    assert "" + stem == stem && "" + Number(digits) == Number(digits);
  }

  lemma PlainStatistic(names: Names, statName: string)
    requires '#' !in statName && |names.scalarName| + 1 + |statName| < SCALAR_NAME_SIZE
    ensures AddStatistic(names, statName) == names.(scalarName := names.scalarName + "-" + statName)
  {
    assert FirstIndex(statName, '#') == |statName|;
    hide FirstIndex;
  }

  lemma NoDots(objectName: string)
    requires '.' !in objectName
    ensures Hierarchy(objectName) == AddSegment(Names("", "", ""), objectName)
  {
    assert LastIndex(objectName, '.') == -1 && objectName[0..] == objectName;
    hide LastIndex, AddSegment;
  }

  /** A single numbered object: with and without its number it has the same scalar name, and so
      the same file, but not the same columns. */
  lemma ColumnsDiffer(stem: string, digits: string, statName: string)
    requires stem != "" && !IsDigit(stem[|stem| - 1]) && AllDigits(digits) && '.' !in stem && '#' !in statName
    requires |stem| + |digits| < MAX_NAME_SIZE && |statName| < MAX_NAME_SIZE
    ensures Aggregate(stem + digits, statName) ==
      Names(stem + "-" + statName, if digits == "" then "" else stem, if digits == "" then "" else Number(digits))
  {
    assert !IsDigit('.') && '.' !in digits;
    StemIsUnique(stem, digits);
    hide Stem, Number, Hierarchy, AddSegment, AddStatistic;
    NoDots(stem + digits);
    OneSegment(stem, digits);
    PlainStatistic(AddSegment(Names("", "", ""), stem + digits), statName);
  }

  // ----- Scalars of a file -------------------------------------------------------------------------------

  /** One scalar, as it is read from a file. */
  datatype Scalar = Scalar(objectName: Word, statName: Word, varValues: string, run: nat, value: real)

  function Without(s: string, c: char): string {
    if s == [] then [] else (if s[0] == c then [] else [s[0]]) + Without(s[1..], c)
  }

  function ReplaceSlashes(s: string): string {
    seq(|s|, i requires 0 <= i < |s| => if s[i] == '/' then ':' else s[i])
  }

  /** A number behind the last space of a statistics name is split off. */
  function SplitStatistic(statName: string): (string, string) {
    var i := LastIndex(statName, ' ');
    if 0 <= i < |statName| - 1 && IsDigit(statName[i + 1]) then (statName[..i], statName[i + 1..]) else (statName, "")
  }

  /** One character is taken out everywhere, and a string without it stays as it is. */
  lemma {:induction false} NothingWithout(s: string, c: char)
    ensures c !in Without(s, c) && (c !in s ==> Without(s, c) == s)
  {
    if s != "" { NothingWithout(s[1..], c); }
  }

  /** It is taken out part by part. */
  lemma {:induction false} WithoutSplits(a: string, b: string, c: char)
    ensures Without(a + b, c) == Without(a, c) + Without(b, c)
  {
    if a == "" {
      assert a + b == b;
    } else {
      WithoutSplits(a[1..], b, c);
      assert (a + b)[1..] == a[1..] + b && (a + b)[0] == a[0];
      Associate(if a[0] == c then "" else [a[0]], Without(a[1..], c), Without(b, c));
    }
  }

  lemma Associate(a: string, b: string, c: string)
    ensures a + (b + c) == (a + b) + c
  {
  }

  /** The part behind the last space is split off exactly if it begins with a digit; otherwise the
      name stays whole. */
  lemma SplitIs(statName: string)
    ensures var (name, split) := SplitStatistic(statName);
      && (split != "" ==> statName == name + " " + split && ' ' !in split && IsDigit(split[0]))
      && (split == "" ==> name == statName)
      && (split == "" ==> forall i | 0 <= i < |statName| - 1 && statName[i] == ' ' && IsDigit(statName[i + 1]) :: ' ' in statName[i + 1..])
  {
    var at := LastIndex(statName, ' ');
    if at >= 0 { assert statName == statName[..at] + " " + statName[at + 1..]; }
    if SplitStatistic(statName).1 == "" {
      forall i | 0 <= i < |statName| - 1 && statName[i] == ' ' && IsDigit(statName[i + 1]) ensures ' ' in statName[i + 1..] {
        assert statName[i + 1..][at - i - 1] == ' ';
      }
    }
  }

  /** The object and the statistic of a scalar, as they are used for names. */
  function ObjectOf(scalar: Scalar): string {
    Without(Without(scalar.objectName, '['), ']')
  }

  function StatisticOf(scalar: Scalar, splitting: bool): string {
    ReplaceSlashes(Without(if splitting then SplitStatistic(scalar.statName).0 else scalar.statName, ' '))
  }

  function NamesOf(scalar: Scalar, splitting: bool): Names {
    Aggregate(ObjectOf(scalar), StatisticOf(scalar, splitting))
  }

  /** Where a scalar belongs in the table. */
  function KeyOf(scalar: Scalar, splitting: bool): ScalarKey {
    var names := NamesOf(scalar, splitting);
    ScalarKey(names.scalarName, if splitting then SplitStatistic(scalar.statName).1 else "", names.aggValues, scalar.varValues, scalar.run)
  }

  lemma {:induction false} WithoutIsShorter(s: string, c: char)
    ensures |Without(s, c)| <= |s|
  {
    if s != [] { WithoutIsShorter(s[1..], c); }
  }

  lemma {:induction false} SegmentsAreShorter(objectName: string)
    ensures forall s | s in Segments(objectName) :: |s| <= |objectName|
    decreases |objectName|
  {
    var dot := LastIndex(objectName, '.');
    hide LastIndex, Dotted;
    if dot >= 0 { SegmentsAreShorter(objectName[..dot]); }
  }

  /** The assertion cannot fail for what is read from a file. */
  lemma ObjectFits(scalar: Scalar)
    ensures StemsFit(ObjectOf(scalar))
  {
    WithoutIsShorter(scalar.objectName, '[');
    WithoutIsShorter(Without(scalar.objectName, '['), ']');
    hide Without, Segments, Stem;
    SegmentsAreShorter(ObjectOf(scalar));
  }

  lemma KeyIsNamed(scalar: Scalar, splitting: bool)
    ensures KeyOf(scalar, splitting).scalarName != ""
  {
    hide Aggregate, ObjectOf, StatisticOf, SplitStatistic;
    NameIsNotEmpty(ObjectOf(scalar), StatisticOf(scalar, splitting));
  }

  /** The name begins with one of the prefixes to be skipped. */
  ghost predicate Skipped(name: string, skipList: seq<string>) {
    exists i :: 0 <= i < |skipList| && skipList[i] <= name
  }

  /** A name is skipped if it goes on from one of the prefixes. */
  lemma SkippedIsPrefix(name: string, skipList: seq<string>)
    ensures Skipped(name, skipList) <==> exists prefix, rest :: prefix in skipList && name == prefix + rest
  {
    if i :| 0 <= i < |skipList| && skipList[i] <= name {
      assert name == skipList[i] + name[|skipList[i]|..];
    }
    forall prefix, rest | prefix in skipList && name == prefix + rest ensures Skipped(name, skipList) {
      var i :| 0 <= i < |skipList| && skipList[i] == prefix;
      assert skipList[i] <= name;
    }
  }

  /** The parts of a file name that come from the statistic have no space and no slash. */
  lemma StatisticIsPlain(scalar: Scalar, splitting: bool)
    ensures ' ' !in StatisticOf(scalar, splitting) && '/' !in StatisticOf(scalar, splitting)
  {
    NothingWithout(if splitting then SplitStatistic(scalar.statName).0 else scalar.statName, ' ');
    hide Without, SplitStatistic;
  }

  datatype Reading = Reading(key: ScalarKey, aggNames: string, value: real)

  function ReadingOf(scalar: Scalar, splitting: bool): Reading {
    Reading(KeyOf(scalar, splitting), NamesOf(scalar, splitting).aggNames, scalar.value)
  }

  /** The scalars with their keys and columns. */
  function ReadingsOf(scalars: seq<Scalar>, splitting: bool): (readings: seq<Reading>)
    ensures |readings| == |scalars|
  {
    seq(|scalars|, i requires 0 <= i < |scalars| => ReadingOf(scalars[i], splitting))
  }

  /** The ones that are not skipped, in order. */
  ghost function Recorded(readings: seq<Reading>, skipList: seq<string>): seq<Reading> {
    if readings == [] then [] else
    var last := readings[|readings| - 1];
    Recorded(readings[..|readings| - 1], skipList) + if Skipped(last.key.scalarName, skipList) then [] else [last]
  }

  /** The values recorded for a key, in order. */
  function ValuesOf(records: seq<Reading>, key: ScalarKey): seq<real> {
    if records == [] then [] else
    ValuesOf(records[..|records| - 1], key) + if records[|records| - 1].key == key then [records[|records| - 1].value] else []
  }

  /** The columns that belong to these values. */
  function ColumnsFor(records: seq<Reading>, key: ScalarKey): (columns: seq<string>)
    ensures |columns| == |ValuesOf(records, key)|
  {
    if records == [] then [] else
    ColumnsFor(records[..|records| - 1], key) + if records[|records| - 1].key == key then [records[|records| - 1].aggNames] else []
  }

  lemma OneMoreRecord(records: seq<Reading>, r: Reading, key: ScalarKey)
    ensures ValuesOf(records + [r], key) == ValuesOf(records, key) + if r.key == key then [r.value] else []
    ensures ColumnsFor(records + [r], key) == ColumnsFor(records, key) + if r.key == key then [r.aggNames] else []
  {
    assert (records + [r])[..|records|] == records;
  }

  /** The first one, if there is one. */
  function First(columns: seq<string>): seq<string> {
    if columns == [] then [] else [columns[0]]
  }

  /** The table holds what was recorded: in the order of the keys, for each key its values, under
      the columns of the first one. */
  ghost predicate Tells(items: seq<Item>, records: seq<Reading>) {
    && Ascending(items) && Named(items) && (forall i | 0 <= i < |items| :: items[i].values != [])
    && (forall k :: Lookup(items, k) == ValuesOf(records, k))
    && (forall k :: HeaderOf(items, k) == First(ColumnsFor(records, k)))
  }

  /** The files say what was recorded: each key's values, in order and numbered from 1, in the rows
      with its run and its texts in the file of its name; and these rows are in order. */
  ghost predicate Reports(files: seq<File>, records: seq<Reading>) {
    && (forall i, key: ScalarKey | 0 <= i < |files| && files[i].name == key.scalarName ::
          HoldValues(RowsFor(files[i].rows, key), ValuesOf(records, key)))
    && (forall key: ScalarKey | key.scalarName != "" && ValuesOf(records, key) != [] :: HasFile(files, key.scalarName))
    && (forall i | 0 <= i < |files| :: RowsInOrder(files[i]))
  }
}
