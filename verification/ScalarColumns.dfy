/** Which columns the values of a scalar belong to: the names of the aggregates as lists of words,
    and when two scalars of one name agree in them. */
module ScalarColumns {
  import opened ScalarTable
  import opened ScalarNames

  // ----- Without buffers -----------------------------------------------------------------------------

  function StemOf(segment: string): string {
    segment[..Stem(segment)]
  }

  function DigitsOf(segment: string): string {
    segment[Stem(segment)..]
  }

  predicate IsNumbered(segment: string) {
    DigitsOf(segment) != ""
  }

  /** Two parts of a name, with a separator unless the first one is empty. */
  function Link(a: string, separator: string, b: string): string {
    if a != "" then a + separator + b else b
  }

  /** The object part of a scalar name. */
  function ObjectPart(segments: seq<string>): string {
    if segments == [] then "" else Link(ObjectPart(segments[..|segments| - 1]), ".", StemOf(segments[|segments| - 1]))
  }

  /** One more word; an empty one leaves no trace in an empty list. */
  function More(words: seq<string>, word: string): seq<string> {
    if words == [] && word == "" then [] else words + [word]
  }

  /** One column for each numbered segment: the name up to there. */
  function ObjectColumns(segments: seq<string>): seq<string> {
    if segments == [] then [] else
    var front := ObjectColumns(segments[..|segments| - 1]);
    if IsNumbered(segments[|segments| - 1]) then More(front, ObjectPart(segments)) else front
  }

  /** The numbers of the segments. */
  function ObjectValues(segments: seq<string>): seq<string> {
    if segments == [] then [] else
    var front, last := ObjectValues(segments[..|segments| - 1]), segments[|segments| - 1];
    if IsNumbered(last) then More(front, Number(DigitsOf(last))) else front
  }

  /** The words of a list, separated by spaces. */
  function Spaced(words: seq<string>): string {
    if words == [] then "" else Link(Spaced(words[..|words| - 1]), " ", words[|words| - 1])
  }

  /** A statistics name without the number behind it, and that number. */
  predicate HasNumber(statName: string) {
    var at := FirstIndex(statName, '#');
    at < |statName| && AllDigits(statName[at + 1..])
  }

  function Base(statName: string): string {
    if HasNumber(statName) then statName[..FirstIndex(statName, '#')] else statName
  }

  function StatNumber(statName: string): string
    requires HasNumber(statName)
  {
    statName[FirstIndex(statName, '#') + 1..]
  }

  function FullName(objectName: string, statName: string): string {
    ObjectPart(Segments(objectName)) + "-" + Base(statName)
  }

  /** The columns of a scalar, and its values in them. */
  function Columns(objectName: string, statName: string): seq<string> {
    var words := ObjectColumns(Segments(objectName));
    if HasNumber(statName) then More(words, Base(statName)) else words
  }

  function Values(objectName: string, statName: string): seq<string> {
    var words := ObjectValues(Segments(objectName));
    if HasNumber(statName) then More(words, StatNumber(statName)) else words
  }

  /** Nothing is cut off at the end of a buffer. */
  predicate Fits(objectName: string, statName: string) {
    && |FullName(objectName, statName)| < SCALAR_NAME_SIZE && |Spaced(Columns(objectName, statName))| < MAX_NAME_SIZE
    && |Spaced(Values(objectName, statName))| < MAX_VALUES_SIZE
  }

  // ----- The buffers hold the lists ------------------------------------------------------------------

  lemma MoreSpaced(words: seq<string>, word: string)
    requires words != [] ==> Spaced(words) != ""
    ensures Spaced(More(words, word)) == Link(Spaced(words), " ", word) && Spaced([]) == ""
    ensures More(words, word) != [] ==> Spaced(More(words, word)) != ""
  {
    if !(words == [] && word == "") { assert (words + [word])[..|words|] == words; }
  }

  /** There are no words exactly if nothing has been written. */
  lemma {:induction false} ColumnsWritten(segments: seq<string>)
    ensures ObjectColumns(segments) != [] <==> Spaced(ObjectColumns(segments)) != ""
    ensures ObjectPart(segments) == "" ==> ObjectColumns(segments) == []
  {
    if segments != [] {
      hide Spaced, Stem;
      ColumnsWritten(segments[..|segments| - 1]);
      MoreSpaced(ObjectColumns(segments[..|segments| - 1]), ObjectPart(segments));
    }
  }

  lemma {:induction false} ValuesWritten(segments: seq<string>)
    ensures ObjectValues(segments) != [] <==> Spaced(ObjectValues(segments)) != ""
  {
    if segments != [] {
      hide Spaced, Stem, Number;
      ValuesWritten(segments[..|segments| - 1]);
      MoreSpaced(ObjectValues(segments[..|segments| - 1]), Number(DigitsOf(segments[|segments| - 1])));
    }
  }

  /** One aggregate more, as long as it fits. */
  lemma AggregateFits(names: Names, aggregate: string, digits: string)
    requires names.scalarName == "" ==> names.aggNames == ""
    requires |Link(names.aggNames, " ", Link(names.scalarName, ".", aggregate))| < MAX_NAME_SIZE
    requires |Link(names.aggValues, " ", Number(digits))| < MAX_VALUES_SIZE
    ensures AddAggregate(names, aggregate, digits) ==
      Names(names.scalarName, Link(names.aggNames, " ", Link(names.scalarName, ".", aggregate)), Link(names.aggValues, " ", Number(digits)))
  {
    var a, n := names.aggNames, names.scalarName;
    var spaced := if a != "" then a + " " else a;
    assert spaced + n + "." + aggregate == spaced + (n + "." + aggregate);
    assert a == "" ==> spaced + (n + "." + aggregate) == n + "." + aggregate && spaced + aggregate == aggregate;
    assert names.aggValues == "" ==> names.aggValues + Number(digits) == Number(digits);
    hide Number;
  }

  /** The names after some segments. */
  function NamesAfter(segments: seq<string>): Names {
    Names(ObjectPart(segments), Spaced(ObjectColumns(segments)), Spaced(ObjectValues(segments)))
  }

  /** What one more segment adds. */
  lemma NamesNext(segments: seq<string>)
    requires segments != []
    ensures var n, n', last := NamesAfter(segments[..|segments| - 1]), NamesAfter(segments), segments[|segments| - 1];
      && n'.scalarName == Link(n.scalarName, ".", StemOf(last))
      && n'.aggNames == (if IsNumbered(last) then Link(n.aggNames, " ", n'.scalarName) else n.aggNames)
      && n'.aggValues == (if IsNumbered(last) then Link(n.aggValues, " ", Number(DigitsOf(last))) else n.aggValues)
      && (n.scalarName == "" ==> n.aggNames == "")
  {
    hide Spaced, Stem, Number, More;
    var init, last := segments[..|segments| - 1], segments[|segments| - 1];
    ColumnsWritten(init);
    ValuesWritten(init);
    MoreSpaced(ObjectColumns(init), ObjectPart(segments));
    MoreSpaced(ObjectValues(init), Number(DigitsOf(last)));
  }

  predicate NamesFit(names: Names) {
    |names.scalarName| < SCALAR_NAME_SIZE && |names.aggNames| < MAX_NAME_SIZE && |names.aggValues| < MAX_VALUES_SIZE
  }

  lemma SegmentFits(segments: seq<string>)
    requires segments != [] && NamesFit(NamesAfter(segments))
    ensures var n := NamesAfter(segments[..|segments| - 1]); NamesFit(n) && AddSegment(n, segments[|segments| - 1]) == NamesAfter(segments)
  {
    var n, last := NamesAfter(segments[..|segments| - 1]), segments[|segments| - 1];
    hide NamesAfter, Stem, Number, AddAggregate, Append;
    NamesNext(segments);
    assert n.scalarName + "" == n.scalarName;
    if IsNumbered(last) { AggregateFits(n, StemOf(last), DigitsOf(last)); }
  }

  lemma {:induction false} HierarchyFits(objectName: string)
    requires NamesFit(NamesAfter(Segments(objectName)))
    ensures Hierarchy(objectName) == NamesAfter(Segments(objectName))
    decreases |objectName|
  {
    hide AddSegment, Segments, Spaced, ObjectColumns, ObjectValues, ObjectPart, NamesAfter, Dotted;
    var dot, segments := LastIndex(objectName, '.'), Segments(objectName);
    LastSegment(objectName);
    SegmentFits(segments);
    if dot >= 0 { HierarchyFits(objectName[..dot]); } else { NoSegments(); }
  }

  lemma NoSegments()
    ensures NamesAfter([]) == Names("", "", "")
  {
  }

  /** The columns and values after the statistic. */
  lemma StatisticNext(objectName: string, statName: string)
    ensures var n := NamesAfter(Segments(objectName));
      && FullName(objectName, statName) == n.scalarName + "-" + Base(statName)
      && Spaced(Columns(objectName, statName)) == (if HasNumber(statName) then Link(n.aggNames, " ", Base(statName)) else n.aggNames)
      && Spaced(Values(objectName, statName)) == (if HasNumber(statName) then Link(n.aggValues, " ", StatNumber(statName)) else n.aggValues)
  {
    var segments := Segments(objectName);
    hide Segments, Spaced, ObjectColumns, ObjectValues, ObjectPart, More, HasNumber;
    ColumnsWritten(segments);
    ValuesWritten(segments);
    MoreSpaced(ObjectColumns(segments), Base(statName));
    if HasNumber(statName) { MoreSpaced(ObjectValues(segments), StatNumber(statName)); }
  }

  lemma StatisticFits(n: Names, statName: string)
    requires |n.scalarName + "-" + Base(statName)| < SCALAR_NAME_SIZE
    requires HasNumber(statName) ==> |Link(n.aggNames, " ", Base(statName))| < MAX_NAME_SIZE && |Link(n.aggValues, " ", StatNumber(statName))| < MAX_VALUES_SIZE
    ensures AddStatistic(n, statName) == Names(n.scalarName + "-" + Base(statName),
      if HasNumber(statName) then Link(n.aggNames, " ", Base(statName)) else n.aggNames,
      if HasNumber(statName) then Link(n.aggValues, " ", StatNumber(statName)) else n.aggValues)
  {
    assert n.aggNames == "" ==> n.aggNames + Base(statName) == Base(statName);
    if HasNumber(statName) { assert n.aggValues == "" ==> n.aggValues + StatNumber(statName) == StatNumber(statName); }
  }

  /** What is in the buffers, if it fits: the name, and the words of the columns and values. */
  lemma AggregateIs(objectName: string, statName: string)
    requires Fits(objectName, statName)
    ensures Aggregate(objectName, statName) ==
      Names(FullName(objectName, statName), Spaced(Columns(objectName, statName)), Spaced(Values(objectName, statName)))
  {
    hide Segments, Spaced, Columns, Values, NamesAfter, HasNumber, Base, FullName, StatNumber, AddStatistic, Hierarchy;
    StatisticNext(objectName, statName);
    HierarchyFits(objectName);
    StatisticFits(NamesAfter(Segments(objectName)), statName);
  }

  // ----- Words can be told apart -----------------------------------------------------------------------

  /** Only the last word may be empty. */
  ghost predicate Solid(words: seq<string>) {
    forall i | 0 <= i < |words| - 1 :: words[i] != ""
  }

  /** Where a word that is not the last one of `a` begins a word of `b`, that one does not go on
      with a space. */
  ghost predicate Apart(a: seq<string>, b: seq<string>) {
    forall i, j | 0 <= i < |a| - 1 && 0 <= j < |b| && a[i] < b[j] :: b[j][|a[i]|] != ' '
  }

  lemma InitIsSolid(words: seq<string>)
    requires Solid(words) && |words| > 1
    ensures var init := words[..|words| - 1]; Solid(init) && init[0] != "" && Solid(init[1..])
  {
    var init := words[..|words| - 1];
    assert forall i | 0 <= i < |init| :: init[i] == words[i];
    assert forall i | 0 <= i < |init[1..]| :: init[1..][i] == init[i + 1];
  }

  lemma SpacedAtEnd(init: seq<string>, last: string)
    ensures Spaced(init + [last]) == Link(Spaced(init), " ", last) && Spaced([]) == ""
  {
    assert (init + [last])[..|init|] == init;
  }

  lemma Regroup(x: string, s: string, last: string)
    ensures (x + " " + s) + " " + last == x + " " + (s + " " + last)
  {
  }

  lemma {:induction false} SpacedInFront(x: string, rest: seq<string>)
    requires x != "" && Solid(rest)
    ensures Spaced([x] + rest) == if rest == [] then x else x + " " + Spaced(rest)
    decreases |rest|
  {
    hide Spaced, Solid;
    if rest == [] {
      SpacedAtEnd([], x);
      assert [x] + rest == [] + [x];
    } else {
      var init, last := rest[..|rest| - 1], rest[|rest| - 1];
      assert rest == init + [last] && [x] + rest == ([x] + init) + [last];
      SpacedAtEnd([x] + init, last);
      SpacedAtEnd(init, last);
      if init == [] {
        assert [x] + init == [] + [x];
        SpacedAtEnd([], x);
      } else {
        InitIsSolid(rest);
        SpacedInFront(x, init);
        assert init == [init[0]] + init[1..];
        SpacedInFront(init[0], init[1..]);
        Regroup(x, Spaced(init), last);
      }
    }
  }

  /** Of two texts that begin alike, one word begins the other. */
  lemma WordsBegin(x: string, y: string, restX: string, restY: string)
    requires x + restX == y + restY && |x| <= |y|
    ensures x <= y && restX == y[|x|..] + restY
    ensures |x| < |y| ==> restX != "" && restX[0] == y[|x|]
  {
    assert x == (x + restX)[..|x|] == (y + restY)[..|x|] == y[..|x|];
    assert restX == (x + restX)[|x|..] == (y + restY)[|x|..];
  }

  /** What follows the first word. */
  function Behind(rest: seq<string>): string {
    if rest == [] then "" else " " + Spaced(rest)
  }

  lemma SameFirst(a: seq<string>, b: seq<string>)
    requires a != [] && b != [] && Solid(a) && Solid(b) && Apart(a, b) && Apart(b, a)
    requires a[0] + Behind(a[1..]) == b[0] + Behind(b[1..]) && |a[0]| <= |b[0]|
    ensures a[0] == b[0] && Behind(a[1..]) == Behind(b[1..])
  {
    hide Spaced;
    WordsBegin(a[0], b[0], Behind(a[1..]), Behind(b[1..]));
  }

  lemma SpacedIsBehind(words: seq<string>)
    requires words != [] && Solid(words)
    ensures Spaced(words) == words[0] + Behind(words[1..])
  {
    if |words| == 1 {
      assert words[..0] == [] && Spaced([]) == "";
    } else {
      assert words == [words[0]] + words[1..];
      SpacedInFront(words[0], words[1..]);
    }
  }

  /** The words of such lists can be read off the text. */
  lemma {:induction false} SpacedIsUnique(a: seq<string>, b: seq<string>)
    requires a != [] && b != [] && Solid(a) && Solid(b) && Apart(a, b) && Apart(b, a) && Spaced(a) == Spaced(b)
    ensures a == b
    decreases |a|
  {
    hide Spaced;
    SpacedIsBehind(a);
    SpacedIsBehind(b);
    if |a[0]| <= |b[0]| { SameFirst(a, b); } else { SameFirst(b, a); }
    assert a == [a[0]] + a[1..] && b == [b[0]] + b[1..];
    if a[1..] != [] && b[1..] != [] {
      assert Spaced(a[1..]) == Behind(a[1..])[1..] == Behind(b[1..])[1..] == Spaced(b[1..]);
      ApartBehind(a, b);
      ApartBehind(b, a);
      SpacedIsUnique(a[1..], b[1..]);
    }
  }

  lemma ApartBehind(a: seq<string>, b: seq<string>)
    requires a != [] && b != [] && Solid(a) && Apart(a, b)
    ensures Solid(a[1..]) && Apart(a[1..], b[1..])
  {
    forall i, j | 0 <= i < |a[1..]| - 1 && 0 <= j < |b[1..]| && a[1..][i] < b[1..][j] ensures b[1..][j][|a[1..][i]|] != ' ' {
      assert a[1..][i] == a[i + 1] && b[1..][j] == b[j + 1];
    }
  }

  /** Lists that do not begin with an empty word. */
  ghost predicate Proper(words: seq<string>) {
    Solid(words) && (words != [] ==> words[0] != "")
  }

  lemma SpacedDecides(a: seq<string>, b: seq<string>)
    requires Proper(a) && Proper(b) && Apart(a, b) && Apart(b, a)
    ensures Spaced(a) == Spaced(b) <==> a == b
  {
    hide Spaced, Apart;
    NothingSpaced();
    if a != [] { SpacedIsBehind(a); }
    if b != [] { SpacedIsBehind(b); }
    if Spaced(a) == Spaced(b) && a != [] && b != [] { SpacedIsUnique(a, b); }
  }

  lemma NothingSpaced()
    ensures Spaced([]) == ""
  {
  }

  // ----- When columns and values agree ---------------------------------------------------------------------

  /** A column begins the object part of the name, and ends there at a dot or at the end. */
  ghost predicate EndsSegment(word: string, name: string) {
    word != "" && word <= name && (word < name ==> name[|word|] == '.')
  }

  lemma {:induction false} ColumnsEndSegments(segments: seq<string>)
    ensures forall w | w in ObjectColumns(segments) :: EndsSegment(w, ObjectPart(segments))
  {
    if segments != [] {
      var init := segments[..|segments| - 1];
      ColumnsEndSegments(init);
      ColumnsWritten(init);
      hide Stem, Spaced;
      forall w | w in ObjectColumns(segments) ensures EndsSegment(w, ObjectPart(segments)) {
        if w in ObjectColumns(init) {
          assert EndsSegment(w, ObjectPart(init)) && ObjectPart(init) != "";
        }
      }
    }
  }

  lemma MoreIsProper(words: seq<string>, word: string)
    requires forall w | w in words :: w != ""
    ensures Proper(words) && Proper(More(words, word))
  {
    assert forall i | 0 <= i < |words| :: words[i] in words;
  }

  /** A column is one of an object, or the last one and that of the statistic. */
  lemma ColumnsAre(objectName: string, statName: string)
    ensures var words, segments := Columns(objectName, statName), Segments(objectName);
      && Proper(words)
      && (forall i | 0 <= i < |words| :: EndsSegment(words[i], ObjectPart(segments)) || (i == |words| - 1 && words[i] == Base(statName)))
  {
    var segments := Segments(objectName);
    hide Segments, ObjectColumns, ObjectPart, HasNumber, Base, Proper;
    ColumnsEndSegments(segments);
    MoreIsProper(ObjectColumns(segments), Base(statName));
  }

  lemma BaseWithoutSpaces(statName: string)
    requires ' ' !in statName
    ensures ' ' !in Base(statName)
  {
  }

  lemma ColumnsApart(objectName: string, statName: string, otherName: string, otherStat: string)
    requires FullName(objectName, statName) == FullName(otherName, otherStat) && ' ' !in otherStat
    ensures Apart(Columns(objectName, statName), Columns(otherName, otherStat))
  {
    var a, b, name := Columns(objectName, statName), Columns(otherName, otherStat), FullName(objectName, statName);
    ColumnsAre(objectName, statName);
    ColumnsAre(otherName, otherStat);
    BaseWithoutSpaces(otherStat);
    hide Columns, Segments, ObjectPart, Base;
    forall i, j | 0 <= i < |a| - 1 && 0 <= j < |b| && a[i] < b[j] ensures b[j][|a[i]|] != ' ' {
      assert a[i] <= name && (name[|a[i]|] == '.' || name[|a[i]|] == '-');
      if EndsSegment(b[j], ObjectPart(Segments(otherName))) { assert b[j] <= name; }
    }
  }

  lemma {:induction false} NumberIsDigits(digits: string)
    requires AllDigits(digits)
    ensures AllDigits(Number(digits)) && (Number(digits) == "" <==> digits == "")
  {
    if |digits| > 1 && digits[0] == '0' { NumberIsDigits(digits[1..]); }
  }

  ghost predicate Digital(words: seq<string>) {
    forall w | w in words :: AllDigits(w)
  }

  lemma {:induction false} ObjectValuesDigital(segments: seq<string>)
    ensures Digital(ObjectValues(segments)) && forall w | w in ObjectValues(segments) :: w != ""
  {
    if segments != [] {
      var last := segments[|segments| - 1];
      ObjectValuesDigital(segments[..|segments| - 1]);
      NumberIsDigits(DigitsOf(last));
      hide Stem, Number;
    }
  }

  lemma ValuesAre(objectName: string, statName: string)
    ensures Proper(Values(objectName, statName)) && Digital(Values(objectName, statName))
  {
    ObjectValuesDigital(Segments(objectName));
    hide Segments, ObjectValues, Proper;
    MoreIsProper(ObjectValues(Segments(objectName)), if HasNumber(statName) then StatNumber(statName) else "");
  }

  lemma DigitalApart(a: seq<string>, b: seq<string>)
    requires Digital(b)
    ensures Apart(a, b)
  {
    forall i, j | 0 <= i < |a| - 1 && 0 <= j < |b| && a[i] < b[j] ensures b[j][|a[i]|] != ' ' {
      assert b[j] in b && IsDigit(b[j][|a[i]|]);
    }
  }

  /** Two scalars with one name, in buffers that hold them: the names of their aggregates are equal
      if and only if their columns are, and their aggregate values if and only if the lists of
      their numbers are. */
  lemma ColumnsDecide(objectName: string, statName: string, otherName: string, otherStat: string)
    requires Fits(objectName, statName) && Fits(otherName, otherStat) && ' ' !in statName && ' ' !in otherStat
    requires FullName(objectName, statName) == FullName(otherName, otherStat)
    ensures var a, b := Aggregate(objectName, statName), Aggregate(otherName, otherStat);
      && a.scalarName == b.scalarName
      && (a.aggNames == b.aggNames <==> Columns(objectName, statName) == Columns(otherName, otherStat))
      && (a.aggValues == b.aggValues <==> Values(objectName, statName) == Values(otherName, otherStat))
  {
    hide *;
    AggregateIs(objectName, statName);
    AggregateIs(otherName, otherStat);
    ColumnsAre(objectName, statName);
    ColumnsAre(otherName, otherStat);
    ColumnsApart(objectName, statName, otherName, otherStat);
    ColumnsApart(otherName, otherStat, objectName, statName);
    SpacedDecides(Columns(objectName, statName), Columns(otherName, otherStat));
    ValuesAre(objectName, statName);
    ValuesAre(otherName, otherStat);
    DigitalApart(Values(objectName, statName), Values(otherName, otherStat));
    DigitalApart(Values(otherName, otherStat), Values(objectName, statName));
    SpacedDecides(Values(objectName, statName), Values(otherName, otherStat));
  }

  // ----- Numbered positions ----------------------------------------------------------------------------------

  /** The same segments are numbered, apart from those at the front that have no name. */
  ghost predicate SamePositions(a: seq<string>, b: seq<string>) {
    |a| == |b| && forall i | 0 <= i < |a| :: SameAt(a, b, i)
  }

  ghost predicate SameAt(a: seq<string>, b: seq<string>, i: nat)
    requires i < |a| && i < |b|
  {
    ObjectPart(a[..i + 1]) != "" ==> (IsNumbered(a[i]) <==> IsNumbered(b[i]))
  }

  lemma StemsOfInit(a: seq<string>, b: seq<string>)
    requires Stems(a) == Stems(b) && a != []
    ensures |a| == |b| && Stems(a[..|a| - 1]) == Stems(b[..|b| - 1]) && StemOf(a[|a| - 1]) == StemOf(b[|b| - 1])
  {
    hide Stem;
    var n := |a| - 1;
    assert Stems(a)[n] == StemOf(a[n]) && Stems(b)[n] == StemOf(b[n]);
    forall i | 0 <= i < n ensures Stems(a[..n])[i] == Stems(b[..n])[i] {
      assert Stems(a)[i] == StemOf(a[i]) && Stems(b)[i] == StemOf(b[i]);
    }
  }

  lemma {:induction false} SameObjectPart(a: seq<string>, b: seq<string>)
    requires Stems(a) == Stems(b)
    ensures ObjectPart(a) == ObjectPart(b)
  {
    if a != [] {
      hide Stem, StemOf, Stems;
      StemsOfInit(a, b);
      SameObjectPart(a[..|a| - 1], b[..|b| - 1]);
    }
  }

  lemma SameAtInit(a: seq<string>, b: seq<string>, n: nat, i: nat)
    requires i < n <= |a| && n <= |b|
    ensures SameAt(a[..n], b[..n], i) == SameAt(a, b, i)
  {
    assert a[..n][..i + 1] == a[..i + 1];
  }

  lemma PositionsOfInit(a: seq<string>, b: seq<string>)
    requires |a| == |b| && a != []
    ensures SamePositions(a, b) <==> SamePositions(a[..|a| - 1], b[..|b| - 1]) && SameAt(a, b, |a| - 1)
  {
    hide SameAt;
    var n := |a| - 1;
    forall i | 0 <= i < n ensures SameAt(a[..n], b[..n], i) == SameAt(a, b, i) { SameAtInit(a, b, n, i); }
  }

  /** Columns of earlier segments are shorter. */
  lemma ShorterColumns(segments: seq<string>)
    requires segments != []
    ensures ObjectPart(segments) !in ObjectColumns(segments[..|segments| - 1])
    ensures ObjectPart(segments) == "" ==> ObjectPart(segments[..|segments| - 1]) == ""
  {
    ColumnsEndSegments(segments[..|segments| - 1]);
    hide Stem;
  }

  /** Objects with the same stems have the same columns if and only if the same positions are
      numbered. */
  lemma {:induction false} ColumnsOfPositions(a: seq<string>, b: seq<string>)
    requires Stems(a) == Stems(b)
    ensures ObjectColumns(a) == ObjectColumns(b) <==> SamePositions(a, b)
    decreases |a|
  {
    if a == [] {
      assert b == [];
    } else {
      hide *;
      var inA, inB := a[..|a| - 1], b[..|b| - 1];
      StemsOfInit(a, b);
      ColumnsOfPositions(inA, inB);
      SameObjectPart(a, b);
      SameObjectPart(inA, inB);
      PositionsOfInit(a, b);
      SameAtLast(a, b);
      ColumnsNext(a);
      ColumnsNext(b);
      MoreIsUnique(ObjectColumns(inA), ObjectColumns(inB), ObjectPart(a));
    }
  }

  lemma SameAtLast(a: seq<string>, b: seq<string>)
    requires |a| == |b| && a != []
    ensures SameAt(a, b, |a| - 1) <==> (ObjectPart(a) != "" ==> (IsNumbered(a[|a| - 1]) <==> IsNumbered(b[|b| - 1])))
  {
    assert a[..|a| - 1 + 1] == a;
  }

  lemma ColumnsNext(segments: seq<string>)
    requires segments != []
    ensures var init := segments[..|segments| - 1];
      && ObjectColumns(segments) == (if IsNumbered(segments[|segments| - 1]) then More(ObjectColumns(init), ObjectPart(segments)) else ObjectColumns(init))
      && ObjectPart(segments) !in ObjectColumns(init)
      && (ObjectPart(segments) == "" ==> ObjectColumns(init) == [] && ObjectColumns(segments) == [])
  {
    ShorterColumns(segments);
    ColumnsWritten(segments);
    ColumnsWritten(segments[..|segments| - 1]);
    hide IsNumbered, ObjectPart, More, Spaced;
  }

  lemma MoreIsUnique(a: seq<string>, b: seq<string>, word: string)
    requires word !in a && word !in b
    ensures More(a, word) == More(b, word) <==> a == b
    ensures word != "" ==> More(a, word) != b && More(b, word) != a
  {
    if More(a, word) == More(b, word) {
      if a != [] && b != [] { assert a == More(a, word)[..|a|] && b == More(b, word)[..|b|]; }
    }
    if word != "" { assert word in More(a, word) && word in More(b, word); }
  }

  /** Two scalars that differ only in their numbers: with or without a number of the statistic in
      both, the names of the aggregates are equal if and only if the same positions of the objects
      are numbered.  With it in the first one only, they are equal just by chance, if the second
      object has one more column and this is called like the statistic. */
  lemma PositionsDecide(objectName: string, statName: string, otherName: string, otherStat: string)
    requires Fits(objectName, statName) && Fits(otherName, otherStat) && ' ' !in statName && ' ' !in otherStat
    requires Stems(Segments(objectName)) == Stems(Segments(otherName)) && Base(statName) == Base(otherStat)
    ensures var a, b := Aggregate(objectName, statName), Aggregate(otherName, otherStat);
      var segments, others := Segments(objectName), Segments(otherName);
      && a.scalarName == b.scalarName
      && (HasNumber(statName) == HasNumber(otherStat) ==> (a.aggNames == b.aggNames <==> SamePositions(segments, others)))
      && (HasNumber(statName) && !HasNumber(otherStat) ==>
           (a.aggNames == b.aggNames <==> ObjectColumns(others) == More(ObjectColumns(segments), Base(statName))))
      && (a.aggValues == b.aggValues <==> Values(objectName, statName) == Values(otherName, otherStat))
  {
    hide Aggregate, Segments, Fits, Stems, ObjectColumns, ObjectPart, SamePositions, Base, HasNumber, Values;
    SameObjectPart(Segments(objectName), Segments(otherName));
    ColumnsDecide(objectName, statName, otherName, otherStat);
    ColumnsOfPositions(Segments(objectName), Segments(otherName));
    SameMore(ObjectColumns(Segments(objectName)), ObjectColumns(Segments(otherName)), Base(statName));
  }

  lemma SameMore(a: seq<string>, b: seq<string>, word: string)
    ensures More(a, word) == More(b, word) <==> a == b
  {
    if More(a, word) == More(b, word) && word != "" {
      assert a == More(a, word)[..|a|] && b == More(b, word)[..|b|];
    }
    if More(a, word) == More(b, word) && a != [] && b != [] {
      assert a == More(a, word)[..|a|] && b == More(b, word)[..|b|];
    }
  }

  // ----- Tables and files --------------------------------------------------------------------------------------

  /** All records of a key have the same columns; all records of a scalar name have. */
  ghost predicate OneHeaderPerKey(records: seq<Reading>) {
    forall i, j | 0 <= i < |records| && 0 <= j < |records| && records[i].key == records[j].key :: records[i].aggNames == records[j].aggNames
  }

  ghost predicate OneHeaderPerName(records: seq<Reading>) {
    forall i, j | 0 <= i < |records| && 0 <= j < |records| && records[i].key.scalarName == records[j].key.scalarName ::
      records[i].aggNames == records[j].aggNames
  }

  /** Every value of every entry belongs under the columns of the entry. */
  ghost predicate EntriesRight(items: seq<Item>, records: seq<Reading>) {
    forall i | 0 <= i < |items| :: AllAre(ColumnsFor(records, items[i].key), items[i].aggNames)
  }

  ghost predicate AllAre(columns: seq<string>, header: string) {
    forall n | 0 <= n < |columns| :: columns[n] == header
  }

  /** The columns that the rows of a file belong under, row by row. */
  function RowColumns(items: seq<Item>, records: seq<Reading>, name: string): seq<string> {
    if items == [] then [] else
    var last := items[|items| - 1];
    RowColumns(items[..|items| - 1], records, name) + if last.key.scalarName == name then ColumnsFor(records, last.key) else []
  }

  /** Every row of every file belongs under the header of the file. */
  ghost predicate FilesRight(files: seq<File>, items: seq<Item>, records: seq<Reading>) {
    forall i | 0 <= i < |files| ::
      |RowColumns(items, records, files[i].name)| == |files[i].rows| && AllAre(RowColumns(items, records, files[i].name), files[i].aggNames)
  }

  /** What is written for a key was recorded. */
  lemma {:induction false} ColumnRecorded(records: seq<Reading>, key: ScalarKey, n: nat) returns (i: nat)
    requires n < |ColumnsFor(records, key)|
    ensures i < |records| && records[i].key == key && records[i].aggNames == ColumnsFor(records, key)[n]
  {
    var init := records[..|records| - 1];
    if n < |ColumnsFor(init, key)| { i := ColumnRecorded(init, key, n); } else { i := |records| - 1; }
  }

  lemma {:induction false} RecordedColumn(records: seq<Reading>, i: nat) returns (n: nat)
    requires i < |records|
    ensures n < |ColumnsFor(records, records[i].key)| && ColumnsFor(records, records[i].key)[n] == records[i].aggNames
  {
    var init := records[..|records| - 1];
    if i < |init| { n := RecordedColumn(init, i); } else { n := |ColumnsFor(init, records[i].key)|; }
  }

  /** Each record has its entry, and the entry has its values and its header. */
  lemma EntryOfRecord(items: seq<Item>, records: seq<Reading>, i: nat) returns (k: nat)
    requires Tells(items, records) && i < |records|
    ensures k < |items| && items[k].key == records[i].key
  {
    var n := RecordedColumn(records, i);
    assert Lookup(items, records[i].key) == ValuesOf(records, records[i].key);
    hide Lookup, ValuesOf, ColumnsFor;
    k := EntryFound(items, records[i].key);
  }

  lemma HeaderIsFirst(items: seq<Item>, records: seq<Reading>, k: nat)
    requires Tells(items, records) && k < |items|
    ensures var columns := ColumnsFor(records, items[k].key);
      columns != [] && items[k].aggNames == columns[0] && |columns| == |items[k].values|
  {
    hide Lookup, HeaderOf, ValuesOf, ColumnsFor, CompareKeys;
    KeysDistinct(items);
    EntryAt(items, k);
    assert Lookup(items, items[k].key) == ValuesOf(records, items[k].key);
    assert HeaderOf(items, items[k].key) == First(ColumnsFor(records, items[k].key));
  }

  /** No entry collects values of different columns if and only if all records of one key have
      the same ones. */
  lemma EntriesAreRight(items: seq<Item>, records: seq<Reading>)
    requires Tells(items, records)
    ensures EntriesRight(items, records) <==> OneHeaderPerKey(records)
  {
    hide Tells, ColumnsFor;
    if EntriesRight(items, records) {
      forall i, j | 0 <= i < |records| && 0 <= j < |records| && records[i].key == records[j].key ensures records[i].aggNames == records[j].aggNames {
        var k := EntryOfRecord(items, records, i);
        var m := RecordedColumn(records, i);
        var n := RecordedColumn(records, j);
        assert AllAre(ColumnsFor(records, items[k].key), items[k].aggNames);
      }
    }
    if OneHeaderPerKey(records) {
      forall k | 0 <= k < |items| ensures AllAre(ColumnsFor(records, items[k].key), items[k].aggNames) {
        HeaderIsFirst(items, records, k);
        var columns := ColumnsFor(records, items[k].key);
        var first := ColumnRecorded(records, items[k].key, 0);
        forall n | 0 <= n < |columns| ensures columns[n] == items[k].aggNames { var i := ColumnRecorded(records, items[k].key, n); }
      }
    }
  }

  /** The row columns come from the entries of the name. */
  lemma {:induction false} RowColumnFrom(items: seq<Item>, records: seq<Reading>, name: string, n: nat) returns (k: nat, m: nat)
    requires n < |RowColumns(items, records, name)|
    ensures k < |items| && items[k].key.scalarName == name && m < |ColumnsFor(records, items[k].key)|
    ensures RowColumns(items, records, name)[n] == ColumnsFor(records, items[k].key)[m]
  {
    hide ColumnsFor;
    var init := items[..|items| - 1];
    if n < |RowColumns(init, records, name)| {
      k, m := RowColumnFrom(init, records, name, n);
    } else {
      k, m := |items| - 1, n - |RowColumns(init, records, name)|;
    }
  }

  lemma {:induction false} RowColumnAt(items: seq<Item>, records: seq<Reading>, k: nat, m: nat) returns (n: nat)
    requires k < |items| && m < |ColumnsFor(records, items[k].key)|
    ensures var columns := RowColumns(items, records, items[k].key.scalarName);
      n < |columns| && columns[n] == ColumnsFor(records, items[k].key)[m]
  {
    hide ColumnsFor;
    var init := items[..|items| - 1];
    if k < |init| {
      n := RowColumnAt(init, records, k, m);
    } else {
      n := |RowColumns(init, records, items[k].key.scalarName)| + m;
    }
  }

  /** One for each row. */
  lemma {:induction false} RowColumnCount(items: seq<Item>, records: seq<Reading>, name: string)
    requires forall k | 0 <= k < |items| :: |ColumnsFor(records, items[k].key)| == |items[k].values|
    ensures |RowColumns(items, records, name)| == |RowsOf(items, name)|
  {
    if items != [] {
      hide ColumnsFor;
      RowColumnCount(items[..|items| - 1], records, name);
    }
  }

  lemma FileOfName(items: seq<Item>, varNames: string, files: seq<File>, k: nat) returns (i: nat)
    requires Grouped(items, varNames, files) && Named(items) && k < |items|
    ensures i < |files| && files[i].name == items[k].key.scalarName
  {
    assert HasFile(files, items[k].key.scalarName);
    i :| 0 <= i < |files| && files[i].name == items[k].key.scalarName;
  }

  lemma HeaderOfFile(items: seq<Item>, varNames: string, files: seq<File>, i: nat) returns (k: nat)
    requires Grouped(items, varNames, files) && i < |files|
    ensures k < |items| && items[k].key.scalarName == files[i].name && items[k].aggNames == files[i].aggNames
    ensures files[i].rows == RowsOf(items, files[i].name)
  {
    assert HeadedBy(items, files[i]);
    k :| 0 <= k < |items| && items[k].key.scalarName == files[i].name && items[k].aggNames == files[i].aggNames;
  }

  lemma RightFilesAgree(items: seq<Item>, records: seq<Reading>, varNames: string, files: seq<File>, i: nat, j: nat)
    requires Tells(items, records) && Grouped(items, varNames, files) && FilesRight(files, items, records)
    requires i < |records| && j < |records| && records[i].key.scalarName == records[j].key.scalarName
    ensures records[i].aggNames == records[j].aggNames
  {
    var k := EntryOfRecord(items, records, i);
    var l := EntryOfRecord(items, records, j);
    var f := FileOfName(items, varNames, files, k);
    hide Tells, Grouped, ColumnsFor, RowColumns;
    var m := RecordedColumn(records, i);
    var n := RecordedColumn(records, j);
    m := RowColumnAt(items, records, k, m);
    n := RowColumnAt(items, records, l, n);
    assert AllAre(RowColumns(items, records, files[f].name), files[f].aggNames);
  }

  lemma AgreeingFileIsRight(items: seq<Item>, records: seq<Reading>, varNames: string, files: seq<File>, f: nat)
    requires Tells(items, records) && Grouped(items, varNames, files) && OneHeaderPerName(records) && f < |files|
    ensures var columns := RowColumns(items, records, files[f].name); |columns| == |files[f].rows| && AllAre(columns, files[f].aggNames)
  {
    var columns := RowColumns(items, records, files[f].name);
    hide Tells, Grouped, ColumnsFor, RowColumns;
    var h := HeaderOfFile(items, varNames, files, f);
    forall k | 0 <= k < |items| ensures |ColumnsFor(records, items[k].key)| == |items[k].values| { HeaderIsFirst(items, records, k); }
    RowColumnCount(items, records, files[f].name);
    HeaderIsFirst(items, records, h);
    var first := ColumnRecorded(records, items[h].key, 0);
    forall n | 0 <= n < |columns| ensures columns[n] == files[f].aggNames {
      var k, m := RowColumnFrom(items, records, files[f].name, n);
      var i := ColumnRecorded(records, items[k].key, m);
    }
  }

  /** Every row of every file belongs under the header of the file if and only if all records of
      one scalar name have the same columns. */
  lemma FilesAreRight(items: seq<Item>, records: seq<Reading>, varNames: string, files: seq<File>)
    requires Tells(items, records) && Grouped(items, varNames, files)
    ensures FilesRight(files, items, records) <==> OneHeaderPerName(records)
  {
    hide Tells, Grouped, ColumnsFor, RowColumns, AllAre;
    if FilesRight(files, items, records) {
      forall i, j | 0 <= i < |records| && 0 <= j < |records| && records[i].key.scalarName == records[j].key.scalarName
        ensures records[i].aggNames == records[j].aggNames
      {
        RightFilesAgree(items, records, varNames, files, i, j);
      }
    }
    if OneHeaderPerName(records) {
      forall f | 0 <= f < |files|
        ensures |RowColumns(items, records, files[f].name)| == |files[f].rows| && AllAre(RowColumns(items, records, files[f].name), files[f].aggNames)
      {
        AgreeingFileIsRight(items, records, varNames, files, f);
      }
    }
  }

  // ----- From the scalars to their files ---------------------------------------------------------------------------

  /** The columns of a scalar. */
  function ColumnsOf(scalar: Scalar, splitting: bool): seq<string> {
    Columns(ObjectOf(scalar), StatisticOf(scalar, splitting))
  }

  ghost predicate IsRecorded(scalar: Scalar, splitting: bool, skipList: seq<string>) {
    !Skipped(KeyOf(scalar, splitting).scalarName, skipList)
  }

  /** The names of the scalars fit the buffers. */
  ghost predicate AllFit(scalars: seq<Scalar>, splitting: bool) {
    forall i | 0 <= i < |scalars| :: Fits(ObjectOf(scalars[i]), StatisticOf(scalars[i], splitting))
  }

  /** Recorded scalars of one key, or of one scalar name, have the same columns. */
  ghost predicate OneColumnsPerKey(scalars: seq<Scalar>, splitting: bool, skipList: seq<string>) {
    forall i, j | 0 <= i < |scalars| && 0 <= j < |scalars| && IsRecorded(scalars[i], splitting, skipList)
        && KeyOf(scalars[i], splitting) == KeyOf(scalars[j], splitting) ::
      ColumnsOf(scalars[i], splitting) == ColumnsOf(scalars[j], splitting)
  }

  ghost predicate OneColumnsPerName(scalars: seq<Scalar>, splitting: bool, skipList: seq<string>) {
    forall i, j | 0 <= i < |scalars| && 0 <= j < |scalars| && IsRecorded(scalars[i], splitting, skipList)
        && KeyOf(scalars[i], splitting).scalarName == KeyOf(scalars[j], splitting).scalarName ::
      ColumnsOf(scalars[i], splitting) == ColumnsOf(scalars[j], splitting)
  }

  /** Of two scalars with one name, the names of the aggregates are equal if and only if their
      columns are. */
  lemma HeadersDecide(scalar: Scalar, other: Scalar, splitting: bool)
    requires Fits(ObjectOf(scalar), StatisticOf(scalar, splitting)) && Fits(ObjectOf(other), StatisticOf(other, splitting))
    requires KeyOf(scalar, splitting).scalarName == KeyOf(other, splitting).scalarName
    ensures NamesOf(scalar, splitting).aggNames == NamesOf(other, splitting).aggNames <==> ColumnsOf(scalar, splitting) == ColumnsOf(other, splitting)
  {
    hide Aggregate, ObjectOf, StatisticOf, SplitStatistic, Fits, FullName, Columns, Values;
    StatisticIsPlain(scalar, splitting);
    StatisticIsPlain(other, splitting);
    AggregateIs(ObjectOf(scalar), StatisticOf(scalar, splitting));
    AggregateIs(ObjectOf(other), StatisticOf(other, splitting));
    ColumnsDecide(ObjectOf(scalar), StatisticOf(scalar, splitting), ObjectOf(other), StatisticOf(other, splitting));
  }

  /** What is recorded comes from the scalars that are not skipped. */
  lemma {:induction false} RecordFrom(readings: seq<Reading>, skipList: seq<string>, n: nat) returns (i: nat)
    requires n < |Recorded(readings, skipList)|
    ensures i < |readings| && readings[i] == Recorded(readings, skipList)[n] && !Skipped(readings[i].key.scalarName, skipList)
  {
    hide Skipped;
    var init := readings[..|readings| - 1];
    if n < |Recorded(init, skipList)| { i := RecordFrom(init, skipList, n); } else { i := |readings| - 1; }
  }

  lemma {:induction false} RecordOf(readings: seq<Reading>, skipList: seq<string>, i: nat) returns (n: nat)
    requires i < |readings| && !Skipped(readings[i].key.scalarName, skipList)
    ensures n < |Recorded(readings, skipList)| && Recorded(readings, skipList)[n] == readings[i]
  {
    hide Skipped;
    var init := readings[..|readings| - 1];
    if i < |init| { n := RecordOf(init, skipList, i); } else { n := |Recorded(init, skipList)|; }
  }

  lemma ScalarReading(scalars: seq<Scalar>, splitting: bool, skipList: seq<string>, i: nat)
    requires i < |scalars|
    ensures var r := ReadingsOf(scalars, splitting)[i];
      && r.key == KeyOf(scalars[i], splitting) && r.aggNames == NamesOf(scalars[i], splitting).aggNames
      && (IsRecorded(scalars[i], splitting, skipList) <==> !Skipped(r.key.scalarName, skipList))
  {
    hide KeyOf, NamesOf, Skipped;
  }

  lemma FitsAt(scalars: seq<Scalar>, splitting: bool, i: nat)
    requires AllFit(scalars, splitting) && i < |scalars|
    ensures Fits(ObjectOf(scalars[i]), StatisticOf(scalars[i], splitting))
  {
    hide Fits, ObjectOf, StatisticOf;
  }

  /** The two recorded scalars behind two records. */
  lemma AgreeingScalars(scalars: seq<Scalar>, splitting: bool, skipList: seq<string>, m: nat, n: nat)
    requires var records := Recorded(ReadingsOf(scalars, splitting), skipList);
      m < |records| && n < |records| && records[m].key.scalarName == records[n].key.scalarName
    requires AllFit(scalars, splitting)
    ensures var records := Recorded(ReadingsOf(scalars, splitting), skipList);
      && (OneColumnsPerName(scalars, splitting, skipList) ==> records[m].aggNames == records[n].aggNames)
      && (OneColumnsPerKey(scalars, splitting, skipList) && records[m].key == records[n].key ==> records[m].aggNames == records[n].aggNames)
  {
    hide Recorded, ReadingsOf, ColumnsOf, KeyOf, NamesOf, IsRecorded, AllFit, Skipped;
    var i := RecordFrom(ReadingsOf(scalars, splitting), skipList, m);
    var j := RecordFrom(ReadingsOf(scalars, splitting), skipList, n);
    ScalarReading(scalars, splitting, skipList, i);
    ScalarReading(scalars, splitting, skipList, j);
    FitsAt(scalars, splitting, i);
    FitsAt(scalars, splitting, j);
    HeadersDecide(scalars[i], scalars[j], splitting);
  }

  /** The records of two recorded scalars. */
  lemma AgreeingRecords(scalars: seq<Scalar>, splitting: bool, skipList: seq<string>, i: nat, j: nat)
    requires AllFit(scalars, splitting) && i < |scalars| && j < |scalars| && IsRecorded(scalars[i], splitting, skipList)
    requires KeyOf(scalars[i], splitting).scalarName == KeyOf(scalars[j], splitting).scalarName
    ensures var records := Recorded(ReadingsOf(scalars, splitting), skipList);
      && (OneHeaderPerName(records) ==> ColumnsOf(scalars[i], splitting) == ColumnsOf(scalars[j], splitting))
      && (OneHeaderPerKey(records) && KeyOf(scalars[i], splitting) == KeyOf(scalars[j], splitting) ==>
           ColumnsOf(scalars[i], splitting) == ColumnsOf(scalars[j], splitting))
  {
    hide Recorded, ReadingsOf, ColumnsOf, KeyOf, NamesOf, IsRecorded, AllFit, Skipped;
    ScalarReading(scalars, splitting, skipList, i);
    ScalarReading(scalars, splitting, skipList, j);
    var m := RecordOf(ReadingsOf(scalars, splitting), skipList, i);
    var n := RecordOf(ReadingsOf(scalars, splitting), skipList, j);
    FitsAt(scalars, splitting, i);
    FitsAt(scalars, splitting, j);
    HeadersDecide(scalars[i], scalars[j], splitting);
  }

  /** The conditions on the records as conditions on the scalars. */
  lemma RecordsOfScalars(scalars: seq<Scalar>, splitting: bool, skipList: seq<string>)
    requires AllFit(scalars, splitting)
    ensures var records := Recorded(ReadingsOf(scalars, splitting), skipList);
      && (OneHeaderPerName(records) <==> OneColumnsPerName(scalars, splitting, skipList))
      && (OneHeaderPerKey(records) <==> OneColumnsPerKey(scalars, splitting, skipList))
  {
    hide Recorded, ReadingsOf, ColumnsOf, KeyOf, IsRecorded, AllFit;
    var records := Recorded(ReadingsOf(scalars, splitting), skipList);
    forall m, n | 0 <= m < |records| && 0 <= n < |records| && records[m].key.scalarName == records[n].key.scalarName
      ensures OneColumnsPerName(scalars, splitting, skipList) ==> records[m].aggNames == records[n].aggNames
      ensures OneColumnsPerKey(scalars, splitting, skipList) && records[m].key == records[n].key ==> records[m].aggNames == records[n].aggNames
    {
      AgreeingScalars(scalars, splitting, skipList, m, n);
    }
    forall i, j | 0 <= i < |scalars| && 0 <= j < |scalars| && IsRecorded(scalars[i], splitting, skipList)
        && KeyOf(scalars[i], splitting).scalarName == KeyOf(scalars[j], splitting).scalarName
      ensures OneHeaderPerName(records) ==> ColumnsOf(scalars[i], splitting) == ColumnsOf(scalars[j], splitting)
      ensures OneHeaderPerKey(records) && KeyOf(scalars[i], splitting) == KeyOf(scalars[j], splitting) ==>
        ColumnsOf(scalars[i], splitting) == ColumnsOf(scalars[j], splitting)
    {
      AgreeingRecords(scalars, splitting, skipList, i, j);
    }
  }

  /** A table and files made from scalars: every row is under the columns of its scalar if and only
      if recorded scalars of one scalar name have the same columns, and every entry has only values
      of its own columns if and only if recorded scalars of one key have. */
  lemma ColumnsAreRight(scalars: seq<Scalar>, splitting: bool, skipList: seq<string>, items: seq<Item>, varNames: string, files: seq<File>)
    requires AllFit(scalars, splitting) && Grouped(items, varNames, files)
    requires Tells(items, Recorded(ReadingsOf(scalars, splitting), skipList))
    ensures FilesRight(files, items, Recorded(ReadingsOf(scalars, splitting), skipList)) <==> OneColumnsPerName(scalars, splitting, skipList)
    ensures EntriesRight(items, Recorded(ReadingsOf(scalars, splitting), skipList)) <==> OneColumnsPerKey(scalars, splitting, skipList)
  {
    hide *;
    RecordsOfScalars(scalars, splitting, skipList);
    FilesAreRight(items, Recorded(ReadingsOf(scalars, splitting), skipList), varNames, files);
    EntriesAreRight(items, Recorded(ReadingsOf(scalars, splitting), skipList));
  }

  /** A row that a scalar should have: its own run, variable values and value, and the split name and
      the numbers taken from its names. */
  predicate IsRowOf(row: Row, scalar: Scalar, splitting: bool) {
    && row.run == scalar.run && row.varValues == scalar.varValues && row.value == scalar.value
    && row.aggValues == NamesOf(scalar, splitting).aggValues
    && row.splitName == if splitting then SplitStatistic(scalar.statName).1 else ""
  }

  lemma {:induction false} ValueOfRecord(records: seq<Reading>, n: nat) returns (m: nat)
    requires n < |records|
    ensures m < |ValuesOf(records, records[n].key)| && ValuesOf(records, records[n].key)[m] == records[n].value
  {
    var init := records[..|records| - 1];
    if n < |init| { m := ValueOfRecord(init, n); } else { m := |ValuesOf(init, records[n].key)|; }
  }

  lemma {:induction false} RowForIn(rows: seq<Row>, key: ScalarKey, m: nat) returns (n: nat)
    requires m < |RowsFor(rows, key)|
    ensures n < |rows| && rows[n] == RowsFor(rows, key)[m]
    ensures rows[n].run == key.run && rows[n].splitName == key.splitName && rows[n].aggValues == key.aggValues && rows[n].varValues == key.varValues
  {
    var init := rows[..|rows| - 1];
    if m < |RowsFor(init, key)| { n := RowForIn(init, key, m); } else { n := |rows| - 1; }
  }

  lemma KeyFields(scalar: Scalar, splitting: bool)
    ensures var key := KeyOf(scalar, splitting);
      && key.run == scalar.run && key.varValues == scalar.varValues && key.aggValues == NamesOf(scalar, splitting).aggValues
      && key.splitName == (if splitting then SplitStatistic(scalar.statName).1 else "")
      && key.scalarName == NamesOf(scalar, splitting).scalarName != ""
  {
    hide NamesOf;
    KeyIsNamed(scalar, splitting);
  }

  /** Every scalar that is not skipped is in the file of its scalar name, in a row of its own run,
      variable values and value. */
  lemma ScalarIsWritten(scalars: seq<Scalar>, splitting: bool, skipList: seq<string>, files: seq<File>, i: nat) returns (f: nat, n: nat)
    requires Reports(files, Recorded(ReadingsOf(scalars, splitting), skipList))
    requires i < |scalars| && IsRecorded(scalars[i], splitting, skipList)
    ensures f < |files| && files[f].name == NamesOf(scalars[i], splitting).scalarName
    ensures n < |files[f].rows| && IsRowOf(files[f].rows[n], scalars[i], splitting)
  {
    var records := Recorded(ReadingsOf(scalars, splitting), skipList);
    hide Recorded, ReadingsOf, KeyOf, NamesOf, IsRecorded, Skipped, RowsFor, ValuesOf, SplitStatistic, RowsInOrder;
    ScalarReading(scalars, splitting, skipList, i);
    var r := RecordOf(ReadingsOf(scalars, splitting), skipList, i);
    ReadingValue(scalars, splitting, i);
    var m := ValueOfRecord(records, r);
    KeyFields(scalars[i], splitting);
    var key := KeyOf(scalars[i], splitting);
    assert HasFile(files, key.scalarName);
    f :| 0 <= f < |files| && files[f].name == key.scalarName;
    assert HoldValues(RowsFor(files[f].rows, key), ValuesOf(records, key));
    n := RowForIn(files[f].rows, key, m);
  }

  lemma ReadingValue(scalars: seq<Scalar>, splitting: bool, i: nat)
    requires i < |scalars|
    ensures ReadingsOf(scalars, splitting)[i].value == scalars[i].value
  {
    hide KeyOf, NamesOf;
  }

  // ----- Two ways to go wrong ---------------------------------------------------------------------------------------

  lemma OneSegmentOf(x: string)
    requires '.' !in x
    ensures Segments(x) == [x]
  {
    assert LastIndex(x, '.') == -1;
    hide LastIndex;
  }

  lemma LastDot(front: string, last: string)
    requires '.' !in last
    ensures var name := front + "." + last; var dot := LastIndex(name, '.');
      dot >= 0 && name[..dot] == front && name[dot + 1..] == last
  {
    var name := front + "." + last;
    var dot := LastIndex(name, '.');
    assert name[|front|] == '.' && name[..|front|] == front && name[|front| + 1..] == last;
    assert forall k | |front| < k < |name| :: name[k] == last[k - |front| - 1];
    hide LastIndex;
  }

  lemma OneMoreSegment(front: string, last: string)
    requires '.' !in last
    ensures Segments(front + "." + last) == Segments(front) + [last]
  {
    LastDot(front, last);
    hide LastIndex, Segments, Dotted;
    LastSegment(front + "." + last);
  }

  lemma TwoSegments(x: string, y: string)
    requires '.' !in x && '.' !in y
    ensures Segments(x + "." + y) == [x, y]
  {
    hide Segments, Dotted;
    OneSegmentOf(x);
    OneMoreSegment(x, y);
  }

  /** A stem and a number that make up one segment of an object name. */
  ghost predicate IsSegment(stem: string, digits: string) {
    stem != "" && !IsDigit(stem[|stem| - 1]) && AllDigits(digits) && '.' !in stem
  }

  lemma SegmentParts(stem: string, digits: string)
    requires IsSegment(stem, digits)
    ensures StemOf(stem + digits) == stem && DigitsOf(stem + digits) == digits && '.' !in stem + digits
  {
    StemIsUnique(stem, digits);
    hide Stem;
    assert (stem + digits)[..|stem|] == stem && (stem + digits)[|stem|..] == digits;
    assert !IsDigit('.') && '.' !in digits;
  }

  /** A number without a digit is none. */
  function WordsIf(digits: string, word: string): seq<string> {
    if digits != "" then [word] else []
  }

  lemma PartsOfTwo(x: string, y: string)
    requires StemOf(x) != ""
    ensures ObjectPart([x, y]) == StemOf(x) + "." + StemOf(y)
    ensures ObjectColumns([x, y]) == WordsIf(DigitsOf(x), StemOf(x)) + WordsIf(DigitsOf(y), StemOf(x) + "." + StemOf(y))
    ensures ObjectValues([x, y]) == WordsIf(DigitsOf(x), Number(DigitsOf(x))) + WordsIf(DigitsOf(y), Number(DigitsOf(y)))
  {
    hide Stem, Number;
    assert [x, y][..1] == [x] && [x][..0] == [];
    NumberNonEmpty(DigitsOf(x));
    NumberNonEmpty(DigitsOf(y));
    assert ObjectPart([]) == "" && ObjectColumns([]) == [] && ObjectValues([]) == [];
    assert ObjectPart([x]) == StemOf(x);
    assert ObjectColumns([x]) == WordsIf(DigitsOf(x), StemOf(x));
    assert ObjectValues([x]) == WordsIf(DigitsOf(x), Number(DigitsOf(x)));
  }

  lemma {:induction false} NumberNonEmpty(digits: string)
    ensures Number(digits) == "" <==> digits == ""
    ensures |Number(digits)| <= |digits|
  {
    if |digits| > 1 && digits[0] == '0' { NumberNonEmpty(digits[1..]); }
  }

  lemma PlainStat(statName: string)
    requires '#' !in statName
    ensures !HasNumber(statName) && Base(statName) == statName
  {
    assert FirstIndex(statName, '#') == |statName|;
    hide FirstIndex;
  }

  /** The names of an object with two segments. */
  lemma TwoSegmentNames(upper: string, upperDigits: string, lower: string, lowerDigits: string, statName: string)
    requires IsSegment(upper, upperDigits) && IsSegment(lower, lowerDigits) && '#' !in statName
    ensures var objectName, name := (upper + upperDigits) + "." + (lower + lowerDigits), upper + "." + lower;
      && FullName(objectName, statName) == name + "-" + statName
      && Columns(objectName, statName) == WordsIf(upperDigits, upper) + WordsIf(lowerDigits, name)
      && Values(objectName, statName) == WordsIf(upperDigits, Number(upperDigits)) + WordsIf(lowerDigits, Number(lowerDigits))
  {
    hide Segments, ObjectPart, ObjectColumns, ObjectValues, HasNumber, Base, StemOf, DigitsOf, Number, IsDigit, AllDigits;
    PlainStat(statName);
    SegmentParts(upper, upperDigits);
    SegmentParts(lower, lowerDigits);
    TwoSegments(upper + upperDigits, lower + lowerDigits);
    PartsOfTwo(upper + upperDigits, lower + lowerDigits);
  }

  /** The buffers when one of the segments is numbered. */
  lemma OneNumber(upper: string, upperDigits: string, lower: string, lowerDigits: string, statName: string, column: string, value: string)
    requires IsSegment(upper, upperDigits) && IsSegment(lower, lowerDigits) && '#' !in statName
    requires WordsIf(upperDigits, upper) + WordsIf(lowerDigits, upper + "." + lower) == [column]
    requires WordsIf(upperDigits, Number(upperDigits)) + WordsIf(lowerDigits, Number(lowerDigits)) == [value]
    requires |upper| + |lower| + 1 + |statName| + 1 < SCALAR_NAME_SIZE && |column| < MAX_NAME_SIZE && |value| < MAX_VALUES_SIZE
    ensures Aggregate((upper + upperDigits) + "." + (lower + lowerDigits), statName) == Names(upper + "." + lower + "-" + statName, column, value)
  {
    hide Aggregate, Spaced, Number, Columns, Values, FullName, IsSegment, WordsIf;
    TwoSegmentNames(upper, upperDigits, lower, lowerDigits, statName);
    OneSpaced(column);
    OneSpaced(value);
    AggregateIs((upper + upperDigits) + "." + (lower + lowerDigits), statName);
  }

  /** The number of the upper segment or that of the lower one: the name and the value are the same,
      the columns are not. */
  lemma UpperOrLower(upper: string, lower: string, digits: string, statName: string)
    requires IsSegment(upper, digits) && IsSegment(lower, digits) && digits != "" && '#' !in statName
    requires |upper| + |lower| + |digits| + 1 < MAX_NAME_SIZE && |statName| < MAX_NAME_SIZE
    ensures Aggregate((upper + digits) + "." + (lower + ""), statName) == Names(upper + "." + lower + "-" + statName, upper, Number(digits))
    ensures Aggregate((upper + "") + "." + (lower + digits), statName) == Names(upper + "." + lower + "-" + statName, upper + "." + lower, Number(digits))
  {
    WithoutNumber(upper, digits);
    WithoutNumber(lower, digits);
    OneWord(digits, upper, upper + "." + lower);
    OneWord(digits, upper + "." + lower, upper);
    OneWord(digits, Number(digits), Number(""));
    hide Aggregate, Number, IsSegment, WordsIf;
    NumberNonEmpty(digits);
    OneNumber(upper, digits, lower, "", statName, upper, Number(digits));
    OneNumber(upper, "", lower, digits, statName, upper + "." + lower, Number(digits));
  }

  lemma OneWord(digits: string, word: string, other: string)
    requires digits != ""
    ensures WordsIf(digits, word) + WordsIf("", other) == [word] && WordsIf("", other) + WordsIf(digits, word) == [word]
  {
  }

  lemma WithoutNumber(stem: string, digits: string)
    requires IsSegment(stem, digits)
    ensures IsSegment(stem, "")
  {
  }

  lemma OneSpaced(word: string)
    ensures Spaced([word]) == word
  {
    assert [word][..0] == [] && Spaced([]) == "";
  }

  /** A scalar whose names need no change. */
  lemma PlainScalar(scalar: Scalar)
    requires '[' !in scalar.objectName && ']' !in scalar.objectName && ' ' !in scalar.statName && '/' !in scalar.statName
    ensures ObjectOf(scalar) == scalar.objectName && StatisticOf(scalar, false) == scalar.statName
  {
    NothingWithout(scalar.objectName, '[');
    NothingWithout(scalar.objectName, ']');
    NothingWithout(scalar.statName, ' ');
    assert ReplaceSlashes(scalar.statName) == scalar.statName;
  }

  // ----- Three levels -------------------------------------------------------------------------------------

  /** A part of a name that is used as it is. */
  ghost predicate IsPlain(s: string) {
    '[' !in s && ']' !in s && '.' !in s && '#' !in s && ' ' !in s && '/' !in s
  }

  /** Brackets around an index disappear. */
  lemma Unbracketed(a: string, m: string, rest: string)
    requires IsPlain(a) && IsPlain(m)
    ensures Without(Without(a + "[" + m + "]" + rest, '['), ']') == a + m + Without(Without(rest, '['), ']')
  {
    hide Without;
    var b := a + "[" + m + "]";
    WithoutSplits(b, rest, '[');
    WithoutSplits(a + "[" + m, "]", '[');
    WithoutSplits(a + "[", m, '[');
    WithoutSplits(a, "[", '[');
    NothingWithout(a, '[');
    NothingWithout(m, '[');
    NothingWithout("]", '[');
    OnlyOne('[');
    OnlyOne(']');
    assert Without(b, '[') == a + m + "]";
    WithoutSplits(a + m + "]", Without(rest, '['), ']');
    WithoutSplits(a + m, "]", ']');
    NothingWithout(a + m, ']');
    assert Without(a + m + "]", ']') == a + m;
  }

  lemma OnlyOne(c: char)
    ensures Without([c], c) == ""
  {
    assert [c][1..] == "";
  }

  lemma ThreeSegments(x: string, y: string, z: string)
    requires '.' !in x && '.' !in y && '.' !in z
    ensures Segments(x + "." + y + "." + z) == [x, y, z]
  {
    hide Segments, Dotted;
    TwoSegments(x, y);
    OneMoreSegment(x + "." + y, z);
  }

  lemma {:induction false} FirstHash(name: string, digits: string)
    requires '#' !in name
    ensures FirstIndex(name + "#" + digits, '#') == |name|
  {
    if name != "" {
      assert (name + "#" + digits)[1..] == name[1..] + "#" + digits;
      FirstHash(name[1..], digits);
    }
  }

  lemma NumberedStat(name: string, digits: string)
    requires '#' !in name && AllDigits(digits)
    ensures HasNumber(name + "#" + digits) && Base(name + "#" + digits) == name && StatNumber(name + "#" + digits) == digits
  {
    FirstHash(name, digits);
    assert (name + "#" + digits)[|name| + 1..] == digits && (name + "#" + digits)[..|name|] == name;
    hide FirstIndex;
  }

  lemma ThreeParts(x: string, y: string, z: string)
    requires StemOf(x) != "" && IsNumbered(x) && IsNumbered(y) && !IsNumbered(z)
    ensures ObjectPart([x, y, z]) == StemOf(x) + "." + StemOf(y) + "." + StemOf(z)
    ensures ObjectColumns([x, y, z]) == [StemOf(x), StemOf(x) + "." + StemOf(y)]
    ensures ObjectValues([x, y, z]) == [Number(DigitsOf(x)), Number(DigitsOf(y))]
  {
    PartsOfTwo(x, y);
    assert [x, y, z][..2] == [x, y];
    hide Stem, Number;
  }

  lemma ThreeSpaced(a: string, b: string, c: string)
    requires a != ""
    ensures Spaced([a, b, c]) == a + " " + b + " " + c
  {
    assert [a, b, c][..2] == [a, b] && [a, b][..1] == [a];
    OneSpaced(a);
  }

  /** An object with two indices and a statistic with one, as in the program's comment on the names,
      where the object is tsb[0].nameServerArray[0].poolElement and the statistic Value#1. */
  lemma ThreeLevels(scalar: Scalar, a: string, m: string, b: string, n: string, c: string, d: string, k: string)
    requires IsSegment(a, m) && IsSegment(b, n) && IsSegment(c, "") && m != "" && n != "" && d != "" && k != "" && AllDigits(k)
    requires IsPlain(a) && IsPlain(b) && IsPlain(c) && IsPlain(d) && |a| + |b| + |c| + |d| < 80 && |m| + |n| + |k| < 80
    requires scalar.objectName == a + "[" + m + "]" + ("." + b + "[" + n + "]" + ("." + c)) && scalar.statName == d + "#" + k
    ensures NamesOf(scalar, false) ==
      Names(a + "." + b + "." + c + "-" + d, a + " " + (a + "." + b) + " " + d, Number(m) + " " + Number(n) + " " + k)
  {
    var x, y, z := a + m, b + n, c + "";
    var objectName := x + "." + y + "." + z;
    PlainNumbers(m, n, k);
    ThreeObjects(scalar, a, m, b, n, c, d, k);
    SegmentParts(a, m);
    SegmentParts(b, n);
    SegmentParts(c, "");
    NumberNonEmpty(m);
    NumberNonEmpty(n);
    hide Segments, ObjectPart, ObjectColumns, ObjectValues, HasNumber, Base, StatNumber, StemOf, DigitsOf, Number, Spaced, Aggregate,
         ObjectOf, StatisticOf, IsSegment, IsPlain, Stem, LastIndex, FirstIndex, AllDigits, IsDigit;
    ThreeSegments(x, y, z);
    ThreeParts(x, y, z);
    NumberedStat(d, k);
    assert Columns(objectName, d + "#" + k) == [a, a + "." + b, d];
    assert Values(objectName, d + "#" + k) == [Number(m), Number(n), k];
    ThreeSpaced(a, a + "." + b, d);
    ThreeSpaced(Number(m), Number(n), k);
    AggregateIs(objectName, d + "#" + k);
  }

  lemma PlainNumbers(m: string, n: string, k: string)
    requires AllDigits(m) && AllDigits(n) && AllDigits(k)
    ensures IsPlain(m) && IsPlain(n) && IsPlain(k)
  {
    assert !IsDigit('[') && !IsDigit(']') && !IsDigit('.') && !IsDigit('#') && !IsDigit(' ') && !IsDigit('/');
  }

  /** The names without brackets. */
  lemma ThreeObjects(scalar: Scalar, a: string, m: string, b: string, n: string, c: string, d: string, k: string)
    requires IsPlain(a) && IsPlain(b) && IsPlain(c) && IsPlain(d) && IsPlain(m) && IsPlain(n) && IsPlain(k)
    requires scalar.objectName == a + "[" + m + "]" + ("." + b + "[" + n + "]" + ("." + c)) && scalar.statName == d + "#" + k
    ensures ObjectOf(scalar) == (a + m) + "." + (b + n) + "." + (c + "") && StatisticOf(scalar, false) == d + "#" + k
  {
    var last, tail := "." + c, "." + b + "[" + n + "]" + ("." + c);
    hide Without;
    Unbracketed(a, m, tail);
    DottedUnbracketed(b, n, last);
    NothingWithout(last, '[');
    NothingWithout(last, ']');
    assert ObjectOf(scalar) == a + m + ("." + b + n + ("." + c));
    NothingWithout(d + "#" + k, ' ');
    assert ReplaceSlashes(d + "#" + k) == d + "#" + k;
  }

  lemma DottedUnbracketed(b: string, n: string, rest: string)
    requires IsPlain(b) && IsPlain(n)
    ensures Without(Without("." + b + "[" + n + "]" + rest, '['), ']') == "." + b + n + Without(Without(rest, '['), ']')
  {
    hide Without;
    assert "." + b + "[" + n + "]" + rest == "." + (b + "[" + n + "]" + rest);
    WithoutSplits(".", b + "[" + n + "]" + rest, '[');
    NothingWithout(".", '[');
    WithoutSplits(".", Without(b + "[" + n + "]" + rest, '['), ']');
    NothingWithout(".", ']');
    Unbracketed(b, n, rest);
  }

  /** Two objects, of which only one is numbered. */
  const NUMBERED: Scalar := Scalar("tsb0", "v", "", 0, 1.0)
  const PLAIN: Scalar := Scalar("tsb", "v", "", 0, 2.0)

  lemma PlainReading(scalar: Scalar)
    requires '[' !in scalar.objectName && ']' !in scalar.objectName && ' ' !in scalar.statName && '/' !in scalar.statName
    ensures var n := Aggregate(scalar.objectName, scalar.statName);
      ReadingOf(scalar, false) == Reading(ScalarKey(n.scalarName, "", n.aggValues, scalar.varValues, scalar.run), n.aggNames, scalar.value)
  {
    PlainScalar(scalar);
    hide Aggregate, ObjectOf, StatisticOf, SplitStatistic;
  }

  lemma Literals()
    ensures "tsb" + "0" == "tsb0" && "tsb" + "" == "tsb" && "tsb" + "-" + "v" == "tsb-v" && Number("0") == "0"
    ensures ("tsb" + "0") + "." + ("x" + "") == "tsb0.x" && ("tsb" + "") + "." + ("x" + "0") == "tsb.x0"
    ensures "tsb" + "." + "x" == "tsb.x" && "tsb.x" + "-" + "v" == "tsb.x-v"
    ensures IsSegment("tsb", "0") && IsSegment("x", "0") && IsSegment("tsb", "")
  {
  }

  lemma TheirReadings()
    ensures ReadingOf(NUMBERED, false) == Reading(ScalarKey("tsb-v", "", "0", "", 0), "tsb", 1.0)
    ensures ReadingOf(PLAIN, false) == Reading(ScalarKey("tsb-v", "", "", "", 0), "", 2.0)
  {
    Literals();
    hide Aggregate, ReadingOf, Number;
    PlainReading(NUMBERED);
    PlainReading(PLAIN);
    ColumnsDiffer("tsb", "0", "v");
    ColumnsDiffer("tsb", "", "v");
  }

  /** Two records of one scalar name with different columns, the later one with the smaller key. */
  lemma TwoColumns(r: Reading, q: Reading)
    requires CompareKeys(q.key, r.key) < 0 && r.key.scalarName == q.key.scalarName != "" && r.aggNames != q.aggNames
    ensures var items := [Item(q.key, q.aggNames, [q.value]), Item(r.key, r.aggNames, [r.value])];
      && Tells(items, [r, q]) && RowColumns(items, [r, q], r.key.scalarName) == [q.aggNames, r.aggNames]
      && DumpFiles(items, "") == [File(r.key.scalarName, q.aggNames, "", [RowOf(items[0], 0), RowOf(items[1], 0)])]
      && !FilesRight(DumpFiles(items, ""), items, [r, q])
  {
    var a, b := Item(q.key, q.aggNames, [q.value]), Item(r.key, r.aggNames, [r.value]);
    hide CompareKeys, Tells, DumpFiles, RowColumns, ColumnsFor;
    TwoReadings(r, q);
    TwoItems(a, b, "");
    TwoTold(a, b, r, q);
    TwoRowColumns(a, b, [r, q]);
    assert RowColumns([a, b], [r, q], r.key.scalarName)[1] == r.aggNames && DumpFiles([a, b], "")[0].aggNames == q.aggNames;
  }

  /** A file with a row under a foreign header: the object without a number comes first and has no
      column, but the other one has a value in one. */
  lemma ForeignHeader()
    ensures var r, q := ReadingOf(NUMBERED, false), ReadingOf(PLAIN, false);
      var items := Added(Added([], 0, true, r.key, r.aggNames, r.value), 0, true, q.key, q.aggNames, q.value);
      && Tells(items, [r, q])
      && DumpFiles(items, "") == [File("tsb-v", "", "", [Row(0, 1, "", "", "", 2.0), Row(0, 1, "", "0", "", 1.0)])]
      && RowColumns(items, [r, q], "tsb-v") == ["", "tsb"] && !FilesRight(DumpFiles(items, ""), items, [r, q])
  {
    hide *;
    TheirReadings();
    NumberedIsLater();
    var r, q := ReadingOf(NUMBERED, false), ReadingOf(PLAIN, false);
    TwoColumns(r, q);
    AddedInFront(r, q);
    RowOfReading(r);
    RowOfReading(q);
  }

  lemma NumberedIsLater()
    ensures CompareKeys(ScalarKey("tsb-v", "", "", "", 0), ScalarKey("tsb-v", "", "0", "", 0)) < 0
  {
  }

  lemma AddedInFront(r: Reading, q: Reading)
    ensures Added(Added([], 0, true, r.key, r.aggNames, r.value), 0, true, q.key, q.aggNames, q.value)
         == [Item(q.key, q.aggNames, [q.value]), Item(r.key, r.aggNames, [r.value])]
  {
  }

  lemma RowOfReading(r: Reading)
    ensures RowOf(Item(r.key, r.aggNames, [r.value]), 0) == Row(r.key.run, 1, r.key.splitName, r.key.aggValues, r.key.varValues, r.value)
  {
  }

  lemma TwoRowColumns(a: Item, b: Item, records: seq<Reading>)
    requires a.key.scalarName == b.key.scalarName
    ensures RowColumns([a, b], records, a.key.scalarName) == ColumnsFor(records, a.key) + ColumnsFor(records, b.key)
  {
    hide ColumnsFor;
    assert [a, b][..1] == [a] && [a][..0] == [];
    assert RowColumns([a], records, a.key.scalarName) == [] + ColumnsFor(records, a.key);
  }

  lemma TwoReadings(r: Reading, q: Reading)
    requires r.key != q.key
    ensures ColumnsFor([r, q], r.key) == [r.aggNames] && ColumnsFor([r, q], q.key) == [q.aggNames]
    ensures ValuesOf([r, q], r.key) == [r.value] && ValuesOf([r, q], q.key) == [q.value]
    ensures forall k | k != r.key && k != q.key :: ColumnsFor([r, q], k) == [] && ValuesOf([r, q], k) == []
  {
    assert [r, q][..1] == [r] && [r][..0] == [];
    forall k ensures ColumnsFor([r, q], k) == (if r.key == k then [r.aggNames] else []) + (if q.key == k then [q.aggNames] else [])
      ensures ValuesOf([r, q], k) == (if r.key == k then [r.value] else []) + (if q.key == k then [q.value] else [])
    {
      assert ColumnsFor([], k) == [] && ValuesOf([], k) == [];
      assert ColumnsFor([r], k) == if r.key == k then [r.aggNames] else [];
      assert ValuesOf([r], k) == if r.key == k then [r.value] else [];
    }
  }

  lemma TwoTold(a: Item, b: Item, r: Reading, q: Reading)
    requires CompareKeys(a.key, b.key) < 0 && a == Item(q.key, q.aggNames, [q.value]) && b == Item(r.key, r.aggNames, [r.value])
    requires a.key.scalarName != "" && b.key.scalarName != ""
    ensures Tells([a, b], [r, q])
  {
    hide CompareKeys, Lookup, HeaderOf, ValuesOf, ColumnsFor;
    TwoReadings(r, q);
    forall k
      ensures Lookup([a, b], k) == if k == a.key then a.values else if k == b.key then b.values else []
      ensures HeaderOf([a, b], k) == if k == a.key then [a.aggNames] else if k == b.key then [b.aggNames] else []
    {
      if k == a.key { EntryAt([a, b], 0); } else if k == b.key { EntryAt([a, b], 1); } else { NoEntry([a, b], k); }
    }
  }

  lemma TwoItems(a: Item, b: Item, varNames: string)
    requires a.key.scalarName == b.key.scalarName != "" && |a.values| == |b.values| == 1
    ensures DumpFiles([a, b], varNames) == [File(a.key.scalarName, a.aggNames, varNames, [RowOf(a, 0), RowOf(b, 0)])]
  {
    var file := File(a.key.scalarName, a.aggNames, varNames, [RowOf(a, 0)]);
    assert ItemRows(a, 1) == [RowOf(a, 0)] && ItemRows(b, 1) == [RowOf(b, 0)];
    assert DumpFiles([], varNames) == [] && LastName([]) == "" && LastName([a]) == a.key.scalarName;
    DumpStep([], a, varNames);
    assert [] + [a] == [a] && [] + [RowOf(a, 0)] == [RowOf(a, 0)];
    WithRowsAtLast([], file.(rows := []), [RowOf(a, 0)]);
    assert DumpFiles([a], varNames) == [] + [file];
    DumpStep([a], b, varNames);
    assert [a] + [b] == [a, b] && [RowOf(a, 0)] + [RowOf(b, 0)] == [RowOf(a, 0), RowOf(b, 0)];
    WithRowsAtLast([], file, [RowOf(b, 0)]);
    hide DumpFiles, WithRows, ItemRows;
    assert [] + [file] == [file];
  }

  /** Two objects that are numbered at different positions. */
  const UPPER: Scalar := Scalar("tsb0.x", "v", "", 0, 1.0)
  const LOWER: Scalar := Scalar("tsb.x0", "v", "", 0, 2.0)

  lemma MergedReadings()
    ensures ReadingOf(UPPER, false) == Reading(ScalarKey("tsb.x-v", "", "0", "", 0), "tsb", 1.0)
    ensures ReadingOf(LOWER, false) == Reading(ScalarKey("tsb.x-v", "", "0", "", 0), "tsb.x", 2.0)
  {
    Literals();
    hide Aggregate, ReadingOf, Number;
    PlainReading(UPPER);
    PlainReading(LOWER);
    UpperOrLower("tsb", "x", "0", "v");
  }

  /** An entry with values of two different objects: they have the same key, and the second value
      is collected under the columns of the first one. */
  lemma MergedEntry()
    ensures var r, q := ReadingOf(UPPER, false), ReadingOf(LOWER, false);
      && r.key == q.key == ScalarKey("tsb.x-v", "", "0", "", 0) && r.aggNames == "tsb" && q.aggNames == "tsb.x"
      && var items := Added(Added([], 0, true, r.key, r.aggNames, r.value), 0, false, q.key, q.aggNames, q.value);
      && items == [Item(r.key, "tsb", [1.0, 2.0])] && Tells(items, [r, q])
      && ColumnsFor([r, q], r.key) == ["tsb", "tsb.x"] && !EntriesRight(items, [r, q])
  {
    MergedReadings();
    var r, q := ReadingOf(UPPER, false), ReadingOf(LOWER, false);
    hide ReadingOf;
    var item := Item(r.key, "tsb", [1.0, 2.0]);
    assert Added([], 0, true, r.key, r.aggNames, r.value) == [Item(r.key, "tsb", [1.0])] && [1.0] + [2.0] == [1.0, 2.0];
    assert Added([Item(r.key, "tsb", [1.0])], 0, false, q.key, q.aggNames, q.value) == [item];
    OneTold(item, r, q);
    assert ColumnsFor([r, q], r.key)[1] == "tsb.x" != item.aggNames;
  }

  lemma OneKey(r: Reading, q: Reading, k: ScalarKey)
    requires r.key == q.key
    ensures ValuesOf([r, q], k) == if k == r.key then [r.value, q.value] else []
    ensures ColumnsFor([r, q], k) == if k == r.key then [r.aggNames, q.aggNames] else []
  {
    assert [r, q][..1] == [r] && [r][..0] == [];
    assert ColumnsFor([], k) == [] && ValuesOf([], k) == [];
    assert ColumnsFor([r], k) == if r.key == k then [r.aggNames] else [];
    assert ValuesOf([r], k) == if r.key == k then [r.value] else [];
  }

  lemma OneTold(item: Item, r: Reading, q: Reading)
    requires r.key == q.key && item == Item(r.key, r.aggNames, [r.value, q.value]) && item.key.scalarName != ""
    ensures Tells([item], [r, q]) && ColumnsFor([r, q], r.key) == [r.aggNames, q.aggNames]
  {
    hide Lookup, HeaderOf, ValuesOf, ColumnsFor;
    forall k
      ensures ValuesOf([r, q], k) == if k == r.key then [r.value, q.value] else []
      ensures ColumnsFor([r, q], k) == if k == r.key then [r.aggNames, q.aggNames] else []
      ensures Lookup([item], k) == (if k == r.key then item.values else []) && HeaderOf([item], k) == if k == r.key then [r.aggNames] else []
    {
      OneKey(r, q, k);
      if k == r.key { EntryAt([item], 0); } else { NoEntry([item], k); }
    }
  }
}
