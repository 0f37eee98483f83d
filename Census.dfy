/**
 The aggregation in the program's entry point: the LINQ pipeline that turns the
 assemblies into the class and interface lists, the raw property and method
 name lists, their per-name counts, and the four reports.
 */
module Census {
  import opened Metadata
  import opened Strings
  import opened Linq
  import opened Enumerators
  import opened Grouping

  // ---------------------------------------------------------------- type lists

  /** `SelectMany` of a type enumerator over the assemblies, in assembly order. */
  function SelectAll(assemblies: seq<Assembly>, category: Category): seq<TypeEntry>
  {
    if assemblies == [] then [] else Selected(assemblies[0], category) + SelectAll(assemblies[1..], category)
  }

  /** A pair is gathered exactly when some assembly's enumerator yields it. */
  lemma {:induction false} SelectAllMembership(assemblies: seq<Assembly>, category: Category, e: TypeEntry)
    ensures e in SelectAll(assemblies, category) <==> exists a :: a in assemblies && e in Selected(a, category)
    decreases |assemblies|
  {
    if assemblies != [] {
      SelectAllMembership(assemblies[1..], category, e);
      assert forall a :: a in assemblies <==> a == assemblies[0] || a in assemblies[1..];
    }
  }

  /** The `(type, name)` keys of a list of pairs, position by position. */
  function Keys(s: seq<TypeEntry>): seq<(int, string)>
  {
    seq(|s|, i requires 0 <= i < |s| => Key(s[i]))
  }

  /** Where the key of `e` first occurs in `s`. */
  function FirstKeyIndex(s: seq<TypeEntry>, e: TypeEntry): nat
  {
    IndexOf(Keys(s), Key(e))
  }

  /** `Distinct()`: the first pair of each `(type, name)` key, in the order of first occurrence. */
  function Distinct(s: seq<TypeEntry>): seq<TypeEntry>
  {
    if s == [] then []
    else
      var d := Distinct(s[..|s| - 1]);
      var e := s[|s| - 1];
      if Key(e) in Keys(d) then d else d + [e]
  }

  /**
   `d` is the distinct pairs of `s`: each is the first pair of `s` with its key,
   they come in the order of those first occurrences, and every key of `s` is there.
   */
  ghost predicate FirstOccurrences(d: seq<TypeEntry>, s: seq<TypeEntry>)
  {
    && (forall i :: 0 <= i < |d| ==> FirstKeyIndex(s, d[i]) < |s| && s[FirstKeyIndex(s, d[i])] == d[i])
    && (forall i, j :: 0 <= i < j < |d| ==> FirstKeyIndex(s, d[i]) < FirstKeyIndex(s, d[j]))
    && (forall e :: e in s ==> Key(e) in Keys(d))
  }

  /** Appending a pair does not move the first occurrence of a key already present. */
  lemma FirstKeyIndexAppend(s: seq<TypeEntry>, e: TypeEntry, x: TypeEntry)
    requires Key(x) in Keys(s)
    ensures FirstKeyIndex(s + [e], x) == FirstKeyIndex(s, x)
  {
    assert Keys(s + [e]) == Keys(s) + [Key(e)];
    IndexOfAppend(Keys(s), Key(e), Key(x));
  }

  /** The distinct pairs of `s` carry exactly the keys of `s`. */
  lemma FirstOccurrencesKeys(d: seq<TypeEntry>, s: seq<TypeEntry>, k: (int, string))
    requires FirstOccurrences(d, s)
    ensures k in Keys(d) <==> k in Keys(s)
  {
    if k in Keys(d) {
      var i :| 0 <= i < |d| && Keys(d)[i] == k;
      assert Keys(s)[FirstKeyIndex(s, d[i])] == k;
    }
    if k in Keys(s) {
      var p :| 0 <= p < |s| && Keys(s)[p] == k;
      assert s[p] in s;
    }
  }

  /** A pair whose key was already seen is dropped. */
  lemma FirstOccurrencesSkip(d: seq<TypeEntry>, s: seq<TypeEntry>, e: TypeEntry)
    requires FirstOccurrences(d, s)
    requires Key(e) in Keys(d)
    ensures FirstOccurrences(d, s + [e])
  {
    forall i | 0 <= i < |d|
      ensures FirstKeyIndex(s + [e], d[i]) == FirstKeyIndex(s, d[i])
    {
      FirstOccurrencesKeys(d, s, Key(d[i]));
      FirstKeyIndexAppend(s, e, d[i]);
    }
  }

  /** A pair with a new key is kept, after all the pairs kept before it. */
  lemma FirstOccurrencesAdd(d: seq<TypeEntry>, s: seq<TypeEntry>, e: TypeEntry)
    requires FirstOccurrences(d, s)
    requires Key(e) !in Keys(d)
    ensures FirstOccurrences(d + [e], s + [e])
  {
    forall i | 0 <= i < |d|
      ensures FirstKeyIndex(s + [e], d[i]) == FirstKeyIndex(s, d[i])
    {
      FirstOccurrencesKeys(d, s, Key(d[i]));
      FirstKeyIndexAppend(s, e, d[i]);
    }
    FirstOccurrencesKeys(d, s, Key(e));
    assert Keys(s + [e]) == Keys(s) + [Key(e)];
    IndexOfAppend(Keys(s), Key(e), Key(e));
    assert Keys(d + [e]) == Keys(d) + [Key(e)];
  }

  lemma {:induction false} DistinctFirstOccurrences(s: seq<TypeEntry>)
    ensures FirstOccurrences(Distinct(s), s)
    decreases |s|
  {
    if s != [] {
      var init, e := s[..|s| - 1], s[|s| - 1];
      DistinctFirstOccurrences(init);
      assert s == init + [e];
      if Key(e) in Keys(Distinct(init)) {
        FirstOccurrencesSkip(Distinct(init), init, e);
      } else {
        FirstOccurrencesAdd(Distinct(init), init, e);
      }
    }
  }

  /** No two pairs of `Distinct(s)` share a key. */
  lemma DistinctKeysUnique(s: seq<TypeEntry>)
    ensures forall i, j :: 0 <= i < j < |Distinct(s)| ==> Key(Distinct(s)[i]) != Key(Distinct(s)[j])
    ensures NoDuplicates(Distinct(s))
  {
    DistinctFirstOccurrences(s);
  }

  /** The comparison of `OrderBy(x => x.name)`: ordinal order on the names. */
  predicate ByName(a: TypeEntry, b: TypeEntry)
  {
    OrdinalLess(a.name, b.name)
  }

  lemma ByNameIsStrictWeakOrder()
    ensures StrictWeakOrder(ByName)
  {
    forall a: TypeEntry
      ensures !ByName(a, a)
    {
      OrdinalLessIrreflexive(a.name);
    }
    forall a: TypeEntry, b: TypeEntry, c: TypeEntry | ByName(a, b) && ByName(b, c)
      ensures ByName(a, c)
    {
      OrdinalLessTransitive(a.name, b.name, c.name);
    }
    forall a: TypeEntry, b: TypeEntry, c: TypeEntry | !ByName(a, b) && !ByName(b, c)
      ensures !ByName(a, c)
    {
      OrdinalNotLessTransitive(a.name, b.name, c.name);
    }
  }

  /** Two pairs compare equal under `ByName` exactly when their names are equal. */
  lemma ByNameTied(a: TypeEntry, b: TypeEntry)
    ensures Tied(ByName, a, b) <==> a.name == b.name
  {
    OrdinalLessTotal(a.name, b.name);
    OrdinalLessIrreflexive(a.name);
  }

  /** All pairs the type enumerator yields over the scanned assemblies, before `Distinct`. */
  function Gathered(files: seq<FileEntry>, category: Category): seq<TypeEntry>
  {
    SelectAll(LoadedAssemblies(files), category)
  }

  /** `classes` (category `Classes`) or `interfaces` (category `Interfaces`) of the entry point. */
  function TypeList(files: seq<FileEntry>, category: Category): seq<TypeEntry>
  {
    OrderBy(Distinct(Gathered(files, category)), ByName)
  }

  /** No `(type, name)` pair is listed twice; two different types of the same name both are. */
  lemma TypeListKeysUnique(files: seq<FileEntry>, category: Category)
    ensures forall i, j :: 0 <= i < j < |TypeList(files, category)| ==>
              Key(TypeList(files, category)[i]) != Key(TypeList(files, category)[j])
  {
    var d := Distinct(Gathered(files, category));
    var list := TypeList(files, category);
    DistinctKeysUnique(Gathered(files, category));
    OrderByNoDuplicates(d, ByName);
    OrderByPermutation(d, ByName);
    forall i, j | 0 <= i < j < |list|
      ensures Key(list[i]) != Key(list[j])
    {
      assert list[i] in multiset(d) && list[j] in multiset(d);
      var p, q := IndexOf(d, list[i]), IndexOf(d, list[j]);
      assert p != q;
      if p < q {
        assert Key(d[p]) != Key(d[q]);
      } else {
        assert Key(d[q]) != Key(d[p]);
      }
    }
  }

  /** A gathered pair's key survives `Distinct` and the sort. */
  lemma GatheredKeyListed(files: seq<FileEntry>, category: Category, e: TypeEntry)
    requires e in Gathered(files, category)
    ensures Key(e) in Keys(TypeList(files, category))
  {
    var d := Distinct(Gathered(files, category));
    var list := TypeList(files, category);
    DistinctFirstOccurrences(Gathered(files, category));
    OrderByPermutation(d, ByName);
    var keys := Keys(d);
    assert Key(e) in keys;
    var i :| 0 <= i < |keys| && keys[i] == Key(e);
    assert Key(d[i]) == Key(e);
    assert d[i] in multiset(list);
    var j :| 0 <= j < |list| && list[j] == d[i];
    assert Keys(list)[j] == Key(e);
  }

  /** A listed pair was gathered: a public type of the category, under its own name. */
  lemma ListedWasGathered(files: seq<FileEntry>, category: Category, e: TypeEntry)
    requires e in TypeList(files, category)
    ensures e in Gathered(files, category) && Valid(e.ty, category) && e.name == e.ty.name
  {
    var g := Gathered(files, category);
    var d := Distinct(g);
    DistinctFirstOccurrences(g);
    OrderByPermutation(d, ByName);
    assert e in multiset(d);
    var i :| 0 <= i < |d| && d[i] == e;
    assert g[FirstKeyIndex(g, d[i])] == e;
    SelectAllMembership(LoadedAssemblies(files), category, e);
    var a :| a in LoadedAssemblies(files) && e in Selected(a, category);
    SelectedMembership(a, category, e);
  }

  /**
   Every pair any scanned assembly yields has its `(type, name)` key in the list,
   and every listed pair was yielded: a public type of the category, under its own name.
   */
  lemma TypeListMembership(files: seq<FileEntry>, category: Category, e: TypeEntry)
    ensures e in Gathered(files, category) ==> Key(e) in Keys(TypeList(files, category))
    ensures e in TypeList(files, category) ==>
              && e in Gathered(files, category)
              && Valid(e.ty, category)
              && e.name == e.ty.name
  {
    if e in Gathered(files, category) {
      GatheredKeyListed(files, category, e);
    }
    if e in TypeList(files, category) {
      ListedWasGathered(files, category, e);
    }
  }

  /** Names never decrease down the list. */
  lemma TypeListSorted(files: seq<FileEntry>, category: Category)
    ensures forall i, j :: 0 <= i < j < |TypeList(files, category)| ==>
              !OrdinalLess(TypeList(files, category)[j].name, TypeList(files, category)[i].name)
  {
    ByNameIsStrictWeakOrder();
    OrderBySorted(Distinct(Gathered(files, category)), ByName);
  }

  /**
   Pairs of equal name keep the order in which their keys first occurred in the
   gathered sequence (`Distinct` keeps first occurrences, `OrderBy` is stable).
   */
  lemma TypeListStable(files: seq<FileEntry>, category: Category)
    ensures forall i, j :: 0 <= i < j < |TypeList(files, category)| ==>
              (TypeList(files, category)[i].name == TypeList(files, category)[j].name ==>
                 FirstKeyIndex(Gathered(files, category), TypeList(files, category)[i]) <
                 FirstKeyIndex(Gathered(files, category), TypeList(files, category)[j]))
  {
    var g := Gathered(files, category);
    var d := Distinct(g);
    var list := TypeList(files, category);
    DistinctFirstOccurrences(g);
    DistinctKeysUnique(g);
    OrderByPermutation(d, ByName);
    OrderByStable(d, ByName);
    forall i, j | 0 <= i < j < |list| && list[i].name == list[j].name
      ensures FirstKeyIndex(g, list[i]) < FirstKeyIndex(g, list[j])
    {
      ByNameTied(list[i], list[j]);
      assert list[i] in multiset(d) && list[j] in multiset(d);
      var p, q := IndexOf(d, list[i]), IndexOf(d, list[j]);
      assert p < q;
      assert FirstKeyIndex(g, d[p]) < FirstKeyIndex(g, d[q]);
    }
  }

  // ---------------------------------------------------------------- member names

  /** `SelectMany(x => enumerateProperties(x.type))`: every listed type's property names, list order. */
  function PropertyNamesOf(list: seq<TypeEntry>): seq<string>
  {
    if list == [] then [] else list[0].ty.properties + PropertyNamesOf(list[1..])
  }

  /** `SelectMany(x => enumerateMethods(x.type))`: every listed type's non-special method names. */
  function MethodNamesOf(list: seq<TypeEntry>): seq<string>
  {
    if list == [] then [] else NonSpecialNames(list[0].ty.methods) + MethodNamesOf(list[1..])
  }

  /** `properties`: the names from the classes, followed by those from the interfaces. */
  function RawProperties(files: seq<FileEntry>): seq<string>
  {
    PropertyNamesOf(TypeList(files, Classes)) + PropertyNamesOf(TypeList(files, Interfaces))
  }

  /** `methods`: the names from the classes, followed by those from the interfaces. */
  function RawMethods(files: seq<FileEntry>): seq<string>
  {
    MethodNamesOf(TypeList(files, Classes)) + MethodNamesOf(TypeList(files, Interfaces))
  }

  /** A name is collected exactly when some listed type declares a property of that name. */
  lemma {:induction false} PropertyNamesOfMembership(list: seq<TypeEntry>, n: string)
    ensures n in PropertyNamesOf(list) <==> exists e :: e in list && n in e.ty.properties
    decreases |list|
  {
    if list != [] {
      PropertyNamesOfMembership(list[1..], n);
      assert forall e :: e in list <==> e == list[0] || e in list[1..];
    }
  }

  /** A name is collected exactly when some listed type has a non-special method of that name. */
  lemma {:induction false} MethodNamesOfMembership(list: seq<TypeEntry>, n: string)
    ensures n in MethodNamesOf(list) <==>
              exists e, m :: e in list && m in e.ty.methods && !m.isSpecialName && m.name == n
    decreases |list|
  {
    if list != [] {
      MethodNamesOfMembership(list[1..], n);
      NonSpecialNamesMembership(list[0].ty.methods, n);
      assert forall e :: e in list <==> e == list[0] || e in list[1..];
    }
  }

  /** Flattening distributes over concatenation: each type contributes its names in list order. */
  lemma {:induction false} PropertyNamesOfAppend(a: seq<TypeEntry>, b: seq<TypeEntry>)
    ensures PropertyNamesOf(a + b) == PropertyNamesOf(a) + PropertyNamesOf(b)
    decreases |a|
  {
    if a == [] {
      assert a + b == b;
    } else {
      assert (a + b)[1..] == a[1..] + b;
      PropertyNamesOfAppend(a[1..], b);
    }
  }

  lemma {:induction false} MethodNamesOfAppend(a: seq<TypeEntry>, b: seq<TypeEntry>)
    ensures MethodNamesOf(a + b) == MethodNamesOf(a) + MethodNamesOf(b)
    decreases |a|
  {
    if a == [] {
      assert a + b == b;
    } else {
      assert (a + b)[1..] == a[1..] + b;
      MethodNamesOfAppend(a[1..], b);
    }
  }

  // ---------------------------------------------------------------- reports

  /** A line of the property or method report: `$"{key}: {count}"`. */
  function CountLine(g: Group): string
  {
    g.key + ": " + Decimal(g.count)
  }

  /** Position of the last `:` of `s`, if any. */
  function LastColon(s: string): Option<nat>
  {
    if s == [] then None
    else if s[|s| - 1] == ':' then Some(|s| - 1)
    else LastColon(s[..|s| - 1])
  }

  /** Reads a report line back: the key runs up to the last `:`, then `" "` and the digits of the count. */
  function ParseCountLine(line: string): Option<Group>
  {
    match LastColon(line)
    case None => None
    case Some(p) =>
      if p < |line| && line[p + 1..] != [] && line[p + 1] == ' ' && line[p + 2..] != [] &&
         (forall i :: p + 2 <= i < |line| ==> IsDigit(line[i]))
      then Some(Group(line[..p], ParseDecimal(line[p + 2..])))
      else None
  }

  /** Text without a colon appended after `s` leaves the last colon where it was. */
  lemma {:induction false} LastColonSkips(s: string, tail: string)
    requires forall i :: 0 <= i < |tail| ==> tail[i] != ':'
    ensures LastColon(s + tail) == LastColon(s)
    decreases |tail|
  {
    if tail == [] {
      assert s + tail == s;
    } else {
      var t' := tail[..|tail| - 1];
      assert (s + tail)[..|s + tail| - 1] == s + t';
      LastColonSkips(s, t');
    }
  }

  /** A report line gives back exactly its entry: the key, whatever it contains, and the count. */
  lemma CountLineRoundTrip(g: Group)
    ensures ParseCountLine(CountLine(g)) == Some(g)
  {
    var digits := Decimal(g.count);
    var line := CountLine(g);
    var p := |g.key|;
    assert line == (g.key + ":") + (" " + digits);
    LastColonSkips(g.key + ":", " " + digits);
    assert (g.key + ":")[..p] == g.key;
    assert LastColon(g.key + ":") == Some(p);
    assert line[..p] == g.key && line[p + 2..] == digits;
    DecimalRoundTrip(g.count);
  }

  /** What the entry point leaves behind: the six console counts and the four report files' lines. */
  datatype Report = Report(
    classCount: nat,
    interfaceCount: nat,
    propertyCount: nat,
    methodCount: nat,
    aggregatedPropertyCount: nat,
    aggregatedMethodCount: nat,
    classLines: seq<string>,
    interfaceLines: seq<string>,
    propertyLines: seq<string>,
    methodLines: seq<string>)

  /** `list.Select(x => x.name)`. */
  function NameLines(list: seq<TypeEntry>): seq<string>
  {
    seq(|list|, i requires 0 <= i < |list| => list[i].name)
  }

  /** `aggregated.Select(x => $"{x.key}: {x.count}")`. */
  function CountLines(groups: seq<Group>): seq<string>
  {
    seq(|groups|, i requires 0 <= i < |groups| => CountLine(groups[i]))
  }

  /** The whole run over one directory listing. */
  function Run(files: seq<FileEntry>): Report
  {
    var classes := TypeList(files, Classes);
    var interfaces := TypeList(files, Interfaces);
    var properties := RawProperties(files);
    var methods := RawMethods(files);
    var aggregatedProperties := Aggregate(properties);
    var aggregatedMethods := Aggregate(methods);
    Report(
      |classes|, |interfaces|, |properties|, |methods|,
      |aggregatedProperties|, |aggregatedMethods|,
      NameLines(classes), NameLines(interfaces),
      CountLines(aggregatedProperties), CountLines(aggregatedMethods))
  }

  /** A count report as read back: each line's name with its number of occurrences in `names`. */
  ghost predicate CountReport(lines: seq<string>, names: seq<string>)
  {
    && |lines| <= |names|
    && (forall i :: 0 <= i < |lines| ==>
          ParseCountLine(lines[i]).Some? &&
          ParseCountLine(lines[i]).value.key in names &&
          ParseCountLine(lines[i]).value.count == multiset(names)[ParseCountLine(lines[i]).value.key])
    && (forall x :: x in names ==> exists i :: 0 <= i < |lines| && ParseCountLine(lines[i]).value.key == x)
    && (forall i, j :: 0 <= i < j < |lines| ==> ParseCountLine(lines[i]).value.count >= ParseCountLine(lines[j]).value.count)
    && (forall i, j :: 0 <= i < j < |lines| ==> ParseCountLine(lines[i]).value.key != ParseCountLine(lines[j]).value.key)
  }

  /**
   The property and method reports list every collected name once, with its
   number of occurrences, largest first; the console counts match the lists.
   */
  lemma RunReports(files: seq<FileEntry>)
    ensures Run(files).propertyCount == |RawProperties(files)|
    ensures Run(files).methodCount == |RawMethods(files)|
    ensures Run(files).aggregatedPropertyCount == |Run(files).propertyLines| <= Run(files).propertyCount
    ensures Run(files).aggregatedMethodCount == |Run(files).methodLines| <= Run(files).methodCount
    ensures CountReport(Run(files).propertyLines, RawProperties(files))
    ensures CountReport(Run(files).methodLines, RawMethods(files))
  {
    CountReportOf(RawProperties(files));
    CountReportOf(RawMethods(files));
  }

  lemma CountReportOf(names: seq<string>)
    ensures CountReport(CountLines(Aggregate(names)), names)
  {
    var agg := Aggregate(names);
    var lines := CountLines(agg);
    AggregateCounts(names);
    AggregateCovers(names);
    AggregateTotal(names);
    AggregateSorted(names);
    forall i | 0 <= i < |lines|
      ensures ParseCountLine(lines[i]) == Some(agg[i])
    {
      CountLineRoundTrip(agg[i]);
    }
  }

  /**
   The class and interface reports hold the listed types' names, one per line, in
   list order: sorted, and with each name as many times as distinct types carry it.
   */
  lemma RunTypeReports(files: seq<FileEntry>)
    ensures |Run(files).classLines| == Run(files).classCount == |TypeList(files, Classes)|
    ensures |Run(files).interfaceLines| == Run(files).interfaceCount == |TypeList(files, Interfaces)|
    ensures forall i :: 0 <= i < |Run(files).classLines| ==> Run(files).classLines[i] == TypeList(files, Classes)[i].name
    ensures forall i :: 0 <= i < |Run(files).interfaceLines| ==>
              Run(files).interfaceLines[i] == TypeList(files, Interfaces)[i].name
    ensures forall i, j :: 0 <= i < j < |Run(files).classLines| ==>
              !OrdinalLess(Run(files).classLines[j], Run(files).classLines[i])
    ensures forall i, j :: 0 <= i < j < |Run(files).interfaceLines| ==>
              !OrdinalLess(Run(files).interfaceLines[j], Run(files).interfaceLines[i])
  {
    TypeListSorted(files, Classes);
    TypeListSorted(files, Interfaces);
  }
}
