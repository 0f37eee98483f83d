# DotNetNamingCounter census, modelled in Dafny

DotNetNamingCounter scans the framework directory for assemblies whose file path
(the full path the directory listing returns) contains `System`. It collects their public classes and public interfaces, both
those defined directly and those forwarded. It then counts how often each
property name and each (non-special) method name occurs across those types, and
writes four reports: the class names, the interface names, `name: count` for
properties and `name: count` for methods.

This project models that pipeline over plain input data. A directory listing is
a sequence of `FileEntry` values: a file's full path plus the outcome of loading it (`None`
when `Assembly.LoadFile` throws). A loaded `Assembly` holds its types and its
forwarded types (`None` when `GetForwardedTypes` throws). A `TypeInfo` carries an
integer `id` standing for the runtime `Type` object's identity, its simple name,
`IsPublic`, its kind (class, interface or other), its property names and its
methods with their `IsSpecialName` flags.

Modules, following the program's stages:

- `Metadata` (Metadata.dfy): the input datatypes and the `(type, name)` pair the type enumerators yield.
- `Strings` (Strings.dfy): ordinal `Contains`, the ordinal order on names, decimal text of a count.
- `Enumerators` (Enumerators.dfy): `enumerateAssemblies`, `enumerateClasses`/`enumerateInterfaces`,
  `enumerateProperties` and `enumerateMethods`. Each is a method whose loop builds the
  yielded sequence, with the same `continue` and early-return exits. Each is proved equal
  to a specification function, and lemmas state what those functions guarantee.
- `Linq` (Linq.dfy): `OrderBy`/`OrderByDescending` as one stable insertion sort on any
  strict weak order. It is proved to be a permutation and to be sorted, and to be stable
  on inputs with no repeated element (both lists the census sorts have none).
- `Census` (Census.dfy): the LINQ aggregation of `Main`: `SelectMany`, `Distinct`, `OrderBy(name)`,
  the flattened member names, the report lines and the whole run (`Run`).
- `Grouping` (Grouping.dfy): `GroupBy(x => x)` with counts, then `OrderByDescending(count)`.

Two points where the code does something other than a casual reading suggests:

- `Distinct` compares the tuple `(Type type, string name)`, so it removes only the
  same type reached twice. An example is a type defined in one assembly and
  forwarded from another. Two different types that share a simple name are both
  kept, so the name appears twice in the report. The list is not deduplicated by
  name alone.
- The report is not merely "alphabetical". `OrderBy(x => x.name)` is a stable sort,
  so entries with equal names keep the order in which they were first gathered.

## Model

| member | source | states |
|---|---|---|
| `Strings.ContainsIff` | DotNetNamingCounter/Program.cs:50 | the ordinal `Contains` scan succeeds exactly when `"System"` occurs at some position of the file path |
| `Enumerators.EnumerateAssemblies` | DotNetNamingCounter/Program.cs:46-72 | the loop yields exactly `LoadedAssemblies(files)`: the assemblies of files whose name contains the marker and whose load succeeded, in directory order |
| `Enumerators.LoadedAssembliesMembership` | DotNetNamingCounter/Program.cs:48-70 | an assembly is yielded if and only if some file whose name contains `"System"` loaded to it |
| `Enumerators.LoadedAssembliesAppend` | DotNetNamingCounter/Program.cs:48-71 | scanning two listings in a row yields the two results in a row, so the scan is per file and in order |
| `Enumerators.SkippedFileContributesNothing` | DotNetNamingCounter/Program.cs:50-68 | a file without the marker, or whose load throws, contributes nothing, and the scan continues past it |
| `Enumerators.EnumerateTypes` | DotNetNamingCounter/Program.cs:74-131 | the loops yield exactly the valid direct types, then the valid forwarded types unless their retrieval failed (`Selected`) |
| `Enumerators.MatchingMembership` | DotNetNamingCounter/Program.cs:76-81 | a pair is yielded from a type list if and only if its type is in the list, is public and of the requested kind, and the pair carries the type's own name |
| `Enumerators.MatchingAppend` | DotNetNamingCounter/Program.cs:78-81 | filtering a type list distributes over concatenation, so valid types are yielded in list order |
| `Enumerators.SelectedMembership` | DotNetNamingCounter/Program.cs:76-101 | only public types of the requested kind are yielded, every qualifying direct or forwarded type is, and when forwarded retrieval fails the output is the filtered direct types alone |
| `Enumerators.CategoriesDisjoint` | DotNetNamingCounter/Program.cs:76-106 | no pair is yielded by both the class and the interface enumerator |
| `Enumerators.EnumerateProperties` | DotNetNamingCounter/Program.cs:134-140 | yields every property name in declaration order, duplicates kept |
| `Enumerators.EnumerateMethods` | DotNetNamingCounter/Program.cs:142-148 | the loop yields exactly `NonSpecialNames(t.methods)`: the names of the methods that are not special-name methods |
| `Enumerators.NonSpecialNamesMembership` | DotNetNamingCounter/Program.cs:144-147 | a name is yielded if and only if some method of that name is not special; no more names than methods |
| `Enumerators.NonSpecialNamesAppend` | DotNetNamingCounter/Program.cs:144-147 | the filter keeps declaration order, since it distributes over concatenation |
| `Linq.OrderByPermutation` | DotNetNamingCounter/Program.cs:16-17 | sorting returns a permutation of its input |
| `Linq.OrderBySorted` | DotNetNamingCounter/Program.cs:16-17 | for a strict weak order, no element of the result sorts before an earlier one |
| `Linq.OrderByStable` | DotNetNamingCounter/Program.cs:16-17 | on an input with no repeated element, elements that compare equal keep their input order |
| `Linq.OrderByNoDuplicates` | DotNetNamingCounter/Program.cs:16-17 | sorting a list without repeats yields no repeats |
| `Census.SelectAllMembership` | DotNetNamingCounter/Program.cs:16-17 | `SelectMany` gathers a pair if and only if some scanned assembly's enumerator yields it |
| `Census.DistinctFirstOccurrences` | DotNetNamingCounter/Program.cs:16-17 | `Distinct` keeps, for each `(id, name)` key, the first pair with that key, in first-occurrence order, and drops no key |
| `Census.ByNameIsStrictWeakOrder` | DotNetNamingCounter/Program.cs:16-17 | ordering pairs by ordinal name is a strict weak order |
| `Census.ByNameTied` | DotNetNamingCounter/Program.cs:16-17 | two pairs compare equal under the name order exactly when their names are equal |
| `Census.TypeListKeysUnique` | DotNetNamingCounter/Program.cs:16-17 | the class and interface lists never repeat an `(id, name)` pair |
| `Census.TypeListMembership` | DotNetNamingCounter/Program.cs:16-17 | every pair yielded by a scanned assembly has its key in the list, and every listed pair was yielded: a public type of the category, under its own name |
| `Census.TypeListSorted` | DotNetNamingCounter/Program.cs:16-17 | names are non-decreasing down the list |
| `Census.TypeListStable` | DotNetNamingCounter/Program.cs:16-17 | entries with equal names keep the order in which their keys first occurred |
| `Census.PropertyNamesOfMembership` | DotNetNamingCounter/Program.cs:22 | a name is collected if and only if some listed type declares a property of that name |
| `Census.MethodNamesOfMembership` | DotNetNamingCounter/Program.cs:23 | a name is collected if and only if some listed type has a non-special method of that name |
| `Census.PropertyNamesOfAppend` | DotNetNamingCounter/Program.cs:22 | `SelectMany` over a concatenated list is the concatenation, so names come in list order |
| `Census.MethodNamesOfAppend` | DotNetNamingCounter/Program.cs:23 | the same for method names |
| `Grouping.GroupCountCounts` | DotNetNamingCounter/Program.cs:28-29 | `GroupBy` gives one group per distinct name, in first-occurrence order, each with the name's number of occurrences, and misses no name |
| `Grouping.GroupCountTotal` | DotNetNamingCounter/Program.cs:28-29 | the group counts add up to the number of names |
| `Grouping.GroupCountKeysUnique` | DotNetNamingCounter/Program.cs:28-29 | no two groups share a key |
| `Grouping.AggregateCounts` | DotNetNamingCounter/Program.cs:28-29 | each aggregated entry is a collected name with its number of occurrences, at least 1 |
| `Grouping.AggregateCovers` | DotNetNamingCounter/Program.cs:28-29 | every collected name appears in exactly one aggregated entry |
| `Grouping.AggregateTotal` | DotNetNamingCounter/Program.cs:28-32 | the counts sum to the raw list's length, so there are at most as many entries as names |
| `Grouping.AggregateSorted` | DotNetNamingCounter/Program.cs:28-29 | counts are non-increasing down the aggregated list |
| `Grouping.AggregateStable` | DotNetNamingCounter/Program.cs:28-29 | entries with equal counts keep the order in which their names first occurred |
| `Strings.DecimalRoundTrip` | DotNetNamingCounter/Program.cs:42-43 | the decimal text of a count reads back as that count |
| `Census.CountLineRoundTrip` | DotNetNamingCounter/Program.cs:42-43 | a `key: count` line reads back as exactly its entry, whatever the key contains |
| `Census.RunReports` | DotNetNamingCounter/Program.cs:22-43 | the property and method reports list every collected name on exactly one line with its occurrence count, largest first; the raw property and method counts equal the collected lists' lengths and the aggregated counts equal the report lengths |
| `Census.RunTypeReports` | DotNetNamingCounter/Program.cs:16-20 | the class and interface reports are the listed names in list order, non-decreasing, and the console counts equal their lengths |

## Left out

- Reading the directory, loading files and reflecting over types are runtime I/O and reflection. They are inputs here: the directory listing, each load's outcome, and each type's metadata.
- A `GetTypes` call that throws is not modelled. The program does not catch it and the run stops.
- Console output is left out, including the message printed when a load fails. The six summary counts are fields of `Report`.
- The desktop path and `File.WriteAllLines` are file output. The model produces the four line sequences only.
- `OrderBy(x => x.name)` uses the culture-sensitive default string comparer. The model uses ordinal order on Dafny chars, which are Unicode scalar values rather than UTF-16 code units. The sort lemmas in `Linq` hold for any strict weak order, so only the concrete ordering of names differs.
- `enumerateAssemblies` runs twice, once per type category. The model reads the same listing both times, so the repeated loading is not represented.
- Lazy evaluation of the iterators is not modelled. Each iterator is a method that returns its whole output.
