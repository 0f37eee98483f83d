/**
 The iterators of the census: `enumerateAssemblies`, `enumerateClasses`,
 `enumerateInterfaces`, `enumerateProperties` and `enumerateMethods`. Each is a
 method with a loop that builds the sequence the iterator yields, proved equal
 to a specification function; the lemmas state what those functions promise.
 */
module Enumerators {
  import opened Metadata
  import opened Strings

  /** The substring a file name must contain for the file to be scanned. */
  const FileNameMarker: string := "System"

  // ---------------------------------------------------------------- assemblies

  /** What one directory entry contributes: its assembly when its name matches and it loads. */
  function Scanned(f: FileEntry): seq<Assembly>
  {
    if Contains(f.fileName, FileNameMarker) && f.load.Some? then [f.load.value] else []
  }

  /** The assemblies `enumerateAssemblies` yields, in directory order. */
  function LoadedAssemblies(files: seq<FileEntry>): seq<Assembly>
  {
    if files == [] then [] else LoadedAssemblies(files[..|files| - 1]) + Scanned(files[|files| - 1])
  }

  /**
   Walks the directory listing: a name without the marker is skipped, a file
   whose load throws is skipped, every other file's assembly is yielded.
   */
  method EnumerateAssemblies(files: seq<FileEntry>) returns (assemblies: seq<Assembly>)
    ensures assemblies == LoadedAssemblies(files)
  {
    assemblies := [];
    for i := 0 to |files|
      invariant assemblies == LoadedAssemblies(files[..i])
    {
      assert files[..i + 1][..i] == files[..i];
      var fileName := files[i].fileName;
      if !Contains(fileName, FileNameMarker) {
        continue;
      }
      var assembly := files[i].load;
      if assembly.None? {
        continue;
      }
      assemblies := assemblies + [assembly.value];
    }
    assert files[..|files|] == files;
  }

  /** The scan of two listings one after the other yields the two results one after the other. */
  lemma {:induction false} LoadedAssembliesAppend(a: seq<FileEntry>, b: seq<FileEntry>)
    ensures LoadedAssemblies(a + b) == LoadedAssemblies(a) + LoadedAssemblies(b)
    decreases |b|
  {
    if b == [] {
      assert a + b == a;
    } else {
      var b' := b[..|b| - 1];
      assert (a + b)[..|a + b| - 1] == a + b';
      assert (a + b)[|a + b| - 1] == b[|b| - 1];
      LoadedAssembliesAppend(a, b');
    }
  }

  /** A file that does not match or does not load contributes nothing, and the scan goes on past it. */
  lemma SkippedFileContributesNothing(before: seq<FileEntry>, f: FileEntry, after: seq<FileEntry>)
    requires !Contains(f.fileName, FileNameMarker) || f.load.None?
    ensures LoadedAssemblies(before + [f] + after) == LoadedAssemblies(before) + LoadedAssemblies(after)
  {
    LoadedAssembliesAppend(before + [f], after);
    assert (before + [f])[..|before|] == before;
    assert LoadedAssemblies(before + [f]) == LoadedAssemblies(before) + Scanned(f);
  }

  /** Exactly the assemblies of matching files that loaded are yielded. */
  lemma {:induction false} LoadedAssembliesMembership(files: seq<FileEntry>, a: Assembly)
    ensures a in LoadedAssemblies(files) <==>
              exists i :: 0 <= i < |files| && Contains(files[i].fileName, FileNameMarker) && files[i].load == Some(a)
    decreases |files|
  {
    if files != [] {
      var init := files[..|files| - 1];
      LoadedAssembliesMembership(init, a);
      if a in LoadedAssemblies(init) {
        var i :| 0 <= i < |init| && Contains(init[i].fileName, FileNameMarker) && init[i].load == Some(a);
        assert files[i] == init[i];
      }
      forall i | 0 <= i < |files| - 1
        ensures files[i] == init[i]
      {
      }
    }
  }

  // ---------------------------------------------------------------- types

  /** Which of the two type enumerators is meant: `enumerateClasses` or `enumerateInterfaces`. */
  datatype Category = Classes | Interfaces

  /** The enumerator's local `valid`: public and of the requested kind. */
  predicate Valid(t: TypeInfo, category: Category)
  {
    t.isPublic && t.kind == (if category == Classes then Class else Interface)
  }

  /** The `(type, type.Name)` pairs of the valid types of `ts`, in order. */
  function Matching(ts: seq<TypeInfo>, category: Category): seq<TypeEntry>
  {
    if ts == [] then []
    else
      var t := ts[|ts| - 1];
      Matching(ts[..|ts| - 1], category) + (if Valid(t, category) then [TypeEntry(t, t.name)] else [])
  }

  /** What a type enumerator yields for one assembly: valid direct types, then valid forwarded ones. */
  function Selected(assembly: Assembly, category: Category): seq<TypeEntry>
  {
    Matching(assembly.types, category) +
      match assembly.forwarded
      case None => []
      case Some(forwardTypes) => Matching(forwardTypes, category)
  }

  /**
   `enumerateClasses` (category `Classes`) and `enumerateInterfaces` (category
   `Interfaces`): one loop over the direct types, then, unless retrieving the
   forwarded types failed, one loop over those.
   */
  method EnumerateTypes(assembly: Assembly, category: Category) returns (entries: seq<TypeEntry>)
    ensures entries == Selected(assembly, category)
  {
    entries := [];
    var types := assembly.types;
    for i := 0 to |types|
      invariant entries == Matching(types[..i], category)
    {
      assert types[..i + 1][..i] == types[..i];
      var t := types[i];
      if Valid(t, category) {
        entries := entries + [TypeEntry(t, t.name)];
      }
    }
    assert types[..|types|] == types;

    var forwardTypes := assembly.forwarded;
    if forwardTypes.None? {
      return;
    }
    var forwarded := forwardTypes.value;
    ghost var direct := entries;
    for i := 0 to |forwarded|
      invariant entries == direct + Matching(forwarded[..i], category)
    {
      assert forwarded[..i + 1][..i] == forwarded[..i];
      var t := forwarded[i];
      if Valid(t, category) {
        entries := entries + [TypeEntry(t, t.name)];
      }
    }
    assert forwarded[..|forwarded|] == forwarded;
  }

  /** A pair is yielded for exactly the valid types of the list, named by the type's own name. */
  lemma {:induction false} MatchingMembership(ts: seq<TypeInfo>, category: Category, e: TypeEntry)
    ensures e in Matching(ts, category) <==> e.ty in ts && Valid(e.ty, category) && e.name == e.ty.name
    decreases |ts|
  {
    if ts != [] {
      var init := ts[..|ts| - 1];
      MatchingMembership(init, category, e);
      assert ts == init + [ts[|ts| - 1]];
    }
  }

  /** Filtering keeps the order of the type list: it distributes over concatenation. */
  lemma {:induction false} MatchingAppend(a: seq<TypeInfo>, b: seq<TypeInfo>, category: Category)
    ensures Matching(a + b, category) == Matching(a, category) + Matching(b, category)
    decreases |b|
  {
    if b == [] {
      assert a + b == a;
    } else {
      var b' := b[..|b| - 1];
      assert (a + b)[..|a + b| - 1] == a + b';
      assert (a + b)[|a + b| - 1] == b[|b| - 1];
      MatchingAppend(a, b', category);
    }
  }

  /**
   Only public types of the requested kind are yielded, each direct or forwarded
   type of the assembly that qualifies is; with no forwarded types the output is
   the direct ones alone.
   */
  lemma SelectedMembership(assembly: Assembly, category: Category, e: TypeEntry)
    ensures e in Selected(assembly, category) <==>
              && Valid(e.ty, category)
              && e.name == e.ty.name
              && (e.ty in assembly.types || (assembly.forwarded.Some? && e.ty in assembly.forwarded.value))
    ensures assembly.forwarded.None? ==> Selected(assembly, category) == Matching(assembly.types, category)
  {
    MatchingMembership(assembly.types, category, e);
    if assembly.forwarded.Some? {
      MatchingMembership(assembly.forwarded.value, category, e);
    }
  }

  /** A type is never yielded by both enumerators. */
  lemma CategoriesDisjoint(assembly: Assembly, e: TypeEntry)
    ensures !(e in Selected(assembly, Classes) && e in Selected(assembly, Interfaces))
  {
    SelectedMembership(assembly, Classes, e);
    SelectedMembership(assembly, Interfaces, e);
  }

  // ---------------------------------------------------------------- members

  /** `enumerateProperties`: every property name, in declaration order, repeats included. */
  method EnumerateProperties(t: TypeInfo) returns (names: seq<string>)
    ensures names == t.properties
  {
    names := [];
    var properties := t.properties;
    for i := 0 to |properties|
      invariant names == properties[..i]
    {
      names := names + [properties[i]];
    }
  }

  /** The names of the methods that are not special-name methods, in order. */
  function NonSpecialNames(methods: seq<MethodInfo>): seq<string>
  {
    if methods == [] then []
    else
      var m := methods[|methods| - 1];
      NonSpecialNames(methods[..|methods| - 1]) + (if m.isSpecialName then [] else [m.name])
  }

  /** `enumerateMethods`: the names of the methods whose `IsSpecialName` is false, in order. */
  method EnumerateMethods(t: TypeInfo) returns (names: seq<string>)
    ensures names == NonSpecialNames(t.methods)
  {
    names := [];
    var methods := t.methods;
    for i := 0 to |methods|
      invariant names == NonSpecialNames(methods[..i])
    {
      assert methods[..i + 1][..i] == methods[..i];
      var m := methods[i];
      if !m.isSpecialName {
        names := names + [m.name];
      }
    }
    assert methods[..|methods|] == methods;
  }

  /** Filtering keeps declaration order: it distributes over concatenation. */
  lemma {:induction false} NonSpecialNamesAppend(a: seq<MethodInfo>, b: seq<MethodInfo>)
    ensures NonSpecialNames(a + b) == NonSpecialNames(a) + NonSpecialNames(b)
    decreases |b|
  {
    if b == [] {
      assert a + b == a;
    } else {
      var b' := b[..|b| - 1];
      assert (a + b)[..|a + b| - 1] == a + b';
      assert (a + b)[|a + b| - 1] == b[|b| - 1];
      NonSpecialNamesAppend(a, b');
    }
  }

  /**
   A name is yielded exactly when some method of that name is not a special-name
   method; a method that is special contributes nothing.
   */
  lemma {:induction false} NonSpecialNamesMembership(methods: seq<MethodInfo>, n: string)
    ensures n in NonSpecialNames(methods) <==> exists m :: m in methods && !m.isSpecialName && m.name == n
    ensures |NonSpecialNames(methods)| <= |methods|
    decreases |methods|
  {
    if methods != [] {
      var init := methods[..|methods| - 1];
      NonSpecialNamesMembership(init, n);
      assert methods == init + [methods[|methods| - 1]];
    }
  }
}
