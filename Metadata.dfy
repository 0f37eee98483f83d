/**
 The reflection metadata the census reads, as plain values.

 Everything the program obtains from the runtime (the files of the framework
 directory, the result of loading each one, the types an assembly defines or
 forwards, and the members of each type) is an input of this shape.
 */
module Metadata {

  datatype Option<T> = None | Some(value: T)

  /** How the runtime classifies a type declaration: `IsClass`, `IsInterface`, or neither. */
  datatype Kind = Class | Interface | Other

  /** A method as `GetMethods` reports it: its name and its `IsSpecialName` flag. */
  datatype MethodInfo = MethodInfo(name: string, isSpecialName: bool)

  /**
   A type declaration. `id` stands for the identity of the runtime `Type` object:
   two descriptors denote the same type exactly when their ids are equal.
   `properties` and `methods` are what `GetProperties` and `GetMethods` return, in order.
   */
  datatype TypeInfo = TypeInfo(
    id: int,
    name: string,
    isPublic: bool,
    kind: Kind,
    properties: seq<string>,
    methods: seq<MethodInfo>)

  /**
   A loaded assembly: the types `GetTypes` returns and, when `GetForwardedTypes`
   succeeds, the forwarded types (`None` when that call throws).
   */
  datatype Assembly = Assembly(types: seq<TypeInfo>, forwarded: Option<seq<TypeInfo>>)

  /**
   A file of the framework directory and the outcome of loading it (`None` when
   loading throws). `fileName` is the full path `Directory.EnumerateFiles` returns,
   which is what the marker test searches.
   */
  datatype FileEntry = FileEntry(fileName: string, load: Option<Assembly>)

  /** The `(Type type, string name)` tuple the type enumerators yield. */
  datatype TypeEntry = TypeEntry(ty: TypeInfo, name: string)

  /** What `Distinct` compares a tuple by: the type's identity and the name. */
  function Key(e: TypeEntry): (int, string)
  {
    (e.ty.id, e.name)
  }
}
