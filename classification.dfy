/** The classification predicates both extension classes share: the simple-type
    table (`TsSimpleName`), nullable stripping, and the dictionary / collection /
    custom-generic / system shapes, with the element type of a collection. */
module Classification {
  import opened Wrappers
  import opened Text
  import opened Reflection

  const NumericTypeNames: set<string> :=
    {"System.SByte", "System.Byte", "System.Int16", "System.UInt16", "System.Int32",
     "System.UInt32", "System.Int64", "System.UInt64", "System.Single", "System.Double",
     "System.Decimal"}

  /** `TsSimpleName`: the TypeScript name of a well-known scalar, found by full name. */
  function SimpleName(fullName: Option<string>): (r: Option<string>)
    ensures IsNullOrWhiteSpace(fullName) ==> r.None?
    ensures fullName == Some("System.Object") ==> r == Some("Object")
    ensures fullName == Some("System.Boolean") ==> r == Some("boolean")
    ensures fullName.Some? && fullName.value in {"System.Char", "System.String", "System.Guid"} ==> r == Some("string")
    ensures fullName.Some? && fullName.value in NumericTypeNames ==> r == Some("number")
    ensures fullName.Some? && fullName.value in {"System.DateTime", "System.DateTimeOffset"} ==> r == Some("Date")
    ensures r.Some? ==>
      (fullName.Some? && fullName.value in
        {"System.Object", "System.Boolean", "System.Char", "System.String", "System.Guid",
         "System.DateTime", "System.DateTimeOffset"} + NumericTypeNames)
  {
    if IsNullOrWhiteSpace(fullName) then
      // every name in the table starts with 'S', which is not white space
      assert fullName.Some? && fullName.value != [] ==> fullName.value[0] in WhiteSpace;
      None
    else match fullName.value
      case "System.Object" => Some("Object")
      case "System.Boolean" => Some("boolean")
      case "System.Char" => Some("string")
      case "System.String" => Some("string")
      case "System.Guid" => Some("string")
      case "System.SByte" => Some("number")
      case "System.Byte" => Some("number")
      case "System.Int16" => Some("number")
      case "System.UInt16" => Some("number")
      case "System.Int32" => Some("number")
      case "System.UInt32" => Some("number")
      case "System.Int64" => Some("number")
      case "System.UInt64" => Some("number")
      case "System.Single" => Some("number")
      case "System.Double" => Some("number")
      case "System.Decimal" => Some("number")
      case "System.DateTime" => Some("Date")
      case "System.DateTimeOffset" => Some("Date")
      case _ => None
  }

  /** `IsSimpleType`. */
  predicate IsSimpleType(u: Universe, t: TypeId)
    requires t in u.types
  {
    SimpleName(u.types[t].fullName).Some?
  }

  /** `StripNullable` on a non-null type: `Nullable.GetUnderlyingType(t) ?? t`. */
  function StripNullable(u: Universe, t: TypeId): (r: TypeId)
    requires WellFormed(u) && t in u.types
    ensures r in u.types && u.types[r].rank <= u.types[t].rank
    ensures r == t || r in Links(u, u.types[t])
    ensures u.types[t].nullableUnderlying.None? ==> r == t
  {
    LinksOf(u, t);
    u.types[t].nullableUnderlying.GetOr(t)
  }

  /** `IsDictionaryType`: implements `IDictionary<,>` or `IDictionary`, or is one of them. */
  predicate IsDictionaryType(u: Universe, t: TypeId)
    requires t in u.types
  {
    var i := u.types[t];
    || i.dictionaryOf.Some?
    || OptStartsWith(i.fullName, GenericDictionaryInterface)
    || i.dictionary
    || OptStartsWith(i.fullName, DictionaryInterface)
  }

  /** `IsCollectionType`: not `string`, not a dictionary, and implements or is `IEnumerable`. */
  predicate IsCollectionType(u: Universe, t: TypeId)
    requires t in u.types
  {
    var i := u.types[t];
    && i.fullName != Some("System.String")
    && !IsDictionaryType(u, t)
    && (i.enumerable || OptStartsWith(i.fullName, EnumerableInterface))
  }

  /** `IsCustomGenericType`: a generic type that is neither dictionary nor collection. */
  predicate IsCustomGenericType(u: Universe, t: TypeId)
    requires t in u.types
  {
    u.types[t].isGenericType && !IsDictionaryType(u, t) && !IsCollectionType(u, t)
  }

  /** `IsSystemType`: the full name starts with `System.`. */
  predicate IsSystemType(u: Universe, t: TypeId)
    requires t in u.types
  {
    OptStartsWith(u.types[t].fullName, "System.")
  }

  /** `GetCollectionType` (and the identical `GetTsCollectionElementType`): the array
      element type, else the argument of `IEnumerable<T>` (for the interface itself,
      then for an implemented one), else `object` for an untyped `IEnumerable`, else
      null. The result is always built into `t`, so its rank is smaller. */
  function CollectionType(u: Universe, t: TypeId): (r: Option<TypeId>)
    requires WellFormed(u) && t in u.types
    ensures r.Some? ==> r.value in u.types && u.types[r.value].rank < u.types[t].rank
    ensures r.Some? ==> r.value in Links(u, u.types[t])
    ensures u.types[t].elementType.Some? ==> r == u.types[t].elementType
    ensures u.types[t].elementType.None? && u.types[t].name == "IEnumerable`1" ==>
      |u.types[t].genericArguments| > 0 && r == Some(u.types[t].genericArguments[0])
    ensures u.types[t].elementType.None? && u.types[t].name == "IEnumerable" ==> r == Some(u.objectType)
    ensures u.types[t].elementType.None? && u.types[t].name != "IEnumerable`1" && u.types[t].name != "IEnumerable" ==>
      r == (if u.types[t].enumerableOf.Some? then u.types[t].enumerableOf
            else if u.types[t].enumerable then Some(u.objectType) else None)
    ensures r.None? <==>
      && u.types[t].elementType.None?
      && u.types[t].name != "IEnumerable`1" && u.types[t].name != "IEnumerable"
      && u.types[t].enumerableOf.None? && !u.types[t].enumerable
  {
    var i := u.types[t];
    LinksOf(u, t);
    if i.elementType.Some? then i.elementType
    else if i.name == "IEnumerable`1" then Some(i.genericArguments[0])
    else if i.name == "IEnumerable" then Some(u.objectType)
    else if i.enumerableOf.Some? then i.enumerableOf
    else if i.enumerable then Some(u.objectType)
    else None
  }

  /** `IsCollectionType` is false for `string` and for every dictionary, and a generic
      type is exactly one of dictionary, collection and custom generic. */
  lemma ShapesExclusive(u: Universe, t: TypeId)
    requires t in u.types
    ensures u.types[t].fullName == Some("System.String") ==> !IsCollectionType(u, t)
    ensures IsDictionaryType(u, t) ==> !IsCollectionType(u, t) && !IsCustomGenericType(u, t)
    ensures IsCollectionType(u, t) ==> !IsCustomGenericType(u, t)
    ensures u.types[t].isGenericType ==>
      (IsDictionaryType(u, t) || IsCollectionType(u, t) || IsCustomGenericType(u, t))
  {
  }
}
