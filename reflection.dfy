/** The reflected .NET types the engine reads, as a finite universe of values.

    A `System.Type` is a `TypeId` into `Universe.types`. What the engine asks of
    reflection (`FullName`, `Name`, the `Is…` flags, `GetGenericArguments`,
    `GetElementType`, `Nullable.GetUnderlyingType`, `GetInterface` for the four
    collection interfaces, `Enum.GetNames`, the readable public instance
    properties) is stored as given facts in a `TypeInfo`. */
module Reflection {
  import opened Wrappers
  import opened Text

  type TypeId = nat

  /** A public instance property: its name, declared type and whether it has a getter. */
  datatype Property = Property(name: string, propertyType: TypeId, canRead: bool)

  /** The type arguments of an implemented `IDictionary<TKey, TValue>`. */
  datatype DictionaryArgs = DictionaryArgs(key: TypeId, value: TypeId)

  /** What reflection reports about one type.
      - `enumerableOf`: the argument of the `IEnumerable`1` interface the type implements;
      - `enumerable`: `GetInterface("IEnumerable") != null`;
      - `dictionaryOf`: the arguments of the implemented `IDictionary`2`;
      - `dictionary`: `GetInterface("System.Collections.IDictionary") != null`;
      - `enumNames`: `Enum.GetNames`, in the order it reports them;
      - `properties`: the public instance properties, hierarchy flattened, in reflection order;
      - `rank`: the nesting depth of the type expression, strictly above every type it is
        built from (element, arguments, interface arguments, nullable underlying type). */
  datatype TypeInfo = TypeInfo(
    fullName: Option<string>,
    name: string,
    namespace: Option<string>,
    isEnum: bool,
    isClass: bool,
    isPublic: bool,
    isPrimitive: bool,
    isGenericType: bool,
    isGenericParameter: bool,
    genericArguments: seq<TypeId>,
    genericDefinition: Option<TypeId>,
    elementType: Option<TypeId>,
    nullableUnderlying: Option<TypeId>,
    enumerableOf: Option<TypeId>,
    enumerable: bool,
    dictionaryOf: Option<DictionaryArgs>,
    dictionary: bool,
    enumNames: seq<string>,
    properties: seq<Property>,
    rank: nat)

  /** All types reachable in one run, and which of them is `typeof(object)`. */
  datatype Universe = Universe(types: map<TypeId, TypeInfo>, objectType: TypeId)

  const GenericDictionaryInterface := "System.Collections.Generic.IDictionary`2"
  const DictionaryInterface := "System.Collections.IDictionary"
  const EnumerableInterface := "System.Collections.IEnumerable"

  function OptionSet(o: Option<TypeId>): set<TypeId> {
    if o.Some? then {o.value} else {}
  }

  /** The types a projection of `i` may recurse into: its element type, its generic
      arguments, the arguments of its collection interfaces, its nullable underlying
      type, and `object` for an untyped `IEnumerable`. */
  function Links(u: Universe, i: TypeInfo): set<TypeId> {
    (set a | a in i.genericArguments)
    + OptionSet(i.elementType)
    + OptionSet(i.nullableUnderlying)
    + OptionSet(i.enumerableOf)
    + (if i.dictionaryOf.Some? then {i.dictionaryOf.value.key, i.dictionaryOf.value.value} else {})
    + (if i.enumerable || i.name == "IEnumerable" then {u.objectType} else {})
  }

  /** `typeof(object)`: no element, arguments or interfaces. */
  predicate IsObjectInfo(i: TypeInfo) {
    && i.fullName == Some("System.Object")
    && i.name == "Object"
    && !i.isGenericType
    && i.genericArguments == []
    && i.elementType.None?
    && i.nullableUnderlying.None?
    && i.enumerableOf.None?
    && !i.enumerable
    && i.dictionaryOf.None?
    && !i.dictionary
  }

  /** Facts the CLR guarantees of one type: every type it refers to is in the
      universe, the types it is built from have a smaller rank, a generic type has a
      definition, `IEnumerable`1` / `IDictionary`2` carry one / two arguments, and a
      `Nullable<T>` is a struct, neither class nor enum. */
  ghost predicate TypeWellFormed(u: Universe, i: TypeInfo) {
    && (forall l :: l in Links(u, i) ==> l in u.types && u.types[l].rank < i.rank)
    && (forall p :: p in i.properties ==> p.propertyType in u.types)
    && (i.isGenericType ==> i.genericDefinition.Some?)
    && (i.genericDefinition.Some? ==> i.genericDefinition.value in u.types)
    && (i.name == "IEnumerable`1" ==> |i.genericArguments| >= 1)
    && (OptStartsWith(i.fullName, GenericDictionaryInterface) ==> |i.genericArguments| >= 2)
    && (i.isGenericParameter ==> '`' !in i.name)
    && (i.nullableUnderlying.Some? ==> !i.isClass && !i.isEnum)
  }

  ghost predicate WellFormed(u: Universe) {
    && u.objectType in u.types
    && IsObjectInfo(u.types[u.objectType])
    && forall t {:trigger TypeWellFormed(u, u.types[t])} :: t in u.types ==> TypeWellFormed(u, u.types[t])
  }

  /** A possibly-null type is either null or in the universe. */
  predicate InUniverse(u: Universe, t: Option<TypeId>) {
    t.Some? ==> t.value in u.types
  }

  function Rank(u: Universe, t: Option<TypeId>): nat
    requires InUniverse(u, t)
  {
    if t.Some? then u.types[t.value].rank else 0
  }

  /** The facts `WellFormed` holds about one type, spelt out link by link. */
  lemma LinksOf(u: Universe, t: TypeId)
    requires WellFormed(u) && t in u.types
    ensures var i := u.types[t];
      && (forall l :: l in Links(u, i) ==> l in u.types && u.types[l].rank < i.rank)
      && (forall a :: a in i.genericArguments ==> a in u.types && u.types[a].rank < i.rank)
      && (i.elementType.Some? ==> i.elementType.value in u.types && u.types[i.elementType.value].rank < i.rank)
      && (i.nullableUnderlying.Some? ==>
            i.nullableUnderlying.value in u.types && u.types[i.nullableUnderlying.value].rank < i.rank)
      && (i.enumerableOf.Some? ==> i.enumerableOf.value in u.types && u.types[i.enumerableOf.value].rank < i.rank)
      && (i.dictionaryOf.Some? ==>
            && i.dictionaryOf.value.key in u.types && u.types[i.dictionaryOf.value.key].rank < i.rank
            && i.dictionaryOf.value.value in u.types && u.types[i.dictionaryOf.value.value].rank < i.rank)
      && ((i.enumerable || i.name == "IEnumerable") ==> u.types[u.objectType].rank < i.rank)
      && (forall p :: p in i.properties ==> p.propertyType in u.types)
      && (i.isGenericType ==> i.genericDefinition.Some?)
      && (i.genericDefinition.Some? ==> i.genericDefinition.value in u.types)
      && (i.name == "IEnumerable`1" ==> |i.genericArguments| >= 1)
      && (OptStartsWith(i.fullName, GenericDictionaryInterface) ==> |i.genericArguments| >= 2)
      && (i.isGenericParameter ==> '`' !in i.name)
      && (i.nullableUnderlying.Some? ==> !i.isClass && !i.isEnum)
  {
    var i := u.types[t];
    assert TypeWellFormed(u, i);
    forall a | a in i.genericArguments ensures a in u.types && u.types[a].rank < i.rank {
      assert a in Links(u, i);
    }
    if i.dictionaryOf.Some? {
      assert i.dictionaryOf.value.key in Links(u, i);
      assert i.dictionaryOf.value.value in Links(u, i);
    }
    if i.enumerable || i.name == "IEnumerable" {
      assert u.objectType in Links(u, i);
    }
  }
}
