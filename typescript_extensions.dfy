/** `TypeScriptExtensions`: the projection of a .NET type onto a TypeScript type
    expression (`TsType` and its helpers) and the declaration emitter
    (`GetTypescriptInterface`). */
module TypeScriptExtensions {
  import opened Wrappers
  import opened Collections
  import opened Text
  import opened Reflection
  import opened Classification
  import opened StringExtensions

  /** `RemoveTypeArity`: the text before the first backtick (`List`1` gives `List`). */
  function RemoveTypeArity(value: string): (r: string)
    ensures StartsWith(value, r) && '`' !in r
    ensures |r| < |value| ==> value[|r|] == '`'
  {
    TakeBefore(value, '`')
  }

  /** No dictionary-shaped type is reachable from `t` through the links a projection
      follows; projections of such types cannot fail. */
  ghost predicate DictionaryFree(u: Universe, t: TypeId)
    requires WellFormed(u) && t in u.types
    decreases u.types[t].rank
  {
    LinksOf(u, t);
    && !IsDictionaryType(u, t)
    && forall l :: l in Links(u, u.types[t]) ==> DictionaryFree(u, l)
  }

  /** The failure names a dictionary-shaped type of rank at most `bound`. */
  predicate BlamesDictionary(u: Universe, e: ProjectionError, bound: nat) {
    e.dictionary in u.types && IsDictionaryType(u, e.dictionary) && u.types[e.dictionary].rank <= bound
  }

  /** `TsType`: strip `Nullable<>`, then the first rule that applies of: simple table,
      collection, dictionary, custom generic, `System.*` gives `any`, else the
      arity-stripped name. A null type gives `any`. */
  function TsType(u: Universe, t: Option<TypeId>): (r: Outcome<string>)
    requires WellFormed(u) && InUniverse(u, t)
    ensures r.Fail? ==> BlamesDictionary(u, r.error, Rank(u, t))
    ensures t.Some? && DictionaryFree(u, t.value) ==> r.Ok?
    ensures r.Ok? ==> '`' !in r.value
    decreases Rank(u, t), 3, 0
  {
    if t.None? then Ok("any")
    else
      var s := StripNullable(u, t.value);
      if IsSimpleType(u, s) then Ok(SimpleName(u.types[s].fullName).value)
      else if IsCollectionType(u, s) then CollectionName(u, s)
      else if IsDictionaryType(u, s) then DictionaryName(u, s)
      else if IsCustomGenericType(u, s) then CustomGenericName(u, s)
      else if IsSystemType(u, s) then Ok("any")
      else Ok(RemoveTypeArity(u.types[s].name))
  }

  /** `IsCollectionType(out name)`: the element's projection followed by `[]`, or
      `any[]` when no element type is known. */
  function CollectionName(u: Universe, s: TypeId): (r: Outcome<string>)
    requires WellFormed(u) && s in u.types
    ensures r.Fail? ==> BlamesDictionary(u, r.error, u.types[s].rank)
    ensures DictionaryFree(u, s) ==> r.Ok?
    ensures r.Ok? ==> '`' !in r.value && EndsWith(r.value, "[]")
    decreases u.types[s].rank, 2, 0
  {
    match CollectionType(u, s)
    case None => Ok("any[]")
    case Some(e) =>
      var element :- TsType(u, Some(e));
      Ok(element + "[]")
  }

  /** `GetTsDictionaryTypeName`: `{ [key: K]: V; }` for a generic dictionary whose key
      projects to `number` or `string` (any other key throws), `{ [key: string]: string; }`
      for an untyped `IDictionary`, `any` for anything else. */
  function DictionaryName(u: Universe, s: TypeId): (r: Outcome<string>)
    requires WellFormed(u) && s in u.types
    ensures r.Fail? ==> BlamesDictionary(u, r.error, u.types[s].rank)
    ensures !IsDictionaryType(u, s) ==> r == Ok("any")
    ensures DictionaryFree(u, s) ==> r.Ok?
    ensures r.Ok? ==> '`' !in r.value
    decreases u.types[s].rank, 2, 0
  {
    var i := u.types[s];
    LinksOf(u, s);
    if i.dictionaryOf.Some? || OptStartsWith(i.fullName, GenericDictionaryInterface) then
      var args := if i.dictionaryOf.Some? then i.dictionaryOf.value
                  else DictionaryArgs(i.genericArguments[0], i.genericArguments[1]);
      var keyName :- TsType(u, Some(args.key));
      var valueName :- TsType(u, Some(args.value));
      DictionaryTextAvoids(keyName, valueName);
      if keyName != "number" && keyName != "string" then Fail(UnsupportedKeyType(s))
      else Ok("{ [key: " + keyName + "]: " + valueName + "; }")
    else if i.dictionary || OptStartsWith(i.fullName, DictionaryInterface) then
      DictionaryTextAvoids("string", "string");
      Ok("{ [key: string]: string; }")
    else
      Ok("any")
  }

  /** The index signature text holds a backtick only where its key or value does. */
  lemma DictionaryTextAvoids(k: string, v: string)
    ensures '`' !in k && '`' !in v ==> '`' !in "{ [key: " + k + "]: " + v + "; }"
    ensures "{ [key: " + "string" + "]: " + "string" + "; }" == "{ [key: string]: string; }"
  {
  }

  /** How the generic argument at index `k` of `s` is written: a generic parameter
      by its own name, anything else by its projection. */
  function ArgumentText(u: Universe, s: TypeId, k: nat): (r: Outcome<string>)
    requires WellFormed(u) && s in u.types && k < |u.types[s].genericArguments|
    ensures r.Fail? ==> BlamesDictionary(u, r.error, u.types[s].rank)
    ensures DictionaryFree(u, s) ==> r.Ok?
    ensures r.Ok? ==> '`' !in r.value
    decreases u.types[s].rank, 0, 0
  {
    var a := u.types[s].genericArguments[k];
    LinksOf(u, s);
    LinksOf(u, a);
    assert a in Links(u, u.types[s]);
    if u.types[a].isGenericParameter then Ok(u.types[a].name) else TsType(u, Some(a))
  }

  /** The texts of the generic arguments of `s` from index `from` on, stopping at the
      first failure. */
  function ArgumentNames(u: Universe, s: TypeId, from: nat): (r: Outcome<seq<string>>)
    requires WellFormed(u) && s in u.types && from <= |u.types[s].genericArguments|
    ensures r.Fail? ==> BlamesDictionary(u, r.error, u.types[s].rank)
    ensures DictionaryFree(u, s) ==> r.Ok?
    ensures r.Ok? ==> |r.value| == |u.types[s].genericArguments| - from
    ensures r.Ok? ==> forall k :: 0 <= k < |r.value| ==> ArgumentText(u, s, from + k) == Ok(r.value[k])
    decreases u.types[s].rank, 1, |u.types[s].genericArguments| - from
  {
    var args := u.types[s].genericArguments;
    LinksOf(u, s);
    if from == |args| then Ok([])
    else
      var first :- ArgumentText(u, s, from);
      var rest :- ArgumentNames(u, s, from + 1);
      Ok([first] + rest)
  }

  /** `IsCustomGenericType(out name)`: `Name<Arg1, …, ArgN>` with the arity stripped. */
  function CustomGenericName(u: Universe, s: TypeId): (r: Outcome<string>)
    requires WellFormed(u) && s in u.types
    ensures r.Fail? ==> BlamesDictionary(u, r.error, u.types[s].rank)
    ensures DictionaryFree(u, s) ==> r.Ok?
    ensures r.Ok? ==> '`' !in r.value
    decreases u.types[s].rank, 2, 0
  {
    var args :- ArgumentNames(u, s, 0);
    JoinAvoids(", ", args, '`');
    Ok(RemoveTypeArity(u.types[s].name) + "<" + Join(", ", args) + ">")
  }

  // ---------------------------------------------------------------------------
  // The projection rules, one lemma each

  /** A null type projects to `any`, and `Nullable<T>` projects exactly as `T` does. */
  lemma NullableIsTransparent(u: Universe, n: TypeId)
    requires WellFormed(u) && n in u.types
    requires u.types[n].nullableUnderlying.Some?
    requires u.types[n].nullableUnderlying.value in u.types
    requires u.types[u.types[n].nullableUnderlying.value].nullableUnderlying.None?
    ensures TsType(u, None) == Ok("any")
    ensures TsType(u, Some(n)) == TsType(u, u.types[n].nullableUnderlying)
  {
  }

  /** A type that is not a `Nullable<>` wrapper, as every type that reaches the rules
      below after stripping is. */
  predicate NotNullable(u: Universe, t: TypeId)
    requires t in u.types
  {
    u.types[t].nullableUnderlying.None?
  }

  /** A collection projects to its element's projection followed by `[]`; if the
      element's projection fails, the collection's fails with the same error. */
  lemma CollectionProjection(u: Universe, c: TypeId, e: TypeId)
    requires WellFormed(u) && c in u.types && NotNullable(u, c)
    requires !IsSimpleType(u, c) && IsCollectionType(u, c)
    requires CollectionType(u, c) == Some(e)
    ensures TsType(u, Some(e)).Ok? ==> TsType(u, Some(c)) == Ok(TsType(u, Some(e)).value + "[]")
    ensures TsType(u, Some(e)).Fail? ==> TsType(u, Some(c)) == Fail(TsType(u, Some(e)).error)
  {
  }

  /** A typed sequence, `IEnumerable<E>` itself or a type such as `List<E>` that
      implements it, projects to the projection of `E` followed by `[]`. */
  lemma EnumerableProjection(u: Universe, c: TypeId, e: TypeId)
    requires WellFormed(u) && c in u.types && NotNullable(u, c)
    requires !IsSimpleType(u, c) && IsCollectionType(u, c) && u.types[c].elementType.None?
    requires || (u.types[c].name == "IEnumerable`1" && |u.types[c].genericArguments| > 0
                 && u.types[c].genericArguments[0] == e)
             || (u.types[c].name != "IEnumerable`1" && u.types[c].name != "IEnumerable"
                 && u.types[c].enumerableOf == Some(e))
    ensures e in u.types
    ensures TsType(u, Some(e)).Ok? ==> TsType(u, Some(c)) == Ok(TsType(u, Some(e)).value + "[]")
    ensures TsType(u, Some(e)).Fail? ==> TsType(u, Some(c)) == Fail(TsType(u, Some(e)).error)
  {
    CollectionProjection(u, c, e);
  }

  /** The untyped `IEnumerable` interface itself, and a collection known only through
      it, project to `Object[]`. */
  lemma UntypedCollectionProjection(u: Universe, c: TypeId)
    requires WellFormed(u) && c in u.types && NotNullable(u, c)
    requires !IsSimpleType(u, c) && IsCollectionType(u, c)
    requires u.types[c].elementType.None? && u.types[c].name != "IEnumerable`1"
    requires u.types[c].name == "IEnumerable" || (u.types[c].enumerableOf.None? && u.types[c].enumerable)
    ensures TsType(u, Some(c)) == Ok("Object[]")
  {
    assert CollectionType(u, c) == Some(u.objectType);
    assert TsType(u, Some(u.objectType)) == Ok("Object");
    CollectionProjection(u, c, u.objectType);
    assert "Object" + "[]" == "Object[]";
  }

  /** `a` is a collection of `e`: the array `e[]`, `IEnumerable<e>`, or a type such as
      `List<e>` that implements it. */
  predicate IsCollectionOf(u: Universe, a: TypeId, e: TypeId)
    requires WellFormed(u) && a in u.types
  {
    && NotNullable(u, a)
    && !IsSimpleType(u, a)
    && IsCollectionType(u, a)
    && CollectionType(u, a) == Some(e)
  }

  function Repeat(s: string, n: nat): string {
    if n == 0 then "" else Repeat(s, n - 1) + s
  }

  /** Nested arrays: `chain[k + 1]` is `chain[k][]`, so the last type of the chain
      projects to the projection of the first followed by one `[]` per level. */
  lemma {:induction false} NestedCollectionProjection(u: Universe, chain: seq<TypeId>)
    requires WellFormed(u) && |chain| > 0
    requires forall k :: 0 <= k < |chain| ==> chain[k] in u.types
    requires forall k :: 0 <= k < |chain| - 1 ==> IsCollectionOf(u, chain[k + 1], chain[k])
    ensures TsType(u, Some(chain[0])).Ok? ==>
      TsType(u, Some(chain[|chain| - 1])) == Ok(TsType(u, Some(chain[0])).value + Repeat("[]", |chain| - 1))
    ensures TsType(u, Some(chain[0])).Fail? ==>
      TsType(u, Some(chain[|chain| - 1])) == TsType(u, Some(chain[0]))
  {
    if |chain| > 1 {
      var init := chain[..|chain| - 1];
      NestedCollectionProjection(u, init);
      var last, prev := chain[|chain| - 1], chain[|chain| - 2];
      assert init[|init| - 1] == prev && init[0] == chain[0];
      assert IsCollectionOf(u, last, prev);
      ArrayLevel(u, last, prev, TsType(u, Some(chain[0])), |chain| - 2);
    } else {
      var base := TsType(u, Some(chain[0]));
      assert base.Ok? ==> base.value + Repeat("[]", 0) == base.value;
    }
  }

  /** One more array level adds one `[]`, or passes a failure on. */
  lemma ArrayLevel(u: Universe, a: TypeId, e: TypeId, base: Outcome<string>, n: nat)
    requires WellFormed(u) && a in u.types && e in u.types && IsCollectionOf(u, a, e)
    requires base.Ok? ==> TsType(u, Some(e)) == Ok(base.value + Repeat("[]", n))
    requires base.Fail? ==> TsType(u, Some(e)) == base
    ensures base.Ok? ==> TsType(u, Some(a)) == Ok(base.value + Repeat("[]", n + 1))
    ensures base.Fail? ==> TsType(u, Some(a)) == base
  {
    CollectionProjection(u, a, e);
    if base.Ok? {
      AppendAssoc(base.value, Repeat("[]", n), "[]");
    }
  }

  /** A collection of collections of `T`, such as `T[][]` or `List<List<T>>`, projects
      to the projection of `T` followed by `[][]`. */
  lemma ArrayOfArraysProjection(u: Universe, t: TypeId, a: TypeId, aa: TypeId)
    requires WellFormed(u) && t in u.types && a in u.types && aa in u.types
    requires IsCollectionOf(u, a, t) && IsCollectionOf(u, aa, a)
    requires TsType(u, Some(t)).Ok?
    ensures TsType(u, Some(aa)) == Ok(TsType(u, Some(t)).value + "[][]")
  {
    NestedCollectionProjection(u, [t, a, aa]);
    assert Repeat("[]", 2) == "[][]";
  }

  /** A generic dictionary (one implementing `IDictionary<K, V>`, or that interface
      itself, whose arguments are then its own): its key must project to exactly
      `number` or `string`, otherwise the projection fails naming the dictionary; a
      failure of the key or the value projection is passed on unchanged. */
  lemma DictionaryProjection(u: Universe, d: TypeId, key: TypeId, value: TypeId)
    requires WellFormed(u) && d in u.types && NotNullable(u, d)
    requires !IsSimpleType(u, d)
    requires || u.types[d].dictionaryOf == Some(DictionaryArgs(key, value))
             || (&& u.types[d].dictionaryOf.None?
                 && OptStartsWith(u.types[d].fullName, GenericDictionaryInterface)
                 && |u.types[d].genericArguments| >= 2
                 && u.types[d].genericArguments[0] == key && u.types[d].genericArguments[1] == value)
    requires key in u.types && value in u.types
    ensures TsType(u, Some(key)).Fail? ==> TsType(u, Some(d)) == TsType(u, Some(key))
    ensures TsType(u, Some(key)).Ok? && TsType(u, Some(value)).Fail? ==>
      TsType(u, Some(d)) == TsType(u, Some(value))
    ensures TsType(u, Some(key)).Ok? && TsType(u, Some(value)).Ok? ==>
      var k, v := TsType(u, Some(key)).value, TsType(u, Some(value)).value;
      TsType(u, Some(d)) ==
        if k == "number" || k == "string" then Ok("{ [key: " + k + "]: " + v + "; }")
        else Fail(UnsupportedKeyType(d))
  {
  }

  /** The untyped `IDictionary` interface, and a type implementing only it, project to
      a string-to-string map. */
  lemma UntypedDictionaryProjection(u: Universe, d: TypeId)
    requires WellFormed(u) && d in u.types && NotNullable(u, d)
    requires !IsSimpleType(u, d)
    requires u.types[d].dictionaryOf.None? && !OptStartsWith(u.types[d].fullName, GenericDictionaryInterface)
    requires u.types[d].dictionary || OptStartsWith(u.types[d].fullName, DictionaryInterface)
    ensures TsType(u, Some(d)) == Ok("{ [key: string]: string; }")
  {
  }

  /** A custom generic projects to `Name<A1, …, An>` over the texts of its arguments;
      a failing argument makes it fail with that argument's error. */
  lemma CustomGenericProjection(u: Universe, g: TypeId)
    requires WellFormed(u) && g in u.types && NotNullable(u, g)
    requires !IsSimpleType(u, g) && IsCustomGenericType(u, g)
    ensures ArgumentNames(u, g, 0).Ok? ==>
      TsType(u, Some(g)) ==
        Ok(RemoveTypeArity(u.types[g].name) + "<" + Join(", ", ArgumentNames(u, g, 0).value) + ">")
    ensures ArgumentNames(u, g, 0).Fail? ==> TsType(u, Some(g)) == Fail(ArgumentNames(u, g, 0).error)
  {
  }

  /** A generic argument is written by its own name when it is a generic parameter,
      and by its projection otherwise. */
  lemma ArgumentRule(u: Universe, s: TypeId, k: nat)
    requires WellFormed(u) && s in u.types && k < |u.types[s].genericArguments|
    ensures u.types[s].genericArguments[k] in u.types
    ensures var a := u.types[s].genericArguments[k];
      ArgumentText(u, s, k) == if u.types[a].isGenericParameter then Ok(u.types[a].name) else TsType(u, Some(a))
  {
    LinksOf(u, s);
    assert u.types[s].genericArguments[k] in Links(u, u.types[s]);
  }

  /** The names of the types `args`, in order. */
  function ParameterNames(u: Universe, args: seq<TypeId>): seq<string>
    requires forall a :: a in args ==> a in u.types
  {
    seq(|args|, k requires 0 <= k < |args| => u.types[args[k]].name)
  }

  /** Arguments that are all generic parameters are written by their names. */
  lemma {:induction false} ParameterArgumentNames(u: Universe, g: TypeId, from: nat)
    requires WellFormed(u) && g in u.types && from <= |u.types[g].genericArguments|
    requires forall a :: a in u.types[g].genericArguments ==> a in u.types && u.types[a].isGenericParameter
    ensures ArgumentNames(u, g, from) == Ok(ParameterNames(u, u.types[g].genericArguments[from..]))
    decreases |u.types[g].genericArguments| - from
  {
    var args := u.types[g].genericArguments;
    if from < |args| {
      ParameterArgumentNames(u, g, from + 1);
      ArgumentRule(u, g, from);
      assert args[from..] == [args[from]] + args[from + 1..];
      assert ParameterNames(u, args[from..]) == [u.types[args[from]].name] + ParameterNames(u, args[from + 1..]);
    } else {
      assert ArgumentNames(u, g, from) == Ok([]);
      assert ParameterNames(u, args[from..]) == [];
    }
  }

  /** An open generic type such as `Result<T>`, whose arguments are all generic
      parameters, projects to its arity-free name and its parameter names:
      `Result<T>`, `Pair<TKey, TValue>`. */
  lemma OpenGenericProjection(u: Universe, g: TypeId)
    requires WellFormed(u) && g in u.types && NotNullable(u, g)
    requires !IsSimpleType(u, g) && IsCustomGenericType(u, g)
    requires forall a :: a in u.types[g].genericArguments ==> a in u.types && u.types[a].isGenericParameter
    ensures TsType(u, Some(g)) ==
      Ok(RemoveTypeArity(u.types[g].name) + "<" + Join(", ", ParameterNames(u, u.types[g].genericArguments)) + ">")
  {
    var args := u.types[g].genericArguments;
    ParameterArgumentNames(u, g, 0);
    assert args[0..] == args;
    CustomGenericProjection(u, g);
  }

  /** The first failing generic argument aborts the argument list with its error. */
  lemma {:induction false} ArgumentFailureAborts(u: Universe, g: TypeId, from: nat, k: nat)
    requires WellFormed(u) && g in u.types
    requires from <= k < |u.types[g].genericArguments|
    requires ArgumentText(u, g, k).Fail?
    requires forall j :: from <= j < k ==> ArgumentText(u, g, j).Ok?
    ensures ArgumentNames(u, g, from) == Fail(ArgumentText(u, g, k).error)
    decreases k - from
  {
    if from < k {
      ArgumentFailureAborts(u, g, from + 1, k);
    }
  }

  /** What is left: a `System.*` type gives `any`, anything else its arity-stripped name. */
  lemma FallbackProjection(u: Universe, t: TypeId)
    requires WellFormed(u) && t in u.types && NotNullable(u, t)
    requires !IsSimpleType(u, t) && !IsCollectionType(u, t) && !IsDictionaryType(u, t)
    requires !IsCustomGenericType(u, t)
    ensures IsSystemType(u, t) ==> TsType(u, Some(t)) == Ok("any")
    ensures !IsSystemType(u, t) ==> TsType(u, Some(t)) == Ok(RemoveTypeArity(u.types[t].name))
  {
  }

  // ---------------------------------------------------------------------------
  // The declaration emitter

  /** An enum member as a TypeScript string literal: `'A'`. */
  function Quote(name: string): string {
    "'" + name + "'"
  }

  function QuoteAll(names: seq<string>): (r: seq<string>)
    ensures |r| == |names|
    ensures forall k :: 0 <= k < |names| ==> r[k] == Quote(names[k])
  {
    if names == [] then [] else [Quote(names[0])] + QuoteAll(names[1..])
  }

  /** `.Where(p => p.CanRead)`: the readable properties, in order. */
  function Readable(props: seq<Property>): (r: seq<Property>)
    ensures forall p :: p in r <==> p in props && p.canRead
    ensures |r| <= |props|
  {
    if props == [] then []
    else if props[0].canRead then [props[0]] + Readable(props[1..])
    else Readable(props[1..])
  }

  /** No de-duplication: a readable property is kept as often as it occurs, an
      unreadable one never. */
  lemma {:induction false} ReadableCount(props: seq<Property>, p: Property)
    ensures multiset(Readable(props))[p] == if p.canRead then multiset(props)[p] else 0
  {
    if props != [] {
      assert props == [props[0]] + props[1..];
      ReadableCount(props[1..], p);
    }
  }

  /** Filtering keeps order: the readable properties of `a + b` are those of `a`
      followed by those of `b`. */
  lemma {:induction false} ReadableAppend(a: seq<Property>, b: seq<Property>)
    ensures Readable(a + b) == Readable(a) + Readable(b)
  {
    if a != [] {
      assert (a + b)[0] == a[0] && (a + b)[1..] == a[1..] + b;
      ReadableAppend(a[1..], b);
      if a[0].canRead {
        AppendAssoc([a[0]], Readable(a[1..]), Readable(b));
      }
    } else {
      assert a + b == b;
    }
  }

  /** One property is kept exactly when it is readable. */
  lemma ReadableSingle(p: Property)
    ensures Readable([p]) == if p.canRead then [p] else []
  {
  }

  /** One member line of an object declaration: `camelCase(name) : TsType(type)`. */
  function PropertyLine(u: Universe, p: Property): (r: Outcome<string>)
    requires WellFormed(u) && p.propertyType in u.types
    ensures r.Ok? <==> TsType(u, Some(p.propertyType)).Ok?
    ensures r.Ok? ==> StartsWith(r.value, ToCamelCase(p.name) + " : ")
    ensures r.Ok? ==> EndsWith(r.value, TsType(u, Some(p.propertyType)).value)
    ensures r.Ok? ==> |r.value| == |ToCamelCase(p.name)| + 3 + |TsType(u, Some(p.propertyType)).value|
    ensures r.Fail? ==> BlamesDictionary(u, r.error, u.types[p.propertyType].rank)
  {
    var typeName :- TsType(u, Some(p.propertyType));
    Ok(ToCamelCase(p.name) + " : " + typeName)
  }

  /** The line of a property whose type projects is exactly `camelName : type`. */
  lemma PropertyLineText(u: Universe, p: Property)
    requires WellFormed(u) && p.propertyType in u.types && TsType(u, Some(p.propertyType)).Ok?
    ensures PropertyLine(u, p) == Ok(ToCamelCase(p.name) + " : " + TsType(u, Some(p.propertyType)).value)
  {
  }

  /** The member lines of `props`, in order, stopping at the first property whose
      projection fails. */
  function PropertyLines(u: Universe, props: seq<Property>): (r: Outcome<seq<string>>)
    requires WellFormed(u) && forall p :: p in props ==> p.propertyType in u.types
    ensures r.Ok? ==> |r.value| == |props|
    ensures r.Ok? ==> forall k :: 0 <= k < |props| ==> PropertyLine(u, props[k]) == Ok(r.value[k])
    ensures r.Fail? ==> exists k :: (0 <= k < |props| && PropertyLine(u, props[k]) == Fail(r.error) &&
      forall j :: 0 <= j < k ==> PropertyLine(u, props[j]).Ok?)
  {
    if props == [] then Ok([])
    else
      var first :- PropertyLine(u, props[0]);
      var rest :- PropertyLines(u, props[1..]);
      Ok([first] + rest)
  }

  /** The enum members as a union of string literals: `'A' | 'B'`. */
  function EnumUnion(names: seq<string>): (r: string)
    ensures r == "" <==> names == []
  {
    Join(" | ", QuoteAll(names))
  }

  /** Every readable property of `t`, and of its generic definition, has a type from
      which no dictionary is reachable. Unreadable properties are not shown, so they
      do not matter. */
  ghost predicate AllReadableDictionaryFree(u: Universe, t: TypeId)
    requires WellFormed(u) && t in u.types
  {
    LinksOf(u, t);
    && (forall p :: p in u.types[t].properties && p.canRead ==> DictionaryFree(u, p.propertyType))
    && (u.types[t].genericDefinition.Some? ==>
          var d := u.types[t].genericDefinition.value;
          LinksOf(u, d);
          && DictionaryFree(u, d)
          && forall p :: p in u.types[d].properties && p.canRead ==> DictionaryFree(u, p.propertyType))
  }

  /** The type whose properties and name an object declaration shows: the stripped
      type, or its generic type definition when `useGenericTypes` is false. */
  function DeclaredType(u: Universe, t: TypeId, useGenericTypes: bool): (d: TypeId)
    requires WellFormed(u) && t in u.types
    ensures d in u.types && forall p :: p in u.types[d].properties ==> p.propertyType in u.types
    ensures useGenericTypes || !u.types[StripNullable(u, t)].isGenericType ==> d == StripNullable(u, t)
    ensures !useGenericTypes && u.types[StripNullable(u, t)].isGenericType ==>
      Some(d) == u.types[StripNullable(u, t)].genericDefinition
  {
    var e := StripNullable(u, t);
    LinksOf(u, e);
    if useGenericTypes || !u.types[e].isGenericType then e
    else
      LinksOf(u, u.types[e].genericDefinition.value);
      u.types[e].genericDefinition.value
  }

  /** `GetTypescriptInterface`: for an enum, `export type E = 'A' | 'B'`; otherwise an
      object type alias with one line per readable property. With `useGenericTypes`
      false, a generic type is declared through its generic type definition.
      `newLine` is `Environment.NewLine`. */
  function GetTypescriptInterface(u: Universe, t: TypeId, useGenericTypes: bool, newLine: string)
    : (r: Outcome<string>)
    requires WellFormed(u) && t in u.types
    ensures r.Ok? ==> StartsWith(r.value, "\nexport type ")
    ensures r.Fail? ==> r.error.dictionary in u.types && IsDictionaryType(u, r.error.dictionary)
    ensures DictionaryFree(u, StripNullable(u, t)) && AllReadableDictionaryFree(u, StripNullable(u, t)) ==> r.Ok?
  {
    var exportType := StripNullable(u, t);
    var info := u.types[exportType];
    LinksOf(u, exportType);
    if info.isEnum then
      var name :- TsType(u, Some(exportType));
      Ok("\nexport type " + name + " = " + EnumUnion(info.enumNames))
    else
      var declared := DeclaredType(u, t, useGenericTypes);
      var lines :- PropertyLines(u, Readable(u.types[declared].properties));
      var name :- TsType(u, Some(declared));
      Ok("\nexport type " + name + " = {\n\t" + Join(newLine + "    ", lines) + "\n}")
  }

  /** Lines with dictionary-free property types never fail. */
  lemma {:induction false} PropertyLinesSucceed(u: Universe, props: seq<Property>)
    requires WellFormed(u) && forall p :: p in props ==> p.propertyType in u.types
    requires forall p :: p in props ==> DictionaryFree(u, p.propertyType)
    ensures PropertyLines(u, props).Ok?
  {
    if props != [] {
      PropertyLinesSucceed(u, props[1..]);
    }
  }

  /** Reads back a union of single-quoted literals separated by ` | `. */
  function ParseUnion(s: string): (r: Option<seq<string>>)
    decreases |s|
  {
    if |s| < 2 || s[0] != '\'' then None
    else
      var body := s[1..];
      var name := TakeBefore(body, '\'');
      if |name| == |body| then None
      else
        var rest := body[|name| + 1..];
        if rest == [] then Some([name])
        else if StartsWith(rest, " | ") then
          match ParseUnion(rest[3..])
          case None => None
          case Some(names) => Some([name] + names)
        else None
  }

  /** Enum member names never hold a quote, so the emitted union reads back as
      exactly the members, in order. */
  lemma {:induction false} EnumUnionRoundTrip(names: seq<string>)
    requires |names| > 0
    requires forall k :: 0 <= k < |names| ==> '\'' !in names[k]
    ensures ParseUnion(EnumUnion(names)) == Some(names)
  {
    if |names| == 1 {
      SingleUnionRoundTrip(names[0]);
      assert names == [names[0]];
    } else {
      var n, tail := names[0], EnumUnion(names[1..]);
      UnionHead(names);
      ParseLiteralThenMore(n, tail);
      EnumUnionRoundTrip(names[1..]);
      assert [n] + names[1..] == names;
    }
  }

  lemma SingleUnionRoundTrip(n: string)
    requires '\'' !in n
    ensures ParseUnion(EnumUnion([n])) == Some([n])
  {
    assert QuoteAll([n]) == [Quote(n)];
    assert EnumUnion([n]) == "'" + n + "'" + "";
    ParseOneLiteral(n, "");
  }

  /** A literal followed by ` | ` reads as that name in front of what the rest reads as. */
  lemma ParseLiteralThenMore(n: string, tail: string)
    requires '\'' !in n
    ensures ParseUnion("'" + n + "'" + (" | " + tail)) ==
      match ParseUnion(tail)
      case None => None
      case Some(names) => Some([n] + names)
  {
    var rest := " | " + tail;
    ParseOneLiteral(n, rest);
    assert rest[..3] == " | " && rest[3..] == tail;
  }

  /** A union of several members is the first literal, ` | `, and the rest. */
  lemma UnionHead(names: seq<string>)
    requires |names| > 1
    ensures EnumUnion(names) == "'" + names[0] + "'" + (" | " + EnumUnion(names[1..]))
    ensures StartsWith(" | " + EnumUnion(names[1..]), " | ")
    ensures (" | " + EnumUnion(names[1..]))[3..] == EnumUnion(names[1..])
  {
    var tail := EnumUnion(names[1..]);
    assert QuoteAll(names)[0] == Quote(names[0]);
    assert QuoteAll(names)[1..] == QuoteAll(names[1..]);
    assert (" | " + tail)[..3] == " | ";
  }

  /** One quoted literal is read up to its closing quote, and parsing continues
      after it. */
  lemma ParseOneLiteral(n: string, rest: string)
    requires '\'' !in n
    ensures ParseUnion("'" + n + "'" + rest) ==
      if rest == [] then Some([n])
      else if StartsWith(rest, " | ") then
        (match ParseUnion(rest[3..])
         case None => None
         case Some(names) => Some([n] + names))
      else None
  {
    var s := "'" + n + "'" + rest;
    var body := n + ['\''] + rest;
    assert s[1..] == body;
    TakeBeforeStopsAt(n, '\'', rest);
    assert body[|n| + 1..] == rest;
  }

  /** The declaration of an enum: `export type` followed by its projected name and the
      union of its members, which reads back as `Enum.GetNames`. An enum without
      members leaves nothing after the `=`. */
  lemma EnumDeclaration(u: Universe, t: TypeId, useGenericTypes: bool, newLine: string)
    requires WellFormed(u) && t in u.types
    requires u.types[StripNullable(u, t)].isEnum
    requires forall n :: n in u.types[StripNullable(u, t)].enumNames ==> '\'' !in n
    ensures var r := GetTypescriptInterface(u, t, useGenericTypes, newLine);
      var e := StripNullable(u, t);
      var names := u.types[e].enumNames;
      && (TsType(u, Some(e)).Fail? ==> r == Fail(TsType(u, Some(e)).error))
      && (TsType(u, Some(e)).Ok? && names != [] ==> r.Ok? && exists union ::
            && r.value == "\nexport type " + TsType(u, Some(e)).value + " = " + union
            && ParseUnion(union) == Some(names))
      && (TsType(u, Some(e)).Ok? && names == [] ==>
            r == Ok("\nexport type " + TsType(u, Some(e)).value + " = "))
  {
    var e := StripNullable(u, t);
    if u.types[e].enumNames != [] {
      EnumUnionRoundTrip(u.types[e].enumNames);
    } else if TsType(u, Some(e)).Ok? {
      assert EnumUnion([]) == "";
      assert "\nexport type " + TsType(u, Some(e)).value + " = " + "" ==
        "\nexport type " + TsType(u, Some(e)).value + " = ";
    }
  }

  /** The declaration of a class or struct: one line `camelName : type` per readable
      property of the declared type, in reflection order, joined by a new line and
      four spaces inside braces. When `useGenericTypes` is false, a constructed generic
      type is declared through its generic type definition. */
  lemma ObjectDeclaration(u: Universe, t: TypeId, useGenericTypes: bool, newLine: string)
    requires WellFormed(u) && t in u.types
    requires !u.types[StripNullable(u, t)].isEnum
    ensures var declared := DeclaredType(u, t, useGenericTypes);
      var props := Readable(u.types[declared].properties);
      var r := GetTypescriptInterface(u, t, useGenericTypes, newLine);
      && (r.Ok? <==> PropertyLines(u, props).Ok? && TsType(u, Some(declared)).Ok?)
      && (r.Ok? ==>
            && (forall k :: 0 <= k < |props| ==>
                  PropertyLine(u, props[k]) == Ok(PropertyLines(u, props).value[k]))
            && r.value == "\nexport type " + TsType(u, Some(declared)).value + " = {\n\t" +
                 Join(newLine + "    ", PropertyLines(u, props).value) + "\n}")
      && (PropertyLines(u, props).Fail? ==> r == Fail(PropertyLines(u, props).error))
  {
  }

  // ---------------------------------------------------------------------------
  // A null type, as the source is written

  /** What `Nullable.GetUnderlyingType` answers: the underlying type of a
      `Nullable<T>`, null for any other type, and an `ArgumentNullException` when
      the type itself is null. */
  datatype UnderlyingLookup = Underlying(underlying: Option<TypeId>) | ArgumentNullThrown

  function GetUnderlyingType(u: Universe, t: Option<TypeId>): (r: UnderlyingLookup)
    requires InUniverse(u, t)
    ensures r.ArgumentNullThrown? <==> t.None?
    ensures r.Underlying? ==> r.underlying == u.types[t.value].nullableUnderlying
  {
    if t.None? then ArgumentNullThrown else Underlying(u.types[t.value].nullableUnderlying)
  }

  /** `StripNullable` as written for a possibly-null type:
      `Nullable.GetUnderlyingType(type) ?? type`. */
  function StripNullableAsWritten(u: Universe, t: Option<TypeId>): (r: UnderlyingLookup)
    requires InUniverse(u, t)
  {
    match GetUnderlyingType(u, t)
    case ArgumentNullThrown => ArgumentNullThrown
    case Underlying(x) => Underlying(if x.Some? then x else t)
  }

  /** `TsType(null)` never reaches its "null gives any" branch: stripping a null type
      throws, and stripping a non-null type never yields null. The model's `TsType`
      gives `any` for null, as that branch intends. */
  lemma NullTypeBranchUnreachable(u: Universe)
    requires WellFormed(u)
    ensures StripNullableAsWritten(u, None) == ArgumentNullThrown
    ensures forall t :: t in u.types ==>
      StripNullableAsWritten(u, Some(t)).Underlying? && StripNullableAsWritten(u, Some(t)).underlying.Some?
    ensures TsType(u, None) == Ok("any")
  {
  }
}

