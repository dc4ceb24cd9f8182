/** `TypeExtensions`: collection flattening, the validity filter for exported types,
    the generic-argument walk, and `GetAllTypes`, the discovery of every type a set of
    root types needs declared. */
module TypeExtensions {
  import opened Wrappers
  import opened Collections
  import opened Reflection
  import opened Classification
  import opened TypeScriptExtensions

  // ---------------------------------------------------------------------------
  // Flatten

  /** The `while` loop of `Flatten`: follow the collection element type while the
      type is a collection. */
  function FlattenLoop(u: Universe, t: Option<TypeId>): (r: Option<TypeId>)
    requires WellFormed(u) && InUniverse(u, t)
    ensures InUniverse(u, r) && Rank(u, r) <= Rank(u, t)
    ensures r.None? || !IsCollectionType(u, r.value)
    decreases Rank(u, t), if t.Some? then 1 else 0
  {
    if t.Some? && IsCollectionType(u, t.value) then FlattenLoop(u, CollectionType(u, t.value)) else t
  }

  /** `Flatten`: a simple type is kept; anything else loses its collection layers. */
  function Flattened(u: Universe, t: Option<TypeId>): (r: Option<TypeId>)
    requires WellFormed(u) && InUniverse(u, t)
    ensures InUniverse(u, r) && Rank(u, r) <= Rank(u, t)
    ensures t.None? ==> r.None?
  {
    if t.Some? && IsSimpleType(u, t.value) then t else FlattenLoop(u, t)
  }

  method Flatten(u: Universe, t: Option<TypeId>) returns (r: Option<TypeId>)
    requires WellFormed(u) && InUniverse(u, t)
    ensures r == Flattened(u, t)
  {
    if t.Some? && IsSimpleType(u, t.value) {
      return t;
    }
    r := t;
    while r.Some? && IsCollectionType(u, r.value)
      invariant InUniverse(u, r)
      invariant FlattenLoop(u, r) == FlattenLoop(u, t)
      decreases Rank(u, r), if r.Some? then 1 else 0
    {
      r := CollectionType(u, r.value);
    }
  }

  /** What `Flatten` returns is null, simple, or not a collection, and flattening it
      again changes nothing. */
  lemma FlattenedIsFlat(u: Universe, t: Option<TypeId>)
    requires WellFormed(u) && InUniverse(u, t)
    ensures var r := Flattened(u, t);
      && (r.None? || IsSimpleType(u, r.value) || !IsCollectionType(u, r.value))
      && Flattened(u, r) == r
  {
  }

  /** An array, list or other collection flattens to what its element flattens to
      through the loop: `List<List<Foo>>` gives `Foo`. */
  lemma {:induction false} FlattenPeelsLayers(u: Universe, chain: seq<TypeId>)
    requires WellFormed(u) && |chain| > 0
    requires forall k :: 0 <= k < |chain| ==> chain[k] in u.types
    requires forall k :: 0 < k < |chain| ==>
      IsCollectionType(u, chain[k]) && CollectionType(u, chain[k]) == Some(chain[k - 1])
    requires !IsCollectionType(u, chain[0])
    ensures FlattenLoop(u, Some(chain[|chain| - 1])) == Some(chain[0])
  {
    if |chain| > 1 {
      var init := chain[..|chain| - 1];
      FlattenPeelsLayers(u, init);
      assert init[|init| - 1] == chain[|chain| - 2];
    }
  }

  // ---------------------------------------------------------------------------
  // IsValidType

  /** The conditions `IsValidType` puts on the stripped, flattened type: a
      non-generic or custom generic type that is not simple, not `System.*`, is an
      enum or a class, is public and is not primitive. */
  predicate IsValid(u: Universe, x: TypeId)
    requires x in u.types
  {
    var i := u.types[x];
    && (!i.isGenericType || IsCustomGenericType(u, x))
    && !IsSimpleType(u, x)
    && !IsSystemType(u, x)
    && (i.isEnum || i.isClass)
    && i.isPublic
    && !i.isPrimitive
  }

  /** `IsValidType(type, out stripped)`: the stripped, flattened type when it is
      valid, null when it is not. */
  function ValidResult(u: Universe, t: TypeId): (r: Option<TypeId>)
    requires WellFormed(u) && t in u.types
    ensures r.Some? ==> r.value in u.types && IsValid(u, r.value)
    ensures r.Some? ==> !IsCollectionType(u, r.value) && NotNullable(u, r.value)
    ensures r.Some? ==> r == Flattened(u, Some(StripNullable(u, t)))
  {
    var s := Flattened(u, Some(StripNullable(u, t)));
    if s.Some? && IsValid(u, s.value) then
      LinksOf(u, s.value);
      s
    else None
  }

  /** A type `IsValidType` accepts is a fixed point of it: validating the stripped
      result again yields it unchanged. */
  lemma ValidResultIsFixedPoint(u: Universe, t: TypeId)
    requires WellFormed(u) && t in u.types
    requires ValidResult(u, t).Some?
    ensures ValidResult(u, ValidResult(u, t).value) == ValidResult(u, t)
  {
    var x := ValidResult(u, t).value;
    assert StripNullable(u, x) == x;
    assert Flattened(u, Some(x)) == Some(x);
  }

  // ---------------------------------------------------------------------------
  // GetGenericTypes

  /** `GetGenericTypes`: for a generic type, each argument followed by its own
      generic types, then the type itself when it is a custom generic. */
  function GenericTypes(u: Universe, t: TypeId): (r: seq<TypeId>)
    requires WellFormed(u) && t in u.types
    ensures forall x :: x in r ==> x in u.types && (x == t || u.types[x].rank < u.types[t].rank)
    decreases u.types[t].rank, 1, 0
  {
    if !u.types[t].isGenericType then []
    else ArgsGenericTypes(u, t, 0) + (if IsCustomGenericType(u, t) then [t] else [])
  }

  /** The part of `GenericTypes(t)` contributed by the arguments from index `from` on. */
  function ArgsGenericTypes(u: Universe, t: TypeId, from: nat): (r: seq<TypeId>)
    requires WellFormed(u) && t in u.types && from <= |u.types[t].genericArguments|
    ensures forall x :: x in r ==> x in u.types && u.types[x].rank < u.types[t].rank
    decreases u.types[t].rank, 0, |u.types[t].genericArguments| - from
  {
    var args := u.types[t].genericArguments;
    LinksOf(u, t);
    if from == |args| then []
    else [args[from]] + GenericTypes(u, args[from]) + ArgsGenericTypes(u, t, from + 1)
  }

  method GetGenericTypes(u: Universe, t: TypeId) returns (list: seq<TypeId>)
    requires WellFormed(u) && t in u.types
    ensures list == GenericTypes(u, t)
    decreases u.types[t].rank
  {
    list := [];
    if !u.types[t].isGenericType {
      return;
    }
    var args := u.types[t].genericArguments;
    LinksOf(u, t);
    for i := 0 to |args|
      invariant list + ArgsGenericTypes(u, t, i) == ArgsGenericTypes(u, t, 0)
    {
      ghost var rest := ArgsGenericTypes(u, t, i + 1);
      assert ArgsGenericTypes(u, t, i) == [args[i]] + GenericTypes(u, args[i]) + rest;
      var nested := GetGenericTypes(u, args[i]);
      AppendAssoc(list, [args[i]] + nested, rest);
      list := list + ([args[i]] + nested);
    }
    assert list == ArgsGenericTypes(u, t, 0);
    if IsCustomGenericType(u, t) {
      list := list + [t];
    }
  }

  /** `x` is nested in the generic type `t`: an argument of it, or nested in one. */
  ghost predicate NestedIn(u: Universe, x: TypeId, t: TypeId)
    requires WellFormed(u) && t in u.types
    decreases u.types[t].rank
  {
    LinksOf(u, t);
    && u.types[t].isGenericType
    && exists a :: a in u.types[t].genericArguments && (x == a || NestedIn(u, x, a))
  }

  /** `GetGenericTypes(t)` holds exactly the types nested in `t`, and `t` itself when
      it is a custom generic. */
  lemma {:induction false} GenericTypesMembership(u: Universe, t: TypeId, x: TypeId)
    requires WellFormed(u) && t in u.types
    ensures x in GenericTypes(u, t) <==> (x == t && IsCustomGenericType(u, t)) || NestedIn(u, x, t)
    decreases u.types[t].rank, 1, 0
  {
    LinksOf(u, t);
    if NestedIn(u, x, t) {
      NestedRankBelow(u, x, t);
    }
    if u.types[t].isGenericType {
      ArgsMembership(u, t, 0, x);
      if NestedIn(u, x, t) {
        var a :| a in u.types[t].genericArguments && (x == a || NestedIn(u, x, a));
        var k :| 0 <= k < |u.types[t].genericArguments| && u.types[t].genericArguments[k] == a;
        GenericTypesMembership(u, a, x);
      }
      if x in ArgsGenericTypes(u, t, 0) {
        var k :| 0 <= k < |u.types[t].genericArguments| &&
          var a := u.types[t].genericArguments[k]; x == a || (a in u.types && x in GenericTypes(u, a));
        var a := u.types[t].genericArguments[k];
        GenericTypesMembership(u, a, x);
        assert a in u.types[t].genericArguments && (x == a || NestedIn(u, x, a));
      }
    }
  }

  /** Membership in the contribution of the arguments from index `from` on. */
  lemma {:induction false} ArgsMembership(u: Universe, t: TypeId, from: nat, x: TypeId)
    requires WellFormed(u) && t in u.types && from <= |u.types[t].genericArguments|
    ensures x in ArgsGenericTypes(u, t, from) <==>
      exists k :: from <= k < |u.types[t].genericArguments| &&
        var a := u.types[t].genericArguments[k]; x == a || (a in u.types && x in GenericTypes(u, a))
    decreases |u.types[t].genericArguments| - from
  {
    LinksOf(u, t);
    var args := u.types[t].genericArguments;
    if from < |args| {
      ArgsMembership(u, t, from + 1, x);
      var a := args[from];
      var rest := ArgsGenericTypes(u, t, from + 1);
      assert ArgsGenericTypes(u, t, from) == [a] + GenericTypes(u, a) + rest;
      if x in ArgsGenericTypes(u, t, from) && x !in rest {
        assert from <= from < |args| && (x == a || (a in u.types && x in GenericTypes(u, a)));
      }
      if exists k :: from <= k < |args| && var b := args[k]; x == b || (b in u.types && x in GenericTypes(u, b)) {
        var k :| from <= k < |args| && var b := args[k]; x == b || (b in u.types && x in GenericTypes(u, b));
        if k == from {
          assert x in ArgsGenericTypes(u, t, from);
        } else {
          assert x in rest;
        }
      }
    }
  }

  /** Types nested in `t` have a smaller rank, so `t` is never nested in itself. */
  lemma {:induction false} NestedRankBelow(u: Universe, x: TypeId, t: TypeId)
    requires WellFormed(u) && t in u.types && NestedIn(u, x, t)
    ensures x in u.types && u.types[x].rank < u.types[t].rank
    decreases u.types[t].rank
  {
    LinksOf(u, t);
    var a :| a in u.types[t].genericArguments && (x == a || NestedIn(u, x, a));
    if x != a {
      NestedRankBelow(u, x, a);
    }
  }

  // ---------------------------------------------------------------------------
  // GetPropTypes

  /** The declared types of `props`, in order. */
  function PropertyTypes(props: seq<Property>): (r: seq<TypeId>)
    ensures |r| == |props|
    ensures forall k :: 0 <= k < |props| ==> r[k] == props[k].propertyType
  {
    seq(|props|, k requires 0 <= k < |props| => props[k].propertyType)
  }

  /** `GetPropTypes`: the distinct declared types of the readable properties, in
      order of first appearance. */
  function PropTypes(u: Universe, t: TypeId): (r: seq<TypeId>)
    requires WellFormed(u) && t in u.types
    ensures NoDups(r)
    ensures forall x :: x in r <==> exists p :: p in u.types[t].properties && p.canRead && p.propertyType == x
    ensures forall x :: x in r ==> x in u.types
  {
    LinksOf(u, t);
    var types := PropertyTypes(Readable(u.types[t].properties));
    assert forall p :: p in Readable(u.types[t].properties) ==> p.propertyType in types by {
      forall p | p in Readable(u.types[t].properties) ensures p.propertyType in types {
        var k :| 0 <= k < |Readable(u.types[t].properties)| && Readable(u.types[t].properties)[k] == p;
        assert types[k] == p.propertyType;
      }
    }
    Distinct(types)
  }

  // ---------------------------------------------------------------------------
  // GetAllTypes

  /** The types `GetAllTypes` visits after `x`: its generic types when it is generic,
      then its property types. */
  function GenericPart(u: Universe, x: TypeId): (r: seq<TypeId>)
    requires WellFormed(u) && x in u.types
    ensures forall y :: y in r ==> y in u.types
  {
    if u.types[x].isGenericType then GenericTypes(u, x) else []
  }

  /** The valid results of the types in `xs`: what adding them all may append. */
  function AddedBy(u: Universe, xs: seq<TypeId>): (r: set<TypeId>)
    requires WellFormed(u) && forall x :: x in xs ==> x in u.types
    ensures forall y :: y in r ==> y in u.types && IsValid(u, y)
  {
    set s | s in xs && ValidResult(u, s).Some? :: ValidResult(u, s).value
  }

  /** The types one visit of `x` can add. */
  function NextTypes(u: Universe, x: TypeId): set<TypeId>
    requires WellFormed(u) && x in u.types
  {
    AddedBy(u, GenericPart(u, x)) + AddedBy(u, PropTypes(u, x))
  }

  /** `AddToList`: append the valid result of `t` unless it is null or already listed. */
  function AddToList(u: Universe, list: seq<TypeId>, t: TypeId): (r: seq<TypeId>)
    requires WellFormed(u) && t in u.types
    ensures |list| <= |r| <= |list| + 1 && r[..|list|] == list
    ensures forall y :: y in r <==> y in list || Some(y) == ValidResult(u, t)
    ensures NoDups(list) ==> NoDups(r)
  {
    match ValidResult(u, t)
    case None => list
    case Some(x) => if x in list then list else list + [x]
  }

  /** `AddToList` applied to each of `xs` in turn. */
  function AddAll(u: Universe, list: seq<TypeId>, xs: seq<TypeId>): (r: seq<TypeId>)
    requires WellFormed(u) && forall x :: x in xs ==> x in u.types
    ensures |list| <= |r| && r[..|list|] == list
    ensures NoDups(list) ==> NoDups(r)
  {
    if xs == [] then list
    else
      var init := xs[..|xs| - 1];
      var last := xs[|xs| - 1];
      assert xs == init + [last];
      AddToList(u, AddAll(u, list, init), last)
  }

  /** What `AddAll` holds: what was listed, and the valid results of what was added. */
  lemma {:induction false} AddAllMembership(u: Universe, list: seq<TypeId>, xs: seq<TypeId>)
    requires WellFormed(u) && forall x :: x in xs ==> x in u.types
    ensures forall y :: y in AddAll(u, list, xs) <==> y in list || y in AddedBy(u, xs)
  {
    if xs != [] {
      var init := xs[..|xs| - 1];
      assert xs == init + [xs[|xs| - 1]];
      AddAllMembership(u, list, init);
    }
  }

  function Elements(list: seq<TypeId>): set<TypeId> {
    set x | x in list
  }

  /** A set of types that holds everything one visit of its members can add. */
  ghost predicate Closed(u: Universe, s: set<TypeId>)
    requires WellFormed(u)
  {
    s <= u.types.Keys && forall x :: x in s ==> NextTypes(u, x) <= s
  }

  /** Every listed type is a seed, or was added by the visit of an earlier one. */
  ghost predicate Discovered(u: Universe, seeds: set<TypeId>, list: seq<TypeId>)
    requires WellFormed(u) && forall x :: x in list ==> x in u.types
  {
    forall k :: 0 <= k < |list| ==>
      list[k] in seeds || exists j :: 0 <= j < k && list[k] in NextTypes(u, list[j])
  }

  method GetAllTypes(u: Universe, t: TypeId) returns (list: seq<TypeId>)
    requires WellFormed(u) && t in u.types
    ensures ValidResult(u, t).None? ==> list == []
    ensures ValidResult(u, t).Some? ==> |list| > 0 && list[0] == ValidResult(u, t).value
    ensures NoDups(list)
    ensures forall x :: x in list ==> x in u.types && IsValid(u, x)
    ensures AddedBy(u, [t]) <= Elements(list)
    ensures Closed(u, Elements(list))
    ensures Discovered(u, AddedBy(u, [t]), list)
  {
    list := AddToList(u, [], t);
    var index := 0;
    while index < |list|
      invariant index <= |list|
      invariant ValidResult(u, t).None? ==> list == []
      invariant ValidResult(u, t).Some? ==> |list| > 0 && list[0] == ValidResult(u, t).value
      invariant NoDups(list)
      invariant forall x :: x in list ==> x in u.types && IsValid(u, x)
      invariant forall k :: 0 <= k < index ==> NextTypes(u, list[k]) <= Elements(list)
      invariant Discovered(u, AddedBy(u, [t]), list)
      decreases |u.types.Keys| - index
    {
      NoDupsBound(list, u.types.Keys);
      var before := list;
      list := Visit(u, list, index);
      VisitPreserves(u, AddedBy(u, [t]), before, list, index);
      index := index + 1;
    }
  }

  /** The body of the `GetAllTypes` loop: add the generic types of the type at
      `index` when it is generic, then its property types. */
  method Visit(u: Universe, list: seq<TypeId>, index: nat) returns (after: seq<TypeId>)
    requires WellFormed(u) && index < |list| && list[index] in u.types
    ensures after == AddAll(u, AddAll(u, list, GenericPart(u, list[index])), PropTypes(u, list[index]))
  {
    after := list;
    var current := list[index];
    if u.types[current].isGenericType {
      var generics := GetGenericTypes(u, current);
      after := AddEach(u, after, generics);
    }
    var props := PropTypes(u, current);
    after := AddEach(u, after, props);
  }

  /** A `foreach` loop calling `AddToList` on each of `xs`. */
  method AddEach(u: Universe, list: seq<TypeId>, xs: seq<TypeId>) returns (after: seq<TypeId>)
    requires WellFormed(u) && forall x :: x in xs ==> x in u.types
    ensures after == AddAll(u, list, xs)
  {
    after := list;
    for j := 0 to |xs|
      invariant after == AddAll(u, list, xs[..j])
    {
      assert xs[..j + 1][..j] == xs[..j];
      after := AddToList(u, after, xs[j]);
    }
    assert xs[..|xs|] == xs;
  }

  /** One visit keeps every invariant of the `GetAllTypes` loop, and closes the
      visited type. */
  lemma VisitPreserves(u: Universe, seeds: set<TypeId>, before: seq<TypeId>, after: seq<TypeId>, index: nat)
    requires WellFormed(u) && index < |before|
    requires forall x :: x in before ==> x in u.types && IsValid(u, x)
    requires NoDups(before)
    requires forall k :: 0 <= k < index ==> NextTypes(u, before[k]) <= Elements(before)
    requires Discovered(u, seeds, before)
    requires after == AddAll(u, AddAll(u, before, GenericPart(u, before[index])), PropTypes(u, before[index]))
    ensures |before| <= |after| && after[..|before|] == before
    ensures NoDups(after)
    ensures forall x :: x in after ==> x in u.types && IsValid(u, x)
    ensures forall k :: 0 <= k < index + 1 ==> NextTypes(u, after[k]) <= Elements(after)
    ensures Discovered(u, seeds, after)
  {
    VisitAppends(u, before, after, index);
    VisitClosesCurrent(u, before, after, index);
    ClosedPrefixGrows(u, before, after, index);
    VisitExtends(u, seeds, before, after, index);
  }

  /** The visited prefix stays closed as the list grows, now one type longer. */
  lemma ClosedPrefixGrows(u: Universe, before: seq<TypeId>, after: seq<TypeId>, index: nat)
    requires WellFormed(u) && index < |before| <= |after| && after[..|before|] == before
    requires forall x :: x in after ==> x in u.types
    requires forall k :: 0 <= k < index ==> NextTypes(u, before[k]) <= Elements(before)
    requires NextTypes(u, before[index]) <= Elements(after)
    requires Elements(before) <= Elements(after)
    ensures forall k :: 0 <= k < index + 1 ==> NextTypes(u, after[k]) <= Elements(after)
  {
    var next := NextMap(u);
    PrefixElements(before, after);
    VisitedBridge(u, before, index);
    PrefixStaysVisited(next, before, after, index);
    VisitedBridgeBack(u, after, index + 1);
  }

  /** A visit only appends, and only what the visited type can add. */
  lemma VisitAppends(u: Universe, before: seq<TypeId>, after: seq<TypeId>, index: nat)
    requires WellFormed(u) && index < |before| && before[index] in u.types
    requires after == AddAll(u, AddAll(u, before, GenericPart(u, before[index])), PropTypes(u, before[index]))
    ensures |before| <= |after| && after[..|before|] == before
    ensures Elements(before) <= Elements(after)
    ensures NoDups(before) ==> NoDups(after)
    ensures forall y :: y in after ==> y in before || y in NextTypes(u, before[index])
  {
    var g, p := GenericPart(u, before[index]), PropTypes(u, before[index]);
    var middle := AddAll(u, before, g);
    VisitPrefix(u, before, middle, after, index);
    PrefixElements(before, after);
    VisitAddsOnlyNext(u, before, middle, after, g, p, index);
  }

  lemma VisitPrefix(u: Universe, before: seq<TypeId>, middle: seq<TypeId>, after: seq<TypeId>, index: nat)
    requires WellFormed(u) && index < |before| && before[index] in u.types
    requires middle == AddAll(u, before, GenericPart(u, before[index]))
    requires after == AddAll(u, middle, PropTypes(u, before[index]))
    ensures |before| <= |after| && after[..|before|] == before
  {
    assert middle[..|before|] == before;
    assert after[..|middle|] == middle;
  }

  lemma PrefixElements(a: seq<TypeId>, b: seq<TypeId>)
    requires |a| <= |b| && b[..|a|] == a
    ensures Elements(a) <= Elements(b)
  {
    forall x | x in a ensures x in b {
      var k :| 0 <= k < |a| && a[k] == x;
      assert b[k] == x;
    }
  }

  lemma VisitAddsOnlyNext(u: Universe, before: seq<TypeId>, middle: seq<TypeId>, after: seq<TypeId>,
                          g: seq<TypeId>, p: seq<TypeId>, index: nat)
    requires WellFormed(u) && index < |before| && before[index] in u.types
    requires g == GenericPart(u, before[index]) && p == PropTypes(u, before[index])
    requires middle == AddAll(u, before, g) && after == AddAll(u, middle, p)
    ensures forall y :: y in after ==> y in before || y in NextTypes(u, before[index])
  {
    AddAllMembership(u, before, g);
    AddAllMembership(u, middle, p);
  }

  /** After a visit, everything the visited type can add is listed. */
  lemma VisitClosesCurrent(u: Universe, before: seq<TypeId>, after: seq<TypeId>, index: nat)
    requires WellFormed(u) && index < |before| && before[index] in u.types
    requires after == AddAll(u, AddAll(u, before, GenericPart(u, before[index])), PropTypes(u, before[index]))
    ensures NextTypes(u, before[index]) <= Elements(after)
  {
    var g, p := GenericPart(u, before[index]), PropTypes(u, before[index]);
    var middle := AddAll(u, before, g);
    AddAllMembership(u, before, g);
    AddAllMembership(u, middle, p);
  }

  /** One visit keeps the list a list of discovered types. */
  lemma VisitExtends(u: Universe, seeds: set<TypeId>, before: seq<TypeId>, after: seq<TypeId>, index: nat)
    requires WellFormed(u) && index < |before| <= |after| && after[..|before|] == before
    requires forall x :: x in after ==> x in u.types
    requires NoDups(after)
    requires forall y :: y in after ==> y in before || y in NextTypes(u, before[index])
    requires Discovered(u, seeds, before)
    ensures Discovered(u, seeds, after)
  {
    var next := NextMap(u);
    PrefixElements(before, after);
    DiscoveredBridge(u, seeds, before);
    assert next[before[index]] == NextTypes(u, before[index]);
    DiscoveryExtends(next, seeds, before, after, index);
    DiscoveredBridge(u, seeds, after);
  }

  /** Everything discovered from `seeds` lies in every closed set holding the seeds. */
  lemma DiscoveredIsLeast(u: Universe, seeds: set<TypeId>, list: seq<TypeId>, s: set<TypeId>)
    requires WellFormed(u) && forall x :: x in list ==> x in u.types
    requires Discovered(u, seeds, list) && Closed(u, s) && seeds <= s
    ensures Elements(list) <= s
  {
    DiscoveredBridge(u, seeds, list);
    ClosedBridge(u, s);
    DiscoveredUnderIsLeast(NextMap(u), seeds, list, s);
  }

  /** The contents of `GetAllTypes` are determined by the root alone: they are the
      least closed set holding the root's valid result, whatever order the visits
      took. */
  lemma DiscoveryDeterminesContents(u: Universe, seeds: set<TypeId>, a: seq<TypeId>, b: seq<TypeId>)
    requires WellFormed(u)
    requires forall x :: x in a ==> x in u.types
    requires forall x :: x in b ==> x in u.types
    requires seeds <= Elements(a) && seeds <= Elements(b)
    requires Closed(u, Elements(a)) && Closed(u, Elements(b))
    requires Discovered(u, seeds, a) && Discovered(u, seeds, b)
    ensures Elements(a) == Elements(b)
  {
    DiscoveredIsLeast(u, seeds, a, Elements(b));
    DiscoveredIsLeast(u, seeds, b, Elements(a));
  }

  /** What `GetAllTypes` promises of the list it returns for the root `t`. */
  ghost predicate AllTypesOfRoot(u: Universe, t: TypeId, list: seq<TypeId>)
    requires WellFormed(u) && t in u.types
  {
    && (ValidResult(u, t).None? ==> list == [])
    && (ValidResult(u, t).Some? ==> |list| > 0 && list[0] == ValidResult(u, t).value)
    && NoDups(list)
    && (forall x :: x in list ==> x in u.types && IsValid(u, x))
    && AddedBy(u, [t]) <= Elements(list)
    && Closed(u, Elements(list))
    && Discovered(u, AddedBy(u, [t]), list)
  }

  /** `GetAllTypes` over several roots: the lists of the roots one after another,
      with duplicates removed (`SelectMany`, `Distinct`, `ToList`). `parts` names the
      per-root lists. */
  method GetAllTypesOf(u: Universe, roots: seq<TypeId>)
    returns (list: seq<TypeId>, ghost parts: seq<seq<TypeId>>)
    requires WellFormed(u) && forall r :: r in roots ==> r in u.types
    ensures |parts| == |roots| && forall k :: 0 <= k < |roots| ==> AllTypesOfRoot(u, roots[k], parts[k])
    ensures list == Distinct(Concat(parts))
    ensures NoDups(list)
    ensures forall x :: x in list ==> x in u.types && IsValid(u, x)
    ensures AddedBy(u, roots) <= Elements(list)
    ensures Closed(u, Elements(list))
    ensures forall s :: Closed(u, s) && AddedBy(u, roots) <= s ==> Elements(list) <= s
  {
    var all: seq<TypeId> := [];
    parts := [];
    for i := 0 to |roots|
      invariant Joined(u, roots, i, all)
      invariant |parts| == i && all == Concat(parts) && PartsOf(u, roots, parts)
    {
      var part := GetAllTypes(u, roots[i]);
      JoinStep(u, roots, i, all, part);
      PartsGrow(u, roots, parts, part);
      ConcatSnoc(parts, part);
      parts := parts + [part];
      all := all + part;
    }
    assert roots[..|roots|] == roots;
    list := Distinct(all);
    assert Elements(list) == Elements(all);
  }

  /** The invariant of the loop in `GetAllTypesOf` after `i` roots: `all` holds only
      valid types, holds every type the roots add, is closed, and lies inside every
      closed set holding those. */
  ghost predicate Joined(u: Universe, roots: seq<TypeId>, i: nat, all: seq<TypeId>)
    requires WellFormed(u) && i <= |roots| && forall r :: r in roots ==> r in u.types
  {
    && (forall x :: x in all ==> x in u.types && IsValid(u, x))
    && AddedBy(u, roots[..i]) <= Elements(all)
    && Closed(u, Elements(all))
    && (forall s :: Closed(u, s) && AddedBy(u, roots[..i]) <= s ==> Elements(all) <= s)
  }

  /** `parts` are the lists `GetAllTypes` returns for the first roots. */
  ghost predicate PartsOf(u: Universe, roots: seq<TypeId>, parts: seq<seq<TypeId>>)
    requires WellFormed(u) && forall r :: r in roots ==> r in u.types
  {
    |parts| <= |roots| && forall k :: 0 <= k < |parts| ==> AllTypesOfRoot(u, roots[k], parts[k])
  }

  lemma PartsGrow(u: Universe, roots: seq<TypeId>, parts: seq<seq<TypeId>>, part: seq<TypeId>)
    requires WellFormed(u) && forall r :: r in roots ==> r in u.types
    requires PartsOf(u, roots, parts) && |parts| < |roots|
    requires AllTypesOfRoot(u, roots[|parts|], part)
    ensures PartsOf(u, roots, parts + [part])
  {
    var grown := parts + [part];
    assert forall k :: 0 <= k < |parts| ==> grown[k] == parts[k];
    assert grown[|parts|] == part;
  }

  lemma JoinStep(u: Universe, roots: seq<TypeId>, i: nat, all: seq<TypeId>, part: seq<TypeId>)
    requires WellFormed(u) && i < |roots| && forall r :: r in roots ==> r in u.types
    requires Joined(u, roots, i, all)
    requires AllTypesOfRoot(u, roots[i], part)
    ensures Joined(u, roots, i + 1, all + part)
  {
    JoinPart(u, roots, i, all, part);
  }

  /** Appending the types of one more root keeps the invariants of the loop in
      `GetAllTypesOf`. */
  lemma JoinPart(u: Universe, roots: seq<TypeId>, i: nat, all: seq<TypeId>, part: seq<TypeId>)
    requires WellFormed(u) && i < |roots| && forall r :: r in roots ==> r in u.types
    requires forall x :: x in all ==> x in u.types && IsValid(u, x)
    requires AddedBy(u, roots[..i]) <= Elements(all)
    requires Closed(u, Elements(all))
    requires forall s :: Closed(u, s) && AddedBy(u, roots[..i]) <= s ==> Elements(all) <= s
    requires forall x :: x in part ==> x in u.types && IsValid(u, x)
    requires AddedBy(u, [roots[i]]) <= Elements(part)
    requires Closed(u, Elements(part))
    requires Discovered(u, AddedBy(u, [roots[i]]), part)
    ensures forall x :: x in all + part ==> x in u.types && IsValid(u, x)
    ensures AddedBy(u, roots[..i + 1]) <= Elements(all + part)
    ensures Closed(u, Elements(all + part))
    ensures forall s :: Closed(u, s) && AddedBy(u, roots[..i + 1]) <= s ==> Elements(all + part) <= s
  {
    assert Elements(all + part) == Elements(all) + Elements(part);
    AddedBySplit(u, roots, i);
    ClosedUnion(u, Elements(all), Elements(part));
    forall s | Closed(u, s) && AddedBy(u, roots[..i + 1]) <= s
      ensures Elements(all + part) <= s
    {
      DiscoveredIsLeast(u, AddedBy(u, [roots[i]]), part, s);
    }
  }

  lemma AddedBySplit(u: Universe, roots: seq<TypeId>, i: nat)
    requires WellFormed(u) && i < |roots| && forall r :: r in roots ==> r in u.types
    ensures AddedBy(u, roots[..i + 1]) == AddedBy(u, roots[..i]) + AddedBy(u, [roots[i]])
  {
    assert roots[..i + 1] == roots[..i] + [roots[i]];
  }

  /** The union of two closed sets is closed. */
  lemma ClosedUnion(u: Universe, a: set<TypeId>, b: set<TypeId>)
    requires WellFormed(u) && Closed(u, a) && Closed(u, b)
    ensures Closed(u, a + b)
  {
  }

  // ---------------------------------------------------------------------------
  // Discovery over a map `next` from a type to what its visit adds

  /** What the visit of each type adds, as a map from the type. */
  ghost function NextMap(u: Universe): (m: map<TypeId, set<TypeId>>)
    requires WellFormed(u)
    ensures m.Keys == u.types.Keys
    ensures forall x :: x in u.types ==> m[x] == NextTypes(u, x)
  {
    map x | x in u.types :: NextTypes(u, x)
  }

  /** `s` holds everything the visit of any of its members adds. */
  ghost predicate ClosedUnder(next: map<TypeId, set<TypeId>>, s: set<TypeId>) {
    s <= next.Keys && forall x :: x in s ==> next[x] <= s
  }

  /** The first `n` listed types have been visited: everything they add is listed. */
  ghost predicate VisitedUpTo(next: map<TypeId, set<TypeId>>, list: seq<TypeId>, n: nat) {
    && n <= |list|
    && (forall x :: x in list ==> x in next)
    && forall k :: 0 <= k < n ==> next[list[k]] <= Elements(list)
  }

  /** Every listed type is a seed, or is added by the visit of an earlier one. */
  ghost predicate DiscoveredUnder(next: map<TypeId, set<TypeId>>, seeds: set<TypeId>, list: seq<TypeId>) {
    && (forall x :: x in list ==> x in next)
    && forall k :: 0 <= k < |list| ==>
         list[k] in seeds || exists j :: 0 <= j < k && list[k] in next[list[j]]
  }

  lemma ClosedBridge(u: Universe, s: set<TypeId>)
    requires WellFormed(u)
    ensures Closed(u, s) <==> ClosedUnder(NextMap(u), s)
  {
  }

  lemma VisitedBridge(u: Universe, list: seq<TypeId>, n: nat)
    requires WellFormed(u) && n <= |list| && forall x :: x in list ==> x in u.types
    ensures (forall k :: 0 <= k < n ==> NextTypes(u, list[k]) <= Elements(list)) ==> VisitedUpTo(NextMap(u), list, n)
  {
    var next := NextMap(u);
    if forall k :: 0 <= k < n ==> NextTypes(u, list[k]) <= Elements(list) {
      forall k | 0 <= k < n ensures next[list[k]] <= Elements(list) {
        assert list[k] in u.types;
      }
    }
  }

  lemma VisitedBridgeBack(u: Universe, list: seq<TypeId>, n: nat)
    requires WellFormed(u) && n <= |list| && forall x :: x in list ==> x in u.types
    requires VisitedUpTo(NextMap(u), list, n)
    ensures forall k :: 0 <= k < n ==> NextTypes(u, list[k]) <= Elements(list)
  {
    var next := NextMap(u);
    forall k | 0 <= k < n ensures NextTypes(u, list[k]) <= Elements(list) {
      assert list[k] in u.types;
    }
  }

  lemma DiscoveredBridge(u: Universe, seeds: set<TypeId>, list: seq<TypeId>)
    requires WellFormed(u) && forall x :: x in list ==> x in u.types
    ensures Discovered(u, seeds, list) <==> DiscoveredUnder(NextMap(u), seeds, list)
  {
  }

  /** The visited prefix stays visited as the list grows, now one type longer. */
  lemma PrefixStaysVisited(next: map<TypeId, set<TypeId>>, before: seq<TypeId>, after: seq<TypeId>, index: nat)
    requires index < |before| <= |after| && after[..|before|] == before
    requires VisitedUpTo(next, before, index)
    requires forall x :: x in after ==> x in next
    requires next[before[index]] <= Elements(after)
    requires Elements(before) <= Elements(after)
    ensures VisitedUpTo(next, after, index + 1)
  {
    forall k | 0 <= k < index + 1 ensures next[after[k]] <= Elements(after) {
      assert after[k] == before[k];
    }
  }

  /** Appending only what the visited type adds keeps the list discovered. */
  lemma DiscoveryExtends(next: map<TypeId, set<TypeId>>, seeds: set<TypeId>, before: seq<TypeId>, after: seq<TypeId>,
                         index: nat)
    requires index < |before| <= |after| && after[..|before|] == before
    requires forall x :: x in after ==> x in next
    requires NoDups(after)
    requires forall y :: y in after ==> y in before || y in next[before[index]]
    requires DiscoveredUnder(next, seeds, before)
    ensures DiscoveredUnder(next, seeds, after)
  {
    forall k | 0 <= k < |after|
      ensures after[k] in seeds || exists j :: 0 <= j < k && after[k] in next[after[j]]
    {
      if k < |before| {
        assert after[k] == before[k];
        if before[k] !in seeds {
          var j :| 0 <= j < k && before[k] in next[before[j]];
          assert after[j] == before[j];
        }
      } else {
        forall m | 0 <= m < |before| ensures before[m] != after[k] {
          assert after[m] == before[m];
        }
        assert after[index] == before[index];
      }
    }
  }

  /** What is discovered from `seeds` lies in every closed set holding the seeds. */
  lemma DiscoveredUnderIsLeast(next: map<TypeId, set<TypeId>>, seeds: set<TypeId>, list: seq<TypeId>, s: set<TypeId>)
    requires DiscoveredUnder(next, seeds, list) && ClosedUnder(next, s) && seeds <= s
    ensures Elements(list) <= s
  {
    forall k | 0 <= k < |list| ensures list[k] in s {
      DiscoveredPrefixIn(next, seeds, list, s, k);
    }
  }

  lemma {:induction false} DiscoveredPrefixIn(next: map<TypeId, set<TypeId>>, seeds: set<TypeId>, list: seq<TypeId>,
                                              s: set<TypeId>, k: nat)
    requires DiscoveredUnder(next, seeds, list) && ClosedUnder(next, s) && seeds <= s
    requires k < |list|
    ensures list[k] in s
    decreases k
  {
    if list[k] !in seeds {
      var j :| 0 <= j < k && list[k] in next[list[j]];
      DiscoveredPrefixIn(next, seeds, list, s, j);
    }
  }
}
