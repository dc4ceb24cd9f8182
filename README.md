# SvelteNet type projection, modelled in Dafny

SvelteNet generates TypeScript for ASP.NET Razor pages that render Svelte
components. Its core projects reflected C# types onto TypeScript. It has four parts:

- **Classification.** Predicates decide whether a type is simple (in the
  `TsSimpleName` table), a collection, a dictionary, a custom generic or a
  `System.*` type, and whether it is valid for declaration.
- **The projector `TsType`.** It maps a type to a TypeScript type expression through
  a fixed priority chain:
  - strip `Nullable<T>`;
  - the simple table;
  - collection to `T[]`;
  - dictionary to `{ [key: K]: V; }`, which throws unless `K` is `number` or `string`;
  - custom generic to `Name<Args>`;
  - `System.*` to `any`;
  - otherwise the name with its generic arity removed.
- **The declaration emitter `GetTypescriptInterface`.** It writes an enum as a union
  of quoted member names. It writes any other type as an object type alias with one
  `camelCase : TsType` line per readable property.
- **The discovery worklist `GetAllTypes`.** It grows a list with an index cursor
  until every valid type reachable through readable properties and generic arguments
  is in it. Each type is stripped of nullability and flattened out of collections.

Some smaller pure helpers are modelled too:
- `ToCamelCase`;
- the page-name and namespace-to-folder helpers of `SveltePageTypeWriter`;
- two expressions of the dev-server setup: the import name of a bound property and
  the relative path of `types.ts`.

Reflection is a value here. A `Universe` maps a `TypeId` to a `TypeInfo`:
- full name and name;
- the .NET flags;
- generic arguments;
- array element, nullable underlying type;
- the `IEnumerable`/`IDictionary` interfaces it implements, with their arguments;
- enum member names;
- readable-or-not properties in reflection order.

Every link that `TsType` recurses through goes to a type of smaller `rank`, so the
recursion is well founded. Property links may form cycles, and only `GetAllTypes`
follows them. It terminates because its list holds distinct members of a finite
universe. The dictionary-key exception is the `Fail(UnsupportedKeyType(d))` value
of `Outcome`. It propagates through every enclosing projection, just as the
uncaught exception does.

Files, in dependency order:
- `wrappers.dfy`: `Option`, `Outcome`.
- `collections.dfy`: duplicate-free lists, `Concat` (`SelectMany`) and `Distinct`.
- `text.dfy`: the .NET string operations used, such as `TrimEnd(char[])`,
  single-pass `Replace`, `Split(..).First()` and `Split(..).Last()`.
- `reflection.dfy`: the type universe.
- `classification.dfy`
- `string_extensions.dfy`
- `typescript_extensions.dfy`
- `type_extensions.dfy`
- `svelte_net_services.dfy`

The three loops of `TypeExtensions.cs` are methods: `Flatten`, `GetGenericTypes`
and `GetAllTypes`. Each is proved against a specification function or predicate.

## Model

| member | source | states |
|---|---|---|
| Classification.SimpleName | Svelte.Net.Core/Extensions/TypeScriptExtensions.cs:207-248 | The `TsSimpleName` table: `System.Object` is `Object`, `Boolean` is `boolean`, `Char`/`String`/`Guid` are `string`, the eleven numeric types are `number`, `DateTime`/`DateTimeOffset` are `Date`, a null or whitespace name is never simple, and only listed names map to anything |
| Classification.IsSimpleType | Svelte.Net.Core/Extensions/TypeScriptExtensions.cs:203-206 | A type is simple exactly when its full name is in the `TsSimpleName` table |
| Classification.IsDictionaryType | Svelte.Net.Core/Extensions/TypeExtensions.cs:105-112 | It implements `IDictionary<K, V>` or `IDictionary`, or its full name starts with the full name of one of those interfaces |
| Classification.IsCollectionType | Svelte.Net.Core/Extensions/TypeExtensions.cs:98-103 | Not `System.String`, not a dictionary, and implementing `IEnumerable` or with a full name that starts with `System.Collections.IEnumerable` |
| Classification.IsCustomGenericType | Svelte.Net.Core/Extensions/TypeExtensions.cs:93-96 | Generic, and neither dictionary nor collection |
| Classification.IsSystemType | Svelte.Net.Core/Extensions/TypeExtensions.cs:17-20 | The full name starts with `System.` |
| Classification.StripNullable | Svelte.Net.Core/Extensions/TypeScriptExtensions.cs:48-52 | The underlying type of a `Nullable<T>` (a linked type of no greater rank), the type itself otherwise |
| Classification.CollectionType | Svelte.Net.Core/Extensions/TypeExtensions.cs:124-151 | `GetCollectionType`, in its order: the array element; for `IEnumerable<T>` itself, `T`; for `IEnumerable` itself, `object`; the argument of an implemented `IEnumerable<T>`; `object` for a type implementing only `IEnumerable`; otherwise no element. An element always has smaller rank |
| Classification.ShapesExclusive | Svelte.Net.Core/Extensions/TypeExtensions.cs:93-112 | `System.String` is no collection; a dictionary is neither collection nor custom generic; a collection is no custom generic; a generic type is exactly one of dictionary, collection, custom generic |
| StringExtensions.ToCamelCase | Svelte.Net.Core/Extensions/StringExtensions.cs:7-10 | Same length; the first character lowered; every later character unchanged (this covers the fully-lowered strings of length 0 and 1) |
| StringExtensions.CamelCaseIdempotent | Svelte.Net.Core/Extensions/StringExtensions.cs:7-10 | Camel-casing twice is camel-casing once |
| StringExtensions.CamelCaseExamples | Svelte.Net.Core/Extensions/StringExtensions.cs:8-10 | `Id` becomes `id`, `HTMLPage` becomes `hTMLPage`, `A` becomes `a`, the empty string stays empty |
| TypeScriptExtensions.RemoveTypeArity | Svelte.Net.Core/Extensions/TypeScriptExtensions.cs:156-159 | A prefix of the name with no backtick, cut exactly at the first backtick when there is one |
| TypeScriptExtensions.TsType | Svelte.Net.Core/Extensions/TypeScriptExtensions.cs:54-87 | A failure always names a dictionary-shaped type of no greater rank; a type with no dictionary below it always projects; a projection never holds a backtick |
| TypeScriptExtensions.CollectionName | Svelte.Net.Core/Extensions/TypeScriptExtensions.cs:122-149 | A collection's text ends in `[]`; failures come only from a blamed dictionary below it |
| TypeScriptExtensions.DictionaryName | Svelte.Net.Core/Extensions/TypeScriptExtensions.cs:91-120 | A non-dictionary gives `any`; failures blame a dictionary; a dictionary-free type always succeeds |
| TypeScriptExtensions.ArgumentText | Svelte.Net.Core/Extensions/TypeScriptExtensions.cs:176-178 | One generic argument's text: free of backticks, always present for a dictionary-free type, a failure blames a dictionary |
| TypeScriptExtensions.ArgumentRule | Svelte.Net.Core/Extensions/TypeScriptExtensions.cs:176-178 | A generic argument that is a generic parameter is written by its own name; any other argument by its projection |
| TypeScriptExtensions.ArgumentNames | Svelte.Net.Core/Extensions/TypeScriptExtensions.cs:176-178 | One text per generic argument, each the argument's own text, or the first failure |
| TypeScriptExtensions.CustomGenericName | Svelte.Net.Core/Extensions/TypeScriptExtensions.cs:161-184 | A custom generic's text has no backtick; failures blame a dictionary below it |
| TypeScriptExtensions.NullableIsTransparent | Svelte.Net.Core/Extensions/TypeScriptExtensions.cs:48-61 | `TsType(null)` is `any`; `Nullable<T>` projects exactly as `T` |
| TypeScriptExtensions.CollectionProjection | Svelte.Net.Core/Extensions/TypeScriptExtensions.cs:122-149 | A non-simple collection projects to its element's projection followed by `[]`, or fails with the element's failure |
| TypeScriptExtensions.UntypedCollectionProjection | Svelte.Net.Core/Extensions/TypeScriptExtensions.cs:131-147 | The `IEnumerable` interface itself, or a type implementing only the non-generic `IEnumerable`, projects to `Object[]` |
| TypeScriptExtensions.EnumerableProjection | Svelte.Net.Core/Extensions/TypeScriptExtensions.cs:122-149 | A sequence of `E` (`IEnumerable<E>` itself, or a type such as `List<E>` implementing it) projects to `TsType(E)` followed by `[]`, or fails with `E`'s failure |
| TypeScriptExtensions.NestedCollectionProjection | Svelte.Net.Core/Extensions/TypeScriptExtensions.cs:122-149 | Collections (arrays, `IEnumerable<T>`, `List<T>`, …) nested n levels deep project to the innermost element's text followed by n times `[]`, or to that element's failure |
| TypeScriptExtensions.ArrayOfArraysProjection | Svelte.Net.Core/Extensions/TypeScriptExtensions.cs:122-149 | A collection of collections of `T` (`T[][]`, `List<List<T>>`) projects to `TsType(T)` followed by `[][]` |
| TypeScriptExtensions.DictionaryProjection | Svelte.Net.Core/Extensions/TypeScriptExtensions.cs:91-110 | A type implementing `IDictionary<K, V>`, or that interface itself (arguments from its own generic arguments), gives `{ [key: K]: V; }` when `K` is `number` or `string`, fails blaming itself for any other key, and passes on a failure of the key or the value |
| TypeScriptExtensions.UntypedDictionaryProjection | Svelte.Net.Core/Extensions/TypeScriptExtensions.cs:113-117 | The non-generic `IDictionary` interface itself, or a type implementing only it, projects to `{ [key: string]: string; }` |
| TypeScriptExtensions.CustomGenericProjection | Svelte.Net.Core/Extensions/TypeScriptExtensions.cs:161-184 | A custom generic projects to its arity-free name, `<`, its argument texts joined by `, `, `>`; a failing argument aborts it |
| TypeScriptExtensions.ParameterArgumentNames | Svelte.Net.Core/Extensions/TypeScriptExtensions.cs:176-178 | Arguments that are all generic parameters give their names, in order, and never fail |
| TypeScriptExtensions.OpenGenericProjection | Svelte.Net.Core/Extensions/TypeScriptExtensions.cs:161-184 | An open generic such as `Result<T>` (every argument a generic parameter) projects to its arity-free name, `<`, the parameter names joined by `, `, `>` |
| TypeScriptExtensions.ArgumentFailureAborts | Svelte.Net.Core/Extensions/TypeScriptExtensions.cs:176-178 | The first failing generic argument's failure is the failure of the whole argument list |
| TypeScriptExtensions.FallbackProjection | Svelte.Net.Core/Extensions/TypeScriptExtensions.cs:64-86 | A type that is none of simple, collection, dictionary, custom generic gives `any` when its full name starts with `System.` and its arity-free name otherwise |
| TypeScriptExtensions.QuoteAll | Svelte.Net.Core/Extensions/TypeScriptExtensions.cs:22 | Each enum member name single-quoted, in the order `Enum.GetNames` reports them (by value) |
| TypeScriptExtensions.Readable | Svelte.Net.Core/Extensions/TypeScriptExtensions.cs:28-30 | Exactly the readable properties |
| TypeScriptExtensions.ReadableCount | Svelte.Net.Core/Extensions/TypeScriptExtensions.cs:28-30 | Every readable property occurs as often as in the property list, an unreadable one never: no de-duplication |
| TypeScriptExtensions.ReadableAppend | Svelte.Net.Core/Extensions/TypeScriptExtensions.cs:28-30 | Filtering is pointwise: filtering a concatenation concatenates the filtered parts, so property order is kept |
| TypeScriptExtensions.PropertyLine | Svelte.Net.Core/Extensions/TypeScriptExtensions.cs:31 | A line exists exactly when the property type projects; it starts with the camel-cased name and ` : `, ends with the projection, and is exactly as long as those two, so it is `camelName : type`; a failure blames a dictionary |
| TypeScriptExtensions.PropertyLineText | Svelte.Net.Core/Extensions/TypeScriptExtensions.cs:31 | The line of a property whose type projects is exactly `camelName : type` |
| TypeScriptExtensions.PropertyLines | Svelte.Net.Core/Extensions/TypeScriptExtensions.cs:28-31 | One `camelCase : TsType` line per property, in order, or the failure of the first property that fails |
| TypeScriptExtensions.PropertyLinesSucceed | Svelte.Net.Core/Extensions/TypeScriptExtensions.cs:28-31 | Properties whose types are dictionary-free always give lines |
| TypeScriptExtensions.DeclaredType | Svelte.Net.Core/Extensions/TypeScriptExtensions.cs:16-26 | The stripped type, or its generic type definition when generic types are not wanted |
| TypeScriptExtensions.GetTypescriptInterface | Svelte.Net.Core/Extensions/TypeScriptExtensions.cs:13-40 | Every declaration starts with a line break and `export type `; a failure blames a dictionary; a declaration whose type and readable properties are dictionary-free always succeeds |
| TypeScriptExtensions.EnumUnion | Svelte.Net.Core/Extensions/TypeScriptExtensions.cs:22 | The union text is empty exactly when the enum has no member names |
| TypeScriptExtensions.EnumDeclaration | Svelte.Net.Core/Extensions/TypeScriptExtensions.cs:19-23 | An enum declares `export type N = 'A' \| 'B' …` with its member names in order; an enum without members declares `export type N = ` with nothing after it |
| TypeScriptExtensions.ObjectDeclaration | Svelte.Net.Core/Extensions/TypeScriptExtensions.cs:26-39 | A non-enum declares `export type N = {`, its property lines joined by the line separator, `}`; it fails with the first failing property |
| TypeScriptExtensions.EnumUnionRoundTrip | Svelte.Net.Core/Extensions/TypeScriptExtensions.cs:22 | Reading the union back gives the enum member names, in order, for any non-empty list of names free of single quotes |
| TypeScriptExtensions.GetUnderlyingType | Svelte.Net.Core/Extensions/TypeScriptExtensions.cs:50 | `Nullable.GetUnderlyingType` throws exactly for a null type, and otherwise gives the nullable-underlying link |
| TypeScriptExtensions.NullTypeBranchUnreachable | Svelte.Net.Core/Extensions/TypeScriptExtensions.cs:48-61 | As written, stripping null throws and stripping a type never gives null, so the "null gives any" branch is dead; the model gives `any` |
| TypeExtensions.FlattenLoop | Svelte.Net.Core/Extensions/TypeExtensions.cs:117-120 | The loop's result is null or not collection-shaped, of no greater rank |
| TypeExtensions.Flattened | Svelte.Net.Core/Extensions/TypeExtensions.cs:114-122 | Stays in the universe, of no greater rank; null stays null |
| TypeExtensions.Flatten | Svelte.Net.Core/Extensions/TypeExtensions.cs:114-122 | The loop computes `Flattened` |
| TypeExtensions.FlattenedIsFlat | Svelte.Net.Core/Extensions/TypeExtensions.cs:114-122 | The result is null, simple or not a collection, and flattening it again changes nothing |
| TypeExtensions.FlattenPeelsLayers | Svelte.Net.Core/Extensions/TypeExtensions.cs:117-120 | A chain of collections, each the element of the next, flattens to its innermost non-collection |
| TypeExtensions.IsValid | Svelte.Net.Core/Extensions/TypeExtensions.cs:24-35 | `IsValidType`'s test, applied to the stripped flattened type: generic only when a custom generic, not simple, not `System.*`, a class or an enum, public, not primitive |
| TypeExtensions.ValidResult | Svelte.Net.Core/Extensions/TypeExtensions.cs:24-35 | `IsValidType`'s `stripped`: when valid, it is the flattened stripped type, passes every validity test, is no collection and is not nullable |
| TypeExtensions.ValidResultIsFixedPoint | Svelte.Net.Core/Extensions/TypeExtensions.cs:24-35 | A valid result is its own valid result, so `AddToList` adds it unchanged when met again |
| TypeExtensions.GenericTypes | Svelte.Net.Core/Extensions/TypeExtensions.cs:37-50 | Every entry is the type itself or of smaller rank |
| TypeExtensions.ArgsGenericTypes | Svelte.Net.Core/Extensions/TypeExtensions.cs:42-46 | Every entry is of smaller rank than the type |
| TypeExtensions.GetGenericTypes | Svelte.Net.Core/Extensions/TypeExtensions.cs:37-50 | The loop with recursion computes `GenericTypes`: each argument followed by its own generic types, the type last when it is a custom generic, empty for a non-generic |
| TypeExtensions.GenericTypesMembership | Svelte.Net.Core/Extensions/TypeExtensions.cs:37-50 | A type occurs in the list exactly when it is the type itself and a custom generic, or is nested in its generic arguments |
| TypeExtensions.ArgsMembership | Svelte.Net.Core/Extensions/TypeExtensions.cs:42-46 | A type occurs exactly when it is one of the arguments or occurs in that argument's generic types |
| TypeExtensions.NestedRankBelow | Svelte.Net.Core/Extensions/TypeExtensions.cs:37-50 | Nested generic arguments are of smaller rank |
| TypeExtensions.PropertyTypes | Svelte.Net.Core/Extensions/TypeExtensions.cs:56 | The property types in property order |
| TypeExtensions.PropTypes | Svelte.Net.Core/Extensions/TypeExtensions.cs:52-59 | `GetPropTypes`: without duplicates, exactly the types of readable properties |
| TypeExtensions.AddedBy | Svelte.Net.Core/Extensions/TypeExtensions.cs:65-69 | What `AddToList` can add: only valid types |
| TypeExtensions.AddToList | Svelte.Net.Core/Extensions/TypeExtensions.cs:65-69 | Adds at most one type at the end, exactly the valid result of the candidate when it is new, and keeps the list free of duplicates |
| TypeExtensions.AddAll | Svelte.Net.Core/Extensions/TypeExtensions.cs:65-86 | Adding keeps the list as a prefix and keeps it free of duplicates |
| TypeExtensions.AddAllMembership | Svelte.Net.Core/Extensions/TypeExtensions.cs:65-69 | After adding, the list holds exactly what it held plus the valid results of the candidates |
| TypeExtensions.GetAllTypes | Svelte.Net.Core/Extensions/TypeExtensions.cs:61-91 | An invalid root gives `[]`; a valid root gives a list headed by its stripped flattened type; no duplicates; every member valid; closed under properties and generic arguments; every member added by the root or by visiting an earlier member |
| TypeExtensions.Visit | Svelte.Net.Core/Extensions/TypeExtensions.cs:74-86 | One loop step: add the generic types, then the property types, of the current entry |
| TypeExtensions.AddEach | Svelte.Net.Core/Extensions/TypeExtensions.cs:78-86 | A `foreach` of `AddToList` adds what `AddAll` adds |
| TypeExtensions.VisitPreserves | Svelte.Net.Core/Extensions/TypeExtensions.cs:72-88 | One step keeps the loop's invariant: the old list is a prefix, no duplicates, only valid types, every entry up to the cursor visited, every entry discovered |
| TypeExtensions.VisitAppends | Svelte.Net.Core/Extensions/TypeExtensions.cs:74-86 | One step only appends, and only types the current entry leads to |
| TypeExtensions.VisitClosesCurrent | Svelte.Net.Core/Extensions/TypeExtensions.cs:74-86 | After one step, everything the current entry leads to is in the list |
| TypeExtensions.DiscoveredIsLeast | Svelte.Net.Core/Extensions/TypeExtensions.cs:61-91 | A discovered list lies inside every closed set holding its roots |
| TypeExtensions.DiscoveryDeterminesContents | Svelte.Net.Core/Extensions/TypeExtensions.cs:61-91 | Two closed discovered lists from the same roots have the same contents |
| TypeExtensions.GetAllTypesOf | Svelte.Net.Core/Extensions/TypeExtensions.cs:10-15 | `GetAllTypes` of each root, the lists one after another with duplicates removed (first occurrences in order); no duplicates, only valid types, closed, holding every root's result and inside every closed set that holds the roots' results |
| TypeExtensions.ClosedUnion | Svelte.Net.Core/Extensions/TypeExtensions.cs:10-15 | The union of two closed sets is closed |
| Collections.Concat | Svelte.Net.Core/Extensions/TypeExtensions.cs:12 | LINQ `SelectMany`: an element occurs exactly when it occurs in one of the parts |
| Collections.Distinct | Svelte.Net.Core/Extensions/TypeExtensions.cs:13 | LINQ `Distinct`: no duplicates, the same elements, no longer |
| Collections.DistinctKeepsFirstOccurrenceOrder | Svelte.Net.Core/Extensions/TypeExtensions.cs:12-13 | `Distinct` keeps first occurrences in their original order |
| SvelteNetServices.GetNameFromType | Svelte.Net/Builders/SvelteNetServices.cs:161-164 | A prefix of the type name that does not end in any of `M`, `o`, `d`, `e`, `l`, with only those characters cut off |
| SvelteNetServices.NameFromTypeIdempotent | Svelte.Net/Builders/SvelteNetServices.cs:163 | Applying it twice is applying it once |
| SvelteNetServices.NameFromTypeTrimsPageName | Svelte.Net/Builders/SvelteNetServices.cs:163 | `HomeModel` becomes `Hom`, `TodoModel` becomes `T`, `IndexModel` becomes `Index` |
| SvelteNetServices.PageName | Svelte.Net/Builders/SvelteNetServices.cs:163 | A prefix of the name, either all of it or all but a trailing `Model` |
| SvelteNetServices.PageNameStripsSuffix | Svelte.Net/Builders/SvelteNetServices.cs:163 | Any page name followed by `Model` gives the page name back |
| SvelteNetServices.GetPathFromNameSpace | Svelte.Net/Builders/SvelteNetServices.cs:166-172 | The folder always ends in `/` and holds no `.`; a null namespace gives `/` |
| SvelteNetServices.PathFromNameSpaceSegment | Svelte.Net/Builders/SvelteNetServices.cs:168-170 | The folder is made from the trimmed text after the last `.Pages`, or from the whole namespace when `.Pages` does not occur, with dots turned into slashes |
| SvelteNetServices.PathOfPagesRoot | Svelte.Net/Builders/SvelteNetServices.cs:168-170 | `App.Pages` gives `/` |
| SvelteNetServices.PathOfNestedPages | Svelte.Net/Builders/SvelteNetServices.cs:168-170 | `App.Pages.Account.Manage` gives `/Account/Manage/` |
| SvelteNetServices.ImportName | Svelte.Net/Builders/SvelteNetServices.cs:104 | The projection with `[]` removed, cut at its first `<`: a prefix of it with no `<`, followed in it by `<` when shorter |
| SvelteNetServices.ImportNameOfGeneric | Svelte.Net/Builders/SvelteNetServices.cs:104 | `Name<…>` imports `Name` |
| SvelteNetServices.ImportNameOfArrays | Svelte.Net/Builders/SvelteNetServices.cs:104 | `Name[]…[]` imports `Name` |
| SvelteNetServices.ImportNameOfPrimitiveCollection | Svelte.Net/Builders/SvelteNetServices.cs:103-104 | As written, an `int[]` or `List<int>` property passes the simple-type filter, projects to `number[]` and imports `number` |
| SvelteNetServices.DeclaredImportName | Svelte.Net/Builders/SvelteNetServices.cs:101-105 | An import exists only for a property type that is valid for declaration |
| SvelteNetServices.ImportedTypesAreDeclared | Svelte.Net/Builders/SvelteNetServices.cs:101-105 | Every imported type is declared by `GetAllTypes` over the bound property types |
| SvelteNetServices.PrimitiveCollectionImportsNothing | Svelte.Net/Builders/SvelteNetServices.cs:101-105 | A collection of a simple type imports nothing |
| SvelteNetServices.ResolvedImportPath | Svelte.Net/Builders/SvelteNetServices.cs:113-114 | The path starts with `../` or `./`, holds no backslash, and ends in the slash-normalised relative path |
| SvelteNetServices.ResolvedImportPathPrefix | Svelte.Net/Builders/SvelteNetServices.cs:114 | `./` is added exactly when the path does not start with `../` |
| Text.TrimEnd | Svelte.Net/Builders/SvelteNetServices.cs:163 | .NET `TrimEnd(char[])`: the longest prefix not ending in a trimmed character, with only trimmed characters cut |
| Text.AfterLastSeparator | Svelte.Net/Builders/SvelteNetServices.cs:168 | `Split(sep).Last()`: no text exactly when the separator does not occur; otherwise a tail of the text that follows an occurrence of the separator and holds none (so the tail after the last one, when occurrences do not overlap) |
| Text.OverlappingSeparator | Svelte.Net/Builders/SvelteNetServices.cs:168 | The left-to-right scan on an overlapping separator: `aaa` split on `aa` ends in `a` |
| Text.LastSegment | Svelte.Net/Builders/SvelteNetServices.cs:168 | `Split(sep).Last()` with the whole text when there is no separator: a separator-free tail of the text, preceded by the separator when one occurs, and the text itself when none does |
| Text.Trim | Svelte.Net/Builders/SvelteNetServices.cs:168 | .NET `Trim()`: the text with only white space cut, at its start and at its end; the result neither starts nor ends with white space; text without white space at its ends is kept whole |
| Text.TrimStart | Svelte.Net/Builders/SvelteNetServices.cs:168 | .NET `TrimStart(char[])`: the longest suffix not starting with a trimmed character, with only trimmed characters cut |
| Text.AfterLastSeparatorIsTail | Svelte.Net/Builders/SvelteNetServices.cs:168 | For a separator whose first character does not recur in it, such as `.Pages`, the last segment of `prefix + sep + tail` is `tail` whenever `tail` holds no separator |
| Text.ReplaceChar | Svelte.Net/Builders/SvelteNetServices.cs:169 | `Replace('.', '/')`: same length, each occurrence of the old character turned into the new one, every other character kept |
| Text.RemoveAll | Svelte.Net/Builders/SvelteNetServices.cs:104 | .NET `Replace(pat, "")`: never lengthens the text |
| Text.RemoveAllKeepsCleanPrefix | Svelte.Net/Builders/SvelteNetServices.cs:104 | Text without the first character of the pattern passes through unchanged, ahead of what `Replace` makes of the rest |
| Text.RemoveAllAbsent | Svelte.Net/Builders/SvelteNetServices.cs:104 | Text that does not hold the pattern comes back unchanged |
| Text.ToLowerInvariant | Svelte.Net.Core/Extensions/StringExtensions.cs:9 | `ToLowerInvariant` on ASCII: same length, each character lowered on its own |
| Text.TakeBefore | Svelte.Net/Builders/SvelteNetServices.cs:104 | `Split(c).First()`: the prefix before the first `c` |

## Left out

- File and directory I/O of `UseSvelteNetDevServer` (Svelte.Net/Builders/SvelteNetServices.cs:30-153) is not modelled: writing files, the environment check, assembly scanning, the attribute lookup and `Path.GetRelativePath`. The relative path is an input of `ResolvedImportPath`.
- The `Replace(".ts", "")` applied to the import path when the file is written (Svelte.Net/Builders/SvelteNetServices.cs:119) is part of that file output and is not modelled.
- `AddSvelteNet` is dependency-injection wiring, and `TypescriptTypeGenerator` is a stub over a third-party library. Neither is modelled.
- `SvelteService.cs` is not modelled: server-side rendering through a JavaScript engine, JSON serialisation, manifest reads and the process-wide manifest cache (a concurrency concern).
- `SveltePage.cs`, `SvelteNet.cs`, the option classes and `build/Build.cs` are page glue, a global option singleton, data bags and a build script. None is modelled.
- .NET reflection internals are not modelled: `GetInterface` name matching, inheritance search, `BindingFlags`. Interfaces, property order and readability are given fields of `TypeInfo`. A `Nullable<T>` is a struct, so it is never a class or an enum.
- `IgnoredGenerics`/`IsIgnoredType` and `GetBaseType`/`GetInterfaces` are never called, so they are not modelled.
- Self-referential collections, such as a class implementing `IEnumerable` of itself, are outside the model. On those, the C# `TsType` recurses without end, and the `while` loop of `Flatten` (Svelte.Net.Core/Extensions/TypeExtensions.cs:117-120) never exits. The model requires a smaller rank on every projection link.
- `ToLowerInvariant` is ASCII lowering only. Unicode case tables are not modelled.
- `Environment.NewLine` is a parameter of `GetTypescriptInterface`.
- The text of the exception message is not modelled. The exception is a failure value naming the dictionary.
- A null string given to `ToCamelCase` is not modelled. No caller passes one.
- `IsCustomGenericType(out)` with `useGenericTypes = false` (TypeScriptExtensions.cs:161-184) is not modelled. `TsType` always passes `true`.
- SvelteNetServices.ImportName: its contract does not say the name is free of `[]`, because it need not be. `Replace("[]", "")` is single-pass, so a text like `[[]]` keeps a `[]`. Projections built from arrays and generics are shown clean (`ImportNameOfArrays`, `ImportNameOfGeneric`).

## Findings

| source | as written | input that shows it | evidently intended | confidence | as-written member | corrected member |
|---|---|---|---|---|---|---|
| Svelte.Net/Builders/SvelteNetServices.cs:163 | `TrimEnd` of the characters of `"Model"` strips any trailing run of `M`, `o`, `d`, `e`, `l` | a page model named `HomeModel` gives `Hom`, and `TodoModel` gives `T` | strip the suffix `Model` once, giving `Home` and `Todo` | not executed | SvelteNetServices.NameFromTypeTrimsPageName | SvelteNetServices.PageNameStripsSuffix |
| Svelte.Net.Core/Extensions/TypeScriptExtensions.cs:50, 60-61 | `TsType(null)` calls `Nullable.GetUnderlyingType(null)`, which throws before the null check | a property typed with a null `Type` | the null branch gives `any` | not executed | TypeScriptExtensions.NullTypeBranchUnreachable | TypeScriptExtensions.NullableIsTransparent |
| Svelte.Net/Builders/SvelteNetServices.cs:103-104 | the simple-type filter passes `int[]`, so the import name is `number` | a bound property of type `int[]` imports `number`, which `types.ts` does not declare | import only types that `GetAllTypes` declares | not executed | SvelteNetServices.ImportNameOfPrimitiveCollection | SvelteNetServices.PrimitiveCollectionImportsNothing |
