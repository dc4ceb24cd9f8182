/** The pure parts of the page type writer: a page's component name from its
    class name, its folder from its namespace, the name a bound property imports
    from `types.ts`, and the import path prefix. */
module SvelteNetServices {
  import opened Wrappers
  import opened Collections
  import opened Text
  import opened Reflection
  import opened Classification
  import opened TypeScriptExtensions
  import opened TypeExtensions

  // ---------------------------------------------------------------------------
  // GetNameFromType

  /** The characters of "Model", which `TrimEnd` treats as a set. */
  const ModelChars: set<char> := {'M', 'o', 'd', 'e', 'l'}

  /** `GetNameFromType` as written: `Name.TrimEnd("Model".ToCharArray())`. It is a
      prefix of the class name that does not end in any of `M`, `o`, `d`, `e`, `l`. */
  function GetNameFromType(name: string): (r: string)
    ensures StartsWith(name, r)
    ensures r == [] || r[|r| - 1] !in ModelChars
    ensures forall i :: |r| <= i < |name| ==> name[i] in ModelChars
  {
    TrimEnd(name, ModelChars)
  }

  /** Trimming again removes nothing. */
  lemma NameFromTypeIdempotent(name: string)
    ensures GetNameFromType(GetNameFromType(name)) == GetNameFromType(name)
  {
  }

  /** The character set eats into the page name: `HomeModel` gives `Hom` and
      `TodoModel` gives `T`, while the page is rendered from `Home.svelte` and
      `Todo.svelte`. `IndexModel` happens to survive. */
  lemma NameFromTypeTrimsPageName()
    ensures GetNameFromType("HomeModel") == "Hom"
    ensures GetNameFromType("TodoModel") == "T"
    ensures GetNameFromType("IndexModel") == "Index"
  {
    TrimEndRemoves("Hom", "eModel", ModelChars);
    assert "Hom" + "eModel" == "HomeModel";
    TrimEndRemoves("T", "odoModel", ModelChars);
    assert "T" + "odoModel" == "TodoModel";
    TrimEndRemoves("Index", "Model", ModelChars);
    assert "Index" + "Model" == "IndexModel";
  }

  /** The page name the generator evidently intends: the class name without its
      `Model` suffix, when it has one. */
  function PageName(name: string): (r: string)
    ensures StartsWith(name, r)
    ensures |r| == |name| || (|r| == |name| - 5 && EndsWith(name, "Model"))
  {
    if EndsWith(name, "Model") then name[..|name| - 5] else name
  }

  /** A Razor page class `XModel` gives back exactly `X`. */
  lemma PageNameStripsSuffix(page: string)
    ensures PageName(page + "Model") == page
  {
    var s := page + "Model";
    assert s[|s| - 5..] == "Model";
    assert s[..|s| - 5] == page;
  }

  // ---------------------------------------------------------------------------
  // GetPathFromNameSpace

  /** `GetPathFromNameSpace`: the trimmed text after the last `.Pages` of the
      namespace (all of it when there is none), dots turned into slashes, and a
      closing slash. A null namespace gives `/`. */
  function GetPathFromNameSpace(ns: Option<string>): (r: string)
    ensures |r| > 0 && r[|r| - 1] == '/'
    ensures '.' !in r
    ensures ns.None? ==> r == "/"
  {
    match ns
    case None => "/"
    case Some(n) => ReplaceChar(Trim(LastSegment(n, ".Pages")), '.', '/') + "/"
  }

  /** The folder comes from the text after the last `.Pages`, or from the whole
      namespace when `.Pages` does not occur. */
  lemma PathFromNameSpaceSegment(prefix: string, tail: string)
    requires !Contains(tail, ".Pages")
    ensures GetPathFromNameSpace(Some(prefix + ".Pages" + tail)) == ReplaceChar(Trim(tail), '.', '/') + "/"
    ensures GetPathFromNameSpace(Some(tail)) == ReplaceChar(Trim(tail), '.', '/') + "/"
  {
    AfterLastSeparatorIsTail(prefix, ".Pages", tail);
  }

  /** A page folder directly under `Pages` is `/`. */
  lemma PathOfPagesRoot(app: string)
    ensures GetPathFromNameSpace(Some(app + ".Pages")) == "/"
  {
    assert !Contains("", ".Pages") by {
      assert forall i :: 0 <= i <= 0 ==> !OccursAt("", ".Pages", i);
    }
    PathFromNameSpaceSegment(app, "");
    assert app + ".Pages" + "" == app + ".Pages";
  }

  /** Nested page folders keep their nesting: `<App>.Pages.Account.Manage` gives
      `/Account/Manage/`, whatever the application namespace. */
  lemma PathOfNestedPages(app: string)
    ensures GetPathFromNameSpace(Some(app + ".Pages.Account.Manage")) == "/Account/Manage/"
  {
    NestedFolderSegment(app);
    TrimKeepsNestedFolder();
    SlashesForNestedFolder();
  }

  lemma NestedFolderSegment(app: string)
    ensures GetPathFromNameSpace(Some(app + ".Pages.Account.Manage"))
         == ReplaceChar(Trim(".Account.Manage"), '.', '/') + "/"
  {
    var tail := ".Account.Manage";
    MissingCharExcludes(tail, ".Pages", 'P');
    PathFromNameSpaceSegment(app, tail);
    NestedFolderText();
    AppendAssoc(app, ".Pages", tail);
  }

  lemma NestedFolderText()
    ensures ".Pages" + ".Account.Manage" == ".Pages.Account.Manage"
  {
  }

  lemma TrimKeepsNestedFolder()
    ensures Trim(".Account.Manage") == ".Account.Manage"
  {
    var s := ".Account.Manage";
    assert s[0] == '.' && s[|s| - 1] == 'e';
    assert '.' !in WhiteSpace && 'e' !in WhiteSpace;
    TrimKeeps(s, WhiteSpace);
  }

  lemma SlashesForNestedFolder()
    ensures ReplaceChar(".Account.Manage", '.', '/') + "/" == "/Account/Manage/"
  {
    var r := ReplaceChar(".Account.Manage", '.', '/');
    assert |r| == 15;
    assert r == "/Account/Manage";
  }

  /** A pattern with a character that `s` lacks does not occur in `s`. */
  lemma MissingCharExcludes(s: string, pat: string, c: char)
    requires c in pat && c !in s
    ensures !Contains(s, pat)
  {
    var k :| 0 <= k < |pat| && pat[k] == c;
    forall i | 0 <= i <= |s| ensures !OccursAt(s, pat, i) {
      if i + |pat| <= |s| {
        assert s[i + k] != c;
        assert s[i..i + |pat|][k] != pat[k];
      }
    }
  }

  // ---------------------------------------------------------------------------
  // The import name of a bound property

  /** `TsType().Replace("[]", "").Split("<").First()`: the text with every `[]` removed,
      cut at its first `<`. */
  function ImportName(tsType: string): (r: string)
    ensures '<' !in r
    ensures StartsWith(RemoveAll(tsType, "[]"), r)
    ensures |r| < |RemoveAll(tsType, "[]")| ==> RemoveAll(tsType, "[]")[|r|] == '<'
  {
    TakeBefore(RemoveAll(tsType, "[]"), '<')
  }

  /** A generic projection `Name<…>` imports `Name`. */
  lemma ImportNameOfGeneric(name: string, rest: string)
    requires '[' !in name && '<' !in name
    ensures ImportName(name + "<" + rest) == name
  {
    var kept := RemoveAll(rest, "[]");
    AppendAssoc(name, "<", rest);
    RemoveAllKeepsCleanPrefix(name, "<" + rest, "[]");
    RemoveAllAfterAngle(rest);
    TakeBeforeStopsAt(name, '<', kept);
    AppendAssoc(name, "<", kept);
  }

  /** `<` cannot start a `[]`, so it survives `Replace("[]", "")`. */
  lemma RemoveAllAfterAngle(rest: string)
    ensures RemoveAll("<" + rest, "[]") == "<" + RemoveAll(rest, "[]")
  {
    if |"<" + rest| >= 2 {
      assert ("<" + rest)[..2] != "[]";
      assert ("<" + rest)[1..] == rest;
    }
  }

  /** An array projection `Name[]…[]` imports `Name`. */
  lemma ImportNameOfArrays(name: string, depth: nat)
    requires '[' !in name && '<' !in name
    ensures ImportName(name + Repeat("[]", depth)) == name
  {
    RemoveAllKeepsCleanPrefix(name, Repeat("[]", depth), "[]");
    RemoveAllRepeat(depth);
    assert name + "" == name;
    var r := TakeBefore(name, '<');
    assert |r| == |name|;
  }

  lemma {:induction false} RemoveAllRepeat(depth: nat)
    ensures RemoveAll(Repeat("[]", depth), "[]") == ""
  {
    if depth > 0 {
      RepeatFront(depth);
      RemoveAllRepeat(depth - 1);
      assert ("[]" + Repeat("[]", depth - 1))[..2] == "[]";
      assert ("[]" + Repeat("[]", depth - 1))[2..] == Repeat("[]", depth - 1);
    }
  }

  lemma {:induction false} RepeatFront(depth: nat)
    requires depth > 0
    ensures Repeat("[]", depth) == "[]" + Repeat("[]", depth - 1)
  {
    if depth > 1 {
      RepeatFront(depth - 1);
    }
  }

  /** The import name of a bound collection of a simple type is the TypeScript
      primitive itself: `number[]` imports `number`, which `types.ts` does not
      export. */
  lemma ImportNameOfPrimitiveCollection(u: Universe, c: TypeId, e: TypeId)
    requires WellFormed(u) && c in u.types && e in u.types
    requires IsCollectionOf(u, c, e) && NotNullable(u, e) && u.types[e].fullName == Some("System.Int32")
    ensures !IsSimpleType(u, c)
    ensures TsType(u, Some(c)) == Ok("number[]")
    ensures ImportName(TsType(u, Some(c)).value) == "number"
  {
    LinksOf(u, e);
    assert TsType(u, Some(e)) == Ok("number");
    CollectionProjection(u, c, e);
    assert "number" + "[]" == "number[]";
    NumberArrayImport();
  }

  lemma NumberArrayImport()
    ensures ImportName("number[]") == "number"
  {
    ImportNameOfArrays("number", 1);
    assert "number" + Repeat("[]", 1) == "number[]";
  }

  /** The import the generator evidently intends: only for a property whose type
      `GetAllTypes` declares in `types.ts`, named after that declared type. */
  function DeclaredImportName(u: Universe, t: TypeId): (r: Option<string>)
    requires WellFormed(u) && t in u.types
    ensures r.Some? ==> ValidResult(u, t).Some?
  {
    match ValidResult(u, t)
    case None => None
    case Some(x) =>
      match TsType(u, Some(x))
      case Fail(_) => None
      case Ok(name) => Some(ImportName(name))
  }

  /** Every type a bound property imports is declared by `GetAllTypes` over the
      bound property types, and a collection of a simple type imports nothing. */
  lemma ImportedTypesAreDeclared(u: Universe, roots: seq<TypeId>, list: seq<TypeId>, t: TypeId)
    requires WellFormed(u) && t in roots && forall r :: r in roots ==> r in u.types
    requires AddedBy(u, roots) <= Elements(list)
    ensures DeclaredImportName(u, t).Some? ==> ValidResult(u, t).value in list
  {
    if DeclaredImportName(u, t).Some? {
      assert ValidResult(u, t).value in AddedBy(u, roots);
    }
  }

  /** A collection of a simple element type gives no import. */
  lemma PrimitiveCollectionImportsNothing(u: Universe, c: TypeId, e: TypeId)
    requires WellFormed(u) && c in u.types && e in u.types
    requires IsCollectionOf(u, c, e) && IsSimpleType(u, e) && !IsCollectionType(u, e)
    ensures DeclaredImportName(u, c) == None
  {
    LinksOf(u, c);
    assert StripNullable(u, c) == c;
    assert CollectionType(u, c) == Some(e);
    assert FlattenLoop(u, Some(e)) == Some(e);
    assert Flattened(u, Some(c)) == Some(e);
    assert ValidResult(u, c) == None;
  }

  // ---------------------------------------------------------------------------
  // The relative path of `types.ts`

  /** Backslashes become slashes, and a path that does not climb with `../` gets a
      `./` in front, so the result is always an explicit relative path. */
  function ResolvedImportPath(relative: string): (r: string)
    ensures StartsWith(r, "../") || StartsWith(r, "./")
    ensures '\\' !in r
    ensures EndsWith(r, ReplaceChar(relative, '\\', '/'))
  {
    var path := ReplaceChar(relative, '\\', '/');
    if StartsWith(path, "../") then path else "./" + path
  }

  /** The prefix is added only when the path does not climb. */
  lemma ResolvedImportPathPrefix(relative: string)
    ensures var path := ReplaceChar(relative, '\\', '/');
      ResolvedImportPath(relative) == path <==> StartsWith(path, "../")
  {
  }
}
