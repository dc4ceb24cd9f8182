/** The .NET string operations the core relies on, on `string` = `seq<char>`. */
module Text {
  import opened Wrappers

  predicate StartsWith(s: string, prefix: string) {
    |prefix| <= |s| && s[..|prefix|] == prefix
  }

  predicate EndsWith(s: string, suffix: string) {
    |suffix| <= |s| && s[|s| - |suffix|..] == suffix
  }

  /** `pat` occurs in `s` at index `i`. */
  predicate OccursAt(s: string, pat: string, i: int) {
    0 <= i && i + |pat| <= |s| && s[i..i + |pat|] == pat
  }

  /** `s` holds `pat` somewhere. */
  predicate Contains(s: string, pat: string) {
    exists i :: 0 <= i <= |s| && OccursAt(s, pat, i)
  }

  /** `s?.StartsWith(prefix) == true` for a string that may be null. */
  predicate OptStartsWith(s: Option<string>, prefix: string) {
    s.Some? && StartsWith(s.value, prefix)
  }

  /** The characters `Char.IsWhiteSpace` accepts: U+0009 to U+000D, U+0085 and the
      Unicode space, line and paragraph separators. */
  const WhiteSpace: set<char> :=
    {'\t', '\n', '\U{000B}', '\U{000C}', '\r', ' ', '\U{0085}', '\U{00A0}', '\U{1680}',
     '\U{2000}', '\U{2001}', '\U{2002}', '\U{2003}', '\U{2004}', '\U{2005}', '\U{2006}',
     '\U{2007}', '\U{2008}', '\U{2009}', '\U{200A}', '\U{2028}', '\U{2029}', '\U{202F}',
     '\U{205F}', '\U{3000}'}

  /** `string.IsNullOrWhiteSpace`. */
  predicate IsNullOrWhiteSpace(s: Option<string>) {
    s.None? || forall i :: 0 <= i < |s.value| ==> s.value[i] in WhiteSpace
  }

  /** `string.Join(sep, xs)`. */
  function Join(sep: string, xs: seq<string>): string {
    if |xs| == 0 then ""
    else if |xs| == 1 then xs[0]
    else xs[0] + sep + Join(sep, xs[1..])
  }

  /** A character absent from the separator and from every part is absent from the join. */
  lemma {:induction false} JoinAvoids(sep: string, xs: seq<string>, c: char)
    requires c !in sep
    requires forall k :: 0 <= k < |xs| ==> c !in xs[k]
    ensures c !in Join(sep, xs)
  {
    if |xs| > 1 {
      JoinAvoids(sep, xs[1..], c);
    }
  }

  /** `s.Split(c)[0]`: the text before the first `c`, or all of `s`. */
  function TakeBefore(s: string, c: char): (r: string)
    ensures StartsWith(s, r)
    ensures c !in r
    ensures |r| < |s| ==> s[|r|] == c
  {
    if |s| == 0 || s[0] == c then "" else [s[0]] + TakeBefore(s[1..], c)
  }

  /** The text before the first `c` of `n + [c] + rest` is `n` when `n` has no `c`. */
  lemma {:induction false} TakeBeforeStopsAt(n: string, c: char, rest: string)
    requires c !in n
    ensures TakeBefore(n + [c] + rest, c) == n
  {
    if n != [] {
      assert (n + [c] + rest)[1..] == n[1..] + [c] + rest;
      TakeBeforeStopsAt(n[1..], c, rest);
      assert [n[0]] + n[1..] == n;
    }
  }

  /** `s.Replace(a, b)` for one-character strings `a` and `b`. */
  function ReplaceChar(s: string, a: char, b: char): (r: string)
    ensures |r| == |s|
    ensures forall i :: 0 <= i < |s| ==> r[i] == if s[i] == a then b else s[i]
  {
    seq(|s|, i requires 0 <= i < |s| => if s[i] == a then b else s[i])
  }

  /** `s.Replace(pat, "")`: one left-to-right pass that deletes every occurrence
      of `pat` it meets; text that the deletions bring together is not rescanned. */
  function RemoveAll(s: string, pat: string): (r: string)
    requires |pat| > 0
    ensures |r| <= |s|
    decreases |s|
  {
    if |s| < |pat| then s
    else if s[..|pat|] == pat then RemoveAll(s[|pat|..], pat)
    else [s[0]] + RemoveAll(s[1..], pat)
  }

  /** Text that does not hold `pat` passes through `RemoveAll` unchanged. */
  lemma {:induction false} RemoveAllAbsent(s: string, pat: string)
    requires |pat| > 0 && !Contains(s, pat)
    ensures RemoveAll(s, pat) == s
    decreases |s|
  {
    if |s| >= |pat| {
      assert !OccursAt(s, pat, 0);
      forall i | 0 <= i <= |s[1..]| ensures !OccursAt(s[1..], pat, i) {
        OccursAfterFirst(s, pat, i);
      }
      RemoveAllAbsent(s[1..], pat);
      assert s == [s[0]] + s[1..];
    }
  }

  /** Text in which the first character of `pat` never occurs passes through
      `RemoveAll` untouched, ahead of whatever follows it. */
  lemma {:induction false} RemoveAllKeepsCleanPrefix(a: string, b: string, pat: string)
    requires |pat| > 0 && pat[0] !in a
    ensures RemoveAll(a + b, pat) == a + RemoveAll(b, pat)
    decreases |a|
  {
    if a != [] {
      var s := a + b;
      assert s[0] == a[0] && a[0] != pat[0];
      if |s| < |pat| {
        assert RemoveAll(b, pat) == b;
      } else {
        assert s[..|pat|][0] != pat[0];
        assert s[1..] == a[1..] + b;
        RemoveAllKeepsCleanPrefix(a[1..], b, pat);
        calc {
          RemoveAll(s, pat);
          [s[0]] + RemoveAll(s[1..], pat);
          [a[0]] + (a[1..] + RemoveAll(b, pat));
          ([a[0]] + a[1..]) + RemoveAll(b, pat);
          { assert [a[0]] + a[1..] == a; }
          a + RemoveAll(b, pat);
        }
      }
    } else {
      assert a + b == b;
    }
  }

  /** `s.TrimEnd(chars)`. */
  function TrimEnd(s: string, chars: set<char>): (r: string)
    ensures StartsWith(s, r)
    ensures r == [] || r[|r| - 1] !in chars
    ensures forall i :: |r| <= i < |s| ==> s[i] in chars
  {
    if |s| > 0 && s[|s| - 1] in chars then TrimEnd(s[..|s| - 1], chars) else s
  }

  /** Trimming `s + t` removes exactly `t` when every character of `t` is trimmed
      and the last character of `s` is not. */
  lemma {:induction false} TrimEndRemoves(s: string, t: string, chars: set<char>)
    requires forall i :: 0 <= i < |t| ==> t[i] in chars
    requires s == [] || s[|s| - 1] !in chars
    ensures TrimEnd(s + t, chars) == s
  {
    if t == [] {
      assert s + t == s;
    } else {
      var init := t[..|t| - 1];
      assert (s + t)[..|s + t| - 1] == s + init;
      TrimEndRemoves(s, init, chars);
    }
  }

  /** Nothing is trimmed from a string that does not end (start) with a trimmed
      character. */
  lemma TrimKeeps(s: string, chars: set<char>)
    ensures s == [] || (s[0] !in chars && s[|s| - 1] !in chars) ==>
      TrimStart(TrimEnd(s, chars), chars) == s
  {
    if s != [] && s[0] !in chars && s[|s| - 1] !in chars {
      assert TrimEnd(s, chars) == s;
    }
  }

  /** `s.TrimStart(chars)`. */
  function TrimStart(s: string, chars: set<char>): (r: string)
    ensures EndsWith(s, r)
    ensures r == [] || r[0] !in chars
    ensures forall i :: 0 <= i < |s| - |r| ==> s[i] in chars
  {
    if |s| > 0 && s[0] in chars then TrimStart(s[1..], chars) else s
  }

  /** `s.Trim()`: white space removed at both ends. The result is a piece of `s`
      that neither starts nor ends with white space, and a string with no white
      space at its ends is kept whole. */
  function Trim(s: string): (r: string)
    ensures r == [] || (r[0] !in WhiteSpace && r[|r| - 1] !in WhiteSpace)
    ensures Contains(s, r)
    ensures s == [] || (s[0] !in WhiteSpace && s[|s| - 1] !in WhiteSpace) ==> r == s
    ensures exists i, j ::
      (&& 0 <= i <= j <= |s| && r == s[i..j]
       && (forall k :: 0 <= k < i ==> s[k] in WhiteSpace)
       && (forall k :: j <= k < |s| ==> s[k] in WhiteSpace))
  {
    TrimBothEndsCut(s, WhiteSpace);
    TrimBothEndsClean(s, WhiteSpace);
    TrimBothEndsPiece(s, WhiteSpace);
    TrimKeeps(s, WhiteSpace);
    TrimStart(TrimEnd(s, WhiteSpace), WhiteSpace)
  }

  /** Trimming the end and then the start leaves no trimmed character at either end. */
  lemma TrimBothEndsClean(s: string, chars: set<char>)
    ensures var r := TrimStart(TrimEnd(s, chars), chars);
      r == [] || (r[0] !in chars && r[|r| - 1] !in chars)
  {
    var e := TrimEnd(s, chars);
    LastOfSuffix(e, TrimStart(e, chars));
  }

  /** A non-empty suffix ends with the last character of the whole. */
  lemma LastOfSuffix(s: string, suffix: string)
    requires EndsWith(s, suffix)
    ensures suffix != [] ==> suffix[|suffix| - 1] == s[|s| - 1]
  {
    if suffix != [] {
      assert suffix[|suffix| - 1] == s[|s| - |suffix|..][|suffix| - 1];
    }
  }

  /** Trimming the end and then the start cuts only trimmed characters, at either end. */
  lemma TrimBothEndsCut(s: string, chars: set<char>)
    ensures var r := TrimStart(TrimEnd(s, chars), chars);
      exists i, j ::
        (&& 0 <= i <= j <= |s| && r == s[i..j]
         && (forall k :: 0 <= k < i ==> s[k] in chars)
         && (forall k :: j <= k < |s| ==> s[k] in chars))
  {
    var e := TrimEnd(s, chars);
    var r := TrimStart(e, chars);
    var i, j := |e| - |r|, |e|;
    assert s[..|e|] == e;
    assert e[|e| - |r|..] == r;
    assert s[i..j] == r;
    assert forall k :: 0 <= k < i ==> s[k] == e[k];
  }

  /** Trimming the end and then the start leaves a piece of `s`. */
  lemma TrimBothEndsPiece(s: string, chars: set<char>)
    ensures Contains(s, TrimStart(TrimEnd(s, chars), chars))
  {
    var e := TrimEnd(s, chars);
    var r := TrimStart(e, chars);
    assert s[..|e|] == e;
    assert s[|e| - |r|..|e|] == e[|e| - |r|..];
    assert OccursAt(s, r, |e| - |r|);
  }

  /** `Split(sep)` scans left to right and cuts at each occurrence it meets, never
      inside one it has already cut at; this is the text after the last cut, or
      None when `sep` does not occur. The contract says the tail follows an
      occurrence and holds none; `AfterLastSeparatorIsTail` pins the tail down for a
      separator that cannot overlap itself, and `OverlappingSeparator` shows the
      left-to-right cut for one that can. */
  function AfterLastSeparator(s: string, sep: string): (r: Option<string>)
    requires |sep| > 0
    ensures r.None? <==> !Contains(s, sep)
    ensures r.Some? ==> EndsWith(s, sep + r.value) && !Contains(r.value, sep)
    decreases |s|
  {
    if |s| < |sep| then None
    else if s[..|sep|] == sep then
      assert OccursAt(s, sep, 0);
      Some(AfterLastSeparator(s[|sep|..], sep).GetOr(s[|sep|..]))
    else
      var r := AfterLastSeparator(s[1..], sep);
      assert r.Some? ==> Contains(s, sep) by {
        if r.Some? {
          var i :| 0 <= i <= |s[1..]| && OccursAt(s[1..], sep, i);
          OccursAfterFirst(s, sep, i);
        }
      }
      assert r.None? ==> !Contains(s, sep) by {
        if r.None? {
          forall i | 0 < i <= |s| && i + |sep| <= |s| ensures !OccursAt(s, sep, i) {
            OccursAfterFirst(s, sep, i - 1);
          }
        }
      }
      r
  }

  /** An occurrence in `s[1..]` is an occurrence in `s`, one place further on. */
  lemma OccursAfterFirst(s: string, pat: string, i: nat)
    requires |s| > 0
    ensures OccursAt(s[1..], pat, i) <==> OccursAt(s, pat, i + 1)
  {
    if i + |pat| <= |s[1..]| {
      var a, b := s[i + 1..i + 1 + |pat|], s[1..][i..i + |pat|];
      forall k | 0 <= k < |pat| ensures a[k] == b[k] {
      }
      assert a == b;
    }
  }

  lemma DropFirst(prefix: string, sep: string, tail: string)
    requires prefix != []
    ensures (prefix + sep + tail)[1..] == prefix[1..] + sep + tail
  {
    assert prefix + sep + tail == [prefix[0]] + (prefix[1..] + sep + tail);
  }

  /** When `sep` cannot overlap itself (its first character does not recur in it),
      the text after the last separator of `prefix + sep + tail` is `tail` whenever
      `tail` holds no separator. */
  lemma {:induction false} AfterLastSeparatorIsTail(prefix: string, sep: string, tail: string)
    requires |sep| > 0
    requires forall k :: 0 < k < |sep| ==> sep[k] != sep[0]
    requires !Contains(tail, sep)
    ensures AfterLastSeparator(prefix + sep + tail, sep) == Some(tail)
    decreases |prefix|
  {
    var s := prefix + sep + tail;
    if prefix == [] {
      assert s == sep + tail && s[..|sep|] == sep && s[|sep|..] == tail;
    } else if |prefix| < |sep| {
      assert s[..|sep|][|prefix|] == sep[0] != sep[|prefix|];
      DropFirst(prefix, sep, tail);
      AfterLastSeparatorIsTail(prefix[1..], sep, tail);
    } else if s[..|sep|] == sep {
      assert s[|sep|..] == prefix[|sep|..] + sep + tail;
      AfterLastSeparatorIsTail(prefix[|sep|..], sep, tail);
    } else {
      DropFirst(prefix, sep, tail);
      AfterLastSeparatorIsTail(prefix[1..], sep, tail);
    }
  }

  /** In `aaa`, `Split("aa")` cuts at index 0 and not at index 1, so the last part
      is `a`, not the empty text after the rightmost occurrence. */
  lemma OverlappingSeparator()
    ensures AfterLastSeparator("aaa", "aa") == Some("a")
  {
    assert "aaa"[..2] == "aa" && "aaa"[2..] == "a";
    assert AfterLastSeparator("a", "aa") == None;
  }

  /** `s.Split(sep).Last()`. */
  function LastSegment(s: string, sep: string): (r: string)
    requires |sep| > 0
    ensures EndsWith(s, r) && !Contains(r, sep)
    ensures !Contains(s, sep) ==> r == s
    ensures Contains(s, sep) ==> EndsWith(s, sep + r)
  {
    match AfterLastSeparator(s, sep)
    case None => s
    case Some(after) =>
      assert OccursAt(s, sep, |s| - |sep| - |after|) by {
        assert s[|s| - |sep| - |after|..] == sep + after;
        assert s[|s| - |sep| - |after|..][..|sep|] == sep;
      }
      after
  }

  /** `char.ToLowerInvariant`, on the ASCII letters. */
  function LowerChar(c: char): char {
    if 'A' <= c <= 'Z' then (c as int + 32) as char else c
  }

  /** `string.ToLowerInvariant`. */
  function ToLowerInvariant(s: string): (r: string)
    ensures |r| == |s|
    ensures forall i :: 0 <= i < |s| ==> r[i] == LowerChar(s[i])
  {
    seq(|s|, i requires 0 <= i < |s| => LowerChar(s[i]))
  }
}
