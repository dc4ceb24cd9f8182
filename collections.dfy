/** Sequence helpers used by the type-discovery code: duplicate-free lists
    and LINQ's `SelectMany` and `Distinct`. */
module Collections {

  /** No element occurs twice. */
  predicate NoDups<T(==)>(s: seq<T>) {
    forall i, j :: 0 <= i < j < |s| ==> s[i] != s[j]
  }

  /** LINQ `Distinct`: the elements of `s` without repetitions, each kept at its
      first occurrence. */
  function Distinct<T(==,!new)>(s: seq<T>): (r: seq<T>)
    ensures NoDups(r)
    ensures forall x :: x in r <==> x in s
    ensures |r| <= |s|
  {
    if s == [] then []
    else
      var d := Distinct(s[..|s| - 1]);
      var last := s[|s| - 1];
      assert forall x :: x in s <==> x in s[..|s| - 1] || x == last;
      if last in d then d else d + [last]
  }

  /** The parts one after another: LINQ `SelectMany`. */
  function Concat<T(!new)>(parts: seq<seq<T>>): (r: seq<T>)
    ensures forall x :: x in r <==> exists k :: 0 <= k < |parts| && x in parts[k]
  {
    if parts == [] then []
    else
      var init := parts[..|parts| - 1];
      assert forall k :: 0 <= k < |init| ==> init[k] == parts[k];
      Concat(init) + parts[|parts| - 1]
  }

  /** Concatenating one more part appends it. */
  lemma ConcatSnoc<T(!new)>(parts: seq<seq<T>>, part: seq<T>)
    ensures Concat(parts + [part]) == Concat(parts) + part
  {
    assert (parts + [part])[..|parts|] == parts;
  }

  lemma AppendAssoc<T>(a: seq<T>, b: seq<T>, c: seq<T>)
    ensures a + b + c == a + (b + c)
  {
  }

  /** The index of the first occurrence of `x` in `s`. */
  function FirstIndex<T(==)>(s: seq<T>, x: T): (i: nat)
    requires x in s
    ensures i < |s| && s[i] == x
    ensures forall j :: 0 <= j < i ==> s[j] != x
  {
    if s[0] == x then 0 else 1 + FirstIndex(s[1..], x)
  }

  lemma {:induction false} FirstIndexOfPrefix<T>(s: seq<T>, n: nat, x: T)
    requires n <= |s| && x in s[..n]
    ensures x in s && FirstIndex(s, x) == FirstIndex(s[..n], x)
  {
    var i := FirstIndex(s[..n], x);
    assert s[i] == x;
    var k := FirstIndex(s, x);
    assert k <= i;
    assert forall j :: 0 <= j < i ==> s[j] == s[..n][j];
  }

  /** A last element that occurs nowhere before first occurs last. */
  lemma FirstIndexOfFresh<T>(s: seq<T>)
    requires |s| > 0 && s[|s| - 1] !in s[..|s| - 1]
    ensures FirstIndex(s, s[|s| - 1]) == |s| - 1
  {
  }

  /** `Distinct` keeps the order of first occurrences. */
  lemma {:induction false} DistinctKeepsFirstOccurrenceOrder<T(!new)>(s: seq<T>, i: nat, j: nat)
    requires i < j < |Distinct(s)|
    ensures FirstIndex(s, Distinct(s)[i]) < FirstIndex(s, Distinct(s)[j])
  {
    var init := s[..|s| - 1];
    var d := Distinct(init);
    var last := s[|s| - 1];
    var r := Distinct(s);
    assert r[i] in d by {
      assert r == d || r == d + [last];
    }
    FirstIndexOfPrefix(s, |s| - 1, r[i]);
    if j < |d| {
      assert r[i] == d[i] && r[j] == d[j];
      DistinctKeepsFirstOccurrenceOrder(init, i, j);
      FirstIndexOfPrefix(s, |s| - 1, r[j]);
    } else {
      assert r == d + [last] && r[j] == last;
      assert last !in d;
      assert last !in init;
      FirstIndexOfFresh(s);
    }
  }

  /** A duplicate-free sequence drawn from a finite set is no longer than the set. */
  lemma {:induction false} NoDupsBound<T>(s: seq<T>, universe: set<T>)
    requires NoDups(s)
    requires forall x :: x in s ==> x in universe
    ensures |s| <= |universe|
  {
    if s != [] {
      var init := s[..|s| - 1];
      var last := s[|s| - 1];
      forall x | x in init ensures x in universe - {last} {
        var k :| 0 <= k < |init| && init[k] == x;
        assert s[k] == x;
      }
      NoDupsBound(init, universe - {last});
    }
  }
}
