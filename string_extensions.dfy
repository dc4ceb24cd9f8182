/** `StringExtensions.ToCamelCase`: lower-case the first character only. */
module StringExtensions {
  import opened Text

  /** A string shorter than two characters is lowered as a whole; otherwise the
      first character is lowered and the rest is kept as it is. */
  function ToCamelCase(s: string): (r: string)
    ensures |r| == |s|
    ensures |s| > 0 ==> r[0] == LowerChar(s[0])
    ensures forall i :: 1 <= i < |s| ==> r[i] == s[i]
  {
    if |s| < 2 then ToLowerInvariant(s) else [LowerChar(s[0])] + s[1..]
  }

  /** Camel-casing twice is camel-casing once. */
  lemma CamelCaseIdempotent(s: string)
    ensures ToCamelCase(ToCamelCase(s)) == ToCamelCase(s)
  {
    var once := ToCamelCase(s);
    var twice := ToCamelCase(once);
    assert |twice| == |once|;
    forall i | 0 <= i < |s| ensures twice[i] == once[i] {
      if i == 0 {
        assert LowerChar(LowerChar(s[0])) == LowerChar(s[0]);
      }
    }
  }

  /** Camel-casing examples: `Id`, `A`, the empty string and `HTMLPage`. */
  lemma CamelCaseExamples()
    ensures ToCamelCase("Id") == "id"
    ensures ToCamelCase("A") == "a"
    ensures ToCamelCase("") == ""
    ensures ToCamelCase("HTMLPage") == "hTMLPage"
  {
  }
}
