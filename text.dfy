/** String helpers shared by the DDL renderers: joining, quoting, prefix/suffix tests. */
module Text {

  /** Environment.NewLine, taken as the Unix line terminator. */
  const NewLine: string := "\n"

  /** `"` + s + `"`. */
  function Quote(s: string): string {
    "\"" + s + "\""
  }

  /** The source's QuoteIf helper: double-quote the text iff the flag is set. */
  function QuoteIf(s: string, doQuote: bool): string {
    if doQuote then Quote(s) else s
  }

  /** Apply QuoteIf to every element, keeping the order. */
  function QuoteAll(names: seq<string>, doQuote: bool): (r: seq<string>)
    ensures |r| == |names|
    ensures forall i :: 0 <= i < |names| ==> r[i] == QuoteIf(names[i], doQuote)
  {
    if |names| == 0 then [] else QuoteAll(names[..|names| - 1], doQuote) + [QuoteIf(names[|names| - 1], doQuote)]
  }

  /** string.Join(sep, parts): the parts in order with sep between neighbours and no trailing sep. */
  function Join(sep: string, parts: seq<string>): string {
    if |parts| == 0 then ""
    else if |parts| == 1 then parts[0]
    else Join(sep, parts[..|parts| - 1]) + sep + parts[|parts| - 1]
  }

  /** The concatenation of prefix + part for every part, in order. */
  function Prefixed(prefix: string, parts: seq<string>): string {
    if |parts| == 0 then "" else Prefixed(prefix, parts[..|parts| - 1]) + prefix + parts[|parts| - 1]
  }

  /** The concatenation of prefix + part + suffix for every part, in order. */
  function Wrapped(prefix: string, parts: seq<string>, suffix: string): string {
    if |parts| == 0 then "" else Wrapped(prefix, parts[..|parts| - 1], suffix) + prefix + parts[|parts| - 1] + suffix
  }

  predicate StartsWith(s: string, p: string) {
    |p| <= |s| && s[..|p|] == p
  }

  predicate EndsWith(s: string, p: string) {
    |p| <= |s| && s[|s| - |p|..] == p
  }

  lemma JoinSnoc(sep: string, parts: seq<string>, x: string)
    requires |parts| > 0
    ensures Join(sep, parts + [x]) == Join(sep, parts) + sep + x
  {
    assert (parts + [x])[..|parts|] == parts;
  }

  lemma PrefixedSnoc(prefix: string, parts: seq<string>, x: string)
    ensures Prefixed(prefix, parts + [x]) == Prefixed(prefix, parts) + prefix + x
  {
    assert (parts + [x])[..|parts|] == parts;
  }

  lemma WrappedSnoc(prefix: string, parts: seq<string>, x: string, suffix: string)
    ensures Wrapped(prefix, parts + [x], suffix) == Wrapped(prefix, parts, suffix) + prefix + x + suffix
  {
    assert (parts + [x])[..|parts|] == parts;
  }

  lemma QuoteAllSnoc(names: seq<string>, x: string, doQuote: bool)
    ensures QuoteAll(names + [x], doQuote) == QuoteAll(names, doQuote) + [QuoteIf(x, doQuote)]
  {
    assert (names + [x])[..|names|] == names;
  }

  lemma StartsWithAppend(s: string, p: string, t: string)
    requires StartsWith(s, p)
    ensures StartsWith(s + t, p)
  {
    assert (s + t)[..|p|] == s[..|p|];
  }

  lemma EndsWithAppend(s: string, t: string, p: string)
    requires EndsWith(t, p)
    ensures EndsWith(s + t, p)
  {
    assert (s + t)[|s + t| - |p|..] == t[|t| - |p|..];
  }

  lemma EndsWithTransitive(s: string, t: string, p: string)
    requires EndsWith(s, t) && EndsWith(t, p)
    ensures EndsWith(s, p)
  {
    assert s[|s| - |p|..] == t[|t| - |p|..];
  }

  lemma StartsWithConcat(p: string, t: string)
    ensures StartsWith(p + t, p)
  {
    assert (p + t)[..|p|] == p;
  }

  lemma StartsWithTransitive(s: string, p: string, q: string)
    requires StartsWith(s, p) && StartsWith(p, q)
    ensures StartsWith(s, q)
  {
    assert s[..|q|] == p[..|q|];
  }

  /** Appending every part followed by the separator, then cutting the last separator off, is the
      join. */
  lemma {:induction false} WrappedIsJoinThenSep(parts: seq<string>, sep: string)
    requires |parts| > 0
    ensures Wrapped("", parts, sep) == Join(sep, parts) + sep
  {
    var front := parts[..|parts| - 1];
    var x := parts[|parts| - 1];
    var w := Wrapped("", front, sep);
    assert Wrapped("", parts, sep) == w + "" + x + sep;
    if |front| == 0 {
      assert w + "" + x + sep == x + sep;
    } else {
      WrappedIsJoinThenSep(front, sep);
      var j := Join(sep, front);
      assert Join(sep, parts) == j + sep + x;
      assert w + "" + x + sep == (j + sep + x) + sep;
    }
  }
}
