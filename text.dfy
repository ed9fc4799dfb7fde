/** The two string operations the wire protocol relies on: finding a character and
    Python's `str.split` with a one-character separator. */
module Text {
  import opened Wrappers

  /** Index of the first occurrence of `c` in `s`, if any. */
  function IndexOf(s: string, c: char): (r: Option<nat>)
    ensures r.Some? ==> r.value < |s| && s[r.value] == c && c !in s[..r.value]
    ensures r.None? ==> c !in s
  {
    if s == [] then None
    else if s[0] == c then Some(0)
    else match IndexOf(s[1..], c)
      case None => None
      case Some(k) =>
        assert s[..k + 1] == [s[0]] + s[1..][..k];
        Some(k + 1)
  }

  /** The inverse of `Split`: the parts glued back together with `sep` between them. */
  function Join(parts: seq<string>, sep: char): string
    requires |parts| >= 1
  {
    if |parts| == 1 then parts[0] else parts[0] + [sep] + Join(parts[1..], sep)
  }

  /** `s.split(sep)`: the maximal pieces of `s` between occurrences of `sep`, so that a string
      with n separators has n + 1 fields (some of them possibly empty). */
  function Split(s: string, sep: char): (parts: seq<string>)
    ensures |parts| == multiset(s)[sep] + 1
    ensures forall i :: 0 <= i < |parts| ==> sep !in parts[i]
    ensures Join(parts, sep) == s
    decreases |s|
  {
    match IndexOf(s, sep)
    case None =>
      assert multiset(s)[sep] == 0;
      [s]
    case Some(k) =>
      var rest := Split(s[k + 1..], sep);
      assert s == s[..k] + [sep] + s[k + 1..];
      assert multiset(s) == multiset(s[..k]) + multiset{sep} + multiset(s[k + 1..]);
      assert ([s[..k]] + rest)[1..] == rest;
      [s[..k]] + rest
  }

  /** Splitting two separator-free strings glued by one separator gives them back. */
  lemma SplitPair(a: string, b: string, sep: char)
    requires sep !in a && sep !in b
    ensures Split(a + [sep] + b, sep) == [a, b]
  {
    var s := a + [sep] + b;
    var r := IndexOf(s, sep);
    assert s[|a|] == sep;
    assert r.Some? && r.value == |a|;
    assert s[..|a|] == a;
    assert s[|a| + 1..] == b;
    assert Split(b, sep) == [b] by {
      assert IndexOf(b, sep).None?;
    }
  }
}
