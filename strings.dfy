/** Searching and splitting strings, the way Python's `str.find` and
    `str.split(sep, 1)` do it. */
module Strings {

  /** Index of the first character of `s` that belongs to `stops`, or `|s|`
      when there is none. */
  function IndexOfAny(s: string, stops: set<char>): (i: nat)
    ensures i <= |s|
    ensures i < |s| ==> s[i] in stops
    ensures forall k :: 0 <= k < i ==> s[k] !in stops
  {
    if s == [] then 0
    else if s[0] in stops then 0
    else 1 + IndexOfAny(s[1..], stops)
  }

  /** The three ensures of IndexOfAny determine it. */
  lemma IndexOfAnyUnique(s: string, stops: set<char>, i: nat)
    requires i <= |s|
    requires i < |s| ==> s[i] in stops
    requires forall k :: 0 <= k < i ==> s[k] !in stops
    ensures IndexOfAny(s, stops) == i
  {
  }

  /** `str.find(c)`, with `|s|` standing for "not found". */
  function IndexOf(s: string, c: char): (i: nat)
    ensures i <= |s|
    ensures i < |s| <==> c in s
    ensures i < |s| ==> s[i] == c
    ensures forall k :: 0 <= k < i ==> s[k] != c
  {
    IndexOfAny(s, {c})
  }

  /** `s.split(c, 1)` read as a pair: the text before the first `c` and the
      text after it, or `(s, "")` when `c` does not occur. */
  function SplitAt(s: string, c: char): (r: (string, string))
    ensures c !in r.0
    ensures c in s ==> s == r.0 + [c] + r.1
    ensures c !in s ==> r.0 == s && r.1 == []
  {
    var i := IndexOf(s, c);
    if i < |s| then
      assert s == s[..i] + [c] + s[i + 1..];
      (s[..i], s[i + 1..])
    else
      (s, [])
  }

  /** Splitting at the first `c` of `a + [c] + b` gives back `a` and `b`. */
  lemma SplitAtFirst(a: string, c: char, b: string)
    requires c !in a
    ensures SplitAt(a + [c] + b, c) == (a, b)
  {
    var s := a + [c] + b;
    IndexOfAnyUnique(s, {c}, |a|);
    var r := SplitAt(s, c);
    assert r.0 == s[..|a|] == a;
    assert r.1 == s[|a| + 1..] == b;
  }
}
