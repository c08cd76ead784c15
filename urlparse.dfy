/** An ASSUMED model of the two pieces of Python's standard library that the
    bot calls: `urllib.parse.urlparse` (text to six components) and
    `ParseResult.geturl` (six components back to text). Neither is code of the
    bot's repository. The split rules are the generic syntax of section 3 of
    RFC 3986 (scheme, then "//" authority, path, "?" query, "#" fragment), with
    the conventions of Python's result record: every component is a string and
    the empty string stands for "absent"; `params` is the RFC 1808 ";" part of
    the last path segment. The join is CPython's `urlunsplit`: the
    recomposition of section 5.3 of RFC 3986 under the same conventions, plus
    two rules of its own. After a host, a relative path gets a leading '/';
    with no host, a path that starts with "//" is written after an empty
    authority. */
module UrlParse {
  import opened Strings

  /** The tuple `urlparse` returns. */
  datatype Components = Components(
    scheme: string,
    netloc: string,
    path: string,
    params: string,
    query: string,
    fragment: string)

  /** `urlparse` raises ValueError("Invalid IPv6 URL") when the authority
      holds only one of '[' and ']'. */
  datatype ParseError = InvalidIPv6Url

  datatype ParseResult = Parsed(parts: Components) | ParseFailed(error: ParseError)

  /** The schemes for which `urlparse` splits off `params` ("" included). */
  const UsesParams: set<string> := {
    "", "ftp", "hdl", "prospero", "http", "imap", "https", "shttp", "rtsp",
    "rtsps", "rtspu", "sip", "sips", "mms", "sftp", "tel" }

  /** Characters that end the authority (section 3.2 of RFC 3986). */
  const AuthorityEnd: set<char> := {'/', '?', '#'}

  predicate IsAsciiLetter(c: char) {
    'a' <= c <= 'z' || 'A' <= c <= 'Z'
  }

  /** scheme = ALPHA *( ALPHA / DIGIT / "+" / "-" / "." ), section 3.1 of RFC 3986. */
  predicate IsSchemeChar(c: char) {
    IsAsciiLetter(c) || '0' <= c <= '9' || c == '+' || c == '-' || c == '.'
  }

  /** Tab, carriage return and line feed, which `urlsplit` deletes anywhere. */
  predicate IsUnsafe(c: char) {
    c == '\t' || c == '\r' || c == '\n'
  }

  predicate Safe(s: string) {
    '\t' !in s && '\r' !in s && '\n' !in s
  }

  /** A scheme as it may be written in a URL, in either case. */
  predicate IsWrittenScheme(x: string) {
    && x != []
    && IsAsciiLetter(x[0])
    && forall k :: 0 <= k < |x| ==> IsSchemeChar(x[k])
  }

  /** A scheme as `urlparse` reports it: well-formed and lower-case. */
  predicate IsScheme(x: string) {
    && IsWrittenScheme(x)
    && forall k :: 0 <= k < |x| ==> !('A' <= x[k] <= 'Z')
  }

  /** Both or neither of the IPv6 brackets. */
  predicate Balanced(netloc: string) {
    ('[' in netloc) == (']' in netloc)
  }

  /** A host that may stand in the authority without changing how the rest
      of the URL splits. */
  predicate ValidHost(h: string) {
    Safe(h) && '/' !in h && '?' !in h && '#' !in h && Balanced(h)
  }

  predicate StartsWithSlashes(s: string) {
    |s| >= 2 && s[0] == '/' && s[1] == '/'
  }

  function LowerAscii(c: char): char {
    if 'A' <= c <= 'Z' then (c as int + 32) as char else c
  }

  function Lower(s: string): (r: string)
    ensures |r| == |s|
    ensures forall k :: 0 <= k < |s| ==> r[k] == LowerAscii(s[k])
  {
    seq(|s|, k requires 0 <= k < |s| => LowerAscii(s[k]))
  }

  /** `str.lstrip` of the C0 control characters and space. */
  function StripLeading(s: string): (r: string)
    ensures |r| <= |s| && r == s[|s| - |r|..]
    ensures r == [] || r[0] > ' '
    ensures forall k :: 0 <= k < |s| - |r| ==> s[k] <= ' '
  {
    if s != [] && s[0] <= ' ' then StripLeading(s[1..]) else s
  }

  /** Deletes every tab, carriage return and line feed. */
  function RemoveUnsafe(s: string): (r: string)
    ensures Safe(r)
    ensures |r| <= |s|
    ensures Safe(s) ==> r == s
    ensures s != [] && !IsUnsafe(s[0]) ==> r != [] && r[0] == s[0]
  {
    if s == [] then []
    else if IsUnsafe(s[0]) then RemoveUnsafe(s[1..])
    else
      assert s == [s[0]] + s[1..];
      [s[0]] + RemoveUnsafe(s[1..])
  }

  /** The clean-up `urlsplit` does before splitting. */
  function Sanitize(s: string): (r: string)
    ensures Safe(r)
    ensures r == [] || r[0] > ' '
    ensures Safe(s) && (s == [] || s[0] > ' ') ==> r == s
  {
    RemoveUnsafe(StripLeading(s))
  }

  /** The text up to the first ':' is a scheme. */
  predicate HasSchemePrefix(s: string) {
    var i := IndexOf(s, ':');
    && 0 < i < |s|
    && IsAsciiLetter(s[0])
    && forall k :: 0 <= k < i ==> IsSchemeChar(s[k])
  }

  /** Splits off the scheme (lower-cased) and the ':' after it. */
  function SplitScheme(s: string): (r: (string, string))
    ensures r.0 == [] <==> !HasSchemePrefix(s)
    ensures r.0 == [] ==> r.1 == s
    ensures r.0 != [] ==> IsScheme(r.0) && |r.0| < |s| && s == s[..|r.0|] + ":" + r.1
  {
    if HasSchemePrefix(s) then
      var i := IndexOf(s, ':');
      assert s == s[..i] + ":" + s[i + 1..];
      (Lower(s[..i]), s[i + 1..])
    else
      ([], s)
  }

  /** After "//", the authority runs up to the first '/', '?' or '#'. */
  function SplitNetloc(s: string): (r: (string, string))
    ensures '/' !in r.0 && '?' !in r.0 && '#' !in r.0
    ensures StartsWithSlashes(s) ==> s == "//" + r.0 + r.1 && (r.1 == [] || r.1[0] in AuthorityEnd)
    ensures !StartsWithSlashes(s) ==> r == ([], s)
  {
    if StartsWithSlashes(s) then
      var j := IndexOfAny(s[2..], AuthorityEnd);
      assert s == "//" + s[2..2 + j] + s[2 + j..];
      (s[2..2 + j], s[2 + j..])
    else
      ([], s)
  }

  /** Index just after the last '/' of `s`, or 0 when there is none. */
  function SegmentStart(s: string): (k: nat)
    ensures k <= |s|
    ensures k > 0 ==> s[k - 1] == '/'
    ensures '/' !in s[k..]
  {
    if s == [] then 0
    else if s[|s| - 1] == '/' then |s|
    else
      var k := SegmentStart(s[..|s| - 1]);
      assert s[k..] == s[..|s| - 1][k..] + [s[|s| - 1]];
      k
  }

  lemma SegmentStartUnique(s: string, k: nat)
    requires k <= |s|
    requires k > 0 ==> s[k - 1] == '/'
    requires '/' !in s[k..]
    ensures SegmentStart(s) == k
  {
  }

  /** The RFC 1808 split of a path: the params start at the first ';' of the
      last segment. */
  function SplitParams(path: string): (r: (string, string))
    ensures r.0 + ";" + r.1 == path || (r.0 == path && r.1 == [])
    ensures ';' !in r.0[SegmentStart(r.0)..]
    ensures '/' !in r.1
  {
    var k := SegmentStart(path);
    var (segment, params) := SplitAt(path[k..], ';');
    if ';' in path[k..] then
      SplitParamsShape(path, k, segment, params);
      (path[..k] + segment, params)
    else
      (path, [])
  }

  /** The pieces SplitParams cuts the path into. */
  lemma SplitParamsShape(path: string, k: nat, segment: string, params: string)
    requires k == SegmentStart(path)
    requires ';' in path[k..] && SplitAt(path[k..], ';') == (segment, params)
    ensures var head := path[..k] + segment;
      && head + ";" + params == path
      && SegmentStart(head) == k
      && ';' !in head[k..]
      && '/' !in params
  {
    var head := path[..k] + segment;
    Regroup(path[..k], segment, ';', params);
    assert path == path[..k] + path[k..];
    DropPrefix(path[..k], segment);
    assert k > 0 ==> head[k - 1] == path[k - 1];
    SegmentStartUnique(head, k);
  }

  lemma Regroup(a: string, b: string, c: char, d: string)
    ensures a + b + [c] + d == a + (b + [c] + d)
  {
  }

  lemma Regroup4(a: string, b: string, c: string, d: string)
    ensures a + b + c + d == a + (b + c + d)
  {
  }

  lemma Regroup5(a: string, b: string, c: string, d: string, e: string)
    ensures a + b + c + d + e == a + (b + c + d + e)
  {
  }

  lemma DropPrefix(a: string, b: string)
    ensures (a + b)[|a|..] == b
  {
  }


  /** urlparse: sanitise, take the scheme and the authority, then the rest. */
  function Parse(text: string): (r: ParseResult)
    ensures r.Parsed? ==> Balanced(r.parts.netloc) && (r.parts.scheme == [] || IsScheme(r.parts.scheme))
    ensures r.Parsed? ==> '/' !in r.parts.netloc && '?' !in r.parts.netloc && '#' !in r.parts.netloc
  {
    var s := Sanitize(text);
    var (scheme, afterScheme) := SplitScheme(s);
    var (netloc, afterNetloc) := SplitNetloc(afterScheme);
    if !Balanced(netloc) then ParseFailed(InvalidIPv6Url)
    else Parsed(SplitTail(scheme, netloc, afterNetloc))
  }

  /** The part of urlparse after the authority: the fragment, the query, then
      the params. */
  function SplitTail(scheme: string, netloc: string, rest: string): Components {
    var (beforeFragment, fragment) := SplitAt(rest, '#');
    var (path0, query) := SplitAt(beforeFragment, '?');
    var (path, params) := PathAndParams(scheme in UsesParams, path0);
    Components(scheme, netloc, path, params, query, fragment)
  }

  /** The params are split off only for the schemes that use them, and only
      when the path holds a ';'. */
  function PathAndParams(usesParams: bool, path0: string): (string, string) {
    if usesParams && ';' in path0 then SplitParams(path0) else (path0, [])
  }

  /** The path as geturl writes it, params included. */
  function JoinPath(u: Components): string {
    if u.params != [] then u.path + ";" + u.params else u.path
  }

  /** geturl: section 5.3 of RFC 3986, writing a component only when it is not
      empty, with the two rules of `HierPart` for the path. */
  function Join(u: Components): (r: string)
    ensures SchemePrefix(u.scheme) <= r
    ensures u.netloc != [] ==> SchemePrefix(u.scheme) + "//" + u.netloc <= r
  {
    SchemePrefix(u.scheme) + HierPart(u.netloc, JoinPath(u)) + Marked('?', u.query) + Marked('#', u.fragment)
  }

  function SchemePrefix(scheme: string): string {
    if scheme != [] then scheme + ":" else []
  }

  /** The authority and the path. With a host, a relative path gets a leading
      '/'; without one, a path that starts with "//" is written after an empty
      authority. */
  function HierPart(netloc: string, path: string): string {
    if netloc != [] then "//" + netloc + (if path != [] && path[0] != '/' then "/" + path else path)
    else if StartsWithSlashes(path) then "//" + path
    else path
  }

  /** The query after '?' or the fragment after '#', or nothing when empty. */
  function Marked(c: char, s: string): string {
    if s != [] then [c] + s else []
  }

  /** The path written after a host is empty or absolute. */
  predicate AbsoluteOrEmpty(u: Components) {
    JoinPath(u) == [] || JoinPath(u)[0] == '/'
  }

  /** What every record that urlparse returns satisfies. */
  predicate WellFormed(u: Components) {
    && Safe(u.scheme) && Safe(u.netloc) && Safe(u.path)
    && Safe(u.params) && Safe(u.query) && Safe(u.fragment)
    && (u.scheme == [] || IsScheme(u.scheme))
    && ValidHost(u.netloc)
    && '?' !in u.path && '#' !in u.path
    && '?' !in u.params && '#' !in u.params
    && '#' !in u.query
    && (u.netloc != [] ==> AbsoluteOrEmpty(u))
    && (u.scheme in UsesParams ==> ';' !in u.path[SegmentStart(u.path)..] && '/' !in u.params)
    && (u.scheme !in UsesParams ==> u.params == [])
    && (u.scheme == [] && u.netloc == [] ==>
          !HasSchemePrefix(JoinPath(u)) && (JoinPath(u) == [] || JoinPath(u)[0] > ' '))
  }

  // ---------------------------------------------------------------------
  // Facts about the scheme test

  /** Extending a text with something that starts with a character that is
      neither a scheme character nor ':' cannot create a scheme. */
  lemma SchemePrefixExtend(a: string, b: string)
    requires b != [] && !IsSchemeChar(b[0]) && b[0] != ':'
    ensures HasSchemePrefix(a + b) ==> HasSchemePrefix(a)
  {
    var s := a + b;
    if HasSchemePrefix(s) {
      var i := IndexOf(s, ':');
      assert s[|a|] == b[0];
      assert i < |a|;
      assert forall k :: 0 <= k <= i ==> a[k] == s[k];
      IndexOfAnyUnique(a, {':'}, i);
    }
  }

  lemma NoSchemeWithoutLetter(s: string)
    requires s != [] && !IsAsciiLetter(s[0])
    ensures !HasSchemePrefix(s)
  {
  }

  /** A prefix that looks like a scheme makes the whole text look like one. */
  lemma SchemePrefixOfPrefix(p: string, s: string)
    requires p <= s
    requires HasSchemePrefix(p)
    ensures HasSchemePrefix(s)
  {
    var i := IndexOf(p, ':');
    assert s[i] == p[i];
    IndexOfAnyUnique(s, {':'}, i);
  }

  lemma LowerOfScheme(x: string)
    requires IsScheme(x)
    ensures Lower(x) == x
  {
  }

  // ---------------------------------------------------------------------
  // urlparse returns well-formed records

  lemma PathAndParamsFacts(usesParams: bool, path0: string)
    requires Safe(path0) && '?' !in path0 && '#' !in path0
    ensures var (path, params) := PathAndParams(usesParams, path0);
      && Safe(path) && Safe(params)
      && '?' !in path && '#' !in path && '?' !in params && '#' !in params
      && (usesParams ==> ';' !in path[SegmentStart(path)..] && '/' !in params)
      && (!usesParams ==> params == [])
      && (if params != [] then path + ";" + params else path) <= path0
  {
    if usesParams && ';' !in path0 {
      var k := SegmentStart(path0);
      assert path0[k..] <= path0[k..] && forall j :: 0 <= j < |path0| - k ==> path0[k..][j] == path0[k + j];
    }
  }

  lemma SplitTailFacts(scheme: string, netloc: string, rest: string)
    requires Safe(rest)
    ensures var u := SplitTail(scheme, netloc, rest);
      && u.scheme == scheme && u.netloc == netloc
      && Safe(u.path) && Safe(u.params) && Safe(u.query) && Safe(u.fragment)
      && '?' !in u.path && '#' !in u.path
      && '?' !in u.params && '#' !in u.params
      && '#' !in u.query
      && (scheme in UsesParams ==> ';' !in u.path[SegmentStart(u.path)..] && '/' !in u.params)
      && (scheme !in UsesParams ==> u.params == [])
      && JoinPath(u) <= rest
  {
    var (beforeFragment, fragment) := SplitAt(rest, '#');
    SplitAtFacts(rest, '#', '#');
    var (path0, query) := SplitAt(beforeFragment, '?');
    SplitAtFacts(beforeFragment, '?', '#');
    PathAndParamsFacts(scheme in UsesParams, path0);
    var u := SplitTail(scheme, netloc, rest);
    PrefixTransitive(JoinPath(u), path0, beforeFragment);
    PrefixTransitive(JoinPath(u), beforeFragment, rest);
  }

  /** The pieces of a split come from the text split. */
  lemma SplitAtFacts(s: string, c: char, d: char)
    ensures var (a, b) := SplitAt(s, c);
      && a <= s
      && (Safe(s) ==> Safe(a) && Safe(b))
      && (d !in s ==> d !in a && d !in b)
  {
  }

  lemma PrefixTransitive(a: string, b: string, c: string)
    requires a <= b && b <= c
    ensures a <= c
  {
    assert forall k | 0 <= k < |a| :: a[k] == b[k] == c[k];
  }

  /** What the scheme and authority steps leave for the rest. */
  lemma SplitHeadFacts(s: string)
    requires Safe(s) && (s == [] || s[0] > ' ')
    ensures var (scheme, afterScheme) := SplitScheme(s);
      var (netloc, rest) := SplitNetloc(afterScheme);
      && Safe(scheme) && (scheme == [] || IsScheme(scheme))
      && Safe(netloc) && '/' !in netloc && '?' !in netloc && '#' !in netloc
      && Safe(rest)
      && (netloc != [] ==> rest == [] || rest[0] in AuthorityEnd)
      && (scheme == [] && netloc == [] ==>
            rest == [] || rest[0] in AuthorityEnd || (!HasSchemePrefix(rest) && rest[0] > ' '))
  {
    var (scheme, afterScheme) := SplitScheme(s);
    if scheme != [] {
      forall c | c in scheme ensures !IsUnsafe(c) {
        var k :| 0 <= k < |scheme| && scheme[k] == c;
        assert IsSchemeChar(scheme[k]);
      }
    }
  }

  /** The facts of SplitHeadFacts and SplitTailFacts make a well-formed record. */
  lemma WellFormedFromSplits(u: Components, rest: string)
    requires Safe(u.scheme) && (u.scheme == [] || IsScheme(u.scheme))
    requires Safe(u.netloc) && ValidHost(u.netloc)
    requires u.netloc != [] ==> rest == [] || rest[0] in AuthorityEnd
    requires u.scheme == [] && u.netloc == [] ==>
      rest == [] || rest[0] in AuthorityEnd || (!HasSchemePrefix(rest) && rest[0] > ' ')
    requires Safe(u.path) && Safe(u.params) && Safe(u.query) && Safe(u.fragment)
    requires '?' !in u.path && '#' !in u.path && '?' !in u.params && '#' !in u.params
    requires '#' !in u.query
    requires u.scheme in UsesParams ==> ';' !in u.path[SegmentStart(u.path)..] && '/' !in u.params
    requires u.scheme !in UsesParams ==> u.params == []
    requires JoinPath(u) <= rest
    ensures WellFormed(u)
  {
    var p := JoinPath(u);
    if p != [] {
      assert p[0] == rest[0];
      assert p[0] != '?' && p[0] != '#';
      if u.scheme == [] && u.netloc == [] && rest[0] !in AuthorityEnd && HasSchemePrefix(p) {
        SchemePrefixOfPrefix(p, rest);
      }
    }
  }

  lemma ParseWellFormed(text: string)
    ensures Parse(text).Parsed? ==> WellFormed(Parse(text).parts)
  {
    var s := Sanitize(text);
    var (scheme, afterScheme) := SplitScheme(s);
    var (netloc, rest) := SplitNetloc(afterScheme);
    if Balanced(netloc) {
      SplitHeadFacts(s);
      var u := SplitTail(scheme, netloc, rest);
      SplitTailFacts(scheme, netloc, rest);
      assert Parse(text) == Parsed(u);
      WellFormedFromSplits(u, rest);
    }
  }

  // ---------------------------------------------------------------------
  // geturl followed by urlparse gives the record back

  /** Splitting at `c` undoes writing `b` after `a` behind a `c`, leaving
      out the `c` when `b` is empty. */
  lemma SplitOptional(a: string, c: char, b: string)
    requires c !in a
    ensures SplitAt(a + Marked(c, b), c) == (a, b)
  {
    if b != [] {
      assert a + ([c] + b) == a + [c] + b;
      SplitAtFirst(a, c, b);
    } else {
      assert a + [] == a;
    }
  }

  /** A character that is neither ';' nor in the path or params is not in
      the path as geturl writes it. */
  lemma JoinPathAvoids(u: Components, c: char)
    requires c != ';' && c !in u.path && c !in u.params
    ensures c !in JoinPath(u)
  {
  }

  /** The fragment, the query and the params come back from the text after
      the authority. */
  lemma TailRoundTrip(u: Components)
    requires '?' !in u.path && '#' !in u.path && '?' !in u.params && '#' !in u.params
    requires '#' !in u.query
    requires u.scheme in UsesParams ==> ';' !in u.path[SegmentStart(u.path)..] && '/' !in u.params
    requires u.scheme !in UsesParams ==> u.params == []
    ensures SplitTail(u.scheme, u.netloc, JoinPath(u) + Marked('?', u.query) + Marked('#', u.fragment)) == u
  {
    var p, q := JoinPath(u), Marked('?', u.query);
    JoinPathAvoids(u, '#');
    JoinPathAvoids(u, '?');
    SplitOptional(p + q, '#', u.fragment);
    SplitOptional(p, '?', u.query);
    ParamsRoundTrip(u.scheme in UsesParams, u.path, u.params);
  }

  lemma ParamsRoundTrip(usesParams: bool, path: string, params: string)
    requires usesParams ==> ';' !in path[SegmentStart(path)..] && '/' !in params
    requires !usesParams ==> params == []
    ensures PathAndParams(usesParams, if params != [] then path + ";" + params else path) == (path, params)
  {
    if params != [] {
      var p := path + ";" + params;
      assert ';' in p by { assert p[|path|] == ';'; }
      SplitParamsJoin(path, params);
    }
  }

  /** The params written after the path are split off again. */
  lemma SplitParamsJoin(path: string, params: string)
    requires ';' !in path[SegmentStart(path)..] && '/' !in params
    ensures SplitParams(path + ";" + params) == (path, params)
  {
    var p := path + ";" + params;
    var k := SegmentStart(path);
    ParamsShape(path, params, k);
    SegmentStartUnique(p, k);
    SplitAtFirst(path[k..], ';', params);
  }

  /** How `path + ";" + params` looks from index `k` of the path. */
  lemma ParamsShape(path: string, params: string, k: nat)
    requires k <= |path|
    ensures var p := path + ";" + params;
      && p[k..] == path[k..] + [';'] + params
      && ';' in p[k..]
      && (k > 0 ==> p[k - 1] == path[k - 1])
      && p[..k] + path[k..] == path
  {
    var p := path + ";" + params;
    assert p[k..][|path| - k] == ';';
    assert p[..k] == path[..k];
  }

  /** An authority written after "//" is split off again. */
  lemma SplitNetlocJoin(netloc: string, rest: string)
    requires '/' !in netloc && '?' !in netloc && '#' !in netloc
    requires rest == [] || rest[0] in AuthorityEnd
    ensures SplitNetloc("//" + netloc + rest) == (netloc, rest)
  {
    var s := "//" + netloc + rest;
    assert s[2..] == netloc + rest;
    IndexOfAnyUnique(s[2..], AuthorityEnd, |netloc|);
    assert s[2..2 + |netloc|] == netloc;
  }

  /** The authority comes back from the text after the scheme. */
  lemma NetlocBack(netloc: string, p: string, q: string, f: string)
    requires '/' !in netloc && '?' !in netloc && '#' !in netloc
    requires netloc != [] ==> p == [] || p[0] == '/'
    requires q == [] || q[0] == '?'
    requires f == [] || f[0] == '#'
    ensures SplitNetloc(HierPart(netloc, p) + q + f) == (netloc, p + q + f)
  {
    if netloc != [] {
      AuthorityBack(netloc, p, q, f);
    } else if StartsWithSlashes(p) {
      assert HierPart(netloc, p) == "//" + [] + p;
      AuthorityBack([], p, q, f);
    } else {
      NoSlashesExtend(p, q, f);
    }
  }

  /** An authority (possibly empty) written after "//" and before the path
      comes back. */
  lemma AuthorityBack(netloc: string, p: string, q: string, f: string)
    requires '/' !in netloc && '?' !in netloc && '#' !in netloc
    requires p == [] || p[0] == '/'
    requires q == [] || q[0] == '?'
    requires f == [] || f[0] == '#'
    ensures SplitNetloc("//" + netloc + p + q + f) == (netloc, p + q + f)
  {
    var rest := p + q + f;
    assert "//" + netloc + p + q + f == "//" + netloc + rest;
    FirstOfTail(p, q, f);
    SplitNetlocJoin(netloc, rest);
  }

  /** What starts the text after the authority. */
  lemma FirstOfTail(p: string, q: string, f: string)
    requires q == [] || q[0] == '?'
    requires f == [] || f[0] == '#'
    ensures var rest := p + q + f;
      && (p != [] ==> rest[0] == p[0])
      && (p == [] ==> rest == [] || rest[0] == '?' || rest[0] == '#')
  {
  }

  /** Writing a query or a fragment after a path that does not start with
      "//" does not make it start with "//". */
  lemma NoSlashesExtend(p: string, q: string, f: string)
    requires !StartsWithSlashes(p)
    requires q == [] || q[0] == '?'
    requires f == [] || f[0] == '#'
    ensures !StartsWithSlashes(p + q + f)
  {
    var s := p + q + f;
    if |p| >= 2 {
      assert s[0] == p[0] && s[1] == p[1];
    } else if q != [] {
      assert s[|p|] == '?';
    } else if f != [] {
      assert s[|p|] == '#';
    } else {
      assert s == p;
    }
  }

  /** The scheme comes back from the whole text. */
  lemma SchemeBack(scheme: string, netloc: string, p: string, q: string, f: string)
    requires scheme == [] || IsScheme(scheme)
    requires scheme == [] && netloc == [] ==> !HasSchemePrefix(p)
    requires q == [] || q[0] == '?'
    requires f == [] || f[0] == '#'
    ensures SplitScheme(SchemePrefix(scheme) + HierPart(netloc, p) + q + f)
         == (scheme, HierPart(netloc, p) + q + f)
  {
    var rest := HierPart(netloc, p) + q + f;
    assert SchemePrefix(scheme) + HierPart(netloc, p) + q + f == SchemePrefix(scheme) + rest;
    if scheme != [] {
      assert SchemePrefix(scheme) + rest == scheme + ":" + rest;
      SplitSchemeJoin(scheme, rest);
    } else {
      assert SchemePrefix(scheme) + rest == rest;
      NoSchemeInHier(netloc, p, q, f);
    }
  }

  /** Without a scheme, geturl's text does not look as if it had one. */
  lemma NoSchemeInHier(netloc: string, p: string, q: string, f: string)
    requires netloc == [] ==> !HasSchemePrefix(p)
    requires q == [] || q[0] == '?'
    requires f == [] || f[0] == '#'
    ensures !HasSchemePrefix(HierPart(netloc, p) + q + f)
  {
    var rest := HierPart(netloc, p) + q + f;
    if netloc != [] || StartsWithSlashes(p) {
      assert rest[0] == '/';
      NoSchemeWithoutLetter(rest);
    } else {
      var t := q + f;
      assert rest == p + t;
      if t != [] {
        assert t[0] == '?' || t[0] == '#';
        SchemePrefixExtend(p, t);
      } else {
        assert rest == p;
      }
    }
  }

  /** A scheme written before ':' is split off again. */
  lemma SplitSchemeJoin(scheme: string, rest: string)
    requires IsScheme(scheme)
    ensures SplitScheme(scheme + ":" + rest) == (scheme, rest)
  {
    SplitSchemeAnyCase(scheme, rest);
    LowerOfScheme(scheme);
  }

  /** A written scheme and its ':' are split off, and the scheme lower-cased. */
  lemma SplitSchemeAnyCase(scheme: string, rest: string)
    requires IsWrittenScheme(scheme)
    ensures SplitScheme(scheme + ":" + rest) == (Lower(scheme), rest)
  {
    var s := scheme + ":" + rest;
    assert s[|scheme|] == ':';
    assert forall k :: 0 <= k < |scheme| ==> s[k] == scheme[k];
    IndexOfAnyUnique(s, {':'}, |scheme|);
    assert s[..|scheme|] == scheme;
  }

  /** The clean-up step leaves geturl's text alone. */
  lemma SanitizedBack(scheme: string, netloc: string, p: string, q: string, f: string)
    requires Safe(scheme) && Safe(netloc) && Safe(p) && Safe(q) && Safe(f)
    requires scheme == [] || IsAsciiLetter(scheme[0])
    requires scheme == [] && netloc == [] ==> p == [] || p[0] > ' '
    requires q == [] || q[0] == '?'
    requires f == [] || f[0] == '#'
    ensures var s := SchemePrefix(scheme) + HierPart(netloc, p) + q + f;
      Sanitize(s) == s
  {
    var h := HierPart(netloc, p);
    HierFacts(netloc, p);
    SafeAppend(SchemePrefix(scheme), h);
    SafeAppend(SchemePrefix(scheme) + h, q);
    SafeAppend(SchemePrefix(scheme) + h + q, f);
    FirstOfJoin(SchemePrefix(scheme), h, q, f);
  }

  /** The authority part is safe when its pieces are, and starts with '/'
      unless it is the bare path. */
  lemma HierFacts(netloc: string, p: string)
    requires Safe(netloc) && Safe(p)
    ensures Safe(HierPart(netloc, p))
    ensures HierPart(netloc, p) == p || HierPart(netloc, p)[0] == '/'
  {
  }

  lemma SafeAppend(a: string, b: string)
    requires Safe(a) && Safe(b)
    ensures Safe(a + b)
  {
  }

  /** The first character of a text in four parts. */
  lemma FirstOfJoin(a: string, b: string, c: string, d: string)
    ensures var s := a + b + c + d;
      s != [] ==> s[0] == if a != [] then a[0] else if b != [] then b[0] else if c != [] then c[0] else d[0]
  {
  }

  /** geturl and urlparse are inverse on the records urlparse returns. */
  lemma RoundTrip(u: Components)
    requires WellFormed(u)
    ensures Parse(Join(u)) == Parsed(u)
  {
    var p, q, f := JoinPath(u), Marked('?', u.query), Marked('#', u.fragment);
    var h := HierPart(u.netloc, p);
    assert Safe(p);
    if u.scheme != [] {
      SchemeIsSafe(u.scheme);
    }
    SanitizedBack(u.scheme, u.netloc, p, q, f);
    SchemeBack(u.scheme, u.netloc, p, q, f);
    NetlocBack(u.netloc, p, q, f);
    TailRoundTrip(u);
    ParseBySteps(Join(u), u.scheme, h + q + f, u.netloc, p + q + f);
  }

  /** Re-parsing what geturl writes for a parsed text gives the same record. */
  lemma ParseJoinParse(text: string)
    requires Parse(text).Parsed?
    ensures Parse(Join(Parse(text).parts)) == Parse(text)
  {
    ParseWellFormed(text);
    RoundTrip(Parse(text).parts);
  }

  // ---------------------------------------------------------------------
  // Replacing the host, and the one way urlparse fails

  /** Putting a valid host in place of a parsed URL's host keeps the record
      well-formed, so geturl and urlparse still agree on it. */
  lemma ReplaceHostWellFormed(u: Components, host: string)
    requires WellFormed(u) && u.netloc != []
    requires ValidHost(host)
    ensures WellFormed(u.(netloc := host))
  {
    var v := u.(netloc := host);
    assert JoinPath(v) == JoinPath(u);
    if host == [] && JoinPath(u) != [] {
      NoSchemeWithoutLetter(JoinPath(u));
    }
  }

  /** An authority holding only one of the IPv6 brackets makes urlparse
      raise. The text may start with blanks, the scheme may be written in
      either case or left out, and the authority and the rest may hold the
      tabs, carriage returns and line feeds that urlparse deletes first. */
  lemma UnbalancedAuthorityFails(lead: string, scheme: string, netloc: string, rest: string)
    requires forall k :: 0 <= k < |lead| ==> lead[k] <= ' '
    requires scheme == [] || IsWrittenScheme(scheme)
    requires '/' !in netloc && '?' !in netloc && '#' !in netloc
    requires rest == [] || rest[0] in AuthorityEnd
    requires !Balanced(netloc)
    ensures Parse(lead + SchemePrefix(scheme) + "//" + netloc + rest) == ParseFailed(InvalidIPv6Url)
  {
    var written := SchemePrefix(scheme) + "//" + netloc + rest;
    var netloc', rest' := RemoveUnsafe(netloc), RemoveUnsafe(rest);
    var afterScheme := "//" + netloc' + rest';
    WrittenStart(scheme, netloc, rest);
    StripBlanks(lead, written);
    CleanWritten(scheme, netloc, rest);
    SchemeSplits(scheme, afterScheme);
    CleanNetloc(netloc);
    CleanRest(rest);
    SplitNetlocJoin(netloc', rest');
    ParseSteps(lead, written, SchemePrefix(scheme) + afterScheme, Lower(scheme), afterScheme, netloc', rest');
    Regroup5(lead, SchemePrefix(scheme), "//", netloc, rest);
  }

  lemma WrittenStart(scheme: string, netloc: string, rest: string)
    requires scheme == [] || IsWrittenScheme(scheme)
    ensures var written := SchemePrefix(scheme) + "//" + netloc + rest;
      written != [] && written[0] > ' '
  {
    if scheme != [] {
      assert (SchemePrefix(scheme) + "//" + netloc + rest)[0] == scheme[0];
    }
  }

  /** A written scheme, or none, before a text starting with "//". */
  lemma SchemeSplits(scheme: string, afterScheme: string)
    requires scheme == [] || IsWrittenScheme(scheme)
    requires StartsWithSlashes(afterScheme)
    ensures SplitScheme(SchemePrefix(scheme) + afterScheme) == (Lower(scheme), afterScheme)
  {
    if scheme != [] {
      assert SchemePrefix(scheme) + afterScheme == scheme + ":" + afterScheme;
      SplitSchemeAnyCase(scheme, afterScheme);
    } else {
      assert SchemePrefix(scheme) + afterScheme == afterScheme;
      NoSchemeWithoutLetter(afterScheme);
    }
  }

  /** The clean-up step keeps the authority's delimiters and brackets. */
  lemma CleanNetloc(netloc: string)
    requires '/' !in netloc && '?' !in netloc && '#' !in netloc
    requires !Balanced(netloc)
    ensures var n := RemoveUnsafe(netloc);
      '/' !in n && '?' !in n && '#' !in n && !Balanced(n)
  {
    RemoveUnsafeKeeps(netloc, '/');
    RemoveUnsafeKeeps(netloc, '?');
    RemoveUnsafeKeeps(netloc, '#');
    RemoveUnsafeKeeps(netloc, '[');
    RemoveUnsafeKeeps(netloc, ']');
  }

  /** The rest after the authority still starts where the authority ends. */
  lemma CleanRest(rest: string)
    requires rest == [] || rest[0] in AuthorityEnd
    ensures RemoveUnsafe(rest) == [] || RemoveUnsafe(rest)[0] in AuthorityEnd
  {
    if rest != [] {
      assert !IsUnsafe(rest[0]);
    }
  }

  /** Parse, read off its steps after blanks and the clean-up. */
  lemma ParseSteps(lead: string, written: string, clean: string, scheme: string, afterScheme: string, netloc: string, rest: string)
    requires StripLeading(lead + written) == written
    requires RemoveUnsafe(written) == clean
    requires SplitScheme(clean) == (scheme, afterScheme)
    requires SplitNetloc(afterScheme) == (netloc, rest)
    ensures Parse(lead + written) == if Balanced(netloc) then Parsed(SplitTail(scheme, netloc, rest))
                                     else ParseFailed(InvalidIPv6Url)
  {
  }

  /** An upper-case scheme and a line break do not hide a lone bracket. */
  lemma UpperCaseMultiLineFails()
    ensures Parse("HTTP://[a/x\ny") == ParseFailed(InvalidIPv6Url)
  {
    assert IsWrittenScheme("HTTP");
    assert "" + SchemePrefix("HTTP") + "//" + "[a" + "/x\ny" == "HTTP://[a/x\ny";
    UnbalancedAuthorityFails("", "HTTP", "[a", "/x\ny");
  }

  /** The blanks `str.lstrip` removes before the first printable character. */
  lemma {:induction false} StripBlanks(lead: string, t: string)
    requires forall k :: 0 <= k < |lead| ==> lead[k] <= ' '
    requires t != [] && t[0] > ' '
    ensures StripLeading(lead + t) == t
  {
    if lead == [] {
      assert lead + t == t;
    } else {
      assert (lead + t)[1..] == lead[1..] + t;
      StripBlanks(lead[1..], t);
    }
  }

  /** Deleting tab, CR and LF works piece by piece. */
  lemma {:induction false} RemoveUnsafeAppend(a: string, b: string)
    ensures RemoveUnsafe(a + b) == RemoveUnsafe(a) + RemoveUnsafe(b)
  {
    if a == [] {
      assert a + b == b;
    } else {
      assert (a + b)[0] == a[0];
      assert (a + b)[1..] == a[1..] + b;
      RemoveUnsafeAppend(a[1..], b);
    }
  }

  /** Deleting tab, CR and LF keeps every other character of the text. */
  lemma {:induction false} RemoveUnsafeKeeps(s: string, c: char)
    requires !IsUnsafe(c)
    ensures c in RemoveUnsafe(s) <==> c in s
  {
    if s != [] {
      RemoveUnsafeKeeps(s[1..], c);
      assert s == [s[0]] + s[1..];
    }
  }

  /** The clean-up step on a scheme, "//", an authority and the rest only
      deletes from the authority and the rest. */
  lemma CleanWritten(scheme: string, netloc: string, rest: string)
    requires scheme == [] || IsWrittenScheme(scheme)
    ensures RemoveUnsafe(SchemePrefix(scheme) + "//" + netloc + rest)
         == SchemePrefix(scheme) + ("//" + RemoveUnsafe(netloc) + RemoveUnsafe(rest))
  {
    var head := SchemePrefix(scheme) + "//";
    if scheme != [] {
      SchemeIsSafe(scheme);
    }
    assert Safe(head);
    CleanAfterSafe(head, netloc, rest);
    Regroup4(SchemePrefix(scheme), "//", RemoveUnsafe(netloc), RemoveUnsafe(rest));
  }

  lemma CleanAfterSafe(head: string, netloc: string, rest: string)
    requires Safe(head)
    ensures RemoveUnsafe(head + netloc + rest) == head + RemoveUnsafe(netloc) + RemoveUnsafe(rest)
  {
    RemoveUnsafeAppend(head + netloc, rest);
    RemoveUnsafeAppend(head, netloc);
  }

  lemma SchemeIsSafe(x: string)
    requires IsWrittenScheme(x)
    ensures Safe(x)
  {
    forall c | c in x ensures !IsUnsafe(c) {
      var k :| 0 <= k < |x| && x[k] == c;
      assert IsSchemeChar(x[k]);
    }
  }

  /** Parse, read off its three first steps. */
  lemma ParseBySteps(text: string, scheme: string, afterScheme: string, netloc: string, rest: string)
    requires Sanitize(text) == text
    requires SplitScheme(text) == (scheme, afterScheme)
    requires SplitNetloc(afterScheme) == (netloc, rest)
    ensures Parse(text) == if Balanced(netloc) then Parsed(SplitTail(scheme, netloc, rest))
                           else ParseFailed(InvalidIPv6Url)
  {
  }
}
