/** The bot's own logic: which chats it serves, how it answers a text (swap
    the URL's host for the configured replacement), and the text of the
    `/domains` answer. The chat transport is reduced to the list of messages a
    handler asks it to send. */
module Bot {
  import opened Strings
  import opened UrlParse

  datatype Option<T> = None | Some(value: T)

  // ---------------------------------------------------------------------
  // Configuration

  /** One entry of the domain table: a source host and its replacement. */
  type Replacement = (string, string)

  /** The settings the bot reads at start-up. `domains` lists the entries of
      the replacement dictionary in its iteration (insertion) order. */
  datatype Config = Config(
    adminOnly: bool,
    adminCid: int,
    blocklist: set<int>,
    domains: seq<Replacement>)

  /** A dictionary has no two entries with the same key. */
  predicate DistinctSources(ps: seq<Replacement>) {
    forall i, j :: 0 <= i < j < |ps| ==> ps[i].0 != ps[j].0
  }

  /** The dictionary whose items are `ps`. */
  function DomainMap(ps: seq<Replacement>): (m: map<string, string>)
    ensures m.Keys == set i | 0 <= i < |ps| :: ps[i].0
    ensures DistinctSources(ps) ==> forall i :: 0 <= i < |ps| ==> m[ps[i].0] == ps[i].1
  {
    if ps == [] then map[]
    else
      var last := ps[|ps| - 1];
      DomainMap(ps[..|ps| - 1])[last.0 := last.1]
  }

  // ---------------------------------------------------------------------
  // Message filter

  /** Whether a message from chat `chatId` is handled at all: in admin-only
      mode only the admin's chat is, and a blocked chat never is. */
  function AcceptIncoming(adminOnly: bool, adminCid: int, blocklist: set<int>, chatId: int): (accept: bool)
    ensures accept <==> (!adminOnly || chatId == adminCid) && chatId !in blocklist
  {
    if adminOnly && chatId != adminCid then false
    else if chatId in blocklist then false
    else true
  }

  /** In admin-only mode every other chat is refused, whatever the blocklist. */
  lemma AdminOnlyRefusesOthers(adminCid: int, chatId: int)
    requires chatId != adminCid
    ensures forall blocklist: set<int> :: !AcceptIncoming(true, adminCid, blocklist, chatId)
  {
  }

  /** A blocked chat is refused even when it is the admin's. */
  lemma BlocklistOverridesAdmin(adminOnly: bool, adminCid: int, blocklist: set<int>)
    requires adminCid in blocklist
    ensures !AcceptIncoming(adminOnly, adminCid, blocklist, adminCid)
  {
  }

  // ---------------------------------------------------------------------
  // Text handler

  const DomainRejectedReply := "Sorry, I don't accept this domain."
  const UnknownReply := "Sorry, I don't know what to do with this message."

  /** The default the handler passes to `dict.get`. */
  const FallbackHost := "example.com"

  /** The three ways the text handler can answer. */
  datatype TextOutcome = Rewritten(url: string) | DomainRejected | Unknown

  /** `dict.get(key, default)`. */
  function Get(m: map<string, string>, key: string, default: string): (r: string)
    ensures key in m ==> r == m[key]
    ensures key !in m ==> r == default
  {
    if key in m then m[key] else default
  }

  /** The handler's body with the `dict.get` default left open: a failure
      of urlparse is caught and answered generically, an unknown host is
      refused, a known one is replaced. */
  function RewriteText(text: string, domains: map<string, string>, fallback: string): (r: TextOutcome)
    ensures r.Unknown? <==> Parse(text).ParseFailed?
    ensures r.DomainRejected? <==> Parse(text).Parsed? && Parse(text).parts.netloc !in domains
    ensures r.Rewritten? <==> Parse(text).Parsed? && Parse(text).parts.netloc in domains
    ensures r.Rewritten? ==>
      var u := Parse(text).parts;
      r.url == Join(u.(netloc := domains[u.netloc]))
  {
    match Parse(text)
    case ParseFailed(_) => Unknown
    case Parsed(u) =>
      if u.netloc !in domains then DomainRejected
      else Rewritten(Join(u.(netloc := Get(domains, u.netloc, fallback))))
  }

  /** The text handler. */
  function HandleText(text: string, domains: map<string, string>): (r: TextOutcome)
    ensures r.Unknown? <==> Parse(text).ParseFailed?
    ensures r.DomainRejected? <==> Parse(text).Parsed? && Parse(text).parts.netloc !in domains
    ensures r.Rewritten? <==> Parse(text).Parsed? && Parse(text).parts.netloc in domains
  {
    RewriteText(text, domains, FallbackHost)
  }

  /** The default of the lookup is never used: the membership test before it
      has already sent every unknown host elsewhere. */
  lemma FallbackUnreachable(text: string, domains: map<string, string>, fallback: string)
    ensures RewriteText(text, domains, fallback) == HandleText(text, domains)
  {
  }

  /** A rewritten URL parses to the original's components with only the host
      replaced: scheme, path, params, query and fragment are kept. */
  lemma RewriteChangesOnlyHost(text: string, domains: map<string, string>)
    requires "" !in domains
    requires forall src | src in domains :: ValidHost(domains[src])
    requires HandleText(text, domains).Rewritten?
    ensures Parse(text).Parsed?
    ensures var u := Parse(text).parts;
      && u.netloc in domains
      && Parse(HandleText(text, domains).url) == Parsed(u.(netloc := domains[u.netloc]))
  {
    var u := Parse(text).parts;
    ParseWellFormed(text);
    ReplaceHostWellFormed(u, domains[u.netloc]);
    RoundTrip(u.(netloc := domains[u.netloc]));
  }

  /** What the handler replies with. */
  function ReplyText(o: TextOutcome): (r: string)
    ensures o.Rewritten? ==> r == o.url
    ensures o.DomainRejected? ==> r == DomainRejectedReply
    ensures o.Unknown? ==> r == UnknownReply
  {
    match o
    case Rewritten(url) => url
    case DomainRejected => DomainRejectedReply
    case Unknown => UnknownReply
  }

  // ---------------------------------------------------------------------
  // The /domains listing

  const DomainsHeader := "The current domain replacements are:\n"

  /** The text between the two hosts of a line: a closing backtick, an arrow
      between spaces and an opening backtick. */
  const Arrow := "` \U{2794} `"

  /** One line of the listing, as a Markdown code span per host. */
  function Segment(r: Replacement): string {
    "\n`" + r.0 + Arrow + r.1 + "`"
  }

  function Segments(ps: seq<Replacement>): string {
    if ps == [] then [] else Segment(ps[0]) + Segments(ps[1..])
  }

  /** The header, then one segment per entry, in iteration order. */
  function DomainListing(ps: seq<Replacement>): (r: string)
    ensures DomainsHeader <= r
    ensures ps == [] ==> r == DomainsHeader
  {
    DomainsHeader + Segments(ps)
  }

  lemma {:induction false} SegmentsAppend(ps: seq<Replacement>, r: Replacement)
    ensures Segments(ps + [r]) == Segments(ps) + Segment(r)
  {
    if ps == [] {
      assert ps + [r] == [r];
    } else {
      assert (ps + [r])[1..] == ps[1..] + [r];
      SegmentsAppend(ps[1..], r);
    }
  }

  /** Builds the `/domains` answer the way the handler does, appending one
      segment per entry to the header. */
  method DomainsText(ps: seq<Replacement>) returns (text: string)
    ensures text == DomainListing(ps)
  {
    text := DomainsHeader;
    for i := 0 to |ps|
      invariant text == DomainsHeader + Segments(ps[..i])
    {
      assert ps[..i + 1] == ps[..i] + [ps[i]];
      SegmentsAppend(ps[..i], ps[i]);
      text := text + Segment(ps[i]);
    }
    assert ps[..|ps|] == ps;
  }

  /** Reads the entries back from the segments of a listing. */
  function ParseSegments(s: string): Option<seq<Replacement>>
    decreases |s|
  {
    if s == [] then Some([])
    else if !("\n`" <= s) then None
    else
      var (src, afterSrc) := SplitAt(s[2..], '`');
      if '`' !in s[2..] || !(Arrow[1..] <= afterSrc) then None
      else
        var (dest, rest) := SplitAt(afterSrc[|Arrow| - 1..], '`');
        if '`' !in afterSrc[|Arrow| - 1..] then None
        else
          match ParseSegments(rest)
          case None => None
          case Some(tail) => Some([(src, dest)] + tail)
  }

  function ParseListing(text: string): Option<seq<Replacement>> {
    if DomainsHeader <= text then ParseSegments(text[|DomainsHeader|..]) else None
  }

  /** Hosts never hold a backtick. */
  predicate NoBackticks(ps: seq<Replacement>) {
    forall i :: 0 <= i < |ps| ==> '`' !in ps[i].0 && '`' !in ps[i].1
  }

  /** Where the backticks of a segment fall. */
  lemma SegmentShape(src: string, dest: string, rest: string)
    ensures var s := Segment((src, dest)) + rest;
      && "\n`" <= s
      && s[2..] == src + ['`'] + (Arrow[1..] + dest + "`" + rest)
      && Arrow[1..] <= Arrow[1..] + dest + "`" + rest
      && (Arrow[1..] + dest + "`" + rest)[|Arrow| - 1..] == dest + ['`'] + rest
  {
    var s := Segment((src, dest)) + rest;
    assert s == "\n`" + src + Arrow + dest + "`" + rest;
    assert Arrow == ['`'] + Arrow[1..];
  }

  lemma BacktickIn(a: string, b: string)
    ensures '`' in a + ['`'] + b
  {
    assert (a + ['`'] + b)[|a|] == '`';
  }

  /** Reading one segment off the front of a listing. */
  lemma ParseOneSegment(src: string, dest: string, rest: string, tail: seq<Replacement>)
    requires '`' !in src && '`' !in dest
    requires ParseSegments(rest) == Some(tail)
    ensures ParseSegments(Segment((src, dest)) + rest) == Some([(src, dest)] + tail)
  {
    var afterSrc := Arrow[1..] + dest + "`" + rest;
    SegmentShape(src, dest, rest);
    SplitAtFirst(src, '`', afterSrc);
    SplitAtFirst(dest, '`', rest);
    BacktickIn(src, afterSrc);
    BacktickIn(dest, rest);
  }

  lemma {:induction false} SegmentsRoundTrip(ps: seq<Replacement>)
    requires NoBackticks(ps)
    ensures ParseSegments(Segments(ps)) == Some(ps)
  {
    if ps != [] {
      var rest := ps[1..];
      NoBackticksTail(ps);
      SegmentsRoundTrip(rest);
      ParseOneSegment(ps[0].0, ps[0].1, Segments(rest), rest);
      assert [(ps[0].0, ps[0].1)] + rest == ps;
    }
  }

  lemma NoBackticksTail(ps: seq<Replacement>)
    requires ps != [] && NoBackticks(ps)
    ensures NoBackticks(ps[1..])
  {
    forall i | 0 <= i < |ps| - 1 ensures '`' !in ps[1..][i].0 && '`' !in ps[1..][i].1 {
      assert ps[1..][i] == ps[i + 1];
    }
  }

  /** The listing names every entry, in order, and nothing else: reading it
      back gives the table. */
  lemma ListingRoundTrip(ps: seq<Replacement>)
    requires NoBackticks(ps)
    ensures ParseListing(DomainListing(ps)) == Some(ps)
  {
    assert DomainListing(ps)[|DomainsHeader|..] == Segments(ps);
    SegmentsRoundTrip(ps);
  }

  // ---------------------------------------------------------------------
  // Handlers

  const StartText := "Hi! Just send me a *vxtwitter* or *fxtwitter* link and I'll give you a regular twitter link. Or try /domains to see what other replacements I can make for you :)"

  /** An incoming message, already sorted by the transport into the
      `/start` and `/domains` commands, other text and everything else. */
  datatype Content = StartCommand | DomainsCommand | Text(text: string) | NonText

  datatype Incoming = Incoming(chatId: int, messageId: int, content: Content)

  datatype Format = Plain | Markdown

  /** What a handler asks the transport to do. */
  datatype Outgoing =
    | SendMessage(chatId: int, body: string, format: Format)
    | ReplyTo(chatId: int, messageId: int, body: string)

  /** The handler a message reaches, guarded by the filter. A refused chat gets
      nothing; an accepted text gets exactly one reply to that message,
      carrying one of the three answers. */
  function Handle(cfg: Config, msg: Incoming): (out: seq<Outgoing>)
    requires DistinctSources(cfg.domains)
    ensures !AcceptIncoming(cfg.adminOnly, cfg.adminCid, cfg.blocklist, msg.chatId) ==> out == []
    ensures |out| <= 1
    ensures msg.content.NonText? ==> out == []
    ensures msg.content.Text? && AcceptIncoming(cfg.adminOnly, cfg.adminCid, cfg.blocklist, msg.chatId) ==>
      && |out| == 1
      && out[0].ReplyTo?
      && out[0].chatId == msg.chatId && out[0].messageId == msg.messageId
      && var domains := DomainMap(cfg.domains);
         match Parse(msg.content.text)
         case ParseFailed(_) => out[0].body == UnknownReply
         case Parsed(u) =>
           if u.netloc in domains then out[0].body == Join(u.(netloc := domains[u.netloc]))
           else out[0].body == DomainRejectedReply
    ensures msg.content.StartCommand? && AcceptIncoming(cfg.adminOnly, cfg.adminCid, cfg.blocklist, msg.chatId) ==>
      out == [SendMessage(msg.chatId, StartText, Markdown)]
    ensures msg.content.DomainsCommand? && AcceptIncoming(cfg.adminOnly, cfg.adminCid, cfg.blocklist, msg.chatId) ==>
      out == [SendMessage(msg.chatId, DomainListing(cfg.domains), Markdown)]
  {
    if !AcceptIncoming(cfg.adminOnly, cfg.adminCid, cfg.blocklist, msg.chatId) then []
    else
      match msg.content
      case StartCommand => [SendMessage(msg.chatId, StartText, Markdown)]
      case DomainsCommand => [SendMessage(msg.chatId, DomainListing(cfg.domains), Markdown)]
      case Text(text) =>
        [ReplyTo(msg.chatId, msg.messageId, ReplyText(HandleText(text, DomainMap(cfg.domains))))]
      case NonText => []
  }

  // ---------------------------------------------------------------------
  // Worked cases

  /** A well-formed URL whose host is in the table is answered with the
      same URL on the replacement host. */
  lemma KnownHostRewritten(u: Components, domains: map<string, string>)
    requires WellFormed(u) && u.netloc in domains
    ensures HandleText(Join(u), domains) == Rewritten(Join(u.(netloc := domains[u.netloc])))
  {
    RoundTrip(u);
  }

  /** A well-formed URL whose host is not in the table is refused. */
  lemma UnknownHostRejected(u: Components, domains: map<string, string>)
    requires WellFormed(u) && u.netloc !in domains
    ensures HandleText(Join(u), domains) == DomainRejected
  {
    RoundTrip(u);
  }

  /** A URL with a host and an absolute path and nothing after it. */
  lemma HostPathWellFormed(scheme: string, host: string, path: string)
    requires IsScheme(scheme) && host != [] && ValidHost(host)
    requires path != [] && path[0] == '/' && Safe(path)
    requires ';' !in path && '?' !in path && '#' !in path
    ensures WellFormed(Components(scheme, host, path, "", "", ""))
    ensures Join(Components(scheme, host, path, "", "", "")) == scheme + ":" + "//" + host + path
  {
    var u := Components(scheme, host, path, "", "", "");
    assert JoinPath(u) == path;
    assert HierPart(host, path) == "//" + host + path;
    SchemeIsSafe(scheme);
    NoneInSlice(path, ';', SegmentStart(path));
  }

  /** Text with no scheme, host, query or fragment: all of it is the path. */
  lemma BarePathWellFormed(path: string)
    requires path != [] && path[0] > ' ' && !StartsWithSlashes(path) && Safe(path)
    requires ':' !in path && ';' !in path && '?' !in path && '#' !in path
    ensures WellFormed(Components("", "", path, "", "", ""))
    ensures Join(Components("", "", path, "", "", "")) == path
  {
    var u := Components("", "", path, "", "", "");
    assert JoinPath(u) == path;
    assert !HasSchemePrefix(path);
    NoneInSlice(path, ';', SegmentStart(path));
  }

  lemma NoneInSlice(s: string, c: char, k: nat)
    requires c !in s && k <= |s|
    ensures c !in s[k..]
  {
    assert forall j | 0 <= j < |s| - k :: s[k..][j] == s[k + j];
  }

  /** Swapping the host of a URL with a host and an absolute path and
      nothing after it. */
  lemma HostSwapped(scheme: string, src: string, dest: string, path: string)
    requires IsScheme(scheme)
    requires src != [] && ValidHost(src) && dest != [] && ValidHost(dest)
    requires path != [] && path[0] == '/' && Safe(path)
    requires ';' !in path && '?' !in path && '#' !in path
    ensures HandleText(scheme + ":" + "//" + src + path, map[src := dest])
         == Rewritten(scheme + ":" + "//" + dest + path)
  {
    HostPathWellFormed(scheme, src, path);
    HostPathWellFormed(scheme, dest, path);
    var u := Components(scheme, src, path, "", "", "");
    KnownHostRewritten(u, map[src := dest]);
    assert u.(netloc := dest) == Components(scheme, dest, path, "", "", "");
  }

  lemma HttpsIsScheme()
    ensures IsScheme("https")
  {
  }

  /** Letters, digits, '.' and '-': the characters of a DNS name. */
  predicate HostChars(s: string) {
    forall k :: 0 <= k < |s| ==> IsAsciiLetter(s[k]) || '0' <= s[k] <= '9' || s[k] == '.' || s[k] == '-'
  }

  /** The characters of a DNS name, '/' and space. */
  predicate TextChars(s: string) {
    forall k :: 0 <= k < |s| ==> HostChars([s[k]]) || s[k] == '/' || s[k] == ' '
  }

  lemma TextCharsFacts(s: string)
    requires TextChars(s)
    ensures Safe(s) && Balanced(s)
    ensures ':' !in s && ';' !in s && '?' !in s && '#' !in s
  {
    forall c | c in s ensures HostChars([c]) || c == '/' || c == ' ' {
      var k :| 0 <= k < |s| && s[k] == c;
    }
    forall c | c in s ensures c != '[' && c != ']' && !IsUnsafe(c) && c != ':' && c != ';' && c != '?' && c != '#' {
      assert HostChars([c]) || c == '/' || c == ' ';
      if HostChars([c]) {
        assert [c][0] == c;
      }
    }
  }

  lemma HostCharsValid(s: string)
    requires HostChars(s)
    ensures ValidHost(s)
  {
    forall c | c in s ensures c != '[' && c != ']' && !IsUnsafe(c) && c != '/' && c != '?' && c != '#' {
      var k :| 0 <= k < |s| && s[k] == c;
    }
  }

  lemma VxTwitterParts()
    ensures ValidHost("vxtwitter.com") && ValidHost("twitter.com")
    ensures Safe("/user/status/123")
    ensures ';' !in "/user/status/123" && '?' !in "/user/status/123" && '#' !in "/user/status/123"
  {
    HostCharsValid("vxtwitter.com");
    HostCharsValid("twitter.com");
    TextCharsFacts("/user/status/123");
  }

  lemma VxTwitterUrl()
    ensures "https" + ":" + "//" + "vxtwitter.com" + "/user/status/123" == "https://vxtwitter.com/user/status/123"
  {
  }

  lemma TwitterUrl()
    ensures "https" + ":" + "//" + "twitter.com" + "/user/status/123" == "https://twitter.com/user/status/123"
  {
  }

  /** The replacement the bot exists for. */
  lemma VxTwitterExample()
    ensures HandleText("https://vxtwitter.com/user/status/123", map["vxtwitter.com" := "twitter.com"])
         == Rewritten("https://twitter.com/user/status/123")
  {
    HttpsIsScheme();
    VxTwitterParts();
    HostSwapped("https", "vxtwitter.com", "twitter.com", "/user/status/123");
    VxTwitterUrl();
    TwitterUrl();
  }

  /** Text that is not a URL still parses (with an empty host), so it is
      refused as a domain, not answered with the generic reply. */
  lemma PlainTextIsRejected(domains: map<string, string>)
    requires "" !in domains
    ensures HandleText("hello world", domains) == DomainRejected
  {
    var text := "hello world";
    TextCharsFacts(text);
    BarePathWellFormed(text);
    UnknownHostRejected(Components("", "", text, "", "", ""), domains);
  }

  lemma VxTwitterSegment()
    ensures Segment(("vxtwitter.com", "twitter.com")) == "\n`vxtwitter.com` \U{2794} `twitter.com`"
  {
  }

  lemma FxTwitterSegment()
    ensures Segment(("fxtwitter.com", "twitter.com")) == "\n`fxtwitter.com` \U{2794} `twitter.com`"
  {
  }

  /** The `/domains` answer for a table of two entries. */
  lemma DomainsExample()
    ensures DomainListing([("vxtwitter.com", "twitter.com"), ("fxtwitter.com", "twitter.com")])
         == "The current domain replacements are:\n"
            + "\n`vxtwitter.com` \U{2794} `twitter.com`"
            + "\n`fxtwitter.com` \U{2794} `twitter.com`"
  {
    var ps := [("vxtwitter.com", "twitter.com"), ("fxtwitter.com", "twitter.com")];
    assert ps[1..][1..] == [];
    VxTwitterSegment();
    FxTwitterSegment();
    TwoSegments(DomainsHeader, Segment(ps[0]), Segment(ps[1]));
  }

  lemma TwoSegments(h: string, a: string, b: string)
    ensures h + (a + (b + [])) == h + a + b
  {
  }
}
