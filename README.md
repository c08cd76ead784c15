# UnFxBot: a Dafny model of the bot's logic

UnFxBot is a Telegram bot. It answers a link to a "fixed" mirror of a site (such as `vxtwitter.com` or `fxtwitter.com`) with the same link on the original host (`twitter.com`).

This project models the bot's own logic, found in `bot.py`:

- **The message filter** (`filter_message_incoming`). It decides whether a chat is served at all, from the admin-only flag, the admin's chat id and the blocklist.
- **The text handler** (`handle_text`). It parses the text as a URL and looks the host up exactly (case-sensitively) in the domain table. It then refuses the text, or rebuilds the URL with only the host replaced. Any failure is answered with a generic reply.
- **The `/domains` listing** (`handle_domains`). It builds a header and then one line per table entry, in the table's iteration order.
- **Dispatch to the handlers.** Each handler runs behind the filter. `/start` sends a fixed text.

The model is split into three modules:

- `strings.dfy` (module `Strings`): `str.find` and `str.split(c, 1)` on strings.
- `urlparse.dfy` (module `UrlParse`): an **assumed model** of `urllib.parse.urlparse` and `ParseResult.geturl` from Python's standard library. These are not code of the repository.
  - The record has six fields: scheme, netloc, path, params, query and fragment.
  - The split rules are the generic syntax of section 3 of RFC 3986, with the parameters of RFC 1808. They follow CPython's shape:
    - leading C0 control characters and spaces are stripped, and tab, CR and LF are removed;
    - the scheme is lower-cased;
    - the authority runs from "//" to the first '/', '?' or '#';
    - the fragment is split off first, then the query;
    - the params come from the last path segment, for the schemes that use them;
    - an authority holding only one of '[' and ']' raises `ValueError`.
  - The join is CPython's `urlunsplit`. It follows section 5.3 of RFC 3986, where an empty component counts as absent, plus two rules of its own:
    - after a host, a relative path gets a leading '/';
    - with no host, a path that starts with "//" is written after an empty authority.
- `bot.dfy` (module `Bot`): the configuration, the filter, the text handler, the listing (as a method with a loop) and the dispatch.

The domain table is a Python dict, which iterates in insertion order. It is modelled as a sequence of `(src, dest)` pairs. `DomainMap` gives the dictionary those pairs build. What the handlers ask the transport to send is modelled as a list of `Outgoing` messages.

Text that is not a URL, such as `"hello world"`, does not get the generic "I don't know what to do with this message" reply. `urlparse("hello world")` succeeds with an empty host. The empty host is not in the table, so the bot answers "Sorry, I don't accept this domain." `Bot.PlainTextIsRejected` proves this.

## Model

| member | source | states |
|---|---|---|
| Bot.AcceptIncoming | bot.py:74-81 | a chat is served exactly when admin-only mode is off or the chat is the admin's, and the chat is not blocked |
| Bot.AdminOnlyRefusesOthers | bot.py:76-77 | in admin-only mode every other chat is refused, whatever the blocklist |
| Bot.BlocklistOverridesAdmin | bot.py:79-80 | a blocked chat is refused even when it is the admin's |
| Bot.DomainMap | bot.py:104 | the dictionary built from the pairs has exactly the pairs' sources as keys, and with distinct sources each source maps to its own destination |
| Bot.HandleText | bot.py:100-110 | exactly one of three answers: generic exactly when urlparse fails, refusal exactly when the parsed host is not a key, rewrite exactly when it is |
| Bot.RewriteText | bot.py:102-110 | the handler's body with the `dict.get` default left open: generic answer exactly when urlparse fails, refusal exactly when the parsed host is not a key, otherwise the parsed URL rebuilt with `map[host]` as its host, whatever the default |
| Bot.Get | bot.py:107 | `dict.get`: the key's value when the key is present, the default otherwise |
| Bot.ReplyText | bot.py:105-110 | the reply sent: the rebuilt URL, the refusal text of line 105 or the generic text of line 110 |
| Bot.FallbackUnreachable | bot.py:104-107 | the handler's answer is the same whatever default `dict.get` is given, so the `"example.com"` default is never used |
| Bot.RewriteChangesOnlyHost | bot.py:103-108 | a rewritten URL parses to the original's components with only the host replaced by `map[host]`; scheme, path, params, query and fragment are kept |
| Bot.KnownHostRewritten | bot.py:104-108 | a well-formed URL whose host is a key is answered with the same URL on the replacement host |
| Bot.UnknownHostRejected | bot.py:104-106 | a well-formed URL whose host is not a key is refused, and no URL is produced |
| Bot.HostSwapped | bot.py:103-108 | `scheme://src/path` with the table `{src: dest}` is answered with `scheme://dest/path` |
| Bot.DomainListing | bot.py:93-95 | the listing text starts with the header, and an empty table gives the header alone |
| Bot.DomainsText | bot.py:91-96 | the loop that appends one segment per entry to the header builds exactly the listing |
| Bot.ListingRoundTrip | bot.py:93-95 | the listing is the header followed by one "\n`src` ➔ `dest`" segment per entry, in order: reading it back gives the table |
| Bot.Handle | bot.py:83-110 | for a table with distinct sources, as every dict has: a refused chat gets nothing; at most one message is sent; `/start` sends the fixed text; `/domains` sends the listing; an accepted text gets exactly one reply to that message, which is the generic text on a parse failure, the refusal for an unknown host, or the rebuilt URL for a known one |
| Bot.VxTwitterExample | bot.py:103-108 | `https://vxtwitter.com/user/status/123` becomes `https://twitter.com/user/status/123` |
| Bot.PlainTextIsRejected | bot.py:103-106 | `"hello world"` parses with an empty host and is answered with the domain refusal, not the generic reply |
| Bot.DomainsExample | bot.py:93-95 | the listing for the table `vxtwitter.com → twitter.com, fxtwitter.com → twitter.com` |
| UrlParse.Parse | bot.py:103 | urlparse: on success the scheme is empty or a lower-case RFC 3986 scheme, and the host holds no '/', '?' or '#' and both or neither IPv6 bracket |
| UrlParse.Join | bot.py:108 | geturl: the text starts with the scheme and ':' (when there is a scheme), followed by "//" and the host when there is a host |
| UrlParse.ParseWellFormed | bot.py:103 | every record urlparse returns is well-formed |
| UrlParse.RoundTrip | bot.py:103-108 | on well-formed records geturl is a right inverse of urlparse: parsing the joined text gives back the record |
| UrlParse.ParseJoinParse | bot.py:103-108 | re-parsing geturl's text for a parsed URL gives the same components |
| UrlParse.ReplaceHostWellFormed | bot.py:107 | replacing a parsed URL's non-empty host by a valid host (`_replace(netloc=...)`) keeps the record well-formed |
| UrlParse.UnbalancedAuthorityFails | bot.py:102-110 | an authority holding only one IPv6 bracket makes urlparse fail: after any leading blanks, with the scheme in either case or left out, and whatever tab, CR or LF the authority and the rest hold; this is the failure the handler's `except` turns into the generic reply |
| UrlParse.UpperCaseMultiLineFails | bot.py:102-110 | `HTTP://[a/x` followed by a line break and `y` makes urlparse fail: neither the upper-case scheme nor the line feed hides the lone bracket |

## Left out

- The `telebot` transport is left out because it is a network client. This covers bot construction, `get_me`, handler registration, `send_message`, `reply_to` and polling (bot.py:65-67, 84, 90, 99, 123). How telebot routes a message to a handler is modelled only by the `Content` datatype: `/start`, `/domains`, other text, and everything else.
- A failing `reply_to` inside the `try` of `handle_text` (bot.py:105, 108) is not modelled. In the code it would be caught and followed by a second, generic reply. The model assumes that sending succeeds.
- The run loop (bot.py:116-129) is left out: it is process control, sleeping and `KeyboardInterrupt` handling.
- Console logging (bot.py:31-33, 39-62) is I/O.
- Loading `settings` and `settings_secure` (bot.py:28-29) is left out: those modules are not part of this model. The configuration is the `Config` parameter.
- Markdown rendering of the replies is done by the chat platform, not by the bot.
- Inside the assumed urlparse model:
  - the model follows the `urllib.parse` of CPython 3.12.4 and later;
  - the validation of a bracketed host through `ipaddress` is not modelled. For the bot this matters: for `https://[vxtwitter.com]/x` CPython raises `ValueError` and the bot gives the generic reply, while the model parses the host `[vxtwitter.com]` and gives the domain refusal;
  - the NFKC check of a non-ASCII netloc is not modelled either;
  - for a scheme in `uses_netloc` (such as `http`), an empty host and an empty or absolute path, CPython's geturl writes an extra "//" (`http:/a` becomes `http:///a`). The model writes such a record without it. Both texts parse back to the same record; a relative path is written unchanged by both.
- Bot.RewriteChangesOnlyHost: stated only for tables with no empty source host and whose replacement hosts hold no '/', '?', '#', tab, CR or LF and no unbalanced IPv6 bracket. Otherwise the rewritten text does not parse back.
  - With an empty source host, a relative path written after a new host gains a leading '/', as geturl writes it.
  - A replacement holding '/' would move part of the host into the path.
- Bot.ListingRoundTrip: stated for hosts without a backtick. A backtick inside a host would make the Markdown line ambiguous to read back.
