/**
 * The string logic of the HTTP layer in
 * packages/mcp-html-artifacts-preview/src/http-server.ts: attribute escaping,
 * the injection of stylesheet and script tags into a served page, the
 * decision a request handler takes, and the bracket rule for IPv6 hosts.
 */
module HttpServer {
  import opened Options
  import opened Strings

  // ---------------------------------------------------------------------------
  // escapeHtmlAttr
  // ---------------------------------------------------------------------------

  const AmpEntity: string := "&amp;"
  const QuotEntity: string := "&quot;"

  /** `value.replace(/&/g, '&amp;').replace(/"/g, '&quot;')`: `&` first, then `"`. */
  function EscapeHtmlAttr(value: string): (r: string)
    ensures '"' !in r
    ensures EntitiesOnly(r)
    ensures '&' !in value && '"' !in value ==> r == value
  {
    EscapeIsPerCharacter(value);
    EscapeEachEntitiesOnly(value);
    ReplaceAll(ReplaceAll(value, '&', AmpEntity), '"', QuotEntity)
  }

  /** Every `&` in `t` begins one of the two entities the escaper writes. */
  predicate EntitiesOnly(t: string) {
    forall i :: 0 <= i < |t| ==> EntityAt(t, i)
  }

  /** An `&` at offset `i` of `t` begins `&amp;` or `&quot;`. */
  predicate EntityAt(t: string, i: nat) {
    i < |t| && t[i] == '&' ==> OccursAt(t, AmpEntity, i) || OccursAt(t, QuotEntity, i)
  }

  /** What one input character becomes in the escaped text. */
  function EscapeChar(ch: char): string {
    if ch == '&' then AmpEntity else if ch == '"' then QuotEntity else [ch]
  }

  /** Escaping character by character, as one pass. */
  function EscapeEach(s: string): string {
    if s == [] then [] else EscapeChar(s[0]) + EscapeEach(s[1..])
  }

  /**
   * The two global replacements, `&` first, amount to escaping each character
   * on its own: the `&` of an inserted `&amp;` is not seen again by the
   * second pass, which has no `&` pattern, and `&amp;` contains no `"`.
   */
  lemma {:induction false} EscapeIsPerCharacter(s: string)
    ensures ReplaceAll(ReplaceAll(s, '&', AmpEntity), '"', QuotEntity) == EscapeEach(s)
  {
    if s != [] {
      var head := if s[0] == '&' then AmpEntity else [s[0]];
      var rest := ReplaceAll(s[1..], '&', AmpEntity);
      assert ReplaceAll(s, '&', AmpEntity) == head + rest;
      ReplaceAllAppend(head, rest, '"', QuotEntity);
      if s[0] != '&' {
        assert head[1..] == [];
        assert ReplaceAll(head, '"', QuotEntity) == EscapeChar(s[0]) + ReplaceAll([], '"', QuotEntity);
      }
      EscapeIsPerCharacter(s[1..]);
    }
  }

  /** `EntitiesOnly` is kept by concatenation. */
  lemma EntitiesOnlyAppend(a: string, b: string)
    requires EntitiesOnly(a) && EntitiesOnly(b)
    ensures EntitiesOnly(a + b)
  {
    var t := a + b;
    forall i | 0 <= i < |t| && t[i] == '&'
      ensures OccursAt(t, AmpEntity, i) || OccursAt(t, QuotEntity, i)
    {
      if i < |a| {
        assert a[i] == '&' && EntityAt(a, i);
        if OccursAt(a, AmpEntity, i) {
          OccursAtPrefix(a, b, AmpEntity, i);
        } else {
          OccursAtPrefix(a, b, QuotEntity, i);
        }
      } else {
        var j := i - |a|;
        assert b[j] == '&' && EntityAt(b, j);
        if OccursAt(b, AmpEntity, j) {
          OccursAtShift(a, b, AmpEntity, j);
        } else {
          OccursAtShift(a, b, QuotEntity, j);
        }
      }
    }
  }

  lemma {:induction false} EscapeEachEntitiesOnly(s: string)
    ensures EntitiesOnly(EscapeEach(s))
  {
    if s != [] {
      var e := EscapeChar(s[0]);
      assert OccursAt(AmpEntity, AmpEntity, 0);
      assert OccursAt(QuotEntity, QuotEntity, 0);
      assert EntitiesOnly(e);
      EscapeEachEntitiesOnly(s[1..]);
      EntitiesOnlyAppend(e, EscapeEach(s[1..]));
    }
  }

  /**
   * The decoder matching the escaper: `&quot;` -> `"` first, then
   * `&amp;` -> `&`, each as one left-to-right global replacement.
   */
  function UnescapeHtmlAttr(t: string): string {
    Unreplace(Unreplace(t, '"', QuotEntity), '&', AmpEntity)
  }

  /** Undoing the quote pass over an escaped `&` keeps its `&amp;`. */
  lemma UnreplaceQuotAmp(rest: string)
    ensures Unreplace(AmpEntity + rest, '"', QuotEntity) == AmpEntity + Unreplace(rest, '"', QuotEntity)
  {
    var t := AmpEntity + rest;
    assert t[1] == 'a';
    NotOccursAtByChar(t, QuotEntity, 0, 1);
    assert t[1..] == "amp;" + rest;
    UnreplacePlainPrefix("amp;", rest, '"', QuotEntity);
  }

  /** Undoing the quote pass over an escaped `"` gives the `"` back. */
  lemma UnreplaceQuotQuot(rest: string)
    ensures Unreplace(QuotEntity + rest, '"', QuotEntity) == ['"'] + Unreplace(rest, '"', QuotEntity)
  {
    var t := QuotEntity + rest;
    assert OccursAt(t, QuotEntity, 0);
    assert t[|QuotEntity|..] == rest;
  }

  /** Undoing the quote pass over any other character keeps it. */
  lemma UnreplaceQuotPlain(ch: char, rest: string)
    requires ch != '&'
    ensures Unreplace([ch] + rest, '"', QuotEntity) == [ch] + Unreplace(rest, '"', QuotEntity)
  {
    UnreplacePlainPrefix([ch], rest, '"', QuotEntity);
  }

  /** Undoing the quote pass of an escaped text leaves the text after the ampersand pass. */
  lemma {:induction false} UnreplaceQuotOfEscaped(s: string)
    ensures Unreplace(EscapeEach(s), '"', QuotEntity) == ReplaceAll(s, '&', AmpEntity)
  {
    if s != [] {
      var rest := EscapeEach(s[1..]);
      if s[0] == '&' {
        UnreplaceQuotAmp(rest);
      } else if s[0] == '"' {
        UnreplaceQuotQuot(rest);
      } else {
        UnreplaceQuotPlain(s[0], rest);
      }
      UnreplaceQuotOfEscaped(s[1..]);
    }
  }

  /** Decoding `&quot;` and then `&amp;` recovers every input to the escaper. */
  lemma EscapeRoundTrip(s: string)
    ensures UnescapeHtmlAttr(EscapeHtmlAttr(s)) == s
  {
    EscapeIsPerCharacter(s);
    UnreplaceQuotOfEscaped(s);
    UnreplaceReplaceAll(s, '&', AmpEntity);
  }

  // ---------------------------------------------------------------------------
  // buildHtml
  // ---------------------------------------------------------------------------

  const HeadClose: string := "</head>"

  /** What `buildHtml` reads from a page: its body and the URLs to inject. */
  datatype HtmlDoc = HtmlDoc(html: string, scripts: seq<string>, stylesheets: seq<string>)

  function StylesheetTag(url: string): string {
    "<link rel=\"stylesheet\" href=\"" + EscapeHtmlAttr(url) + "\">"
  }

  function ScriptTag(url: string): string {
    "<script src=\"" + EscapeHtmlAttr(url) + "\"></script>"
  }

  /** The tags `buildHtml` collects: the stylesheets' links, then the scripts. */
  function Tags(doc: HtmlDoc): seq<string> {
    seq(|doc.stylesheets|, i requires 0 <= i < |doc.stylesheets| => StylesheetTag(doc.stylesheets[i]))
    + seq(|doc.scripts|, i requires 0 <= i < |doc.scripts| => ScriptTag(doc.scripts[i]))
  }

  /** A sequence that holds the right tag at every position is `Tags(doc)`. */
  lemma TagsByPosition(doc: HtmlDoc, tags: seq<string>)
    requires |tags| == |doc.stylesheets| + |doc.scripts|
    requires forall k :: 0 <= k < |doc.stylesheets| ==> tags[k] == StylesheetTag(doc.stylesheets[k])
    requires forall k :: 0 <= k < |doc.scripts| ==> tags[|doc.stylesheets| + k] == ScriptTag(doc.scripts[k])
    ensures tags == Tags(doc)
  {
    var n := |doc.stylesheets|;
    forall k | 0 <= k < |tags| ensures tags[k] == Tags(doc)[k] {
      if k >= n {
        assert tags[n + (k - n)] == ScriptTag(doc.scripts[k - n]);
      }
    }
  }

  /** The text inserted into the page: the tags joined by newlines. */
  function Injection(doc: HtmlDoc): string {
    Join(Tags(doc), "\n")
  }

  /**
   * The page `buildHtml` serves: the html itself when there is nothing to
   * inject, and otherwise the html with the injection and one newline
   * inserted at a single point, every character of the html kept in order.
   */
  function Render(doc: HtmlDoc): (r: string)
    ensures doc.scripts == [] && doc.stylesheets == [] ==> r == doc.html
    ensures doc.scripts != [] || doc.stylesheets != [] ==>
      exists i :: 0 <= i <= |doc.html| && r == doc.html[..i] + Injection(doc) + "\n" + doc.html[i..]
  {
    if doc.scripts == [] && doc.stylesheets == [] then doc.html
    else
      var i := IndexOf(doc.html, HeadClose);
      if i != -1 then doc.html[..i] + Injection(doc) + "\n" + doc.html[i..]
      else
        assert doc.html[..0] == [] && doc.html[0..] == doc.html;
        Injection(doc) + "\n" + doc.html
  }

  /** The first `for` loop of `buildHtml`: one link per stylesheet, pushed in list order. */
  method PushStylesheetTags(urls: seq<string>) returns (tags: seq<string>)
    ensures |tags| == |urls|
    ensures forall k :: 0 <= k < |urls| ==> tags[k] == StylesheetTag(urls[k])
  {
    tags := [];
    for i := 0 to |urls|
      invariant |tags| == i
      invariant forall k :: 0 <= k < i ==> tags[k] == StylesheetTag(urls[k])
    {
      tags := tags + [StylesheetTag(urls[i])];
    }
  }

  /** The second `for` loop: one script tag per script, pushed after the links. */
  method PushScriptTags(links: seq<string>, urls: seq<string>) returns (tags: seq<string>)
    ensures |tags| == |links| + |urls|
    ensures tags[..|links|] == links
    ensures forall k :: 0 <= k < |urls| ==> tags[|links| + k] == ScriptTag(urls[k])
  {
    tags := links;
    for i := 0 to |urls|
      invariant |tags| == |links| + i
      invariant tags[..|links|] == links
      invariant forall k :: 0 <= k < i ==> tags[|links| + k] == ScriptTag(urls[k])
    {
      tags := tags + [ScriptTag(urls[i])];
    }
  }

  /** The two `for` loops of `buildHtml` that push one tag per URL. */
  method CollectTags(doc: HtmlDoc) returns (tags: seq<string>)
    ensures |tags| == |doc.stylesheets| + |doc.scripts|
    ensures forall k :: 0 <= k < |doc.stylesheets| ==> tags[k] == StylesheetTag(doc.stylesheets[k])
    ensures forall k :: 0 <= k < |doc.scripts| ==> tags[|doc.stylesheets| + k] == ScriptTag(doc.scripts[k])
    ensures tags == Tags(doc)
  {
    var links := PushStylesheetTags(doc.stylesheets);
    tags := PushScriptTags(links, doc.scripts);
    forall k | 0 <= k < |links| ensures tags[k] == StylesheetTag(doc.stylesheets[k]) {
      assert tags[k] == tags[..|links|][k];
    }
    TagsByPosition(doc, tags);
  }

  /** `buildHtml`: inject before the first `</head>`, or prepend when there is none. */
  method BuildHtml(doc: HtmlDoc) returns (out: string)
    ensures out == Render(doc)
  {
    if |doc.scripts| == 0 && |doc.stylesheets| == 0 {
      return doc.html;
    }
    var tags := CollectTags(doc);
    var injection := Join(tags, "\n");
    var headCloseIndex := IndexOf(doc.html, HeadClose);
    if headCloseIndex != -1 {
      return doc.html[..headCloseIndex] + injection + "\n" + doc.html[headCloseIndex..];
    }
    return injection + "\n" + doc.html;
  }

  /**
   * What the served page is, stated by the first occurrence of `</head>`
   * rather than by a search: unchanged without URLs; otherwise the injection
   * goes right before the first `</head>`, keeping the text on either side,
   * or in front of the whole body when there is no `</head>`.
   */
  lemma RenderSplicesAtFirstHeadClose(doc: HtmlDoc, i: nat)
    requires doc.scripts != [] || doc.stylesheets != []
    requires OccursAt(doc.html, HeadClose, i)
    requires forall j :: 0 <= j < i ==> !OccursAt(doc.html, HeadClose, j)
    ensures Render(doc) == doc.html[..i] + Injection(doc) + "\n" + doc.html[i..]
    ensures Render(doc)[..i] == doc.html[..i]
    ensures OccursAt(Render(doc), doc.html[i..], |Render(doc)| - (|doc.html| - i))
  {
    var r := Render(doc);
    var k := IndexOf(doc.html, HeadClose);
    assert k == i;
    assert r[..i] == doc.html[..i];
    assert r[|r| - (|doc.html| - i)..] == doc.html[i..];
  }

  lemma RenderPrependsWithoutHeadClose(doc: HtmlDoc)
    requires doc.scripts != [] || doc.stylesheets != []
    requires forall j :: 0 <= j ==> !OccursAt(doc.html, HeadClose, j)
    ensures Render(doc) == Injection(doc) + "\n" + doc.html
    ensures OccursAt(Render(doc), doc.html, |Render(doc)| - |doc.html|)
  {
    var r := Render(doc);
    assert r[|r| - |doc.html|..] == doc.html;
  }

  lemma RenderWithoutUrls(doc: HtmlDoc)
    requires doc.scripts == [] && doc.stylesheets == []
    ensures Render(doc) == doc.html
  {
  }

  /** No URL can close its attribute: each injected value is free of `"`. */
  lemma InjectedUrlsStayQuoted(doc: HtmlDoc)
    ensures forall k :: 0 <= k < |doc.stylesheets| ==>
      Tags(doc)[k] == "<link rel=\"stylesheet\" href=\"" + EscapeHtmlAttr(doc.stylesheets[k]) + "\">"
      && '"' !in EscapeHtmlAttr(doc.stylesheets[k])
    ensures forall k :: 0 <= k < |doc.scripts| ==>
      Tags(doc)[|doc.stylesheets| + k] == "<script src=\"" + EscapeHtmlAttr(doc.scripts[k]) + "\"></script>"
      && '"' !in EscapeHtmlAttr(doc.scripts[k])
  {
  }

  /**
   * The injection holds every tag at its own offset, each tag ending before
   * the next one starts (the newline between them is `JoinSepAt`'s). With
   * `InjectedUrlsStayQuoted` (the first tags are the stylesheet links, the
   * rest the script tags), every stylesheet link comes before every script tag.
   */
  lemma InjectionTagsInOrder(doc: HtmlDoc)
    ensures var tags := Tags(doc);
      && (forall k :: 0 <= k < |tags| ==> OccursAt(Injection(doc), tags[k], JoinOffset(tags, "\n", k)))
      && (forall k, l :: 0 <= k < l < |tags| ==> JoinOffset(tags, "\n", k) + |tags[k]| < JoinOffset(tags, "\n", l))
  {
    var tags := Tags(doc);
    assert |tags| == |doc.stylesheets| + |doc.scripts|;
    assert Injection(doc) == Join(tags, "\n");
    forall k | 0 <= k < |tags| ensures OccursAt(Injection(doc), tags[k], JoinOffset(tags, "\n", k)) {
      JoinPartAt(tags, "\n", k);
    }
    JoinPartsInOrder(tags, "\n");
  }

  // ---------------------------------------------------------------------------
  // Request dispatch
  // ---------------------------------------------------------------------------

  const PagesPrefix: string := "/pages/"
  const TextPlain: string := "text/plain"
  const TextHtml: string := "text/html; charset=utf-8"

  datatype Response = Response(status: nat, contentType: string, body: string)

  const MethodNotAllowed := Response(405, TextPlain, "Method Not Allowed")
  const NotFound := Response(404, TextPlain, "Not Found")
  const PageNotFound := Response(404, TextPlain, "Page Not Found")

  /** `pathname` matches `/^\/pages\/([^/]+)$/` with `id` as its group. */
  predicate IsPagePath(pathname: string, id: string) {
    pathname == PagesPrefix + id && id != [] && '/' !in id
  }

  /** The regular-expression match, written by hand. */
  function PageIdOf(pathname: string): (r: Option<string>)
    ensures forall id :: r == Some(id) <==> IsPagePath(pathname, id)
  {
    if |pathname| > |PagesPrefix| && pathname[..|PagesPrefix|] == PagesPrefix
       && '/' !in pathname[|PagesPrefix|..]
    then
      assert pathname == PagesPrefix + pathname[|PagesPrefix|..];
      Some(pathname[|PagesPrefix|..])
    else
      assert forall id :: !IsPagePath(pathname, id) by {
        forall id | pathname == PagesPrefix + id && id != []
          ensures '/' in id
        {
          assert pathname[..|PagesPrefix|] == PagesPrefix;
          assert pathname[|PagesPrefix|..] == id;
        }
      }
      None
  }

  /**
   * The request callback of `startHttpServer`, as a function of the method,
   * the parsed pathname and the pages the store can render. Its decisions,
   * in order: a method other than GET, a pathname that is not a page path,
   * an id with no page, and the page itself.
   */
  function Dispatch(verb: string, pathname: string, pages: map<string, HtmlDoc>): (r: Response)
    ensures verb != "GET" ==> r == MethodNotAllowed
    ensures verb == "GET" && (forall id :: !IsPagePath(pathname, id)) ==> r == NotFound
    ensures forall id :: verb == "GET" && IsPagePath(pathname, id) && id !in pages ==> r == PageNotFound
    ensures forall id :: verb == "GET" && IsPagePath(pathname, id) && id in pages ==>
      r == Response(200, TextHtml, Render(pages[id]))
  {
    if verb != "GET" then MethodNotAllowed
    else
      match PageIdOf(pathname)
      case None => NotFound
      case Some(pageId) =>
        // the source re-checks the group for emptiness, which the pattern already excludes
        if pageId == "" then NotFound
        else if pageId !in pages then PageNotFound
        else Response(200, TextHtml, Render(pages[pageId]))
  }

  /** A page is served with status 200 exactly when a GET names a stored page. */
  lemma DispatchServesOnlyStoredPages(verb: string, pathname: string, pages: map<string, HtmlDoc>)
    ensures Dispatch(verb, pathname, pages).status == 200 <==>
      verb == "GET" && PageIdOf(pathname).Some? && PageIdOf(pathname).value in pages
    ensures Dispatch(verb, pathname, pages).status in {200, 404, 405}
  {
  }

  // ---------------------------------------------------------------------------
  // Host and base URL
  // ---------------------------------------------------------------------------

  const DefaultHostname: string := "127.0.0.1"

  /** Reading a hostname back from a URL host: brackets around a `:` are taken off. */
  function HostnameOf(host: string): string {
    if |host| >= 2 && host[0] == '[' && host[|host| - 1] == ']' && ':' in host[1..|host| - 1]
    then host[1..|host| - 1]
    else host
  }

  /**
   * The host as written in a URL: an IPv6 literal (it has a `:`) is bracketed.
   * The rule loses nothing, since the hostname reads back from it, and a `:`
   * in the result only ever stands between brackets.
   */
  function UrlHost(hostname: string): (r: string)
    ensures HostnameOf(r) == hostname
    ensures ':' in r ==> r[0] == '[' && r[|r| - 1] == ']'
  {
    if ':' in hostname then
      var r := "[" + hostname + "]";
      assert r[1..|r| - 1] == hostname;
      r
    else hostname
  }

  /** The base URL the request callback resolves request URLs against. */
  function RequestBaseUrl(hostname: string): (r: string)
    ensures r == "http://" + UrlHost(hostname)
  {
    if ':' in hostname then "http://[" + hostname + "]" else "http://" + hostname
  }

  /** Splitting an authority at its last `:` into a hostname and a port. */
  function SplitHostPort(authority: string): Option<(string, string)> {
    var k := LastIndexOfChar(authority, ':');
    if k < 0 then None else Some((HostnameOf(authority[..k]), authority[k + 1..]))
  }

  /**
   * With the port text free of `:`, the port separator is the last `:` of the
   * authority, and splitting there recovers both parts.
   */
  lemma AuthoritySplitsAtLastColon(hostname: string, portText: string)
    ensures ':' !in portText ==>
      SplitHostPort(UrlHost(hostname) + ":" + portText) == Some((hostname, portText))
  {
    if ':' !in portText {
      var h := UrlHost(hostname);
      var a := h + ":" + portText;
      LastIndexOfCharBefore(h, ':', portText);
      assert a[..|h|] == h;
      assert a[|h| + 1..] == portText;
    }
  }

  /**
   * How a URL parser reads an authority into a hostname and a port text: a
   * host that starts with `[` runs to the first `]` (the brackets are not part
   * of the hostname) and must be followed by nothing or by `:` and the port;
   * any other host ends at the first `:`. An absent port reads as "".
   */
  function ParseAuthority(authority: string): Option<(string, string)> {
    if |authority| > 0 && authority[0] == '[' then
      var j := IndexOfChar(authority, ']');
      if j < 1 then None
      else if j + 1 == |authority| then Some((authority[1..j], ""))
      else if authority[j + 1] == ':' then Some((authority[1..j], authority[j + 2..]))
      else None
    else
      var i := IndexOfChar(authority, ':');
      if i < 0 then Some((authority, "")) else Some((authority[..i], authority[i + 1..]))
  }

  /**
   * The bracket rule is what lets a URL parser read the host and port back:
   * for every hostname without brackets of its own and every port text
   * without `:`, the authority `UrlHost(hostname) + ":" + portText` parses
   * into exactly that hostname and port.
   */
  lemma BracketedAuthorityParses(hostname: string, portText: string)
    requires '[' !in hostname && ']' !in hostname && ':' !in portText
    ensures ParseAuthority(UrlHost(hostname) + ":" + portText) == Some((hostname, portText))
  {
    if ':' in hostname {
      assert UrlHost(hostname) + ":" + portText == "[" + hostname + "]:" + portText;
      BracketedHostParses(hostname, portText);
    } else {
      PlainHostParses(hostname, portText);
    }
  }

  /** A bracketed host runs to its `]`, and the port follows the `:` after it. */
  lemma BracketedHostParses(hostname: string, portText: string)
    requires ']' !in hostname
    ensures ParseAuthority("[" + hostname + "]:" + portText) == Some((hostname, portText))
  {
    var a := "[" + hostname + "]:" + portText;
    assert a == ("[" + hostname) + [']'] + (":" + portText);
    IndexOfCharAfter("[" + hostname, ']', ":" + portText);
    assert a[1..|hostname| + 1] == hostname;
    assert a[|hostname| + 3..] == portText;
  }

  /** Any other host ends at the first `:`. */
  lemma PlainHostParses(hostname: string, portText: string)
    requires ':' !in hostname && '[' !in hostname
    ensures ParseAuthority(hostname + ":" + portText) == Some((hostname, portText))
  {
    var a := hostname + ":" + portText;
    assert a == hostname + [':'] + portText;
    assert a[0] != '[' by {
      if hostname != [] {
        assert a[0] == hostname[0];
      }
    }
    IndexOfCharAfter(hostname, ':', portText);
    assert a[..|hostname|] == hostname;
    assert a[|hostname| + 1..] == portText;
  }

  /**
   * Without the bracket rule an IPv6 hostname would be lost: `ParseAuthority`
   * reads the authority `::1:8080` as an empty hostname and the port text
   * `:1:8080` (a real URL parser rejects it outright).
   */
  lemma UnbracketedIpv6Misparses()
    ensures ParseAuthority("::1" + ":" + "8080") == Some(("", ":1:8080"))
    ensures UrlHost("::1") == "[::1]"
  {
    var a := "::1" + ":" + "8080";
    assert a[0] == ':';
    assert IndexOfChar(a, ':') == 0;
    assert a[..0] == "" && a[1..] == ":1:8080";
  }

  /** The URL `startHttpServer` reports, given the port's decimal text. */
  function ServerUrl(hostname: string, portText: string): (r: string)
    ensures r == "http://" + UrlHost(hostname) + ":" + portText
    ensures OccursAt(r, "http://", 0)
    ensures ':' !in portText ==> SplitHostPort(r[7..]) == Some((hostname, portText))
    ensures '[' !in hostname && ']' !in hostname && ':' !in portText ==>
      ParseAuthority(r[7..]) == Some((hostname, portText))
  {
    var a := UrlHost(hostname) + ":" + portText;
    AuthoritySplitsAtLastColon(hostname, portText);
    assert ("http://" + a)[7..] == a;
    assert ("http://" + a)[..7] == "http://";
    if '[' !in hostname && ']' !in hostname && ':' !in portText then
      BracketedAuthorityParses(hostname, portText);
      "http://" + a
    else "http://" + a
  }

  /** The server's default hostname is served without brackets. */
  lemma DefaultHostnameUrls()
    ensures UrlHost(DefaultHostname) == DefaultHostname
    ensures RequestBaseUrl(DefaultHostname) == "http://127.0.0.1"
  {
    var d := DefaultHostname;
    assert forall i :: 0 <= i < |d| ==> d[i] != ':';
  }
}
