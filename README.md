# mcp-html-artifacts-preview: page store and HTML serving, in Dafny

This project models two pieces of the `mcp-html-artifacts-preview` package.

- **The in-memory page store** (`PageStore`). It keeps page records under their ids in a JavaScript `Map`. `create` stores a record under a fresh id with `createdAt == updatedAt`. `get` looks one up. `list` returns all records in insertion order. `update` patches the given fields, stamps `updatedAt` and edits the stored record.
- **The string logic of the HTTP layer.** This covers `escapeHtmlAttr`, `buildHtml` and the decision the request callback takes (405, 404 "Not Found", 404 "Page Not Found", or 200 with the page). It also covers the rule that brackets an IPv6 hostname in URLs.

Modules:

- `Options` (`options.dfy`): `Option<T>` for the source's `T | undefined`.
- `Strings` (`strings.dfy`): the JavaScript built-ins the HTTP layer uses, written out over `seq<char>`. These are a global one-character `replace`, `indexOf` and `join`. The layout of a join (where each part and separator falls) is proved for all inputs. The module also holds the decoding and last-index helpers used to state inverses.
- `HttpServer` (`http_server.dfy`): models `http-server.ts`. The two tag-collecting loops of `buildHtml` are two methods with loop invariants, `PushStylesheetTags` and `PushScriptTags`, which `CollectTags` runs in order. `BuildHtml` is the method for the whole function and is proved equal to the specification function `Render`, which the pure `Dispatch` uses.
- `PageStoreModel` (`page_store.dfy`): models `page-store.ts` as a class. It has a `pages: map<string, Page>` field and an `order: seq<string>` field that holds the `Map`'s insertion order. `Valid()` states the invariant: each record sits under its own id, and `order` lists every key exactly once.

Stand-ins for foreign calls:

- `randomUUID()` is replaced by an `id` parameter of `Create`, which must not already be a key.
- `new Date()` is replaced by an integer clock reading `now`. The clock is not assumed monotone. Instead, each claim that needs it says so in its own hypothesis (`now >= old updatedAt ==> …`).

The `Page` interface in `page-store.ts` has no `scripts` or `stylesheets` fields, yet `buildHtml` reads both. The model follows the code of `buildHtml` and gives it its own input record, `HtmlDoc` (`html`, `scripts`, `stylesheets`). `Dispatch` therefore looks pages up in a `map<string, HtmlDoc>` rather than in a `PageStore`.

## Model

| member | source | states |
|---|---|---|
| `HttpServer.EscapeHtmlAttr` | packages/mcp-html-artifacts-preview/src/http-server.ts:86-88 | the output contains no `"`; every `&` in it starts `&amp;` or `&quot;`; a value with neither `&` nor `"` is returned unchanged |
| `HttpServer.EscapeIsPerCharacter` | packages/mcp-html-artifacts-preview/src/http-server.ts:87 | the two global replacements, `&` first, equal escaping each character on its own (`&`→`&amp;`, `"`→`&quot;`, others kept) |
| `HttpServer.EscapeRoundTrip` | packages/mcp-html-artifacts-preview/src/http-server.ts:87 | decoding `&quot;`→`"` and then `&amp;`→`&` recovers every input |
| `HttpServer.UnreplaceQuotOfEscaped` | packages/mcp-html-artifacts-preview/src/http-server.ts:87 | undoing the `"` replacement of an escaped value gives exactly the value after the `&` replacement |
| `Strings.ReplaceAll` | packages/mcp-html-artifacts-preview/src/http-server.ts:87 | `replace(/c/g, rep)` for a replacement free of `$`, as both at line 87 are: the input is returned unchanged when it lacks `c`; `c` is gone when `rep` lacks it; no character appears that was in neither the input nor `rep` |
| `Strings.UnreplaceReplaceAll` | packages/mcp-html-artifacts-preview/src/http-server.ts:87 | when the replacement starts with the replaced character (`&`→`&amp;`), decoding undoes replacing for every input |
| `HttpServer.PushStylesheetTags` | packages/mcp-html-artifacts-preview/src/http-server.ts:95-98 | the first loop pushes one `<link rel="stylesheet" href="…">` per stylesheet, position by position, each URL escaped |
| `HttpServer.PushScriptTags` | packages/mcp-html-artifacts-preview/src/http-server.ts:99-101 | the second loop keeps the links already pushed and appends one `<script src="…"></script>` per script, position by position, each URL escaped |
| `HttpServer.CollectTags` | packages/mcp-html-artifacts-preview/src/http-server.ts:95-101 | one `<link rel="stylesheet" href="…">` per stylesheet in list order, then one `<script src="…"></script>` per script in list order, each URL escaped |
| `HttpServer.BuildHtml` | packages/mcp-html-artifacts-preview/src/http-server.ts:90-110 | the result is the page `Render` specifies |
| `HttpServer.Render` | packages/mcp-html-artifacts-preview/src/http-server.ts:90-110 | without scripts and stylesheets the html is served unchanged; otherwise the injection and one newline are inserted at a single point of the html, all of its text kept in order |
| `HttpServer.RenderWithoutUrls` | packages/mcp-html-artifacts-preview/src/http-server.ts:91-93 | with no scripts and no stylesheets the html is served unchanged |
| `HttpServer.RenderSplicesAtFirstHeadClose` | packages/mcp-html-artifacts-preview/src/http-server.ts:102-107 | with `i` the first occurrence of `</head>`, the result is `html[..i] + injection + "\n" + html[i..]`: the text before `i` is its prefix and the text from `i` on is its suffix |
| `HttpServer.RenderPrependsWithoutHeadClose` | packages/mcp-html-artifacts-preview/src/http-server.ts:109 | with no `</head>` the result is `injection + "\n" + html` and ends with the html |
| `HttpServer.InjectedUrlsStayQuoted` | packages/mcp-html-artifacts-preview/src/http-server.ts:97-100 | each injected URL is escaped, so it holds no `"` that could close its attribute |
| `HttpServer.InjectionTagsInOrder` | packages/mcp-html-artifacts-preview/src/http-server.ts:95-102 | the injected block holds every tag at its own offset, each ending before the next begins, so the stylesheet links come before the script tags and each list keeps its order |
| `Strings.Join` | packages/mcp-html-artifacts-preview/src/http-server.ts:102 | `tags.join(sep)`: joining no parts gives `""`; the layout of every other join (each part at its offset, the separator after every part but the last, nothing after the last part) is stated by `JoinSnoc`, `JoinPartAt`, `JoinSepAt` and `JoinLength` |
| `Strings.IndexOf` | packages/mcp-html-artifacts-preview/src/http-server.ts:104 | `indexOf` returns the first offset where the needle occurs, or -1 exactly when it occurs nowhere |
| `Strings.JoinSnoc` | packages/mcp-html-artifacts-preview/src/http-server.ts:102 | joining one more part appends the separator and that part |
| `Strings.JoinPartAt` | packages/mcp-html-artifacts-preview/src/http-server.ts:102 | part `k` of a join occurs at offset `JoinOffset(k)`: after every earlier part and its separator |
| `Strings.JoinSepAt` | packages/mcp-html-artifacts-preview/src/http-server.ts:102 | the separator follows every part but the last |
| `Strings.JoinLength` | packages/mcp-html-artifacts-preview/src/http-server.ts:102 | the joined text ends where the last part ends, so nothing follows it |
| `Strings.JoinPartsInOrder` | packages/mcp-html-artifacts-preview/src/http-server.ts:102 | with a non-empty separator each part ends strictly before any later part begins |
| `HttpServer.PageIdOf` | packages/mcp-html-artifacts-preview/src/http-server.ts:29 | the pattern `^/pages/([^/]+)$` matches with group `id` exactly when the pathname is `/pages/` + `id` and `id` is non-empty without `/` |
| `HttpServer.Dispatch` | packages/mcp-html-artifacts-preview/src/http-server.ts:19-51 | in the source's order: a method other than GET gives 405 "Method Not Allowed"; a pathname that is not `/pages/<id>` gives 404 "Not Found"; an id with no page gives 404 "Page Not Found"; otherwise 200 `text/html; charset=utf-8` with the rendered page |
| `HttpServer.DispatchServesOnlyStoredPages` | packages/mcp-html-artifacts-preview/src/http-server.ts:23-50 | status 200 exactly when a GET names a stored page; the status is always 200, 404 or 405 |
| `HttpServer.RequestBaseUrl` | packages/mcp-html-artifacts-preview/src/http-server.ts:20 | the request base URL is `http://` followed by the same bracketed host the reported URL uses |
| `HttpServer.UrlHost` | packages/mcp-html-artifacts-preview/src/http-server.ts:65 | a hostname with `:` is bracketed and one without is kept, so the hostname reads back from its URL host for every input, and a `:` in the host only ever stands inside brackets |
| `HttpServer.ServerUrl` | packages/mcp-html-artifacts-preview/src/http-server.ts:65-66 | the reported URL is `http://`, then the host as `UrlHost` writes it (bracketed exactly when it holds `:`), then `:` and the port; for a hostname without brackets of its own and a port text without `:`, a URL parser reads that hostname and port back from it |
| `HttpServer.AuthoritySplitsAtLastColon` | packages/mcp-html-artifacts-preview/src/http-server.ts:65-66 | for a port text without `:`, splitting `host:port` at its last `:` gives back the hostname and the port; this reading holds with or without brackets, so the bracket rule itself is stated by `BracketedAuthorityParses`, which supersedes it |
| `HttpServer.BracketedAuthorityParses` | packages/mcp-html-artifacts-preview/src/http-server.ts:65-66 | read the way a URL parser reads an authority (a leading `[` runs to `]`, any other host ends at the first `:`), `UrlHost(hostname):port` gives back the hostname and the port, IPv6 literals included |
| `HttpServer.UnbracketedIpv6Misparses` | packages/mcp-html-artifacts-preview/src/http-server.ts:65 | the rule is needed: `ParseAuthority` reads the unbracketed authority `::1:8080` as an empty hostname (a real URL parser rejects it outright), while `UrlHost("::1")` is `[::1]` |
| `HttpServer.DefaultHostnameUrls` | packages/mcp-html-artifacts-preview/src/http-server.ts:17-20 | the default hostname `127.0.0.1` is written without brackets, so the request base URL is `http://127.0.0.1` |
| `Strings.LastIndexOfCharBefore` | packages/mcp-html-artifacts-preview/src/http-server.ts:66 | the port separator `:` is the last one when the port text has none (the helper behind `AuthoritySplitsAtLastColon`) |
| `PageStoreModel.PageStore.constructor` | packages/mcp-html-artifacts-preview/src/page-store.ts:21-22 | a new store is empty and lists nothing |
| `PageStoreModel.PageStore.Create` | packages/mcp-html-artifacts-preview/src/page-store.ts:24-35 | the new page has the given title and html, the fresh id and `createdAt == updatedAt == now`; exactly that one entry is added; every earlier page is unchanged; `list` grows by that page at the end |
| `PageStoreModel.PageStore.Get` | packages/mcp-html-artifacts-preview/src/page-store.ts:37-39 | returns the stored page, whose id is the key, exactly when the id is present; reads only |
| `PageStoreModel.PageStore.List` | packages/mcp-html-artifacts-preview/src/page-store.ts:41-43 | one record per key of the insertion order, position by position |
| `PageStoreModel.ListedOnce` | packages/mcp-html-artifacts-preview/src/page-store.ts:41-43 | the listing has one entry per stored page, in insertion order, with no id twice; it holds every stored page and nothing else |
| `PageStoreModel.PageStore.Update` | packages/mcp-html-artifacts-preview/src/page-store.ts:45-59 | an unknown id returns nothing and changes nothing; otherwise only the given `title`/`html` are overwritten, `id` and `createdAt` are kept, and `updatedAt` becomes `now`; the key set, the order and all other pages are unchanged, and `list` shows the new record in place; under a non-decreasing clock `updatedAt` does not decrease and `createdAt <= updatedAt` is kept |
| `PageStoreModel.ValuesOfInsert` | packages/mcp-html-artifacts-preview/src/page-store.ts:33 | `Map.set` of a fresh key appends its record to the iteration order |
| `PageStoreModel.ValuesOfReplace` | packages/mcp-html-artifacts-preview/src/page-store.ts:51-57 | replacing the record under a key changes the listing at that key's position only |
| `PageStoreModel.WellFormedInsert` | packages/mcp-html-artifacts-preview/src/page-store.ts:27-33 | inserting under a fresh id keeps every record under its own id and every key listed once |
| `PageStoreModel.DistinctCardinality` | packages/mcp-html-artifacts-preview/src/page-store.ts:42 | an insertion order without repeats has as many entries as there are keys |

## Left out

- `PageStoreModel.PageStore.Update`: pages are values, not shared objects. In the source, `create` and `update` return the very object stored in the map, so a caller holding it sees later updates through it. The model returns a copy of the record; later `Get` and `List` calls do show the update.
- `Strings.ReplaceAll`: models `replace` with a replacement free of `$`. The `$` substitution patterns of JavaScript's `replace` (`$&`, `$$`, `` $` ``, `$'`, `$n`) are not modelled; neither replacement at http-server.ts:87 has one.
- `Create` takes the fresh id as a parameter. The shape of a UUID and the randomness of `randomUUID` are not modelled.
- Dates are integers. `toISOString` and the `Date` object itself are not modelled.
- `buildHtml` is given an `HtmlDoc` rather than the stored `Page`, because the `Page` of `page-store.ts` has no `scripts` or `stylesheets` fields. What `buildHtml` would do with the missing fields is not modelled.
- `HttpServer.Dispatch`: takes the pathname as already parsed, and its decisions hold only for requests whose URL parses. In the source, `new URL(req.url ?? '/', baseUrl)` runs before the method test. When the request target does not resolve to a valid URL, for example `//` which gives an http URL with an empty host, `new URL` throws. That request then gets neither 405 nor a 404. The URL parser and its normalisation (percent-encoding, dot segments, the query string) are not modelled.
- The regular-expression engine is not modelled; the one pattern used is matched by hand in `PageIdOf`.
- `HttpServer.ParseAuthority` reads only a hostname and a port text. Userinfo, percent-decoding, host validation and the numeric check on the port are not modelled.
- `HttpServer.ServerUrl` takes the port's decimal text. `String(address.port)` is not modelled, and neither is the check on `server.address()`.
- Server lifecycle is not modelled: `listen`, `close`, the Promise wrapping, response headers other than the content type, and writing the response.
- Characters are Dafny `char`s. JavaScript's UTF-16 code units and surrogate pairs are not distinguished.
- `tools.ts` (MCP tool registration and JSON output), `cli.ts` and `index.ts` (process, stdio transport, signals, opening a browser) are not part of this model. The eslint configuration is static data.
- The tests also describe delete, tombstones, `maxPages` eviction, TTL expiry, `addScripts`/`addStylesheets`, change events, the `name` field, a dashboard, event streams and an always-injected reload script. None of these has code in `page-store.ts` or `http-server.ts`, so they are not modelled. In particular, `buildHtml` returns the html unchanged when there are no URLs, even though a test expects a reload script there.
