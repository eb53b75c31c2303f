# Better HTTP Handler: routing and static files, in Dafny

A model of the routing core of BHH (`src/bhh.py`), a small layer over Python's
`http.server`. It covers four things:

- **Route registry.** `register_handler` and its decorator form `handle` fill
  the process-wide, insertion-ordered dictionary `EXTERNAL_HANDLERS`. Each
  template text maps to a handler per HTTP command, a compiled matcher and
  the list of placeholder names.
- **Template compilation and matching.** Each `{name}` token becomes the
  group `([^/]*)`. The expression is `^…/?$`, so it is anchored at both ends
  and always takes one optional trailing `/`. Matching follows Python's
  backtracking engine: a capture first takes the longest run of non-`/`
  characters, then gives characters back one at a time.
- **Dispatch.** This is the route scan and fallback of `handle_one_request`:
  first matching template, its handler or nothing, then `do_<command>` or 501.
- **Static files.** `do_GET` canonicalises the static root plus the request
  path, applies a string-prefix guard, and serves a regular file or a
  directory's first index page. Otherwise it answers 403 or 404.

Modules:

| file | module | contents |
|---|---|---|
| options.dfy | `Options` | `Option` |
| templates.dfy | `Templates` | template scanning (`re.sub`/`re.findall`), the regular-expression text, group count |
| matcher.dfy | `Matcher` | the backtracking matcher, its declarative reading, soundness, completeness, greediness, uniqueness on segment templates |
| paths.dfy | `Paths` | lexical `realpath`, `os.path.join`, split/join round trips |
| decimal.dfy | `Decimal` | `str(n)` for `Content-Length` and its inverse |
| static_files.dfy | `StaticFiles` | `do_GET`: spec functions, the imperative method, the guard and its properties |
| router.dfy | `Router` | the `Registry` class (`order` and `routes` are the dictionary), registration, the dispatch loop and its specification |
| scenarios.dfy | `Scenarios` | the `/test/{testvar}` route of `src/main.py` and static resolution under `/srv/static` |

Behaviour of the code that the model keeps as written:

- Every template accepts one trailing `/`. Nothing turns this off.
- A capture may be empty: `/test/` matches `/test/{testvar}` with `testvar = ""`.
- Captured values reach the handler raw. `%20` is not decoded (`Scenarios.MatchNotDecoded`, `Scenarios.DispatchEcho`).
- Suppose the first template that matches has no handler for the command.
  The scan still stops there: GET falls through to the static files and any
  other command gets 501. A later template that does have the command is
  never consulted (`Router.LaterRoutesIgnored`).
- The traversal guard `path[:len(STATIC_PATH)] != STATIC_PATH` is a string
  test. For a root `/…/static`, the request `/../static_x` passes it, and
  so does any sibling whose name starts with `static` (`StaticFiles.SiblingGuard`).
  Index candidates are not checked against the root a second time.
- When `mimetypes` cannot guess a type, `send_header` writes `Content-Type: None`.
- `do_<command>` exists only for GET, because the handler class defines
  `do_GET` alone. HEAD, POST and the rest get 501 unless a route handles them.
- When a template repeats a placeholder name, the keyword argument holds
  the last capture of that name (`Router.BindLastWins`).

## Model

| member | source | states |
|---|---|---|
| `Templates.PlaceholderLen` | src/bhh.py:33 | the token `\{([a-zA-Z0-9_]*)\}` at the head of a template is unique: when one exists its name length is returned, and no other length forms a token |
| `Templates.Compile` | src/bhh.py:33 | every capture piece produced by the left-to-right substitution carries a name made only of `[a-zA-Z0-9_]` |
| `Templates.CompileNormal` | src/bhh.py:33 | the scan leaves no placeholder token behind: every `{name}` token becomes a capture, and no literal piece starts a token in the text that follows it |
| `Templates.CompileUnparse` | src/bhh.py:33-34 | pieces in that normal form are exactly what compiling their text gives back, and the text's `re.findall` list is their capture names; with `UnparseCompile`, the scan is the one normal-form reading of a template |
| `Templates.Variables` | src/bhh.py:34 | every name `re.findall` returns is a run of `[a-zA-Z0-9_]`, and each takes at least its two braces from the template |
| `Templates.VariablesAreCaptures` | src/bhh.py:33-34 | the `re.findall` name list equals, name by name and in order, the capture pieces of the compiled matcher |
| `Templates.UnparseCompile` | src/bhh.py:33 | compilation loses nothing: writing the pieces back gives the template text |
| `Templates.RegexSource` | src/bhh.py:33-34 | the expression text starts with `^` and ends with `/?$`; when no literal is a regex metacharacter, `"^" + re.sub(…) + "/?$"` opens exactly one group per variable name |
| `Matcher.SegmentLen` | src/bhh.py:33 | `[^/]*` first takes the longest `/`-free prefix; it stops at a `/` or at the end |
| `Matcher.Match` | src/bhh.py:88-93 | `regexp.search` followed by `m.groups()`: a match has exactly one capture per placeholder |
| `Matcher.Backtrack` | src/bhh.py:33 | a capture that has taken at most `n` characters returns a prefix of the path of at most `n` characters, then one capture per remaining placeholder |
| `Matcher.BacktrackFinds` | src/bhh.py:33 | giving characters back one at a time reaches every shorter capture length for which the rest of the pattern matches |
| `Matcher.MatchSound` | src/bhh.py:33 | every match found has one `/`-free capture per placeholder, and the path is the filled template followed by at most one `/` |
| `Matcher.MatchComplete` | src/bhh.py:33 | a path that has such a decomposition is accepted; the engine returns the greedy one (`BacktrackGreedy`), which is the only one on segment templates (`MatchSegments`) |
| `Matcher.MatchIff` | src/bhh.py:33 | the expression accepts a path exactly when the path is the filled template with at most one extra `/` |
| `Matcher.BacktrackGreedy` | src/bhh.py:33 | the returned capture is the longest one for which the rest of the pattern still matches |
| `Matcher.SegmentCapturesUnique` | src/bhh.py:33 | when each placeholder fills a whole segment, the captures are determined by the path |
| `Matcher.MatchSegments` | src/bhh.py:33 | on such templates the groups are exactly those captures |
| `Paths.JoinSplit` | src/bhh.py:114 | joining the `/`-split components gives back the path |
| `Paths.SplitJoin` | src/bhh.py:114 | splitting joined `/`-free components gives back the components |
| `Paths.SplitNoSlash` | src/bhh.py:114 | no component of a split holds a `/` |
| `Paths.Canonical` | src/bhh.py:114 | lexical `realpath` yields `/` followed by components none of which is empty, `.` or `..` |
| `Paths.CanonicalIdempotent` | src/bhh.py:114 | canonicalising an already canonical path changes nothing |
| `Paths.CanonicalBelow` | src/bhh.py:114 | a path under a canonical directory canonicalises by walking its components from that directory |
| `Paths.CanonicalUp` | src/bhh.py:114 | `dir/..` canonicalises to the parent of `dir` |
| `Paths.CanonicalSibling` | src/bhh.py:114 | `dir/../name` canonicalises to the sibling `name` of `dir` |
| `Paths.PathJoin` | src/bhh.py:128 | for a relative `name`, `os.path.join(dir, name)` starts with `dir`, ends with `name`, and has a `/` right before `name` when `dir` is not empty; it adds a character exactly when `dir` is non-empty and does not end in `/` |
| `Paths.PathJoinCanonical` | src/bhh.py:128 | joining a single component onto a canonical directory leaves nothing for `realpath` to change |
| `Paths.PathJoinRender` | src/bhh.py:128 | joining an index name to a canonical directory gives the canonical child path, which `realpath` keeps |
| `Decimal.NatToDecimal` | src/bhh.py:137 | `str(size)` is a non-empty digit string that starts with `0` only for zero |
| `Decimal.DecimalRoundTrip` | src/bhh.py:137 | `str(size)` is a digit string with no superfluous leading zero, and it reads back as the size |
| `StaticFiles.GuardPasses` | src/bhh.py:115 | the clamped slice test passes exactly when the root is a string prefix of the canonical path |
| `StaticFiles.IndexCandidate` | src/bhh.py:128 | the probed path is canonical, and for a canonical directory and a one-component name it is the plain join |
| `StaticFiles.FirstIndex` | src/bhh.py:127-131 | the result is the first name in `INDEX_PAGE` order whose candidate is a regular file; earlier candidates are not; `None` means none is |
| `StaticFiles.DoGet` | src/bhh.py:113-143 | the imperative guard, file test and index loop produce exactly the specified response |
| `StaticFiles.LocateFound` | src/bhh.py:114-133 | a served file exists with the reported size; it is the canonical path or the first index page of that directory; the root is a string prefix of it |
| `StaticFiles.Locate` | src/bhh.py:113-133 | 403 happens exactly when the root is not a string prefix of the canonical path; a file served is a regular file with its own size |
| `StaticFiles.GetResponse` | src/bhh.py:113-143 | the status is 200, 403 or 404; only 200 has a body, and that body is a regular file; 403 and 404 carry only `Content-Length: 0` |
| `StaticFiles.LocateNotFound` | src/bhh.py:120-143 | 404 happens exactly when the guard passes, the path is no regular file, and, for a directory, no index page is a regular file |
| `StaticFiles.ResponseHeaders` | src/bhh.py:114-143 | 403/404 carry only `Content-Length: 0` and no body; 200 carries the guessed type (`ContentType` writes a failed guess as `None`, as `send_header` prints it) and a `Content-Length` that reads back as the file size |
| `StaticFiles.ParentForbidden` | src/bhh.py:114-119 | requesting `/..` from a non-root static directory is refused |
| `StaticFiles.SiblingGuard` | src/bhh.py:114-119 | `/../name` passes the guard exactly when the root's last component is a string prefix of `name` |
| `StaticFiles.PlainRequestPasses` | src/bhh.py:114-115 | a `/`-rooted request without `..` components canonicalises below the root and passes the guard |
| `Router.ScanFrom` | src/bhh.py:87-98 | the scan returns the first index whose matcher accepts the path; `None` means no later matcher accepts it |
| `Router.Captures` | src/bhh.py:88-93 | `m.groups()` has one raw capture per variable name, and the captures decompose the path |
| `Router.NewRoute` | src/bhh.py:31-35 | a new entry has no handler; its matcher writes back to the template text and is in the scan's normal form; its names are its captures' names in order |
| `Router.Bind` | src/bhh.py:92-95 | the keyword-argument names are exactly the template's variable names |
| `Router.BindArguments` | src/bhh.py:92-95 | the index-by-index loop builds exactly the keyword arguments `Bind` describes |
| `Router.BindLastWins` | src/bhh.py:94-95 | each name is bound to the capture at its last position |
| `Router.BindByPosition` | src/bhh.py:94-95 | with distinct names, the i-th name is bound to the i-th capture |
| `Router.Fallback` | src/bhh.py:83-105 | with no handler run, GET (the only command with a `do_` method) gets the `do_GET` response; any other command gets 501 naming it |
| `Router.Dispatch` | src/bhh.py:87-105 | a handler that runs is the one registered for the command under a template whose matcher accepts the path; when none runs, `Fallback` answers |
| `Router.DispatchExternal` | src/bhh.py:87-98 | a handler runs exactly when the first matching template has one for the command; it receives the engine's groups (`m.groups()`), one per variable, bound by name; they are raw pieces that decompose the path |
| `Router.DispatchFallback` | src/bhh.py:83-105 | when no handler ran, GET gets the `do_GET` response and every other command gets 501 |
| `Router.FirstMatchUnique` | src/bhh.py:87-98 | a matching template with no earlier match is the one the scan stops at |
| `Router.LaterRoutesIgnored` | src/bhh.py:87-98 | templates after the first match cannot change the outcome |
| `Router.Registry.constructor` | src/bhh.py:21 | the registry starts empty |
| `Router.Registered` | src/bhh.py:29-36 | new template: appended to the key order with a freshly compiled entry. Known template: keeps its place, matcher and names. Only the handler for this command is set (added or replaced); every other entry and handler is unchanged |
| `Router.RegisteredWellFormed` | src/bhh.py:29-36 | registration keeps every key once, one entry per key, and each entry compiled from its own key |
| `Router.Registry.Register` | src/bhh.py:29-36 | the in-place update of the dictionary leaves exactly the state `Registered` gives, and keeps the registry well formed |
| `Router.Registry.Handle` | src/bhh.py:24-27 | the decorator has the same effect on the registry as `register_handler` |
| `Router.Registry.HandleOneRequest` | src/bhh.py:83-105 | the scan loop with `break` and the fallback produce exactly the outcome `Dispatch` specifies |
| `Scenarios.CompileTestTemplate` | src/main.py:15 | `/test/{testvar}` compiles to six literals and one capture; its only variable is `testvar` |
| `Scenarios.MatchTest` | src/bhh.py:33 | for every `/`-free `x`, both `/test/x` and `/test/x/` match, and `x` is the capture |
| `Scenarios.MatchPlain` | src/bhh.py:33 | `/test/x` matches with `testvar = "x"` |
| `Scenarios.MatchTrailingSlash` | src/bhh.py:33 | `/test/x/` matches with `testvar = "x"` |
| `Scenarios.MatchEmptyCapture` | src/bhh.py:33 | `/test/` matches with `testvar = ""` |
| `Scenarios.MatchNotDecoded` | src/bhh.py:33 | `/test/hello%20world` captures `hello%20world` undecoded |
| `Scenarios.MatchRejectsNested` | src/bhh.py:33 | `/test/x/y` is rejected for every non-empty `y` |
| `Scenarios.MatchRejectsElsewhere` | src/bhh.py:33 | `/unknown` is rejected |
| `Scenarios.TestRoutesRegistered` | src/main.py:15 | registering the echo handler for GET on `/test/{testvar}` in the empty registry gives exactly the registry the dispatch scenarios use |
| `Scenarios.DispatchEcho` | src/bhh.py:87-97 | with the route of src/main.py, GET `/test/x` runs the echo handler with `testvar` bound to the raw `x`, for every `/`-free `x` |
| `Scenarios.DispatchMatchedWithoutMethod` | src/bhh.py:87-103 | any command other than GET on `/test/x` matches a template with no handler for it and gets 501 |
| `Scenarios.ReRegistration` | src/bhh.py:29-36 | registering GET, POST, then GET again on one template lists it once and keeps its first matcher; the second GET handler replaces the first and the POST handler stays |
| `Scenarios.DispatchUnknown` | src/bhh.py:83-105 | on `/unknown`, POST gets 501 and GET goes to the static files |
| `Scenarios.StaticOutsideRefused` | src/bhh.py:114-119 | under `/srv/static`, `/../secret` is refused with 403 |
| `Scenarios.StaticSiblingPasses` | src/bhh.py:114-119 | under `/srv/static`, `/../static_x` leaves the root yet passes the guard |
| `Scenarios.StaticIndex` | src/bhh.py:125-131 | `/` on a root directory containing `index.html` serves that file |

## Left out

- Connection handling in `handle_one_request`: reading the request line, the 65536-byte limit, `parse_request`, `socket.timeout` and flushing. The model starts from a parsed command and raw path.
- Logging, `address_string`, and the status line and `Server`/`Date` headers of `send_response`. `end_headers` is left out as well. A response lists only the headers `do_GET` sends itself.
- `mimetypes.guess_type` is a parameter, a total function to an optional type name.
- A regular file the process may not read is not modelled. There `open` (src/bhh.py:123,130) raises, `handle_one_request` catches only `socket.timeout`, and no response is sent; the model answers 200 for every regular file.
- `Paths.PathJoin` models `os.path.join` for a relative second argument only; an absolute one, which makes `os.path.join` drop `dir`, is not modelled. The only join (src/bhh.py:128) passes the relative `INDEX_PAGE` names.
- `open`, `os.fstat` and `shutil.copyfileobj` are file I/O. The file system is a map from regular-file paths to sizes plus a set of directory paths. The body is the path of the file that would be copied.
- `os.path.realpath` is modelled as lexical normalisation of an absolute path. Symbolic links are not modelled. The static root is absolute, as `STATIC_PATH` always is.
- Python regex corner cases are left out: `$` also matching before a final newline, and literal template characters that are regex metacharacters. The matcher treats every literal as plain text. The group count of `Templates.RegexSource` is stated for plain literals only.
- What a handler does once called is not modelled. Neither is the `TypeError` Python raises when the handler's parameters do not fit the keyword arguments.
- Router.Registry.HandleOneRequest: the 501 reason text `Unsupported method (%r)` is reduced to the command that caused it.
- The `handle` decorator returns `None`, so the decorated name is rebound to `None`. This is not modelled.
- `src/main.py` (environment parsing, server start-up, the echo handler's body) is not part of this model, apart from its route template.
