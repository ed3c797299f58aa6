# django-quik, modelled in Dafny

django-quik is a live-reload proxy for Django's development server.
`manage.py runserver` is rewritten so that Django listens on port 8001 of
the host the user gave; the user's host and port are returned as Django
Quik's address. The proxy relays each request
to Django over HTTP/1.0. When a response is an HTML page, it reads the whole
body and injects a small script before every `</body>`. The script opens an
event stream under a secret path `/<uuid>/`. When a watched file changes,
every open event stream gets one `data: file changed` event and the page
reloads.

This project models the core of that program and proves properties of the model:

- `http_stream.dfy` (module `HttpStream`) models the byte stream over a socket (`Stream` in
  `server/http.py`).
  - Its push-back buffer; the header reader that splits at the first CR LF CR LF; the body reader.
  - The socket is a scripted peer: the bytes it will deliver, the bytes sent to it, whether it is closed, and whether the other side still reads.
- `http_headers.dfy` (module `HttpHeaders`) models the header codec of `server/http.py`.
  - The start-line parser; `parse_headers` into an ordered dict of lists; `header_value`; `modify_headers` (including the case where it fails); `build_header_bytes`.
  - The round trip from building to parsing.
- `server.dfy` (module `Server`) models the proxy in `server/__init__.py`.
  - The registry of event-stream callbacks (`ThreadSafeChangeCallbacks`) and the broadcast `trigger_notify`.
  - `inject_event_code`; the event-stream page; the routing and HTTP/1.0 downgrade of `serve_page`; the HTML branch of the Django-to-client relay.
- `tailwind.dfy` (module `Tailwind`) models the parser of `tailwind.mapping`, the `npx tailwindcss` command line built from it, and the content list written into `tailwind.config.js`.
- `cli.py` is modelled in `cli.dfy` (module `Cli`): the rewriting of `sys.argv` by `override_run_server_args`, and its address pattern.
  - The model follows the code as written.
  - It also gives a corrected version (see Findings).
- `loader.dfy` (module `Loader`) models the discovery of watch directories from the settings module: `TEMPLATES[*]['DIRS']`, `STATIC_ROOT`, `STATICFILES_DIRS` and the existence filter. A settings value is a string, a `pathlib.Path` (kept apart by its text), a list, a tuple, a dict, None or some other object.
- `text.dfy` (module `Text`) holds the string operations the code relies on (find, split, join, strip, lower case, decimal conversion), with their lemmas.

Bytes and text share one alphabet (`string`). Python's `errors='ignore'`
decoding and encoding are the identity on it. Each operation that loops over
or updates state is a method, proved against a function. Its properties are
lemmas about that function.

The code differs from the prose description of the program in two places. The model follows the code:

- The event-stream route is taken when the request path *starts with* the refresh path (`server/__init__.py:324`), not only when it equals it.
- The HTML branch of the relay forwards Django's start line and headers as they are, apart from the new `Content-Length` (`server/__init__.py:249-253`). It forces no `Connection: close` and no HTTP/1.0 status line, and adds no header of its own.

## Model

| member | source | states |
|---|---|---|
| HttpStream.Stream.constructor | src/django_quik/server/http.py:31-40 | a new stream holds its socket and default buffer size, and has no pushed-back bytes |
| HttpStream.Stream.ReadChunk | src/django_quik/server/http.py:42-63 | pushed-back bytes are returned whole, whatever the size, and the buffer is emptied without touching the socket; otherwise at most the chunk size (the argument when non-zero, else the stream's own) is received; the read fails exactly when nothing arrives; nothing is sent |
| HttpStream.Stream.WriteChunk | src/django_quik/server/http.py:65-75 | all of the data is sent and the write succeeds, or the socket cannot be written, the write fails and nothing is sent |
| HttpStream.Stream.RestoreBytes | src/django_quik/server/http.py:77-83 | pushed-back bytes are appended to the buffer and are read before anything still in the socket |
| HttpStream.Stream.Close | src/django_quik/server/http.py:85-94 | the socket is closed; closing an already closed stream is harmless and loses nothing |
| HttpStream.HeaderSplitNoEnd | src/django_quik/server/http.py:117-119 | the header block returned holds no CR LF CR LF of its own |
| HttpStream.HeaderSplitUnique | src/django_quik/server/http.py:117-124 | the bytes pending on a stream determine the header block and the rest uniquely |
| HttpStream.HeaderBoundary | src/django_quik/server/http.py:117-124 | the first terminator in the bytes read so far is the first terminator of everything pending, so the header ends there and the rest is the pushed-back remainder followed by what was unread |
| HttpStream.ReadHeaders | src/django_quik/server/http.py:97-125 | on success the pending bytes are the header block, the terminator and the new pending bytes (the misread body bytes go back to the stream); whenever a terminator is pending on an open stream it succeeds; it fails only after the peer delivered everything; nothing is sent |
| HttpStream.ReadTextBody | src/django_quik/server/http.py:233-250 | the body returned is a prefix of the pending bytes of at least the content length, and it is removed from the stream; a length of zero or less reads nothing; with enough bytes pending on an open stream it succeeds |
| HttpHeaders.ExtractStartLineInverse | src/django_quik/server/http.py:128-142 | a parsed start line joins back, with single spaces, to the line it came from; the method and the version hold no space and the path keeps the inner spaces |
| HttpHeaders.ExtractStartLineSpaces | src/django_quik/server/http.py:135-142 | a line yields a start line exactly when it has at least two spaces |
| HttpHeaders.ExtractStartLineText | src/django_quik/server/http.py:128-142 | the start line as written by build_header_bytes parses back to the same method, path and version when method and version hold no space |
| HttpHeaders.ExtractStartLineExample | tests/test_http.py:11-15 | `GET / HTTP/1.0` parses to method `GET`, path `/`, version `HTTP/1.0` |
| HttpHeaders.ParseHeaders | src/django_quik/server/http.py:145-173 | the loop builds the fields of the CR LF-separated lines and the start line of the first line |
| HttpHeaders.AddValueValues | src/django_quik/server/http.py:164-167 | adding a header line appends its value to the list of that name and changes no other name's values |
| HttpHeaders.AddValueNames | src/django_quik/server/http.py:164-167 | a new name goes last; the names already present keep their order |
| HttpHeaders.AddValueWellFormed | src/django_quik/server/http.py:164-167 | adding a line keeps names unique and every list non-empty |
| HttpHeaders.ParseFieldsWellFormed | src/django_quik/server/http.py:153-167 | parsed headers have unique names and no empty value list |
| HttpHeaders.ParseFieldsValues | src/django_quik/server/http.py:156-167 | the values parsed under a name are the stripped values of the lines whose stripped key is that name, in line order |
| HttpHeaders.DropLine | src/django_quik/server/http.py:158-159 | a line without a colon is ignored wherever it stands |
| HttpHeaders.HeaderValue | src/django_quik/server/http.py:176-190 | the result is the first value of the first name that matches ignoring ASCII case and has a value; none exactly when no such name exists |
| HttpHeaders.ModifyHeaders | src/django_quik/server/http.py:193-211 | the loop over the keys yields the headers described by Modified, including the failure when a new key is inserted while the keys are iterated |
| HttpHeaders.ModifiedSets | src/django_quik/server/http.py:193-211 | after a successful modify the name holds exactly the new value, every other name keeps its values, a new name is added last, and well-formed headers stay well-formed |
| HttpHeaders.ModifiedFails | src/django_quik/server/http.py:205-208 | modify fails exactly when the exact name is absent and a differently spelt match is not the last key |
| HttpHeaders.SetFieldLength | src/django_quik/server/http.py:207-211 | assigning a name adds one field when the name is new, none otherwise |
| HttpHeaders.SetFieldTwice | src/django_quik/server/http.py:207-211 | assigning the same name and value twice is the same as once |
| HttpHeaders.SetFieldValues | src/django_quik/server/http.py:207-211 | after the assignment the name has the one new value and all other names keep theirs |
| HttpHeaders.SetFieldNames | src/django_quik/server/http.py:207-211 | the assignment keeps the order of names and puts a new name last |
| HttpHeaders.SetFieldWellFormed | src/django_quik/server/http.py:207-211 | the assignment keeps names unique and lists non-empty |
| HttpHeaders.SetFieldFields | src/django_quik/server/http.py:207-211 | every field after the assignment was there before or is the new one |
| HttpHeaders.SetFieldSpelling | src/django_quik/server/http.py:205-211 | if every name matching ignoring case is the exact name, that stays so after the assignment |
| HttpHeaders.HeaderValueOnlySpelling | src/django_quik/server/http.py:176-190 | when only the exact spelling is present, header_value returns its first value |
| HttpHeaders.HeaderValueAfterModify | src/django_quik/server/http.py:176-211 | after modifying a name spelt one way only, header_value returns the new value |
| HttpHeaders.FirstOffer | src/django_quik/server/http.py:176-190 | header_value returns the first value of the first key that matches ignoring case and has a value |
| HttpHeaders.ModifiedKeepsStaleLength | src/django_quik/server/http.py:176-211 | with one key `content-length: 5`, modifying `Content-Length` to 9 keeps the old key and appends a new one, and header_value still returns 5 |
| HttpHeaders.ReplaceMatches | src/django_quik/server/http.py:205-208 | corrected assignment: every key matching ignoring case, and only those, gets the one new value and keeps its spelling and place |
| HttpHeaders.HeaderValueAfterCorrected | src/django_quik/server/http.py:176-211 | with the corrected modify, header_value returns the new value for any headers, and no matching key keeps an old value |
| HttpHeaders.ModifiedCorrectedKeys | src/django_quik/server/http.py:205-211 | with the corrected modify, the names and their order are kept, the name is appended only when no key matches, and keys that do not match are untouched |
| HttpHeaders.CorrectedAgrees | src/django_quik/server/http.py:193-211 | in a dict whose keys matching the name are all spelt exactly as the name, the corrected modify gives what the code gives |
| HttpHeaders.SetFieldReplaces | src/django_quik/server/http.py:207 | assigning an exact key that is present, when it is the only spelling, replaces the values of exactly the matching keys |
| HttpHeaders.SetFieldAppends | src/django_quik/server/http.py:211 | assigning a key that is not present appends it at the end |
| HttpHeaders.BuildHeaderBytes | src/django_quik/server/http.py:214-230 | the nested loops write the start line, one line per value of every field in order, and an empty line |
| HttpHeaders.HeaderBlockText | src/django_quik/server/http.py:223-230 | the header block is the CR LF-joined start line and field lines followed by CR LF CR LF |
| HttpHeaders.LineEntryFieldLine | src/django_quik/server/http.py:161-162 | a field line `name: value` as written parses back to the same name and value when the name holds no colon and neither has surrounding space |
| HttpHeaders.ParseLines | src/django_quik/server/http.py:156-167 | parsing the field lines of well-formed, writable headers gives the same headers back, with duplicate values regrouped under their name |
| HttpHeaders.HeaderRoundTrip | src/django_quik/server/http.py:145-230 | a built header block followed by any body splits at its own terminator, and parses back to the same start line and headers |
| HttpHeaders.FoldedLine | src/django_quik/server/http.py:156-167 | any line `key:value` whose key has no colon becomes the field `key` holding `value`, whether or not it is the start line |
| HttpHeaders.StartLineFolded | src/django_quik/server/http.py:154-167 | the request line `GET /s?t=12:00 HTTP/1.1` yields the field `GET /s?t=12` with the value `00 HTTP/1.1` |
| HttpHeaders.HeaderRoundTripCorrected | src/django_quik/server/http.py:154-171 | corrected parse that keeps line 0 out of the fields: a built header block parses back to its headers whatever the path holds, colons included |
| HttpHeaders.ModifiedSerialisable | src/django_quik/server/http.py:193-230 | modifying writable headers with a writable value keeps them writable, so the round trip still holds |
| Server.LookupKeys | src/django_quik/server/__init__.py:61 | a key finds a callback exactly when it is one of the registry's keys |
| Server.SetDefaultLookup | src/django_quik/server/__init__.py:42-51 | setdefault registers the callback only under a key not yet present; every other key keeps its callback |
| Server.SetDefaultUnique | src/django_quik/server/__init__.py:42-51 | the registry keeps each key once |
| Server.RemoveAllLookup | src/django_quik/server/__init__.py:53-62 | after removal the removed keys find nothing and every other key finds what it found before |
| Server.RemoveAllMember | src/django_quik/server/__init__.py:53-62 | removal keeps exactly the entries whose key was not removed |
| Server.RemoveAllUnique | src/django_quik/server/__init__.py:53-62 | removal keeps each key once |
| Server.RemoveAllUnion | src/django_quik/server/__init__.py:53-62 | removing two sets of keys one after the other is removing their union |
| Server.RemoveNone | src/django_quik/server/__init__.py:53-62 | removing no key changes nothing |
| Server.RemoveAbsent | src/django_quik/server/__init__.py:60-62 | removing a key that is not registered changes nothing |
| Server.ChangeCallbacks.constructor | src/django_quik/server/__init__.py:32-40 | a new registry holds its configuration and no callbacks |
| Server.ChangeCallbacks.SetCallback | src/django_quik/server/__init__.py:42-51 | the registry becomes its setdefault with the new key, with keys kept unique |
| Server.ChangeCallbacks.RemoveCallback | src/django_quik/server/__init__.py:53-62 | the registry loses the entry of the key, if any, and nothing else |
| Server.ChangeCallbacks.GetAll | src/django_quik/server/__init__.py:64-71 | the copy holds the registry's entries in insertion order |
| Server.CallFileChange | src/django_quik/server/__init__.py:295-305 | the callback sends one change event to its client, or, when the write fails, removes its own entry and sends nothing; no other socket changes |
| Server.NotifyAt | src/django_quik/server/__init__.py:96-98 | one step of the broadcast keeps the invariant: entries that failed so far are removed, each live client has had one event per entry visited |
| Server.RegistryStep | src/django_quik/server/__init__.py:96-98 | after one more entry of the snapshot, the registry has lost that entry's id exactly when its socket refused the event, and nothing else |
| Server.SentStep | src/django_quik/server/__init__.py:96-98 | after one more entry of the snapshot, a socket has received one more event exactly when that entry names it |
| Server.NotifyAll | src/django_quik/server/__init__.py:96-98 | over the snapshot, each writable client gets one event per entry naming it, unwritable clients get nothing, and exactly the failing entries are removed |
| Server.TriggerNotify | src/django_quik/server/__init__.py:95-98 | a broadcast on the current registry: each writable client gets one event per entry naming it, the others get nothing and lose their entries |
| Server.CountSingle | src/django_quik/server/__init__.py:95-98 | a client registered once gets exactly one event per broadcast |
| Server.CountAbsent | src/django_quik/server/__init__.py:95-98 | a client not registered gets no event |
| Server.LowerOccurs | src/django_quik/server/__init__.py:185 | the closing body tag occurs in the lower-cased page exactly where it occurs ignoring case |
| Server.TagCountPositive | src/django_quik/server/__init__.py:185-186 | the page has closing body tags to replace exactly when one occurs somewhere |
| Server.SearchFindsTags | src/django_quik/server/__init__.py:185-186 | the search succeeds exactly when the substitution has something to replace |
| Server.ReplaceTagsLength | src/django_quik/server/__init__.py:186 | the substitution makes the page longer by one script per closing body tag; where the scripts go is stated by the four rows below |
| Server.ReplaceTagsLeftmost | src/django_quik/server/__init__.py:185-186 | without `</body>` in the lower-cased page the substitution changes nothing; otherwise the text before the first tag is kept, the tag, whatever its case, becomes the script followed by a lower-case `</body>`, and the rest of the page is substituted the same way |
| Server.ReplaceTagsNone | src/django_quik/server/__init__.py:186 | a page with no tag in any case is returned unchanged |
| Server.ReplaceTagsFirst | src/django_quik/server/__init__.py:186 | at the first tag: the text before it, the script, a lower-case `</body>`, then the substituted rest |
| Server.ReplaceTagsPrefix | src/django_quik/server/__init__.py:186 | text with no tag starting in it is copied through unchanged |
| Server.InjectEventCodeLength | src/django_quik/server/__init__.py:164-188 | the injected page is longer by one script per closing body tag; it is unchanged exactly when the page has no closing body tag |
| Server.ReplyEmpty | src/django_quik/server/__init__.py:227-258 | the client gets nothing exactly when the response has no start line, or is HTML and its Content-Length does not parse, or the Content-Length update fails |
| Server.ReplyOfBlock | src/django_quik/server/__init__.py:227-256 | for an HTML response with a Content-Length, the reply to a built header block is the injected-page reply for its start line and headers |
| Server.ModifiedOnlySpelling | src/django_quik/server/http.py:193-211 | modify_headers cannot fail when the name is spelt one way only |
| Server.HtmlReplyFraming | src/django_quik/server/__init__.py:243-256 | the HTML reply is a header block whose Content-Length is the injected page's length, followed by that page; it splits at its terminator and parses back to the same start line and headers, with every other header unchanged |
| Server.ReplyFraming | src/django_quik/server/__init__.py:218-256 | the same framing for a response read from Django: the client receives a correctly framed page with the script injected |
| Server.WebServer.constructor | src/django_quik/server/__init__.py:106-117 | the refresh path is `/<uuid>/` for the given uuid text and the registry starts empty |
| Server.WebServer.ServeRefreshEventPage | src/django_quik/server/__init__.py:277-308 | the event-stream head is written; if that write succeeds the client's callback is registered under its stream id, otherwise nothing is registered |
| Server.WebServer.ServePage | src/django_quik/server/__init__.py:321-333 | a path that starts with the refresh path is served the event stream; any other request is forwarded to Django as HTTP/1.0 with the same method, path and headers |
| Server.WebServer.SendDjangoServerToClient | src/django_quik/server/__init__.py:218-265 | the client receives the reply to the response head and body read from Django: the framed injected page for HTML, the rebuilt header block otherwise; nothing when the head cannot be read |
| Server.WebServer.SendHtml | src/django_quik/server/__init__.py:234-258 | reads the body for the parsed Content-Length and sends the injected page with its new length, or nothing when the length does not parse or the read fails |
| Server.WebServer.RespondHtml | src/django_quik/server/__init__.py:245-256 | the header block with the updated Content-Length and the injected page are written, in that order, if the client is writable |
| Server.WriteResponse | src/django_quik/server/__init__.py:253-256 | the header block and the page are sent one after the other, or nothing is sent |
| Tailwind.ParseMapping | src/django_quik/tailwind.py:84-102 | the loop over the lines collects each line's mapping in line order |
| Tailwind.MappingsLength | src/django_quik/tailwind.py:87-100 | there are never more mappings than lines |
| Tailwind.MappingsAppend | src/django_quik/tailwind.py:87-100 | the mappings of two runs of lines are the mappings of each, one after the other |
| Tailwind.MappingsUnquoted | src/django_quik/tailwind.py:98-99 | no parsed path holds a double quote |
| Tailwind.NoSpaceNoMapping | src/django_quik/tailwind.py:92-95 | a line without a space yields no mapping |
| Tailwind.BlankBeforeHash | src/django_quik/tailwind.py:88-89 | a line whose stripped text starts with `#`, whatever whitespace comes before it, is skipped as a comment and yields no mapping |
| Tailwind.NoBreakSpaceComment | src/django_quik/tailwind.py:88-89 | `strip()` removes all whitespace `str.isspace()` accepts, not only ASCII: a line whose no-break space comes before `#` is a comment and yields no mapping, and a path holding a no-break space is not plain, so it is left out of the round trips |
| Tailwind.LineMappingRoundTrip | src/django_quik/tailwind.py:87-100 | the line `in out` of a mapping parses back to that mapping when neither path holds a quote or whitespace (in the sense of `str.isspace()`), and the input path is non-empty and does not start with `#` |
| Tailwind.QuotedSpaceSplit | src/django_quik/tailwind.py:92-99 | a path written between quotes because it holds a space is still cut at that space, since the quotes are removed only after the split: `"a b" out` maps `a` to `b` |
| Tailwind.QuotedSpaceExample | src/django_quik/tailwind.py:92-99 | the line `"my in.scss" out.css` maps `my` to `in.scss` |
| Tailwind.QuotedFields | src/django_quik/tailwind.py:97-99 | the quote-aware reading of a line's fields leaves no double quote in any field |
| Tailwind.QuotedLineRoundTrip | src/django_quik/tailwind.py:97-99 | corrected parse that splits only at spaces outside quotes: a line with both paths quoted reads back to its mapping, spaces in the paths included |
| Tailwind.CorrectedAgreesUnquoted | src/django_quik/tailwind.py:92-99 | on a line without quotes the corrected parse gives the same mapping as `line.split(" ")` followed by quote removal |
| Tailwind.MappingsOfLines | src/django_quik/tailwind.py:87-100 | the lines of plain mappings parse back to the same mappings in order |
| Tailwind.MappingLinesStep | src/django_quik/tailwind.py:87-100 | one more plain mapping adds one line, and the lines still parse back to the mappings in order |
| Tailwind.MappingFileRoundTrip | src/django_quik/tailwind.py:84-102 | a mapping file written one mapping per line, each line ending in a line break, parses back to the mappings |
| Tailwind.CommandLineWords | src/django_quik/tailwind.py:105-117 | for a non-empty mapping list the command is `npx tailwindcss -i`, the inputs, `-o`, the outputs and `--watch`, joined by spaces |
| Tailwind.CommandLineSplit | src/django_quik/tailwind.py:105-117 | splitting the command at spaces, as the caller does before running it, gives back exactly those words when no path holds a space |
| Tailwind.StructuredContent | src/django_quik/tailwind.py:48-55 | the loop writes the bracketed content list, every entry but the last followed by a separator |
| Tailwind.ContentPrefixStep | src/django_quik/tailwind.py:49-53 | one turn of the loop adds the quoted entry and a `,` line break unless the entry is the last |
| Tailwind.ContentListEntries | src/django_quik/tailwind.py:48-55 | between the brackets of the list, splitting at the separators gives one quoted entry per pattern, in order, whenever no pattern holds the separator (a comma followed by a line break) itself |
| Tailwind.WatchPatternFree | src/django_quik/tailwind.py:42-45 | the pattern `./<dir>/**/*.{html,js,py}` of a directory without a line break in its name holds commas but never the separator, so the content list of real patterns reads back |
| Tailwind.ContentEntryFree | src/django_quik/tailwind.py:50 | a quoted entry holds the separator only where its pattern does, and no occurrence runs across its end |
| Cli.LastAddressSpec | src/django_quik/cli.py:49-56 | the address that decides the binding is the last argument from index 2 on that matches the address pattern |
| Cli.ReboundPort | src/django_quik/cli.py:63 | an address rebound to a port still matches the pattern, keeps its host, carries that port, and rebinding again changes nothing |
| Cli.DefaultProxyAddressParts | src/django_quik/cli.py:22-23 | the default address matches the pattern, with host 127.0.0.1 and port 8001 |
| Cli.HostOfAddress | src/django_quik/cli.py:50-56 | the host of a matching argument is a dotted quad |
| Cli.PortOfAddress | src/django_quik/cli.py:50-59 | the port of a matching argument always parses as an integer, also with the trailing line break the pattern lets through |
| Cli.ParseIntNewline | src/django_quik/cli.py:59 | int() of digits followed by a line break is the digits' value |
| Cli.BindAddress | src/django_quik/cli.py:54-63 | one matching argument: its host, its port (a number when it equals Django's port, its text otherwise), Django's port unchanged, and the argument rebound to Django's port |
| Cli.OverrideRunServerArgs | src/django_quik/cli.py:35-65 | sys.argv becomes the as-written rewriting of the old arguments and the returned binding is the as-written binding |
| Cli.OverrideCases | src/django_quik/cli.py:42-63 | exactly two arguments get the default address appended; fewer are left alone with the default binding; more go through the loop from index 2, which starts from the unchanged arguments and the default binding |
| Cli.RebindAt | src/django_quik/cli.py:49-63 | one turn of the loop rewrites argument i as written and hands its host and port to the binding when it matches the pattern, and leaves both alone otherwise |
| Cli.RewrittenUpToStep | src/django_quik/cli.py:49-63 | the loop reads argument i as the user gave it, since earlier turns touch only earlier arguments, and one turn advances the rewritten prefix by that argument |
| Cli.RewrittenAll | src/django_quik/cli.py:49-63 | after the last turn every argument has been rewritten |
| Cli.BindingUpToStep | src/django_quik/cli.py:53-60 | a matching argument sets the binding to its host and port, and a non-matching one keeps the binding |
| Cli.ArgsAsWrittenAppends | src/django_quik/cli.py:42-45 | with only `manage.py runserver`, one argument is appended: an address with host 127.0.0.1 and port 8001 |
| Cli.ArgsAsWrittenRewrites | src/django_quik/cli.py:47-63 | the length is kept; non-matching arguments and the first two are unchanged; every matching argument keeps its host and gets port 8001 |
| Cli.ArgsAsWrittenIdempotent | src/django_quik/cli.py:47-63 | rewriting already rewritten arguments changes nothing |
| Cli.NoAddressDefaults | src/django_quik/cli.py:37-39 | without a matching argument the binding is 127.0.0.1, 8000 and 8001 |
| Cli.BindingFromLastAddress | src/django_quik/cli.py:53-56 | the binding takes the host and the port of the last matching argument |
| Cli.DjangoPortFixed | src/django_quik/cli.py:59-60 | as written, Django's port is 8001 whatever the arguments |
| Cli.SamePortReturned | src/django_quik/cli.py:59-60 | for `manage.py runserver 127.0.0.1:8001` the swap changes nothing, and the code returns the same port, 8001, as Django Quik's port and as Django's |
| Cli.BindAddressCorrected | src/django_quik/cli.py:54-63 | corrected step: the user's host and port, and Django moved to the other default port |
| Cli.OverrideRunServerArgsCorrected | src/django_quik/cli.py:35-65 | the corrected rewriting of sys.argv and the corrected binding |
| Cli.OverrideCasesCorrected | src/django_quik/cli.py:42-63 | the same three cases for the corrected rewriting |
| Cli.RebindAtCorrected | src/django_quik/cli.py:49-63 | one turn of the corrected loop rewrites argument i and updates the corrected binding |
| Cli.CorrectedUpToStep | src/django_quik/cli.py:53-63 | with the correction, a matching argument sets the binding to its host, its port and the other default port for Django |
| Cli.CorrectedPortsDiffer | src/django_quik/cli.py:59-60 | with the correction, the two returned ports, Django Quik's and Django's, always differ |
| Cli.CorrectedArgPortsDiffer | src/django_quik/cli.py:59-63 | with the correction, a rewritten address keeps its host and its port differs from the user's |
| Loader.DictGet | src/django_quik/loader.py:86 | `dict.get` finds a value exactly when the key is present |
| Loader.LoadTemplateDirs | src/django_quik/loader.py:62-93 | the loop collects the template directories; the result is empty when TEMPLATES is missing or not a list |
| Loader.TemplatesDirsAppend | src/django_quik/loader.py:79-93 | the directories of two runs of TEMPLATES entries are those of each, one after the other |
| Loader.SkippedEntry | src/django_quik/loader.py:81-88 | an entry that is not a dict, or whose DIRS is missing or not a list, contributes nothing |
| Loader.TemplatesDirsMembers | src/django_quik/loader.py:79-93 | a directory is collected exactly when some entry is a dict whose DIRS list holds it |
| Loader.LoadStaticFilesDirs | src/django_quik/loader.py:96-111 | the static directories: STATIC_ROOT if present, then what extending with STATICFILES_DIRS appends; failure when that value is not iterable |
| Loader.StaticFilesDirsOrder | src/django_quik/loader.py:105-111 | STATIC_ROOT comes first whenever it exists, whatever its value, and the elements of STATICFILES_DIRS follow in order |
| Loader.StaticFilesDirsFails | src/django_quik/loader.py:108-109 | loading fails exactly when STATICFILES_DIRS exists and is not iterable (None, a `pathlib.Path`, a number or another object) |
| Loader.LoadDirsToWatch | src/django_quik/loader.py:114-130 | the watch list is computed, or the static-directory failure is passed on |
| Loader.DirsToWatchParts | src/django_quik/loader.py:123-130 | the watch list is the template directories followed by the static directories |
| Loader.FilterSpec | src/django_quik/loader.py:138-140 | the filter keeps the order and holds exactly the entries that satisfy the test |
| Loader.FilterOrder | src/django_quik/loader.py:138-140 | the filtered list is a subsequence of the list |
| Loader.FilterMembers | src/django_quik/loader.py:138-140 | a value is in the filtered list exactly when it is in the list and passes the test |
| Loader.FilterIdempotent | src/django_quik/loader.py:138-140 | filtering a filtered list changes nothing |
| Loader.LoadValidWatchDirs | src/django_quik/loader.py:133-142 | the loop keeps the watch-list entries that are existing directories |
| Loader.ValidWatchDirsSpec | src/django_quik/loader.py:133-142 | the valid watch directories are a subsequence of the watch list holding exactly its entries that are existing directories |
| Loader.PathDirectoryKept | src/django_quik/loader.py:138-140 | of two different `pathlib.Path` entries, the existing directory is kept and the missing one dropped |

## Left out

- WriteChunk: a socket either takes all of the data or refuses it, and a socket that refuses data refuses it for its whole life (`HttpStream.Socket.SendAll`, `peerReading` is a constant). Python's `sendall` can deliver part of the data and then raise, and a peer can stop reading between two writes; neither is modelled, so "nothing is sent on failure" holds only in the model.
- CallFileChange: for the same reason, a failed event write sends nothing in the model, where a real `sendall` may have delivered part of the event.
- WriteResponse: for the same reason, the client receives the head and the page or nothing; a delivered head followed by a refused page is not modelled.
- NotifyAll, TriggerNotify: for the same reason, each client gets all of its events or none; a client that disconnects in the middle of a broadcast, or a partial event, is not modelled.
- Threads, the accept loop, `create_server`/`create_connection` and `join` are not modelled (`server/__init__.py:133-145`, `331-356`). The proxy connection is passed into `ServePage` and `SendDjangoServerToClient` as a stream.
- The registry's lock is not modelled: each registry operation is treated as atomic.
- The debounce timer and the watchdog observer are not modelled (`server/__init__.py:75-93`, `124-131`). `TriggerNotify` is the broadcast they would start.
- `handle_client` is not modelled, nor the endless relay loops (`server/__init__.py:147-162`, `191-207`, `268-275`). They are exception plumbing and loops that never end.
  - `SendDjangoServerToClient` sends the rebuilt header block in the non-HTML branch and stops there.
- The error paths call `shutdown()`, which `Stream` does not define. They are modelled as "nothing more is sent".
- `uuid.uuid4()` becomes a parameter: the id text of the constructor and the stream id of `ServeRefreshEventPage`.
- The `print` calls and warnings are not modelled.
- UTF-8 decoding and encoding with `errors='ignore'` are the identity: bytes and text share one alphabet.
- `HttpHeaders.HeaderValue`, `Server.LowerOccurs`: lower-casing and `re.IGNORECASE` are ASCII only; no Unicode case folding.
- `Text.ParseInt`, `Cli.PortOfAddress`: `int()` and `\d` accept ASCII digits only, with an optional sign and surrounding whitespace (the full set `str.isspace()` accepts, as for `strip()`). Other Unicode digits and underscores between digits (`int("1_000")` is 1000) are not modelled. So for a `Content-Length: 1_000` the model writes nothing to the client, while the program relays the page.
- `Tailwind.ParseMapping`: `splitlines()` breaks at LF only. CR, CR LF and the other Unicode line boundaries are not modelled.
- `Server.WebServer.ServeRefreshEventPage`: the event-stream head is a constant written as is. Nothing proves that it parses as a response head.
- Tailwind file I/O, the prompt before overwriting, the Django app registry and `subprocess.run` are not modelled (`tailwind.py:15-38`, `59-82`, `120-145`).
- `Tailwind.WatchPattern`: the directory is taken already relative to the working directory; `os.path.relpath` is not modelled.
- `handle_tailwind_build` is not modelled; it is file existence checks around ParseMapping and BuildCommandLine.
- The rest of `cli.py` (`handle_cli`, the environment flag, argument registration, starting threads) is not modelled: it is process bootstrap.
- `load_manage_py`, `load_settings_module_path` and `load_settings_module` are not modelled: they import foreign modules and run foreign code.
- `Loader.LoadValidWatchDirs`: `os.path.exists(d) and os.path.isdir(d)` is a predicate passed in, over strings and `pathlib.Path` values alike; a Path is known by its text. Its TypeError on a value that is not a path is not modelled.
- `Loader.DictGet`: a dict's keys are strings, and a key is assumed to appear once; the first entry with the key is the one found.
- `Loader.LoadStaticFilesDirs`: iterating a string gives its characters, and a dict gives its keys. Other iterables (sets, generators) are not modelled.

## Findings

| source | as written | input that shows it | evidently intended | confidence | as-written member | corrected member |
|---|---|---|---|---|---|---|
| src/django_quik/cli.py:59-60 | the swap runs only when the user's port equals Django's port (8001), so it exchanges two equal values and changes nothing: both returned ports are 8001 | `manage.py runserver 127.0.0.1:8001` | the swap gives Django the other default port (8000), so the returned pair always holds two different ports; this concerns only the pair returned, since the caller binds the proxy to port 8000 whatever it returns (cli.py:139-141, which is not part of this model) | not executed | Cli.SamePortReturned | Cli.CorrectedPortsDiffer |
| src/django_quik/server/http.py:205-211 | a key that matches the name only ignoring case, such as `content-length` when the last key, gets no new value: the assignment adds a second key spelt as the name, and the old key keeps its old value, which header_value still finds first. The HTML reply (`server/__init__.py:249`) would then carry two different Content-Length values | headers ending in `content-length: 5`, modified to `Content-Length: 9` | every key matching the name ignoring case gets the new value, and header_value reads it back | not executed | HttpHeaders.ModifiedKeepsStaleLength | HttpHeaders.HeaderValueAfterCorrected |
| src/django_quik/server/http.py:156-167 | every line with a colon is folded into the headers, the request line included, so a path or query holding an unencoded colon adds a field; serve_page (`server/__init__.py:327-328`) then forwards it to Django as an extra header line | the request line `GET /s?t=12:00 HTTP/1.1`, which is forwarded with the extra header line `GET /s?t=12: 00 HTTP/1.1` | line 0 is read as the start line only, and only the lines after it are header fields | not executed | HttpHeaders.StartLineFolded | HttpHeaders.HeaderRoundTripCorrected |
| src/django_quik/tailwind.py:92-99 | the line is split at every space before the double quotes are removed, so a path written between quotes because it holds a space is still cut in two, though the comment at line 97 says the quotes are there for paths with white space | the mapping line `"my in.scss" out.css`, which yields the mapping (`my`, `in.scss`) | spaces inside double quotes do not separate fields, and the quotes are dropped, so the line yields (`my in.scss`, `out.css`) | not executed | Tailwind.QuotedSpaceSplit | Tailwind.QuotedLineRoundTrip |
