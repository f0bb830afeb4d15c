# Home page assembler of a static site server

This project models, in Dafny, the callback of the `GET /` route of the site's
Express server (`server.js`), for the requests Express hands to it. The
callback reads the page template `index.html`. It then walks a fixed, ordered
list of eight component files (`navbar.html` … `footer.html`) and appends the
text of each one that exists and can be read. A component that is missing or whose read throws is skipped with a log line. Finally it puts the
joined components in front of the first `</body>` of the template with
`String.prototype.replace`. If the template cannot be read, the answer is
500 `Server error`.

File reads become inputs. Each read is a `FileRead`: `Contents(text)`, `Missing`
(the existence check said no) or `ReadFailed` (the read threw). The handler is
then a set of pure functions:

- `Text`: ECMAScript's StringIndexOf, the first-occurrence search.
- `Substitution`: ECMA-262's GetSubstitution, which expands the replacement
  string of `replace`. The search value is a string, so there are no capture
  groups. Only `$$`, `` $` ``, `$&` and `$'` expand; `$1`, `$<` and a lone `$`
  are copied as they are.
- `Replace`: `replace` with string arguments (`JsReplace`), and the literal
  insertion the handler means to do (`InsertBeforeFirst`).
- `Components`: the fragment loop, as a function (`ConcatPresent`) and as a
  loop method (`AppendComponents`).
- `Page`: assembly, the callback's 200/500 answer, and the callback over a file map.

The code does not assume that the template holds exactly one `</body>`. With no
`</body>` the template is sent unchanged. With several, only the first one
receives the components.

## Model

| member | source | states |
|---|---|---|
| Text.IndexOfFrom | server.js:46 | the result is an occurrence at or after the start index with none between them, or none is reported only when no occurrence exists from there on |
| Text.IndexOf | server.js:46 | none is found exactly when the pattern does not occur; otherwise the index is an occurrence with no earlier one |
| Substitution.NoRefsIsLiteral | server.js:46 | a replacement with no `$$`, `$&`, dollar-backtick or dollar-quote reference is inserted character for character |
| Substitution.GetSubstitution | server.js:46 | the expansion of the replacement string; a replacement without any `$` is copied unchanged |
| Substitution.AmpersandIsMatch | server.js:46 | `$&` at the front of a replacement expands to the matched text, followed by the expansion of the rest |
| Replace.JsReplace | server.js:46 | when the pattern does not occur, the string is returned unchanged |
| Replace.JsReplaceAtFirst | server.js:46 | at the first occurrence, the result is the text before it, the expanded replacement, and the text after it, so later occurrences are kept |
| Replace.InsertBeforeFirst | server.js:45-46 | without an anchor the text is unchanged; with one, it grows by exactly the inserted length |
| Replace.InsertAtFirstAnchor | server.js:45-46 | for a text split as prefix, anchor, suffix at the first anchor, the result is prefix, inserted text, anchor, suffix |
| Replace.JsReplaceIsInsertion | server.js:46 | replacing the anchor by inserted text plus anchor is the literal insertion when that replacement holds no expanding reference |
| Components.ConcatPresentAppend | server.js:29-43 | the joined text of two lists of reads is the joined text of the first followed by that of the second |
| Components.ConcatIsJoinOfPresent | server.js:29-43 | the joined text is exactly the in-order join of the texts that were read, with nothing added |
| Components.ConcatPresent | server.js:29-43 | the joined text of the fragments that were read is as long as those fragments together |
| Components.SkipUnread | server.js:33-42 | a missing fragment, or one whose read throws, contributes nothing and the fragments around it are still joined |
| Components.MissingMiddle | server.js:35-39 | for the reads A, missing, C the joined text is exactly A followed by C |
| Components.FragmentInPlace | server.js:17-36 | every fragment that was read appears intact at its offset, and the next fragment starts where it ends |
| Components.OffsetMonotone | server.js:32-43 | a fragment earlier in the list starts no later than one after it |
| Components.AppendComponents | server.js:29-43 | the loop that appends each read text in list order produces the joined text |
| Page.Assemble | server.js:12-52 | assembly fails, with the template-unavailable error, exactly when the template could not be read |
| Page.AssembleLiteral | server.js:45-46 | the corrected assembly fails exactly when the template is unreadable; with an anchor present the page grows by the total fragment length |
| Page.ServeRoot | server.js:11-53 | the callback's answer is 200 with the assembled page, or 500 with `Server error` exactly when the template could not be read |
| Page.Lookup | server.js:35-36 | a path the file system does not hold reads as missing; a read that returns text returns what the file system holds |
| Page.ComponentPath | server.js:34 | a component's path ends in its file name, so each file name is recovered from its path |
| Page.ComponentReads | server.js:17-36 | one read per listed component, in list order; an absent component reads as missing and a read component holds its file's text |
| Page.HandleRoot | server.js:11-53 | over a file map, the callback answers 500 exactly when `index.html` cannot be read |
| Page.HandleRootReadsOnlyItsFiles | server.js:14-36 | two file systems that agree on `index.html` and on the eight component paths give the same answer |
| Page.AssembleIsLiteral | server.js:46 | when the components hold no expanding reference, the handler's page equals the literal insertion |
| Page.AssembleLiteralShape | server.js:45-46 | the intended page is prefix before the first `</body>`, the components, `</body>`, and the rest verbatim |
| Page.AssembleShape | server.js:46 | the handler's page has that same shape when the components hold no expanding reference |
| Page.AssembleWithoutAnchor | server.js:46 | a template without `</body>` is sent unchanged, whatever the fragments are |
| Page.AssembleLength | server.js:46 | with `</body>` present, the page is as long as the template plus the read fragments |
| Page.AssembleSkipsUnread | server.js:33-42 | inserting a missing or unreadable fragment anywhere in the list leaves the page unchanged |
| Page.MissingMiddleFragment | server.js:35-46 | for fragments A, missing, C the page is prefix, A, C, `</body>`, suffix |
| Page.AssembleDependsOnlyOnTexts | server.js:12-48 | two read lists with the same sequence of read texts give the same page, so assembly is deterministic and missing versus failed makes no difference |
| Page.TemplateFailureIsServerError | server.js:49-52 | an unreadable template gives 500 `Server error` and no page |
| Page.DollarAmpersandDuplicatesAnchor | server.js:46 | as written, a component `$&` in the template `<body></body>` yields `<body></body></body>` |
| Page.DollarAmpersandKeptLiterally | server.js:45-46 | the corrected assembly yields `<body>$&</body>` for the same input |

## Left out

- `js/main.js`: browser DOM scripting (menu toggle, smooth scroll, observers, clipboard, timers) with no server logic.
- File-system calls (`readFileSync`, `existsSync`, `path.join`): each read is an input `FileRead`, and paths are plain strings relative to the site root.
- UTF-8 decoding: file contents are given as already decoded strings. The model's indexes count characters, where ECMAScript counts UTF-16 code units. This matters only for the length statement.
- Express plumbing: the content type and headers `res.send` adds, a 304 it may send for a conditional request, and listening on port 3000 (server.js:5, 55-57).
- Static file serving (server.js:8): the static layer is mounted before the route and, by its default index setting, answers `/` itself with the raw `index.html` when that file exists. The callback modelled here then runs only when the static layer passes the request on. The model describes the callback, not which layer answers `/`.
- Console logging of missing components, component read errors and the page error.
- The engine's maximum string length: the model's strings are unbounded. In Node, an append at server.js:36 that would exceed the limit throws, the inner catch skips that component, and later shorter components are still appended. An overlong replacement or result at server.js:46 throws into the outer catch and the answer is 500.
- Components.ConcatPresent: keeps every read fragment however long the joined text grows, because the engine's string-length limit is not modelled.
- Components.AppendComponents: likewise never skips a fragment for exceeding the string-length limit.
- Page.Assemble: fails only when the template is unreadable; the 500 caused by an overlong page at server.js:46 is not modelled.
- Page.ServeRoot: answers 500 only for an unreadable template, for the same reason.
- `res.send` belongs to Express; its failures are not modelled.
- Page.AssembleShape: requires that the joined components hold no `$$`, `$&`, dollar-backtick or dollar-quote reference, because the code as written expands them (see Findings).
- Page.AssembleLength: requires the same absence of expanding references, for the same reason.
- Page.MissingMiddleFragment: requires that A followed by C holds no expanding reference, for the same reason.

## Findings

| source | as written | input that shows it | evidently intended | confidence | as-written member | corrected member |
|---|---|---|---|---|---|---|
| server.js:46 | the joined components are passed as the replacement string of `replace`, so ECMA-262's GetSubstitution expands `$$`, `$&`, dollar-backtick and dollar-quote inside them | template `<body></body>` with one component whose text is `$&` gives `<body></body></body>` | the components are inserted literally, giving `<body>$&</body>` | high that the expansion happens as ECMA-262 defines it; not executed | Page.DollarAmpersandDuplicatesAnchor | Page.AssembleLiteral |

`Page.Assemble` and `Page.ServeRoot` keep the behaviour as written.
`Page.AssembleLiteral` is the corrected assembly. `Page.AssembleLiteralShape`
proves its intended shape for every input. `Page.AssembleIsLiteral` proves
that the two agree whenever no component text holds an expanding reference.
