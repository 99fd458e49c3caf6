# Article formatter: sanitizer, extract route and plain-text path

This project models the logic of a small Next.js article formatter. The user gives a URL or pastes
text, and the app returns a printable article: a title plus a body of restricted HTML. Three pieces
of that logic are modelled, and properties are proved about each:

- **`cleanNode`** (`sanitizer.dfy`, module `Sanitizer`) is the allow-list rewrite of the extract
  route. It walks a snapshot of a node's children and treats each child by kind:
  - text is kept;
  - comments, CDATA sections and processing instructions are removed;
  - the twelve blocked tags are removed together with their subtree;
  - the 26 allowed tags lose their attributes and are cleaned recursively;
  - every other element is unwrapped: its children take its place, in order.
  The imperative walk is `Sanitizer.CleanNode`. It uses the same loops and DOM operations as the
  source (`removeChild`, `insertBefore(child.firstChild, child)`, `removeAttribute`) on a mutable
  child list, and is proved equal to the pure rewrite `Sanitizer.Clean`. The properties are then
  proved about `Clean`.
- **`POST`** (`extract_route.dfy`, module `ExtractRoute`) selects the response. The function
  `ExtractRoute.Post` maps three inputs to the response the handler returns:
  - the request body;
  - the fetch outcome (an ok/not-ok status, or a thrown value);
  - the extraction outcome (found, not found, or thrown).
- **`escapeHtml` and `textToHtml`** (`page_text.dfy`, module `PageText`) are the pure string
  transforms behind pasted text.

`dom.dfy` (module `Dom`) holds the node tree and the DOM operations. Node kinds follow the
`nodeType` values of the DOM Standard, section 4.4 "Interface Node". Trees are values. A node's
position in its parent's child list stands for its object identity.

**Unwrapped children are not visited.** The walk iterates over a snapshot of the child list taken
before the loop (app/api/extract/route.ts:51). An unwrap splices the element's children into the
live list in its place (route.ts:73-76); they are not in the snapshot, so they are never
classified, stripped or cleaned. `<div><img src=i><p>Hello <b style=x>world</b></p></div>`
therefore comes out as `<img src="i"><p>Hello <b style="x">world</b></p>`: the image and the
`style` attribute survive. The model follows the code:
- `ExtractRoute.UnwrappedArticleExample` proves that output for that article. It also proves that
  the output `[img, p]` is not safe and that cleaning it again changes it.
- `Sanitizer.UnwrappedChildrenNotRevisited` proves the same for the smaller input
  `<div><img src=i></div>`: the output is the untouched image, which is not safe, and a second pass
  removes it.
- The allow-list closure and idempotence are proved only where they hold: for trees whose every
  element is allowed or blocked.

## Model

| member | source | states |
|---|---|---|
| `Dom.NodeType` | app/api/extract/route.ts:53-78 | a node reports `nodeType` 1 exactly when it is an element and 3 exactly when it is a text node |
| `Dom.ToLowerCase` | app/api/extract/route.ts:56 | the lower-cased tag has the same length, maps each letter to its lower case and holds no upper-case ASCII letter |
| `Dom.FirstIndex` | app/api/extract/route.ts:66 | the index of the first attribute with the given name: it has that name and no earlier attribute does |
| `Dom.RemoveAttribute` | app/api/extract/route.ts:66 | removes exactly the first attribute with the given name and keeps the others, in order; an absent name changes nothing |
| `Dom.RemoveAttributeShrinks` | app/api/extract/route.ts:65-66 | removing a present name leaves one attribute fewer, all of them original ones, so the loop makes progress |
| `Dom.RemoveChild` | app/api/extract/route.ts:60 | the child at the position leaves the list; the children before it keep their places and those after it move up by one |
| `Dom.MoveFirstChildBefore` | app/api/extract/route.ts:74 | the element's first child is inserted just before it; the element keeps its tag, its attributes and its other children; the rest of the list is unchanged and shifted by one |
| `Sanitizer.CleanChild` | app/api/extract/route.ts:52-81 | the contribution of one child of the snapshot to the new child list: itself for text, nothing for other non-elements and blocked tags, the bare element with its children cleaned for allowed tags, its own children for any other element; each case is stated by the lemmas `TextKept` to `OtherTagUnwrapped` |
| `Sanitizer.Clean` | app/api/extract/route.ts:50-83 | the new child list as a value: the children's contributions in order; `CleanNode` is proved to compute it and `CleanAppend` states that it keeps sibling order |
| `Sanitizer.RemoveAllAttributes` | app/api/extract/route.ts:65-67 | the `removeAttribute(attributes[0].name)` loop ends with no attributes left |
| `Sanitizer.Unwrap` | app/api/extract/route.ts:72-76 | moving the element's first child before it until it has none, then removing it, leaves the element's children in its place, in order, and nothing else changed |
| `Sanitizer.CleanChildAt` | app/api/extract/route.ts:52-81 | one pass of the loop replaces the snapshot child, at its live position, by exactly its contribution and moves past that contribution |
| `Sanitizer.CleanNode` | app/api/extract/route.ts:50-83 | the walk over the snapshot of the child list, done step by step, leaves exactly `Clean(childNodes)` as the new child list |
| `Sanitizer.CleanAppend` | app/api/extract/route.ts:51-52 | the new child list is the in-order concatenation of the children's contributions, so sibling order is kept |
| `Sanitizer.TextKept` | app/api/extract/route.ts:78 | a text child stays verbatim at its place |
| `Sanitizer.NonTextRemoved` | app/api/extract/route.ts:78-81 | a child that is neither element nor text is removed |
| `Sanitizer.RemovedTagDropsSubtree` | app/api/extract/route.ts:56-62 | a child whose lower-cased tag is one of the twelve blocked tags is removed with its whole subtree |
| `Sanitizer.AllowedTagKeptBare` | app/api/extract/route.ts:43-48 | a child whose lower-cased tag is in the allow-list stays at its place with its tag, no attributes, and its own children cleaned |
| `Sanitizer.OtherTagUnwrapped` | app/api/extract/route.ts:72-77 | any other element is replaced by its own children, in order and unchanged |
| `Sanitizer.TagSetsDisjoint` | app/api/extract/route.ts:43-59 | no tag is both allowed and blocked |
| `Sanitizer.CleanOfClassifiedIsSafe` | app/api/extract/route.ts:39-83 | if every element of the tree is allowed or blocked, the output holds only text and attribute-free allowed elements |
| `Sanitizer.SafeIsFixedPoint` | app/api/extract/route.ts:50-83 | a tree of text and attribute-free allowed elements is left unchanged |
| `Sanitizer.CleanIdempotentWhenClassified` | app/api/extract/route.ts:50-83 | in that restricted case, cleaning the output again changes nothing |
| `Sanitizer.UnwrappedChildrenNotRevisited` | app/api/extract/route.ts:72-77 | `<div><img src=i></div>` comes out as the untouched image, which is not safe and which a second pass removes |
| `Sanitizer.BlockedInsideAllowedExample` | app/api/extract/route.ts:56-70 | `<p>a<img src=x>b</p>` comes out as `<p>ab</p>` |
| `ExtractRoute.Truthy` | app/api/extract/route.ts:8 | JavaScript truthiness of a parsed JSON value: false only for `undefined`, `null`, `false`, zero and the empty string |
| `ExtractRoute.UrlRejected` | app/api/extract/route.ts:8 | the guard that rejects a falsy url or one whose `typeof` is not `"string"`, over JavaScript truthiness; `UrlAcceptedIffNonEmptyString` states what it lets through |
| `ExtractRoute.UrlAcceptedIffNonEmptyString` | app/api/extract/route.ts:8 | the guard on a falsy or non-string url lets through exactly the non-empty strings |
| `ExtractRoute.Decimal` | app/api/extract/route.ts:22 | the status renders as a non-empty string of decimal digits without a leading zero |
| `ExtractRoute.DecimalRoundTrip` | app/api/extract/route.ts:22 | reading the rendered status back as a decimal number gives the status |
| `ExtractRoute.Ok` | app/api/extract/route.ts:20 | `res.ok`: the status lies in 200..299 |
| `ExtractRoute.FetchFailedMessage` | app/api/extract/route.ts:22 | the message "Failed to fetch URL (HTTP <status>)." with the status in decimal; `FetchFailedMessageNamesStatus` states that it names the status |
| `ExtractRoute.FetchFailedMessageNamesStatus` | app/api/extract/route.ts:20-25 | two statuses never give the same "Failed to fetch URL" message |
| `ExtractRoute.ThrownMessage` | app/api/extract/route.ts:93 | the message of a thrown `Error`, or "Unknown error" for any other thrown value; `ThrownAnswered` states the resulting answer |
| `ExtractRoute.ProcessFailed` | app/api/extract/route.ts:93-96 | the 500 answer "Failed to process URL: " followed by the thrown value's message; `ThrownAnswered` states when it is given |
| `ExtractRoute.Post` | app/api/extract/route.ts:5-99 | the handler escapes unhandled exactly when the body is not a non-null JSON value; every answer has status 200, 400 or 500, and status 200 exactly when it carries an article |
| `ExtractRoute.RejectedUrlAnsweredBeforeFetch` | app/api/extract/route.ts:8-10 | a rejected url gets 400 "URL is required." whatever the fetch and the extractor would have done |
| `ExtractRoute.NotOkStatusAnswered` | app/api/extract/route.ts:20-25 | a status outside 200..299 gets 400 "Failed to fetch URL (HTTP <status>)." whatever the extractor would have done |
| `ExtractRoute.NotFoundAnswered` | app/api/extract/route.ts:32-37 | no article after an ok fetch gets 400 "Could not extract article content from this URL." |
| `ExtractRoute.ThrownAnswered` | app/api/extract/route.ts:92-97 | a value thrown by the fetch or the extraction gets 500 "Failed to process URL: " followed by its message, or "Unknown error" for a non-Error |
| `ExtractRoute.SuccessExactly` | app/api/extract/route.ts:88-91 | status 200 happens exactly for a non-empty string url, an ok status and a found article, and then carries the article's title and its cleaned content |
| `ExtractRoute.NotFoundStatusExample` | app/api/extract/route.ts:20-25 | a 404 gets 400 "Failed to fetch URL (HTTP 404)." |
| `ExtractRoute.UnwrappedArticleExample` | app/api/extract/route.ts:40-91 | the article `<div><img src=i><p>Hello <b style=x>world</b></p></div>` is answered with its image and its attributes intact, and that answer is not safe and is changed by a second cleaning |
| `PageText.ReplaceAll` | app/page.tsx:30-33 | a global one-character replace leaves a string without the character unchanged, adds only characters of the replacement, and removes the character when the replacement lacks it |
| `PageText.ReplaceAllAppend` | app/page.tsx:30-33 | a global replace distributes over concatenation |
| `PageText.EscapeHtml` | app/page.tsx:28-34 | the escaped string holds no `<`, `>` or `"` |
| `PageText.EscapeEach` | app/page.tsx:28-34 | the per-character escape is no shorter than its input and adds only entity characters |
| `PageText.EscapeHtmlIsPerCharacter` | app/page.tsx:29-33 | because `&` goes first, the chain of replacements is the per-character map `&`→`&amp;`, `<`→`&lt;`, `>`→`&gt;`, `"`→`&quot;`, every other character (`'` included) unchanged |
| `PageText.EscapeHtmlIsSafe` | app/page.tsx:29-33 | the output holds no `<`, `>` or `"`, and every `&` in it begins `&amp;`, `&lt;`, `&gt;` or `&quot;` |
| `PageText.EscapeHtmlIdentity` | app/page.tsx:29-33 | a string with none of `& < > "` is left as it is |
| `PageText.Unescape` | app/page.tsx:29-33 | the reference decoder of the four entities, scanning left to right; `UnescapeEscapeHtml` states that it inverts `escapeHtml` |
| `PageText.UnescapeEscapeHtml` | app/page.tsx:29-33 | decoding the four entities recovers the input |
| `PageText.TrimStartSpec` | app/page.tsx:21 | the leading part removed by `trim` is white space and what is left does not start with white space |
| `PageText.TrimEndSpec` | app/page.tsx:21 | the trailing part removed by `trim` is white space and what is left does not end with white space |
| `PageText.Trim` | app/page.tsx:21-24 | `String.prototype.trim` as white space removed from the start and then from the end; `TrimIsInnerPart` and `TrimEmptyIffAllWhiteSpace` state what it yields |
| `PageText.TrimIsInnerPart` | app/page.tsx:21 | `trim` yields a contiguous part of the string with only white space around it, and it neither starts nor ends with white space |
| `PageText.TrimEmptyIffAllWhiteSpace` | app/page.tsx:21 | a line is dropped by the filter exactly when all its characters are white space |
| `PageText.Split` | app/page.tsx:21 | splitting gives at least one piece and no piece holds the separator |
| `PageText.Join` | app/page.tsx:24 | `Array.prototype.join`: the pieces with the separator between neighbours; `JoinSplit` and `SplitJoin` relate it to `Split` |
| `PageText.JoinSplit` | app/page.tsx:21 | joining the pieces with the separator gives back the string |
| `PageText.SplitJoin` | app/page.tsx:24 | splitting a join of separator-free pieces gives back the pieces |
| `PageText.KeepNonBlank` | app/page.tsx:21 | `.filter((l) => l.trim())`, keeping the lines whose trimmed form is non-empty; its length never exceeds the input's |
| `PageText.KeepNonBlankMembers` | app/page.tsx:21 | the kept lines are exactly the lines of the input that are not blank after trimming |
| `PageText.KeepNonBlankAppend` | app/page.tsx:21 | filtering a concatenation is the concatenation of the filtered parts, so the kept lines keep their input order and number |
| `PageText.FirstNonBlank` | app/page.tsx:21-22 | gives the index of the first non-blank line: every earlier line is blank |
| `PageText.TitleOf` | app/page.tsx:22 | the first kept line when it is non-empty, else "Untitled"; `TitleIsFirstNonBlankLine` states the result |
| `PageText.Paragraph` | app/page.tsx:24 | one kept line as `<p>`, its trimmed and escaped text, `</p>`; `ParagraphShape` states its shape |
| `PageText.ContentOf` | app/page.tsx:23-24 | the paragraphs of the kept lines after the first, joined with line feeds; `ContentIsParagraphs` states the result |
| `PageText.TextToHtml` | app/page.tsx:20-26 | `textToHtml(raw)`: the title from the kept lines and the content from the lines after the first; `TitleIsFirstNonBlankLine` and `ContentIsParagraphs` state what each is |
| `PageText.TitleIsFirstNonBlankLine` | app/page.tsx:21-22 | the title is the first non-blank line exactly as split (not trimmed, not escaped), or "Untitled" when every line is blank |
| `PageText.ParagraphShape` | app/page.tsx:24 | a kept line becomes `<p>` + body + `</p>`, where the body is non-empty, free of `<`, `>`, `"` and line feeds, and decodes to the trimmed line |
| `PageText.ContentIsParagraphs` | app/page.tsx:23-24 | the content is empty exactly when at most one line is kept; otherwise splitting it at line feeds gives one paragraph per kept line after the first, in order; every `<` in it opens a `<p>` or a `</p>` |

## Left out

- The outbound fetch, its User-Agent header and `res.text()` (app/api/extract/route.ts:13-18, 27) are network I/O. The fetch outcome is an input of `ExtractRoute.Post`.
- JSDOM parsing and the `body.innerHTML` serialisation (app/api/extract/route.ts:28, 40-41, 86) belong to a foreign library. The article's content is given as the node tree JSDOM would build, and the answer carries the cleaned tree. No claim is made about the serialised bytes.
- The Readability heuristic (app/api/extract/route.ts:29-30) is a foreign library. It is an oracle outcome: found, not found, or thrown.
- Values thrown by `res.text()` or by the parsers appear only as the `ExtractThrew` input.
- `await req.json()` sits outside the `try` block (app/api/extract/route.ts:6). A non-JSON body, and a `null` body whose destructuring throws, give the outcome `Unhandled`. The framework's own reply to that case is not modelled.
- JSON numbers are doubles, modelled as reals. `JSON.parse` can also give ±Infinity (for `1e400` and `-1e400`) and rounds tiny values such as `1e-400` to 0; `Number(real)` does not represent those values. The url guard rejects every number, finite or not, so the answer is the same.
- Status codes are non-negative integers. Their decimal rendering is modelled for those only.
- Object identity in the DOM is modelled by position in the child list, and trees are values. Aliasing of node objects is not captured. The route never shares a node between two places, so nothing depends on it.
- Dom.ToLowerCase: maps only the ASCII letters. JavaScript's full Unicode case mapping can turn a few non-ASCII letters into ASCII ones (U+212A KELVIN SIGN becomes `k`), which is not modelled.
- Dom.RemoveAttribute: compares names exactly. The DOM first lower-cases the argument for HTML elements. Names the HTML parser produces on HTML elements are already lower case, which makes the two agree.
- Allow-list closure and idempotence are not stated for arbitrary trees, because the code does not achieve them (see `Sanitizer.UnwrappedChildrenNotRevisited`). They are proved for trees whose elements are all allowed or blocked.
- The React UI, state setters, tab switching, `handleSubmit` (including its `text.trim()` before `textToHtml`), `window.print` and the JSX (app/page.tsx:5-18, 36-161) are presentation and network code.
- app/layout.tsx holds only a metadata constant and layout markup, with no logic.
- `trim`'s white space is the ECMAScript set written out: the WhiteSpace code points (tab, vertical tab, form feed, space, no-break space, byte order mark and the Unicode space separators) and the LineTerminator code points. Later changes to Unicode's space separators are not tracked.
- JavaScript strings are sequences of UTF-16 code units, while the model's strings are sequences of Unicode scalar values, so a lone surrogate cannot be represented. Every character the text functions test (`&`, `<`, `>`, `"`, the line feed and the white-space set) is a non-surrogate character of the Basic Multilingual Plane, so well-formed text is handled the same.
