# Verified model of the JB Cerámica assistant handler

`functions/asistente.ts` is a Netlify function that answers visitors'
questions about a ceramics workshop.  It accepts a `POST` with a JSON body
`{ "prompt": string }`.  It downloads the public web site and reduces it to
plain text (`fetchSiteText`). It then sends a chat-completion request with
three messages: the fixed instructions, the site text under an
`EXTRACTO_WEB …` header, and the visitor's prompt.  It answers
`{ "response": … }`, or `{ "error": … }` with status 405, 400 or 500.

This project models the logic of that file in Dafny and proves what it
promises:

- `js_strings.dfy`, module `JsStrings`: JavaScript strings as sequences of
  UTF-16 code units, which is what `.length`, `.slice` and regular
  expressions without the `u` flag count.  It also holds the `\s`
  whitespace set, ASCII case folding for the `i` flag, a case-insensitive
  search, and the decimal rendering of a status code with its inverse.
- `html_text.dfy`, module `HtmlText`: the three `replace` calls that drop
  `<script>` and `<style>` blocks and tags.  Each is a left-to-right
  scanner for its one pattern.  The module proves what each pass removes,
  what it keeps, and what it leaves behind.
- `whitespace.dfy`, module `Whitespace`: `String.prototype.trim` and
  `replace(/\s+/g, " ").trim()`.  Normalised text is proved to be the
  words of the input joined by single spaces, and the proof is completed
  by a round trip.
- `site_fetcher.dfy`, module `SiteFetcher`: `fetchSiteText`.  It covers
  the truncation to `maxChars`, the `SIN_TEXTO_EXTRAÍDO` sentinel, and the
  `ERROR_AL_DESCARGAR_SITIO: …` reports for a failed download.
- `site_example.dfy`, module `SiteFetcherExample`: the page
  `<script>bad()</script><p>Hello   world</p>` cleaned to `Hello world`,
  pass by pass.
- `handler.dfy`, module `Assistant`: the default export.  The site
  download (`fetch`) and the completion API (`complete`) are function
  parameters.  The parsed request body is a datatype.  The handler returns
  the response together with the list of outbound calls it made, in
  order.

## Model

| member | source | states |
|---|---|---|
| JsStrings.FoldAscii | functions/asistente.ts:33-34 | the `i` flag folds exactly the letters `A`-`Z`, each onto its lower-case partner, and leaves every other unit unchanged; a unit folds onto a lower-case letter exactly when it is that letter or its upper-case form |
| JsStrings.IsWs | functions/asistente.ts:39 | the `\s` class, which is also the set `trim` removes at line 81: the ECMAScript WhiteSpace and LineTerminator code units; a predicate without a contract of its own |
| JsStrings.FindCI | functions/asistente.ts:33-34 | the lazy `[\s\S]*?close` stops at the first case-insensitive occurrence of `close`: a match there, none before, and None exactly when there is none anywhere |
| JsStrings.Decimal | functions/asistente.ts:29 | `${res.status}` is a nonempty run of decimal digits without a leading zero |
| JsStrings.DecimalRoundTrip | functions/asistente.ts:29 | the status can be read back from its decimal rendering |
| JsStrings.DecimalInjective | functions/asistente.ts:29 | distinct statuses are reported differently |
| HtmlText.DelimitersOfTheHandler | functions/asistente.ts:33-34 | `<script` and `<style` are nonempty and contain no space, so a replacing space never becomes part of an opening delimiter |
| HtmlText.BlockLength | functions/asistente.ts:33-34 | a block starts at the head exactly when the opening delimiter matches there and a closing one follows; its length then covers both delimiters and stays within the text |
| HtmlText.OpenWithoutClose | functions/asistente.ts:33-34 | an opening delimiter with no closing one after it does not start a block, so the lazy pattern fails there and the text is kept |
| HtmlText.RemoveBlocks | functions/asistente.ts:33-34 | a block pass never lengthens the text |
| HtmlText.RemoveBlocksClean | functions/asistente.ts:33-34 | text with no opening delimiter followed by a closing one is returned unchanged |
| HtmlText.RemoveBlocksFirst | functions/asistente.ts:33-34 | the first block, from the earliest opening delimiter to the nearest closing one after it, becomes exactly one space; the text before it is kept, and scanning resumes after it |
| HtmlText.RemoveBlocksLeavesNoBlock | functions/asistente.ts:33-34 | after the pass, no opening delimiter is followed by a closing one |
| HtmlText.RemoveBlocksIdempotent | functions/asistente.ts:33-34 | a second block pass changes nothing |
| HtmlText.IndexOfGreaterThan | functions/asistente.ts:37 | the first `>` of the text, or None when there is none |
| HtmlText.TagLength | functions/asistente.ts:37 | at a `<` followed by a unit other than `>`, the match runs to the first `>` included, or to the end of input |
| HtmlText.TagMatchUnique | functions/asistente.ts:37 | the tag match at a position is unique |
| HtmlText.StripTags | functions/asistente.ts:37 | the tag pass never lengthens the text |
| HtmlText.StripTagsClean | functions/asistente.ts:37 | text in which no tag starts is returned unchanged |
| HtmlText.StripTagsPrefix | functions/asistente.ts:37 | a prefix in which no tag starts passes through the tag pass unchanged |
| HtmlText.StripTagsFirst | functions/asistente.ts:37 | the first tag becomes exactly one space; the text before it is kept, and scanning resumes after it |
| HtmlText.StripTagsLeavesNoTag | functions/asistente.ts:37 | afterwards every `<` is immediately followed by `>` or is the last unit |
| HtmlText.StripTagsIdempotent | functions/asistente.ts:37 | a second tag pass changes nothing |
| HtmlText.StripMarkup | functions/asistente.ts:33-37 | scripts, then styles, then tags are removed; no tag is left, and the text is no longer than the page |
| Whitespace.TrimStartSuffix | functions/asistente.ts:39 | the start of `trim` drops only whitespace and keeps the rest as it was |
| Whitespace.TrimEndPrefix | functions/asistente.ts:39 | the end of `trim` keeps the beginning of the text as it was |
| Whitespace.CollapseWs | functions/asistente.ts:39 | `replace(/\s+/g, " ")`; its own contract states only that it never lengthens the text, and its meaning is given by CollapseWsRunThen, CollapseWsWordPrefix and CollapseWsFromWord |
| Whitespace.Normalize | functions/asistente.ts:39 | `replace(/\s+/g, " ").trim()`; its own contract states only that it never lengthens the text, and its meaning is given by NormalizeIsJoinOfWords and NormalizeShape |
| Whitespace.Trim | functions/asistente.ts:39 | the result is a slice of the input with only whitespace around it, and it neither starts nor ends with whitespace |
| Whitespace.TrimAround | functions/asistente.ts:39 | trimming whitespace-only margins off text with solid ends gives back exactly that text |
| Whitespace.TrimSolid | functions/asistente.ts:39 | text that neither starts nor ends with whitespace is left as it is by `trim` |
| Whitespace.TrimIdempotent | functions/asistente.ts:81 | trimming twice is trimming once |
| Whitespace.TrimEmptyIffBlank | functions/asistente.ts:81 | `trim` gives the empty string exactly when the text is all whitespace |
| Whitespace.CollapseWsRunThen | functions/asistente.ts:39 | a whitespace run before a word, or before the end, becomes one space |
| Whitespace.CollapseWsWordPrefix | functions/asistente.ts:39 | a whitespace-free prefix passes through the collapsing step unchanged |
| Whitespace.CollapseWsFromWord | functions/asistente.ts:39 | from a point with no pending whitespace, collapsing yields the words joined by single spaces, plus one space when the text ends in whitespace |
| Whitespace.WordsOfWordThen | functions/asistente.ts:39 | a word followed by whitespace-led text is the first word, then the words of that text |
| Whitespace.NormalizeIsJoinOfWords | functions/asistente.ts:39 | collapse-then-trim yields the maximal whitespace-free runs of the input, in order, separated by single spaces |
| Whitespace.WordsOfJoin | functions/asistente.ts:39 | the words of joined words are those words (round trip) |
| Whitespace.JoinNormalized | functions/asistente.ts:39 | joined words have no whitespace at either end, only plain spaces, and never two in a row |
| Whitespace.NormalizeShape | functions/asistente.ts:39 | the result of the step has no whitespace at either end, only plain spaces, and never two in a row |
| Whitespace.NormalizeIdempotent | functions/asistente.ts:39 | normalising twice is normalising once |
| SiteFetcher.Truncate | functions/asistente.ts:40 | text within `maxChars` is unchanged; longer text is its first `maxChars` units followed by ` ...[TRUNCADO]` |
| SiteFetcher.IsOk | functions/asistente.ts:29 | `res.ok`: the status is in 200..299; a predicate without a contract of its own, used by FailedStatusReported and OkStatusCleans |
| SiteFetcher.TruncateBound | functions/asistente.ts:40 | the truncated text has at most `maxChars + 14` units, and is empty only when the text was |
| SiteFetcher.OrNoText | functions/asistente.ts:41 | empty text becomes `SIN_TEXTO_EXTRAÍDO` and nonempty text is kept, so the result is never empty |
| SiteFetcher.CleanText | functions/asistente.ts:30-41 | the cleaned page is never empty |
| SiteFetcher.CleanTextCases | functions/asistente.ts:30-41 | a page with no words gives `SIN_TEXTO_EXTRAÍDO`; a short one gives its words joined by single spaces, in normalised shape; a long one gives its first `maxChars` units and the marker |
| SiteFetcher.CleanTextBound | functions/asistente.ts:40-41 | the cleaned page has at most `max(maxChars + 14, 18)` units |
| SiteFetcher.FetchSiteText | functions/asistente.ts:26-45 | the fetcher never yields the empty string, whatever the download's outcome |
| SiteFetcher.ThrownErrorReported | functions/asistente.ts:42-44 | an exception is reported as `ERROR_AL_DESCARGAR_SITIO: ` followed by its message |
| SiteFetcher.FailedStatusReported | functions/asistente.ts:29 | a non-2xx status is reported as `ERROR_AL_DESCARGAR_SITIO: ` followed by decimal digits that read back as the status |
| SiteFetcher.OkStatusCleans | functions/asistente.ts:29-41 | a 2xx response yields the cleaned body |
| SiteFetcherExample.HelloWorld | functions/asistente.ts:33-41 | `<script>bad()</script><p>Hello   world</p>` is cleaned to `Hello world` |
| Assistant.SiteMessage | functions/asistente.ts:67-68 | the second system message is the fixed header line followed by the site text, which can be recovered from it |
| Assistant.ValidPrompt | functions/asistente.ts:15 | the negation of `!prompt \|\| typeof prompt !== "string"`: the prompt is a non-empty string; a predicate without a contract of its own, used by Handle and InvalidPromptRejected |
| Assistant.BuildRequest | functions/asistente.ts:70-79 | model `openai/gpt-oss-20b`, temperature 0.2, 512 tokens; the instructions, then the site message, both as system messages, then the prompt as the only user message, last |
| Assistant.BuildRequestInjective | functions/asistente.ts:67-79 | the request determines the instructions, the site text and the prompt it was built from |
| Assistant.FirstContent | functions/asistente.ts:81 | `completion.choices[0]?.message?.content`: nothing without a first choice, else that choice's content; a function without a contract of its own, whose effect ReplyTextCases and OnlyFirstChoiceRead state |
| Assistant.ReplyText | functions/asistente.ts:81-82 | the reply is never empty and neither starts nor ends with whitespace |
| Assistant.ReplyTextCases | functions/asistente.ts:81-82 | no first choice, no content, or all-whitespace content gives the placeholder; otherwise the reply is the content trimmed, a slice of it with only whitespace around it |
| Assistant.ReplyTextTrimmed | functions/asistente.ts:81-82 | the reply is already trimmed |
| Assistant.OnlyFirstChoiceRead | functions/asistente.ts:81 | choices after the first make no difference |
| Assistant.SiteText | functions/asistente.ts:47 | the site text handed to the model is never empty, and after a successful download it has at most 20000 + 14 units |
| Assistant.Handle | functions/asistente.ts:4-103 | statuses are 200, 400, 405 or 500. 405 exactly for a method other than `POST`; 400 exactly for a POST whose parsed prompt is missing, empty or not a string. 200 carries a nonempty reply; 500 exactly the `error`/`details` body with `Error al procesar la consulta`. Outbound calls are made exactly for a valid prompt |
| Assistant.ValidRequestCalls | functions/asistente.ts:47-90 | a valid request fetches the site once and then calls the model once with the built request; the completion's failure or answer decides 500 or 200 |
| Assistant.MethodCheckedFirst | functions/asistente.ts:5-10 | any method but `POST` gets 405 `Método no permitido` with no outbound call, whatever the body, site and model |
| Assistant.InvalidPromptRejected | functions/asistente.ts:13-20 | a prompt that is missing, empty or not a string gets 400 `Falta el campo 'prompt'` with no outbound call, whatever the site and model |
| Assistant.ServerErrorCauses | functions/asistente.ts:12-102 | 500 is returned exactly when the body cannot be read, is JSON `null`, or the completion call fails; a site download failure is never a cause. For a body that cannot be read or is `null`, the answer carries `Error al procesar la consulta` and that error's message as `details` |
| Assistant.SiteFailureStillAnswers | functions/asistente.ts:26-90 | with a non-2xx site download and an answering model, the answer is 200, and the model is shown the download error with its status in place of the site text |
| Assistant.HolaExample | functions/asistente.ts:81-90 | a model answering `Hola` gives status 200 and `{"response": "Hola"}` |
| Assistant.NoChoicesPlaceholder | functions/asistente.ts:81-90 | a model returning no choices gives status 200 and the placeholder reply |

## Left out

- The HTTP GET and `res.text()` are not modelled. The handler receives their outcome, a response status with its text or an error message, from the `fetch` parameter.
- The completion client is not modelled: its construction with the API key from the environment, its base URL, and the network call. The handler receives the outcome from the `complete` parameter, either an error message or the list of choices. A failure to build the client counts as a failed completion, since both happen inside the same `try`. In that case the handler's list of outbound calls still records a model call, although the source never makes one.
- `req.json()` and the destructuring of `prompt` are not modelled as a JSON parser. The `Body` datatype gives their outcome: a read or parse error, JSON `null` (destructuring then throws), or the `prompt` property as absent, not a string, or a string.
- `Response` objects, the `Content-Type: application/json` header and `JSON.stringify` are not modelled. A response is a status and one of three body shapes.
- `console.error` logging is not modelled.
- The wording of exception messages (`String(e.message || e)`, `error.message || String(error)`) is not modelled. Each error arrives as the string the source would produce.
- The `await` sequencing is not modelled. The order of the two outbound calls is kept as the handler's list of calls.
- The text of the system prompt is not modelled. The handler takes it as a parameter, so every property holds for any wording.
- `temperature: 0.2` is a Dafny `real`. The binary floating-point value the client sends is not modelled.
- A choice whose `content` is neither a string nor null/undefined is not modelled. `.trim()` would then throw and the answer would be 500. A completion without a `choices` array, which would also throw, is not modelled either. The completion API's types allow neither.
- Strings are UTF-16 code units. Every literal of the handler lies in the Basic Multilingual Plane. `JsStrings.Lit` would map a character outside it to U+FFFD instead of a surrogate pair.
- The `i` flag is modelled as ASCII folding. This is exact for the four delimiters involved: without the `u` flag no non-ASCII unit folds onto an ASCII letter.
- The placeholder constant `Assistant.NoReply` is written as two joined literals. The text is the same.

## Behaviour that is easy to misread

The model follows the code of `functions/asistente.ts` in these places:

- The messages and sentinels are the Spanish strings of the code. Examples are `Método no permitido`, `ERROR_AL_DESCARGAR_SITIO: ` and `SIN_TEXTO_EXTRAÍDO`.
- An empty-string `prompt` is rejected with 400, like a missing one, because the check is `!prompt`.
- A body that is JSON `null` gives 500, not 400. Destructuring `{ prompt }` from `null` throws inside the `try`.
- A body that is valid JSON but not an object, such as an array, a number or a string, gives 400. Destructuring it yields an undefined `prompt`.
- `</>` counts as a tag: `/` is itself a character other than `>`, so the whole of `</>` is replaced by one space. A `<` directly followed by `>` or at the very end of the text is kept.
