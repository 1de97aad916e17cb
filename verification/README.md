# PDF IA API in Dafny

A model of the two working endpoints of the "PDF IA API" FastAPI service
(`app.py`):

- `POST /extract` (`extract_pdf`) decodes a base64 PDF and writes it to a
  temporary file. It then reads each page's text with pdfplumber, joins the
  pages in order and returns the stripped text. Any failure becomes HTTP 400
  with the detail `Erro ao processar PDF: <exception>`.
- `POST /answer` (`generate_answers`) first strips the text. It then needs a
  non-empty `GEMINI_API_KEY`. Only then does it clean the stripped text:
  - every match of `<[^>]+>` becomes a space;
  - the glyphs U+2714 and U+26A0 are removed;
  - whitespace runs become one space, and the result is stripped.

  It wraps the cleaned text in a `generateContent` request body behind a
  fixed Portuguese instruction, posts it, and maps the reply:
  - a 4xx/5xx status is passed on as `Erro na API Gemini: <body>`;
  - `candidates[0].content.parts[0].text` becomes the single answer;
  - any other failure is HTTP 500 with the detail `Erro ao gerar respostas: <exception>`.

Modules:

| module | file | what it holds |
|---|---|---|
| `Wrappers` | `wrappers.dfy` | `Option`, `Outcome` (a value or an HTTP error `status`/`detail`), `StartsWith`, two sequence facts |
| `Text` | `text.dfy` | Python's whitespace class, `str.strip()`, glyph removal, `re.sub(r"\s+", " ", ...)`, and their properties |
| `Tags` | `tags.dfy` | `re.sub(r"<[^>]+>", " ", ...)` as the regex engine's left-to-right scan, and what it keeps and removes |
| `Cleaning` | `clean.dfy` | the whole cleaning pipeline, its characterisation, idempotence and worked examples |
| `Json` | `json.dfy` | JSON values, Python-style subscripting along a path, and the value built along a path to hold a leaf there |
| `Extract` | `extract.dfy` | the `/extract` handler, with decoding and the PDF library as parameters |
| `Answer` | `answer.dfy` | the request body and its inverse, the status and result mapping, and the `/answer` handler |

The central facts:
- The cleaned text is clean: it has no glyph, no match of `<[^>]+>`, no
  whitespace at either end, no whitespace other than `' '`, and no two
  adjacent spaces.
- Cleaning changes a string exactly when the string is not already clean, and
  cleaning twice is the same as cleaning once.
- Nothing else changes: take the cleaned text and drop its spaces. What is left
  is exactly the input's characters that are neither whitespace nor a glyph
  and are not inside a tag, in their original order.
- The prompt read back out of the request body is exactly the cleaned text.
- When the API key is set and non-empty, the handler succeeds exactly when it
  got a non-error response whose body has a value at the answer path, and it
  then returns that value alone.

## Model

| member | source | states |
|---|---|---|
| `Text.LStrip` | app.py:43 | the result is a suffix of the input, what it dropped is all whitespace, and it does not start with whitespace |
| `Text.RStrip` | app.py:43 | the result is a prefix of the input, what it dropped is all whitespace, and it does not end with whitespace |
| `Text.Strip` | app.py:43 | the result is no longer than the input and has no whitespace at either end |
| `Text.StripBounds` | app.py:43 | `strip()` returns the slice `s[p..q]` and everything outside that slice is whitespace |
| `Text.StripStripped` | app.py:43 | stripping a string with no whitespace at either end leaves it unchanged |
| `Text.StripAllSpace` | app.py:34 | stripping an all-whitespace string gives the empty string |
| `Text.DeleteChar` | app.py:55 | `replace(c, "")` leaves no `c`, keeps every other character as many times as it occurs, and changes nothing when there is no `c` |
| `Text.DeleteCharAppend` | app.py:55 | deletion works piece by piece, so the kept characters stay in order and nothing around a deleted one is joined or moved |
| `Text.RemoveGlyphsAppend` | app.py:55 | removing the glyphs works piece by piece |
| `Text.RemoveGlyphsOne` | app.py:55 | a single character is removed exactly when it is one of the two glyphs; whitespace and every other character stay |
| `Text.RemoveGlyphs` | app.py:55 | after both `replace` calls there is no glyph, and the string is unchanged exactly when it held none |
| `Text.VisibleRemoveGlyphs` | app.py:55 | deleting the glyphs keeps every visible character, in order |
| `Text.Collapse` | app.py:56 | `re.sub(r"\s+", " ", s)` never lengthens the string and starts with `' '` exactly when the input starts with whitespace |
| `Text.CollapseIsNormal` | app.py:56 | after the substitution the only whitespace is `' '` and no two spaces are adjacent |
| `Text.CollapseNonSpace` | app.py:56 | the substitution keeps every non-whitespace character, in order |
| `Text.CollapseNormal` | app.py:56 | the substitution changes nothing in text whose whitespace is already normal |
| `Text.CollapseSplit` | app.py:56 | the substitution works piece by piece when the first piece ends with a non-whitespace character |
| `Text.CollapseRun` | app.py:56 | a whitespace run in front of non-whitespace becomes one space |
| `Text.VisibleCollapse` | app.py:56 | the substitution keeps every visible character, in order |
| `Text.VisibleStrip` | app.py:56 | stripping keeps every visible character, in order |
| `Text.StripKeepsNormal` | app.py:56 | stripping keeps text glyph-free and its whitespace normal |
| `Tags.TagEnd` | app.py:55 | a match of `<[^>]+>` starts at `i` exactly when one can, and it ends at the first `>` after `i + 1` |
| `Tags.ReplaceFrom` | app.py:55 | the left-to-right scan from position `i`: a match starting there becomes one space and the scan resumes after it, otherwise the character is copied; the output is never longer than what is left of the input |
| `Tags.ReplaceTags` | app.py:55 | the result has no match of `<[^>]+>` left anywhere |
| `Tags.ReplaceFromTagFree` | app.py:55 | from any position on, the scan leaves every `<` last, followed by `>`, or with no `>` after it |
| `Tags.ReplaceFromTag` | app.py:55 | a match is replaced by exactly one space and the scan resumes after its `>` |
| `Tags.ReplaceFromPlain` | app.py:55 | characters up to the next `<` are copied unchanged |
| `Tags.ReplaceTagsFixpoint` | app.py:55 | the substitution leaves a string unchanged exactly when it contains no match |
| `Tags.ReplaceTagsKeeps` | app.py:55 | the visible characters of the result are exactly the input's visible characters outside every match, in order |
| `Tags.KeptStrip` | app.py:43 | stripping first does not change which characters survive tag removal |
| `Tags.StripKeepsNoTag` | app.py:56 | stripping tag-free text keeps it tag-free |
| `Cleaning.Clean` | app.py:43-56 | strip, every match of `<[^>]+>` to one space, the two glyphs deleted, each whitespace run to one space, strip again |
| `Cleaning.AfterTags` | app.py:55-56 | glyph removal, whitespace collapsing and stripping make tag-free text clean |
| `Cleaning.CleanIsClean` | app.py:43-56 | the cleaned text has no glyph, no match, no whitespace at either end, only `' '` as whitespace and no double space |
| `Cleaning.CleanFixpoint` | app.py:43-56 | cleaning leaves a string unchanged exactly when it is already clean |
| `Cleaning.CleanIdempotent` | app.py:43-56 | cleaning twice is cleaning once |
| `Cleaning.CleanKeeps` | app.py:43-56 | the cleaned text without its spaces is exactly the input's visible characters outside every match, in order |
| `Cleaning.CleanAfterTags` | app.py:55-56 | when tag replacement on stripped text already gives clean text, the later steps change nothing |
| `Cleaning.CleanJoin` | app.py:56 | a whitespace run between a word and the rest becomes one space |
| `Cleaning.CleanSpaced` | app.py:56 | words separated by any non-empty whitespace runs come out joined by single spaces |
| `Cleaning.CleanTagBecomesSpace` | app.py:55 | a tag between two visible characters becomes one space |
| `Cleaning.CleanTagExample` | app.py:55 | `"a<b>c"` cleans to `"a c"` |
| `Cleaning.CleanEmptyAngles` | app.py:55 | `"<>"` is not a match and survives cleaning |
| `Cleaning.CleanMarkupPair` | app.py:55-56 | `"<b>" + a + "</b> " + b` cleans to `a + " " + b`: the space left by the opening tag is stripped and the double space is collapsed |
| `Cleaning.CleanMarkupExample` | app.py:55-56 | `"<b>Hello</b> World"` cleans to `"Hello World"` |
| `Cleaning.CleanWhitespaceExample` | app.py:56 | `"Multiple   spaces\n\tand tabs"` cleans to `"Multiple spaces and tabs"` |
| `Json.Subscript` | app.py:74 | one Python subscript: a key of a dict, an index of a list, or an index of a string giving a one-character string; anything else raises |
| `Json.Follow` | app.py:74 | the chain of subscripts applied left to right, failing as soon as one raises |
| `Json.FollowNest` | app.py:58-68 | following a path through the one-key objects and arrays built along it reaches the leaf |
| `Extract.ConcatPagesAppend` | app.py:27-30 | the text of two runs of pages is the text of the first followed by the text of the second |
| `Extract.PageInPlace` | app.py:27-30 | page `i`'s text sits between the text of the pages before it and the text of the pages after it |
| `Extract.JoinPages` | app.py:27-30 | the accumulating loop yields the pages' texts in order, a page without text counting as `""` |
| `Extract.ExtractPdf` | app.py:20-37 | a decoding or reading failure is a 400 with the fixed prefix and the failure's message; otherwise the result is the stripped page text; the temporary file is written once decoding succeeds and is left behind exactly when the handler then fails |
| `Extract.BlankPdf` | app.py:27-34 | a PDF whose pages have only whitespace or no text extracts to `""` |
| `Answer.Payload` | app.py:58-68 | the request body: `contents` holding one content whose `parts` hold one part whose `text` is the fixed instruction followed by the cleaned text |
| `Answer.Headers` | app.py:49-52 | the JSON content type and the API key under `x-goog-api-key` |
| `Answer.PromptText` | app.py:58-68 | whatever is read back sits at `contents[0].parts[0].text` behind the fixed instruction |
| `Answer.PayloadShape` | app.py:58-68 | the request body is one-key objects and one-element arrays along `contents[0].parts[0].text`, holding the instruction followed by the cleaned text |
| `Answer.PayloadRoundTrip` | app.py:58-68 | reading the prompt back out of the request body gives the cleaned text that was put in |
| `Answer.Respond` | app.py:70-81 | a success is one answer taken from `candidates[0].content.parts[0].text` of a parsed, non-error response; a 4xx/5xx response is passed on with its status and the API prefix before its body text; every other failure is a 500 with the handler prefix |
| `Answer.GenerateAnswers` | app.py:40-81 | a request is sent exactly when the key is set and non-empty, and it is the fixed endpoint, the key header and the body of the cleaned text; without a key the reply is the doubly prefixed 500; otherwise success and errors as for `Respond` |
| `Answer.MissingKey` | app.py:44-46 | without a key nothing is sent and the reply is a 500 whose detail is the handler prefix before `500: GEMINI_API_KEY não configurada`, the same whatever the upstream would have said |
| `Answer.PromptIsClean` | app.py:55-63 | the prompt that is sent is the cleaned text, which is clean and keeps every visible character outside the tags |
| `Answer.PreCleaned` | app.py:43-56 | cleaning the text beforehand does not change the handler's reply |
| `Answer.UpstreamError` | app.py:70-79 | a 4xx/5xx upstream response is passed on with its own status and body text |
| `Answer.AnswerFound` | app.py:70-76 | the handler returns `[answer]` exactly when the response is a parsed non-error one holding `answer` at the answer path |
| `Answer.WellFormedReply` | app.py:74-76 | a well-formed reply carrying `answer` yields `[answer]` for every non-error status |
| `Answer.MissingAnswer` | app.py:74-81 | a parsed non-error reply with nothing at the answer path is a 500 with the handler prefix |
| `Answer.UpstreamRaised` | app.py:70-81 | an exception from the POST itself is a 500 with the handler prefix before its message |
| `Answer.NotJsonReply` | app.py:72-81 | a non-error reply whose body is not JSON is a 500 with the handler prefix before the parse error's message |

## Left out

- The FastAPI application object, routing, request-model validation and the
  `GET /` status route (app.py:9-16, 84-86). They hold no logic beyond
  returning constants.
- Base64 decoding is the function parameter `decode` of `Extract.ExtractPdf`.
  The model does not restate the base64 alphabet, padding rules or
  `b64decode`'s lenient handling of stray characters.
- PDF parsing with pdfplumber is the function parameter `reader`. It gives
  either an exception message or, page by page, `extract_text()`'s result.
  Which text a page yields is outside the model.
- Temporary-file I/O is reduced to two flags: whether the file was written and
  whether it is left behind. A failing `write`, `NamedTemporaryFile` or
  `os.remove` is not modelled separately. Its 400 would look like the reader's.
- The HTTP call (`requests.post`, `raise_for_status`, `r.json()`) is the
  parameter `upstream`: either an exception message, or a status with a body
  text and a parsed body. Connection behaviour, timeouts and retries are
  outside the model.
- The environment lookup `os.getenv("GEMINI_API_KEY")` is the parameter
  `apiKey`.
- Answer.Respond: when the answer path is missing, the detail is only the
  prefix `Erro ao gerar respostas: `. The text of Python's `KeyError`,
  `IndexError` or `TypeError` is not modelled. For other exceptions, the
  message carried by the parameter is appended as given.
- JSON numbers are integers; floating-point numbers are not modelled. The
  handler returns the value at `text` as it is, so a reply carrying a
  floating-point number there is an answer this model cannot represent.
- Negative list indices are not modelled, because both paths use index 0.
- Answer.GenerateAnswers: the answer is any JSON value, not necessarily a
  string. The handler does not check the type of `text`, so a number or an
  object there is returned as it is.
- The missing-key error is modelled as written. The `HTTPException` raised
  for a missing key is caught by the handler's own generic `except`. The
  client therefore sees status 500 with the detail
  `Erro ao gerar respostas: 500: GEMINI_API_KEY não configurada`, not the bare
  message.
- Only 4xx and 5xx upstream statuses are passed on, as `raise_for_status`
  decides. Reading the handler as passing on every non-2xx status would be
  wrong: a 1xx or 3xx response goes on to the JSON lookup.
- The regular expressions work on Python `str`. Dafny's `char` covers only the
  Unicode scalar values, so a text holding a lone surrogate (U+D800 to
  U+DFFF) cannot be represented. Such a text can come from a `"\ud800"`
  escape in the JSON request body. The whitespace class is written out as
  Python's `str.isspace()` set. There is no Unicode normalisation.
