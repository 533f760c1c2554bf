# Assistalyst portal: document and search processing, modelled in Dafny

Assistalyst is a wizard in the browser, backed by five serverless functions:

- **MiniPlex** asks a chat model a question. It links the model's citation marks `[k]` to the urls the answer mentions and reads up to three related questions off the answer.
- **Search** asks a search provider. It links the first mark of each reference.
- **Document** summarises pasted text, using a prompt chosen from the summary type and size.
- **URL** fetches a page and normalises its whitespace.
- **OCR** validates an uploaded image and extracts its text.

The browser hook `useDocumentProcessing` holds the wizard state and keeps the form. Its submit handler calls the function for the current step, shapes the result (a bullet summary becomes an HTML list, an OCR fence is stripped), stores it and shows it.

The model keeps the string and sequence logic of these pieces exactly. Everything the pieces obtain from outside is a parameter of the model: the model's or provider's reply, the page, the parser, the storage, the database write, the serverless calls. The model is organised in these modules:

- `Text`: JavaScript's `\s`, `trim`, `split`, `join` and decimal numbers.
- `Types`: the form, steps, citations and replies.
- `DomainFilter`: the search domains derived from `webSource` and `customWebs`.
- `CitationRegex`: the MiniPlex citation pattern as a left-to-right scanner with its lazy and greedy parts.
- `Marks`: the `String.prototype.replace` loops that turn marks into links, with `$` patterns expanded, and `Linkify`, an independent one-pass reading of the result.
- `Miniplex`, `Search`, `Summary`, `PageText`, `Ocr`: the handlers.
- `RelatedQuestions`: the related questions MiniPlex reads off the answer.
- `Formatting`: bullet lists and fence stripping in the browser.
- `DocumentProcessing`: the hook.

The central results are:

- MiniPlex's replacement loop equals `Linkify` on the original text. Every `[k]` with 1 <= k <= |citations| becomes the k-th link in one pass, and other marks stay as they are. Search's loop equals the variant that links only the first occurrence.
- The extracted citations are the first occurrence of each url, in order, and never repeat a url.
- Whitespace normalisation is idempotent, single-spaced and keeps every other character in order.
- A bullet summary becomes one trimmed item per line, and already clean lines come back as the items.
- A fenced OCR text comes back without its fence.
- The submit handler always clears its flags and reports exactly the message its step threw.

## Model

| member | source | states |
|---|---|---|
| Text.Trim | supabase/functions/process-miniplex/index.ts:39 | `trim` leaves no whitespace at either end, only characters of the input, and is empty exactly when the input is all whitespace |
| Text.Split | supabase/functions/process-miniplex/index.ts:39 | `split(',')` yields one piece more than there are separators, and no piece holds the separator |
| Text.JoinSplit | supabase/functions/process-miniplex/index.ts:98 | splitting loses nothing: joining the pieces with the separator gives back the text |
| Text.SplitJoin | supabase/functions/process-miniplex/index.ts:39 | pieces without the separator, once joined, are split back into exactly those pieces |
| Text.DecimalRoundTrip | supabase/functions/process-search/index.ts:79 | the decimal digits written for an index read back as that index, so different indexes give different numbers |
| DomainFilter.Domains | supabase/functions/process-miniplex/index.ts:33-40 | `boe` gives exactly `boe.es` and `borne` gives exactly `borne.gov.uk`; `custom` with non-empty sites gives one trimmed, comma-free entry per comma-separated piece (commas plus one); anything else gives no domains |
| DomainFilter.CustomDomainsRoundTrip | supabase/functions/process-search/index.ts:38-39 | a comma-separated list of trimmed domains is read back as exactly that list |
| DomainFilter.FormChoiceDomains | supabase/functions/process-search/index.ts:33-40 | the form's `all` choice, and `custom` with no sites, restrict nothing; `custom` with sites restricts to at least one domain |
| Search.FilterParam | supabase/functions/process-search/index.ts:66 | the request omits `search_domain_filter` exactly when the domain list is empty, and otherwise sends the list |
| Search.RequestFilterCases | supabase/functions/process-search/index.ts:33-66 | no filter is sent for `all` or for `custom` without sites; `boe` and `borne` send their one domain; a list of clean domains is sent as that list |
| Search.ReferencesOf | supabase/functions/process-search/index.ts:77 | references come from `search_results` when present, else from `references`, else none |
| Search.TitleOf | supabase/functions/process-search/index.ts:79 | the title is the reference's title if non-empty, else its text if non-empty, else `Reference ` and the 1-based position; it is never empty |
| Search.CitationsOf | supabase/functions/process-search/index.ts:78-81 | one citation per reference, in order, with the fallback title and the url or `''` |
| Search.UntitledNamedByPosition | supabase/functions/process-search/index.ts:79 | a reference with neither title nor text is named by its position, so no two of them share a title |
| Search.Processed | supabase/functions/process-search/index.ts:84-89 | content that holds none of the marks `[1]` to `[n]` is passed on unchanged |
| Search.ProcessedIsLinkifyOnce | supabase/functions/process-search/index.ts:84-89 | the replacement loop links the first occurrence of each `[k]` in the original text and leaves later occurrences and all other text unchanged |
| Search.HandleSearchReply | supabase/functions/process-search/index.ts:107-116 | the reply is 200 with the linked content; its `references` are the citations, one per reference; `related_questions` defaults to `[]`; the database write does not change the reply |
| Search.HandleSearch | supabase/functions/process-search/index.ts:117-126 | every reply is either 200 or the 500 reply with `Failed to process search request` |
| Marks.SubstituteLiteral | supabase/functions/process-search/index.ts:88 | a replacement text without `$` is inserted literally by `replace` |
| Marks.SubstitutePatterns | supabase/functions/process-search/index.ts:88 | in a replacement text, `$$` gives `$`, `$&` the matched mark, `` $` `` the text before it, `$'` the text after it, and a lone final `$` stays |
| Marks.ReplaceUnmarked | supabase/functions/process-miniplex/index.ts:109 | a text that does not contain the mark comes out of both the global and the first-occurrence `replace` unchanged |
| Marks.NoMarksUnchanged | supabase/functions/process-miniplex/index.ts:105-110 | a text holding none of the marks `[1]` to `[m]` comes out of either loop unchanged |
| Marks.MarkInMark | supabase/functions/process-miniplex/index.ts:107 | the mark `[k]` contains no other mark `[j]` |
| Marks.MarkAtComplete | supabase/functions/process-miniplex/index.ts:109 | when a mark `[j]`, 1 <= j <= n, starts the text, it is the one mark recognised there |
| Marks.ReplaceEachAllIsLinkify | supabase/functions/process-miniplex/index.ts:105-110 | the loop of global replaces computes the one-pass rewriting in which every `[k]` of the original text, 1 <= k <= m, becomes the k-th link, whatever the order of the rounds |
| Marks.ReplaceEachFirstIsLinkify | supabase/functions/process-search/index.ts:85-89 | the loop of first-occurrence replaces computes the one-pass rewriting that links only the first `[k]` of the original text |
| Marks.RepeatedMarkOnce | supabase/functions/process-search/index.ts:88 | a mark written twice is linked once; the second occurrence stays text |
| Marks.RepeatedMarkAll | supabase/functions/process-miniplex/index.ts:109 | with the global pattern, both occurrences of a repeated mark are linked |
| Marks.AnchorsSafe | supabase/functions/process-miniplex/index.ts:107-108 | a link whose citation has no `$` and no other citation's mark begins and ends outside any mark, has no `$`, and holds no other citation's mark |
| CitationRegex.UrlEnd | supabase/functions/process-miniplex/index.ts:82 | the greedy `[^\s\]]+` takes the longest run of url characters |
| CitationRegex.FindUrl | supabase/functions/process-miniplex/index.ts:82 | the lazy `.*?` stops at the first `http://` or `https://` that is followed by a url character, and never crosses a line terminator; when it finds none, no url starts anywhere before the first line terminator (or the end) |
| CitationRegex.MatchAt | supabase/functions/process-miniplex/index.ts:82 | a match found at a position starts there and is well formed: `[`, digits, `]`, no line terminator and no earlier url before its url, then the longest run of url characters |
| CitationRegex.MatchAtFinds | supabase/functions/process-miniplex/index.ts:82 | conversely, every well-formed match is the one the pattern finds at its start, so a match is determined by where it starts |
| CitationRegex.Number | supabase/functions/process-miniplex/index.ts:82 | the captured number is a non-empty run of digits |
| CitationRegex.OuterUrl | supabase/functions/process-miniplex/index.ts:82 | the url a match ends with is non-empty, starts with `h` and consists only of url characters |
| CitationRegex.Scan | supabase/functions/process-miniplex/index.ts:86 | the successive `exec` matches are well formed, in order, and do not overlap |
| CitationRegex.ScanFindsEvery | supabase/functions/process-miniplex/index.ts:82-86 | `exec` misses nothing: each result is the pattern's match at its start, and the pattern matches nowhere before the first result, between two results, or after the last |
| CitationRegex.FirstUrl | supabase/functions/process-miniplex/index.ts:87 | a url found by the non-global match is non-empty and starts with `h` |
| CitationRegex.FirstUrlNone | supabase/functions/process-miniplex/index.ts:87 | the non-global match returns `null` exactly when no url starts anywhere in the text |
| CitationRegex.InnerUrlIsOuter | supabase/functions/process-miniplex/index.ts:87 | the inner url match on the matched text finds exactly the url the outer match ended with, so its `[0]` never reads `null` |
| Miniplex.CollectSucceeds | supabase/functions/process-miniplex/index.ts:86-87 | the loop never throws; each match yields its captured number and its url |
| Miniplex.Dedup | supabase/functions/process-miniplex/index.ts:88-94 | the kept citations have pairwise distinct urls, and their urls are exactly those found that were not yet seen |
| Miniplex.DedupKeepsFirsts | supabase/functions/process-miniplex/index.ts:84-95 | the loop keeps exactly the first occurrence of each url, in order of appearance |
| Miniplex.RepeatAddsNothing | supabase/functions/process-miniplex/index.ts:88 | a url already found adds no citation |
| Miniplex.KeepFirstsOrigin | supabase/functions/process-miniplex/index.ts:88-93 | every kept citation comes from an entry that no earlier entry shares a url with |
| Miniplex.ExtractCitationsFound | supabase/functions/process-miniplex/index.ts:78-95 | extraction never throws; it yields the first occurrence of each matched url, and the urls are distinct |
| Miniplex.ExtractCitations | supabase/functions/process-miniplex/index.ts:84-95 | a successful extraction never lists the same url twice |
| Miniplex.CitationOrigin | supabase/functions/process-miniplex/index.ts:89-92 | each citation is titled `Source ` followed by the digits of a match, and links that match's url; no earlier match has that url |
| Miniplex.ProcessedIsLinkify | supabase/functions/process-miniplex/index.ts:105-110 | when no found url holds `$`, the handler rewrites every `[k]`, 1 <= k <= |citations|, into the k-th link and leaves higher marks and all other text unchanged |
| Miniplex.Processed | supabase/functions/process-miniplex/index.ts:105-110 | content that holds none of the marks `[1]` to `[n]` is passed on unchanged |
| Miniplex.HandleMiniplexReply | supabase/functions/process-miniplex/index.ts:124-137 | with content, the reply is 200 with exactly the processed text, the citations and the related questions, whatever the database write reported; without content it is 500 |
| Miniplex.HandleMiniplex | supabase/functions/process-miniplex/index.ts:138-147 | every reply is either 200 or the 500 reply with `Failed to process MiniPlex search request` |
| RelatedQuestions.QuestionLines | supabase/functions/process-miniplex/index.ts:98-99 | the filter keeps at most as many lines as it is given |
| RelatedQuestions.QuestionLinesMembers | supabase/functions/process-miniplex/index.ts:98-99 | a line is kept exactly when it is a line of the answer that, trimmed, is a numbered question |
| RelatedQuestions.QuestionLinesConcat | supabase/functions/process-miniplex/index.ts:98-99 | filtering two blocks of lines one after the other gives the kept lines of the first block, then those of the second: the order is kept |
| RelatedQuestions.QuestionLinesOne | supabase/functions/process-miniplex/index.ts:98-99 | a single line is kept exactly when, trimmed, it is a numbered question |
| RelatedQuestions.Questions | supabase/functions/process-miniplex/index.ts:100 | at most three questions are returned |
| RelatedQuestions.QuestionsFromLines | supabase/functions/process-miniplex/index.ts:98-102 | the i-th question is the i-th qualifying line, in line order, with its number stripped; three are kept when there are at least three |
| RelatedQuestions.StripNumber | supabase/functions/process-miniplex/index.ts:101 | stripping removes only a prefix of the line |
| RelatedQuestions.StripNumberOf | supabase/functions/process-miniplex/index.ts:101 | a number, a dot and whitespace put before a text that does not start with whitespace are removed again |
| RelatedQuestions.IndentedQuestionKept | supabase/functions/process-miniplex/index.ts:99-101 | a qualifying line that starts with whitespace keeps its number, because the strip is tried on the untrimmed line |
| RelatedQuestions.NumberedQuestionStripped | supabase/functions/process-miniplex/index.ts:99-101 | stripping a numbered question leaves a shorter, non-empty question that starts with a non-space and ends with `?` |
| RelatedQuestions.TrimmedQuestionStripped | supabase/functions/process-miniplex/index.ts:99-101 | from a qualifying line that needs no trimming, the strip leaves the question text |
| Summary.Prompt | supabase/functions/process-document/index.ts:28-40 | the prompt is at least the opening and ` of the following text. ` long, and is exactly that long when the size is none of `quarter`, `half`, `full` |
| Summary.PromptOpening | supabase/functions/process-document/index.ts:28 | the prompt begins `Create a bullet-point summary` exactly for `bullets`, otherwise `Write a comprehensive summary`, followed by ` of the following text. ` |
| Summary.PromptSize | supabase/functions/process-document/index.ts:30-40 | `quarter`, `half` and `full` append their sentence, and any other size appends nothing |
| Summary.PromptInjective | supabase/functions/process-document/index.ts:28-40 | different choices in the form give different prompts |
| Summary.HandleDocument | supabase/functions/process-document/index.ts:21-83 | without a key the reply is the 500 reply `OPENAI_API_KEY is not set`; a rejected completion gives `Failed to generate summary`; an error thrown during the request gives a 500 reply with its message; the reply is 200 exactly when a key is set and the completion arrived, and then it carries a non-empty summary |
| Summary.KeyCheckedFirst | supabase/functions/process-document/index.ts:21-23 | a missing or empty key is refused before any request: the reply does not depend on the completion service |
| Summary.SummaryFallback | supabase/functions/process-document/index.ts:73 | a completion without content yields `Unable to generate summary`, and one with content yields that content |
| PageText.Collapse | supabase/functions/process-url/index.ts:49 | `replace(/\s+/g, ' ')` keeps the text empty exactly when it was, and keeps its first character or turns it into a space |
| PageText.CollapseSingleSpaced | supabase/functions/process-url/index.ts:49 | after collapsing, the only whitespace is single spaces between non-spaces |
| PageText.CollapseSingleSpacedFixed | supabase/functions/process-url/index.ts:49 | collapsing leaves single-spaced text unchanged |
| PageText.Normalize | supabase/functions/process-url/index.ts:49 | the cleaned text has no whitespace at either end, and is empty exactly when the page text is all whitespace |
| PageText.NormalizeSingleSpaced | supabase/functions/process-url/index.ts:49 | the cleaned text holds no whitespace other than single spaces, and no two adjacent |
| PageText.NormalizeIdempotent | supabase/functions/process-url/index.ts:49 | cleaning twice is cleaning once |
| PageText.NormalizeKeepsVisible | supabase/functions/process-url/index.ts:49 | cleaning keeps every non-whitespace character, in order |
| PageText.HandleUrl | supabase/functions/process-url/index.ts:22-56 | a missing or empty url gives `URL is required`; a thrown fetch gives its message, a response that is not ok `Failed to fetch URL content`, no document `Failed to parse HTML`; a parsed page gives 200 with the normalised body text (empty when there is none), which is trimmed, single-spaced and keeps the page's other characters in order |
| PageText.UrlCheckedFirst | supabase/functions/process-url/index.ts:22-24 | a missing or empty url is refused whatever the fetch and the parser would do |
| Ocr.Validate | supabase/functions/process-ocr/index.ts:10-30 | no file gives `No file uploaded`; a file is accepted exactly when its type is one of the four supported formats, and refused with the unsupported-format message otherwise |
| Ocr.AcceptedFormats | supabase/functions/process-ocr/index.ts:10 | PNG, JPEG, GIF and WebP images are accepted, and PDF is refused |
| Ocr.Process | supabase/functions/process-ocr/index.ts:96 | the extracted text is never empty |
| Ocr.HandleOcr | supabase/functions/process-ocr/index.ts:107-117 | the reply is 500 with the thrown message exactly when a step failed, and otherwise 200 with non-empty text; an error thrown by the completion request gives a 500 reply with its message |
| Ocr.RefusedBeforeUpload | supabase/functions/process-ocr/index.ts:21-30 | a missing or unsupported file is refused with its message whatever the storage and the completion service would do |
| Ocr.OcrOutcomes | supabase/functions/process-ocr/index.ts:44-96 | an upload error gives `Upload error: ` and its message; a failed completion gives `Failed to process document: ` with its error message, or `Unknown error` without one; a thrown error gives its message; missing content gives `No text could be extracted`; content is returned as it is |
| Formatting.StripBullet | src/hooks/useDocumentProcessing.ts:162 | a line not starting with `•` or `-` is unchanged; from one that does, exactly the sign and the whitespace after it are removed, so the rest starts with a non-space |
| Formatting.StripBulletOf | src/hooks/useDocumentProcessing.ts:162 | a bullet sign, whitespace and then a text not starting with whitespace leave exactly that text |
| Formatting.ItemText | src/hooks/useDocumentProcessing.ts:162 | an item's text is trimmed, and stays on one line |
| Formatting.ItemTextOf | src/hooks/useDocumentProcessing.ts:162 | a bulleted line with any whitespace around it and after the sign has the text after the bullet as its item text |
| Formatting.ItemTextPlain | src/hooks/useDocumentProcessing.ts:162 | a line that does not start with a bullet sign has itself, trimmed, as its item text |
| Formatting.FormatSummary | src/hooks/useDocumentProcessing.ts:159-163 | a general summary, or one that already starts with `<ul>`, is shown unchanged; otherwise the result starts with `<ul>` |
| Formatting.ItemsAreList | src/hooks/useDocumentProcessing.ts:162 | the items are `<li>` elements around the cleaned texts of the lines, in order |
| Formatting.BulletItems | src/hooks/useDocumentProcessing.ts:159-163 | a bullet summary not yet a list becomes `<ul>`, one `<li>` per line (newlines plus one), then `</ul>`; each item is trimmed and on one line |
| Formatting.FormatSummaryIdempotent | src/hooks/useDocumentProcessing.ts:159-163 | formatting a formatted summary changes nothing |
| Formatting.CleanLinesListed | src/hooks/useDocumentProcessing.ts:162 | lines that are already trimmed and bullet-free come back as the list's items, in order |
| Formatting.StripFencesRoundTrip | src/hooks/useDocumentProcessing.ts:264-266 | a trimmed body inside an `html` code fence, with any whitespace around it, comes back exactly |
| Formatting.NoFencesUnchanged | src/hooks/useDocumentProcessing.ts:264-266 | text with neither an opening nor a closing fence is unchanged |
| Formatting.StripFencesOpeningOnly | src/hooks/useDocumentProcessing.ts:264-266 | text that opens an `html` fence and never closes it, as a reply cut off at its token limit does, loses only the opening fence and the whitespace after it |
| Formatting.StripFencesClosingOnly | src/hooks/useDocumentProcessing.ts:264-266 | text that only closes a fence loses only the closing fence and the whitespace before it |
| Formatting.StripFences | src/hooks/useDocumentProcessing.ts:264-266 | stripping never lengthens the text, and text without fences is left as it is; `StripFencesRoundTrip`, `StripFencesOpeningOnly` and `StripFencesClosingOnly` give the result for both fences, only the opening one and only the closing one |
| DocumentProcessing.Navigate | src/hooks/useDocumentProcessing.ts:30-44 | navigation sets the step and changes nothing but the step and the form |
| DocumentProcessing.NavigateForm | src/hooks/useDocumentProcessing.ts:32-43 | going to the initial step resets the form to its defaults; any other step keeps the form |
| DocumentProcessing.MergeForm | src/hooks/useDocumentProcessing.ts:46-48 | each key the update carries overwrites the form's value, and every other key keeps it |
| DocumentProcessing.MergeFormLaws | src/hooks/useDocumentProcessing.ts:47 | an empty update changes nothing; applying an update twice is applying it once; two updates in a row are one combined update; a whole form replaces the state |
| DocumentProcessing.FileChange | src/hooks/useDocumentProcessing.ts:50-56 | the error is cleared; a selected file replaces the form's file and nothing else changes |
| DocumentProcessing.Submit | src/hooks/useDocumentProcessing.ts:58-84 | after any submit both flags are cleared and the form is unchanged; a reported error is never empty; a step without a handler only clears the messages |
| DocumentProcessing.SubmitError | src/hooks/useDocumentProcessing.ts:73-78 | the error is set exactly when the handler threw; it is the thrown message, or the default message when that was empty |
| DocumentProcessing.IdleSteps | src/hooks/useDocumentProcessing.ts:64-72 | steps without a handler call nothing, and only reset messages, error and flags |
| DocumentProcessing.Dispatch | src/hooks/useDocumentProcessing.ts:58-72 | the form is never changed; a step without a handler throws nothing and only resets error, messages and the processing flag |
| DocumentProcessing.SearchSubmit | src/hooks/useDocumentProcessing.ts:86-143 | the processing step comes first; a failed call reports its message with the placeholder shown and no references; the reply's references are shown even if storing fails; success shows exactly the stored result |
| DocumentProcessing.SummarySubmit | src/hooks/useDocumentProcessing.ts:145-195 | only the messages change, by one appended message that the database accepted; a failed call reports its message; a missing summary throws a TypeError for bullets, and a general summary stores it as missing |
| DocumentProcessing.MiniplexSubmit | src/hooks/useDocumentProcessing.ts:197-243 | a failed call changes nothing; the reply's data becomes the search result before storing; success appends exactly the stored result |
| DocumentProcessing.OcrSubmit | src/hooks/useDocumentProcessing.ts:245-292 | without a file nothing is sent and `Please upload a file` is thrown; any failure leaves the state as it was; missing text throws a TypeError; success appends the extracted text without its fences, as stored |
| DocumentProcessing.ShownIsStored | src/hooks/useDocumentProcessing.ts:127-140 | a successful submit shows exactly one message, and that message is the content the database accepted |
| DocumentProcessing.SearchFailureStays | src/hooks/useDocumentProcessing.ts:86-111 | a failing search stays on the processing step with the placeholder message and no references, and reports an error |
| DocumentProcessing.SearchShown | src/hooks/useDocumentProcessing.ts:113-140 | a successful search replaces the placeholder with the result and shows the reply's references, or none |
| DocumentProcessing.SummaryShown | src/hooks/useDocumentProcessing.ts:158-192 | the summary is shown as formatted for its type |
| DocumentProcessing.SummaryMissing | src/hooks/useDocumentProcessing.ts:158-192 | a reply without a summary fails with the `startsWith` TypeError for bullets; for a general summary the missing content is stored and shown |
| DocumentProcessing.MiniplexResultKept | src/hooks/useDocumentProcessing.ts:213-230 | the MiniPlex data is kept as the search result even when storing its message fails |
| DocumentProcessing.OcrNeedsFile | src/hooks/useDocumentProcessing.ts:246-248 | OCR without a file fails with `Please upload a file` before any call, and stays on the OCR step |
| DocumentProcessing.OcrShown | src/hooks/useDocumentProcessing.ts:264-289 | OCR text wrapped in an `html` code fence is shown and stored without the fence |

## Left out

- HTTP plumbing is not modelled: CORS preflight, JSON and form-data parsing, environment variables and response headers. The handlers take the already-parsed fields as parameters.
- The calls to OpenAI and Perplexity, the Supabase database inserts, the storage upload, `getPublicUrl` and file deletion are function parameters or plain inputs. They are I/O.
- The random file name (`crypto.randomUUID`), `Date.now` message ids and timestamps, toasts and console logging are not modelled. They are nondeterministic or only visible to a user.
- The extra columns of each database insert (type, web source, query and so on) are dropped. Only the stored content is modelled, which is what decides whether the insert is shown.
- DOM parsing and the removal of `script` and `style` elements in the URL handler are a parameter returning the body text. They belong to a foreign library.
- MiniPlex computes the domain filter but never sends it with its request. The filter is modelled as a function of its own, as Search uses it.
- The request bodies the hook sends are reduced to the fields the handlers read. The OCR upload is the file itself.
- JavaScript strings are UTF-16 code-unit sequences; here they are sequences of Unicode characters. Lengths and positions differ only for characters outside the Basic Multilingual Plane.
- JSON values of unexpected types are not modelled. For example, a non-string `content` or a `references` field that is not an array would throw or misbehave in the source. Every field is either absent or of its documented type.
- In the hook, a reply whose `data` is `null` is not modelled; the serverless client returns data exactly when it reports no error. A missing `summary` or `text` field is modelled: it throws a TypeError where a method is called on it (`startsWith` for bullet summaries, `replace` for OCR text), and a general summary stores and shows it as missing.
- DocumentProcessing.UndefinedRead: the TypeError message the hook reports for a missing `summary` or `text` is written in the V8 engine's wording (`Cannot read properties of undefined (reading '…')`), as in Chromium-based browsers; Firefox and Safari word it differently, so `SummarySubmit`, `OcrSubmit` and `SummaryMissing` pin the error text only for V8.
- Rendering, the search-progress animation, and the form and page components are not modelled. They add no logic beyond the hook's state.
- Miniplex.ProcessedIsLinkify: the one-pass reading is proved only when no found url contains `$`. The handler passes the link to `replace` as a replacement pattern, so `$&`, `` $` `` and `$'` in a url expand to parts of the text. The model (`Marks.Substitute`) computes that expansion, but no closed form is stated for it.
- Search.ProcessedIsLinkifyOnce: proved for citations whose url and title contain no `$` and no other citation's mark. Titles come from the provider and may hold either, in which case a later round can rewrite text inside an earlier link.
- Marks.ReplaceEachAllIsLinkify: stated for links that hold no `$` and no other link's mark, for the same reason.
- Marks.ReplaceEachFirstIsLinkify: stated for links that hold no `$` and no other link's mark, for the same reason.
