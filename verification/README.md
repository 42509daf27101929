# Page analysis of the web-crawler dashboard backend

This project models the page-analysis core of the dashboard's Go backend,
`backend/services/crawler.go`. `Crawl` fetches a page and parses its HTML.
It then derives a `CrawlResult`:

- the HTML version, read from the doctype in the first kilobyte of the body;
- the trimmed title;
- the six heading counts;
- whether a login form is present;
- the internal and external link counts;
- the broken links, each with the status its HEAD request produced.

The model keeps the sequential logic of that file, with one deliberate
correction. Login-form detection in `Crawl` uses the intended selector for
password inputs rather than the one written at line 80; see "## Findings".
The modules are:

- `detectHTMLVersion` (module `Doctype`);
- the verdict rule of `isBroken` (module `LinkStatus`);
- title, heading and login-form extraction over an abstract parsed page (module `Document`);
- the href loop that filters, resolves and classifies links, and the broken-link report (module `Links`);
- `Crawl` itself, which puts these together (module `Crawler`).

The network, the HTML parser and `net/url` are inputs to the model.

This model follows the Go code.

Modules:

- `Outcomes`: `Option` and `Result`. A `Failure` stands for Go's `(nil, err)` return.
- `Bytes`: the body as bytes (`Byte`), and ASCII lower-casing.
- `Doctype`: the search patterns, and the 1024-byte window.
  - The HTML5 marker is a literal.
  - The two HTML 4.01 regexps are unanchored.
  - Their only metacharacter is the dot of `4.01`, which matches any byte except a newline.
  - There is a reference classification, `Detect`.
  - The loop implementation `DetectHTMLVersion` is proved against that reference.
- `LinkStatus`: the HEAD outcome, and the `(status, broken)` verdict.
- `Document`: the parsed page, `strings.TrimSpace`, heading counts and login-form detection.
- `Links`: link filtering and resolution, internal/external counting, and the broken-link report.
- `Crawler`: `CrawlResult` and `Crawl`.

## Model

| member | source | states |
|---|---|---|
| Doctype.DetectHTMLVersion | backend/services/crawler.go:136-149 | Returns exactly one of "HTML5", "HTML 4.01 Strict", "HTML 4.01 Transitional" and "Unknown". It reads at most 1024 bytes and lower-cases them. The result is HTML5 iff the marker occurs. It is Strict iff there is no marker but the Strict pattern occurs. It is Transitional iff neither occurs but the Transitional pattern does. It is Unknown iff none of the three occurs. |
| Doctype.Search | backend/services/crawler.go:139-147 | Unanchored search finds a match iff the pattern matches at some offset of the text. |
| Doctype.DetectReadsOnlyWindow | backend/services/crawler.go:137 | Bytes after the first 1024 never change the version. |
| Doctype.DetectIgnoresCase | backend/services/crawler.go:138-147 | Two bodies that are equal up to ASCII case get the same version. |
| Doctype.DetectOfLowered | backend/services/crawler.go:138 | A body and its lower-cased form get the same version. |
| Doctype.Html5MarkerInAnyCase | backend/services/crawler.go:137-141 | `<!doctype html>` in any capitalisation, anywhere in the first 1024 bytes, gives HTML5, whatever else is present. |
| Doctype.StrictPatternShape | backend/services/crawler.go:43 | The Strict regexp matches exactly its literal text with any non-newline byte in place of the dot of `4.01`. |
| Doctype.TransitionalPatternShape | backend/services/crawler.go:44 | The same holds for the Transitional regexp. |
| LinkStatus.IsBroken | backend/services/crawler.go:152-169 | A response reports its own status code, and is broken iff that code is at least 400. A request-construction or transport error gives `(0, true)`. |
| LinkStatus.StatusDecidesBrokenness | backend/services/crawler.go:157-168 | For genuine HTTP codes, status 0 means "no response". Broken holds exactly when the status is 0 or at least 400. |
| Document.TrimSpace | backend/services/crawler.go:67 | The result is a slice of the input. Only spaces lie before and after it, and it neither starts nor ends with a space. |
| Document.TrimSpaceIdempotent | backend/services/crawler.go:67 | Trimming a trimmed title changes nothing. |
| Document.Title | backend/services/crawler.go:67 | The title is empty when the page has no title element. Otherwise it is no longer than the first title's text and carries no surrounding space. |
| Document.HeadingCountsCoverHeadings | backend/services/crawler.go:71-76 | The six per-level counts add up to the number of h1 to h6 elements. |
| Document.AnyFormHasInputOfType | backend/services/crawler.go:79-85 | The early-exit scan over forms is true iff some form has an input with the given type. |
| Document.HasLoginForm | backend/services/crawler.go:79-85 | Corrected detection: true iff some form contains an input whose type is `password`. |
| Document.HasLoginFormAsWritten | backend/services/crawler.go:80 | Detection as written: true iff some form contains an input whose type is literally `"password"`, quotes included. |
| Document.LoginSelectorAsWrittenMissesPasswordInput | backend/services/crawler.go:80 | A form with a `text` input and a `password` input is found by the corrected detection and missed by the detection as written. |
| Document.AsWrittenNeverSeesUnquotedTypes | backend/services/crawler.go:80 | If no input type contains a quote character, the detection as written is false. |
| Links.CollectLinks | backend/services/crawler.go:92-108 | The link list is the serialised resolution of exactly the followed hrefs, in order. `internal` counts those on the base host and `external` the rest. `internal + external` equals the number of links. |
| Links.HostCountsPartition | backend/services/crawler.go:103-107 | Every followed link is counted exactly once, as internal or as external. |
| Links.FollowedConcat | backend/services/crawler.go:93-102 | Link collection processes each href independently of the others. |
| Links.DroppedHrefIsIgnored | backend/services/crawler.go:95-101 | Adding a `mailto:`/`javascript:` href, or one that fails to resolve, changes nothing: it is neither counted nor checked. |
| Links.FollowedMembership | backend/services/crawler.go:93-102 | A URL is collected iff it is the resolution of some href that is not skipped. |
| Links.FollowedBound | backend/services/crawler.go:95-102 | There is at most one collected link per href. There is exactly one per href iff every href is followed. |
| Links.BrokenDetailsExact | backend/services/crawler.go:114-123 | A detail is reported iff it names a collected link whose verdict is broken, with that verdict's status. |
| Links.BrokenDetailsBound | backend/services/crawler.go:114-123 | There are no more details than links, and every detail's status is 0 or at least 400. |
| Crawler.Summarize | backend/services/crawler.go:63-85 | The version is the detected one and the title is the trimmed first title. Each hN count is the number of hN elements, and the six sum to the number of headings. The login flag is the corrected detection. The link fields start at zero. |
| Crawler.ReportBroken | backend/services/crawler.go:110-130 | Each link gets its isBroken verdict. The count equals the number of details. The details are, as a multiset, exactly the links judged broken, each with its status. |
| Crawler.Crawl | backend/services/crawler.go:48-133 | A fetch or parse error is returned unchanged. Each hN count is the number of hN elements. The login flag is the corrected detection, not the selector at line 80 as written. If the target URL does not parse, all link fields are zero while version, title, headings and login flag are kept. Otherwise: the internal and external counts classify the followed links by host and sum to their number; BrokenLinks equals the number of details; the details are the broken links as a multiset; every status is 0 or at least 400. |

## Left out

- The GET of the target (`client.Get`, 15-second timeout) and the HTML parse are not modelled. Their outcome is the `Fetch` input: an error, or the body bytes together with the parsed page.
- The HTML parser and CSS selection are not modelled. The parsed page is abstract: the text of each title element, every tag name, each form's input type attributes, and every anchor href.
- URL parsing and resolution (`url.Parse`, `base.Parse`, `String`, `Hostname`) are not modelled. `UrlLib` supplies them as given functions, with `None` for an error.
- The HEAD request in `isBroken` is not modelled: its context timeout, the default client and its redirect handling. `probe` supplies the outcome for each link. The model therefore assumes the same link always gets the same outcome.
- The semaphore, WaitGroup, goroutines and channel that run the checks are replaced by a sequential check in link order. The Go code delivers details in scheduling order, so the contracts about details are stated as multisets.
- `BrokenLinkDetail` keeps only `Link` and `Status`. `Crawl` leaves `ID` and `UrlID` at zero, and storage code outside this model fills them in.
- `strings.ToLower` is modelled as ASCII lower-casing. Unicode case mapping of non-ASCII letters is not modelled, and neither is the replacement of invalid UTF-8.
- In the body model, the regexp dot matches one byte. Go matches one rune, so a multi-byte UTF-8 character in the dot's position is not modelled.
- Titles are sequences of Unicode characters, with `unicode.IsSpace` written out. The UTF-8 decoding of the title bytes is not modelled.
- Status codes are unbounded integers; the range of Go's `int` is not modelled.
- `backend/main.go` is not modelled: server start-up, database connection, CORS middleware and route registration are wiring.
- `frontend/src/index.tsx` and `frontend/src/components/StatusBadge.tsx` are not modelled: they are presentation code.
- Crawler.Crawl: the login flag is the corrected detection (`HasLoginForm`), not crawler.go:80 as written. As written, the flag would stay false for every ordinary password form; see "## Findings".
- Crawler.Summarize: likewise uses the corrected login detection rather than crawler.go:80 as written.
- In the program, the branch where the target fails to parse (crawler.go:88-91) cannot be reached after a successful GET, because `client.Get(target)` has already parsed the same string. The model lets `lib.parse(target)` be `None` beside a fetched page. This is more general than the program, and harmless.
- Document.Title: states trimming properties of the first title, not the full equation with `TrimSpace`; `Crawler.Crawl` and `Crawler.Summarize` fix the title as `Title`, and `Document.TrimSpace` states what trimming does.

## Findings

| source | as written | input that shows it | evidently intended | confidence | as-written member | corrected member |
|---|---|---|---|---|---|---|
| backend/services/crawler.go:80 | The selector ``input[type=\"password\"]`` is written in a Go raw string, so the backslashes reach the CSS parser. The parser reads `\"` as an escaped quote, so the selector asks for a type attribute equal to `"password"` with the quotes included. | `<form><input type="text"><input type="password"></form>`: the login flag stays false. | `input[type="password"]`: any form containing a password input is a login form. | medium, not executed | Document.HasLoginFormAsWritten, Document.LoginSelectorAsWrittenMissesPasswordInput | Document.HasLoginForm |
