# TextPro API handler — a Dafny model

The service answers `GET /api/textpro?id=<1-5>&text=<text>` with the URL
of a stylised-text image. It opens the template page for `id` in a
headless browser, types the `|`-separated fragments of `text` into the
page's text fields, clicks a "create" button, waits, and reports the
largest qualifying image on the page.

This project models that handler as pure functions over an abstract
browser session. The page is given as data: its text fields (current
values), its clickable elements (the CSS selectors each one matches, its
rendered text, whether it is a `button`), and its images after the wait
(`src`, rendered `width`, `naturalWidth`, `naturalHeight`). A thrown
browser call is modelled as the `Stage` that throws.

Modules, one per concern of the handler:

- `Catalog` (catalog.dfy): the five-entry template catalog and the two request guards.
- `Fragments` (fragments.dfy): `text.split("|")`, its inverse `join`, and the fill loop.
- `Buttons` (buttons.dfy): the ordered selector chain and the label fallback.
- `Images` (images.dfy): the image filter and the first-largest pick.
- `Handler` (handler.dfy): the whole handler, with response codes and bodies and the browser's lifecycle.
- `Text` (text.dfy) and `Wrappers` (wrappers.dfy): substring search, ASCII case folding, `Option`.

Two details of the code:

- The text fields are found by one comma-separated selector list. The result is therefore in document order, not in selector-priority order.
- The image filter is `width > 200` on the rendered width. The ranking uses `naturalWidth * naturalHeight`, not the rendered size.

One behaviour of the fill loop is worth stating. Each field is triple-clicked, which selects its value, and then the fragment is typed. A non-empty fragment without line breaks or tabs therefore replaces the old value. An empty fragment (as in `a||c`) types nothing, so the field keeps its old value. `Fragments.Fill` says exactly this.

## Model

| member | source | states |
|---|---|---|
| Catalog.Resolve | server.js:9-15 | an id resolves iff it is one of "1".."5", and every template page is under https://textpro.me/create- |
| Catalog.CatalogIsInjective | server.js:9-15 | distinct known ids resolve to distinct template pages |
| Catalog.Validate | server.js:18-26 | missing or unknown id gives the id error; a known id with missing or empty text gives the text error; otherwise the request is accepted with that id, its template URL and the non-empty text |
| Catalog.IdCheckedBeforeText | server.js:21-26 | with a bad id the answer is the id error whatever the text is |
| Fragments.Split | server.js:44 | splitting yields at least one fragment, and no fragment contains the separator |
| Fragments.JoinSplit | server.js:44 | joining the fragments with the separator gives back the text |
| Fragments.SplitJoin | server.js:44 | any non-empty list of separator-free fragments is recovered by splitting its join |
| Fragments.FillFrom | server.js:51-54 | the loop from position i leaves earlier fields alone, types fragment k over field k while both exist, and leaves fields without a fragment unchanged |
| Fragments.Fill | server.js:51-54 | field k becomes fragment k when that fragment is non-empty, keeps its value when the fragment is empty or missing; the number of fields never changes |
| Fragments.ExtraFragmentsDropped | server.js:51 | fragments beyond the last field have no effect |
| Fragments.ThreeFragmentsTwoFields | server.js:44-54 | "A\|B\|C" into two empty fields gives ["A", "B"]; "C" is dropped |
| Fragments.OneFragmentThreeFields | server.js:44-54 | "OnlyOne" into three empty fields leaves the second and third empty |
| Buttons.QueryFirstFrom | server.js:66 | `page.$(sel)` returns the first element in document order that matches, or nothing when none does |
| Buttons.FirstSelectorHitFrom | server.js:57-72 | the selector loop stops at the earliest selector that matches anything and picks that selector's first element; no earlier selector matched anything |
| Buttons.FirstActionButtonFrom | server.js:75-80 | the fallback finds the first `button` whose text contains create, generate or make, ignoring case, or none |
| Buttons.ChooseButton | server.js:57-81 | at most one element is clicked; a selector click happens iff some selector matches, at the earliest selector's first element; otherwise the first action button is clicked; nothing is clicked iff neither exists |
| Buttons.LabelsIgnoredWhenSelectorMatches | server.js:64-81 | when a selector matches, button texts cannot change the choice, so the fallback does not run |
| Text.Contains | server.js:88 | `includes` holds iff the substring occurs at some position |
| Images.CandidateIndices | server.js:87-89 | the filter keeps, in page order, exactly the images with a non-empty src, width over 200 and no "spinner" in src |
| Images.LargestIndex | server.js:92-100 | the scan ends on a position of largest natural area, and every earlier position has strictly smaller area (first wins ties) |
| Images.FirstLargestUnique | server.js:92-100 | no other position has the first-largest property |
| Images.CandidateRankIsPageRank | server.js:87-101 | the first-largest position in the filtered list is the first-largest candidate of the whole page |
| Images.SelectImage | server.js:86-102 | the result is null iff no image qualifies; otherwise it picks (by position, whose src is returned) a qualifying image whose natural area is at least every candidate's, with every earlier candidate strictly smaller |
| Images.SpinnerIsPassedOver | server.js:87-101 | a 400-wide spinner with the largest area is skipped and the 300-wide image is chosen over the 50-wide one |
| Handler.Handle | server.js:17-119 | answers only 200, 400 or 500; 400 iff the request is rejected, with no browser; 200 iff nothing throws, fields exist and an image qualifies; the browser is left open iff the page had no fields |
| Handler.RejectionsLaunchNothing | server.js:18-26 | a rejected request gets 400 with the id message taking precedence over the text message, and launches, types and clicks nothing |
| Handler.MissingInputsLeaveBrowserOpen | server.js:45-49 | no fields: 500 "Input field not found", nothing typed or clicked, the browser launched and never closed |
| Handler.MissingInputsLeakExample | server.js:47-48 | id 1, text "Hello" and a page without fields leave the browser running |
| Handler.SuccessResponse | server.js:104-114 | a 200 body is {status "success", the requested id, the src of the first largest candidate}; fields hold the fragments, the button step ran, and the browser was closed exactly once |
| Handler.NoImageResponse | server.js:104-108 | no qualifying image: 500 "Failed to generate image", after one close |
| Handler.FaultResponse | server.js:116-118 | a thrown error gives 500 "Error"; the browser is closed once if launched, never if the launch threw, twice if the first close threw |
| Handler.HandleReleasing | server.js:47-49 | corrected handler: same responses, the browser is never left open, and every launched browser gets a close call |

## Findings

| source | as written | input that shows it | evidently intended | confidence | as-written member | corrected member |
|---|---|---|---|---|---|---|
| server.js:47-48 | the early return for a page without text fields answers 500 but never closes the browser launched at line 32, while lines 104 and 117 close it on every other path | id "1", text "Hello", a template page with no element matching the field selector | close the browser before answering, as the other exits do | high; not executed | Handler.MissingInputsLeaveBrowserOpen | Handler.HandleReleasing |

## Left out

- Express setup, the `/` liveness route, `app.listen` and the port (server.js:1-6, 122-128): framework glue.
- The browser calls themselves: launch options, `newPage`, the user agent, `goto` with `networkidle2`, the 20 ms per-keystroke delay and the fixed 3000 ms wait (server.js:32-41, 53, 83). They are foreign I/O and timing. The model keeps only the data they yield and whether they throw.
- CSS selector matching and `innerText`: which selectors an element matches and its text are given data.
- What the page looks like after the click: the images are given as they are after the wait. They are not derived from the click.
- JavaScript lookup quirks: `TEMPLATES[id]` also accepts prototype keys such as "constructor", and the framework may deliver `id` or `text` as an array (`?id[]=3` gives `["3"]`, which passes the lookup and is echoed back as `template_id`). The catalog is modelled as exactly five keys, and `id` and `text` as strings.
- Exception messages (`details`), and a second failure inside the `catch` block's own `browser.close()`, which would leave the request unanswered.
- Handler.HandleReleasing: it states only that the browser is closed and gets at least one close call; it does not model a close that itself throws on that path.
- Triple-click selection in a multi-line `textarea` (it selects one line, not the whole value) and `maxlength` truncation while typing. `Fragments.TypeOver` assumes that the click selects the whole value.
- Fragments with control characters: `type` presses Enter for a line break (which may submit the form) and Tab for a tab (which moves focus to another field). `Fragments.TypeOver` assumes fragments without line breaks or tabs.
- Areas are unbounded integers. The browser's double-precision product is exact for any realistic image size.
- Concurrency between requests: each request is independent and the model is a pure function of one request.
