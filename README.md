# Google search scraper: the query, dedupe and export pipeline in Dafny

The repository holds two scripts that do the same job. Each reads a query and
a result count, asks a search library for URLs, removes repeated URLs, and
writes the rest to a CSV file.

- `GoogleSearchScrapper2.py` is the console version. It prompts for a query
  and a count and calls the search once. It removes repeats and keeps the
  order in which each URL first appears. It then writes `No.`/`URL` rows,
  numbered from 1, to `extracted_urls.csv`.
- `GoogleSearchScrapper.py` is the form (tkinter) version. It checks the
  query field and then the filename field. It calls the search up to three
  times until an answer is non-empty. It removes repeats through a Python
  set, which loses the order. It writes a `URL` header and one row per URL
  to `<filename>.csv`. Its Browse button fills the filename field with the
  chosen path minus its last four characters.

How the model maps onto the source:

- `Text` (text.dfy) models Python's `str.strip()`. It uses the full set of
  characters for which `str.isspace()` holds. Like the interpreter, it
  scans past whitespace from the left, then back from the right, and keeps
  what lies between. The module also models the
  part of `int()` that decides whether the count field is a number,
  including CPython's default limit of 4300 digits on converting a string
  to an integer. That limit exists in CPython 3.11 and later, and in the
  3.10.7, 3.9.14, 3.8.14 and 3.7.14 releases.
- `Urls` (urls.dfy) defines `Dedup`. This is the list that the
  order-preserving `filter_urls` builds. The lemmas in this module prove
  what that variant promises:
  - no URL appears twice;
  - the result has the same URLs as the input;
  - each URL keeps the place where it first occurs;
  - deduplicating twice gives the same result as deduplicating once;
  - the result is no longer than the input;
  - `Dedup` is the only list with these properties.

  The set-based `filter_urls` promises only the first two, and that the
  result is no longer than the input. Its order is whatever the set
  yields.
- `Csv` (csv.dfy) gives the rows each script passes to `csv.writer`, as a
  sequence of rows. It also has a reader for each layout, so that the round
  trip "write the rows, read the URLs back" can be proved.
- `Search` (search.dfy) stands in for the search library. The library's
  answers are a list of canned responses, one per call. A call that raised
  an exception is a call that answered `[]`. Each call is recorded as a
  `SearchCall`, so a contract can say whether a search was attempted and
  with which arguments.
- `Request` (request.dfy) models how the count field is resolved. The
  console script does this at GoogleSearchScrapper2.py:71-76 and the form
  script at GoogleSearchScrapper.py:44-48.
- `ConsoleScraper` (console.dfy) models GoogleSearchScrapper2.py. Its
  `FilterUrls` and `StoreUrls` are loops proved against `Dedup` and
  `NumberedRows`. `RunConsole` is `main` with the prompts replaced by
  parameters.
- `GuiScraper` (gui.dfy) models GoogleSearchScrapper.py. `FilterUrls` lists
  the set of the input's URLs in an order the model does not fix, so any
  order is allowed. `FetchWithRetry` is the retry loop. `SearchAndStore` is
  the button handler, with the form fields as parameters and an `Outcome`
  in place of the label text.

The model follows the code on these points:

- Any integer the count field parses to is passed on unchanged, including
  zero and negative numbers.
- The console script has no filename field and no retries.
- The form script's "Defaulting to 10" message is overwritten by the next
  label update of the same click. Every path that continues past the count
  check makes such an update, so the user never sees the warning, and
  `Outcome` does not carry it.
- The form script deduplicates without keeping order.

## Model

| member | source | states |
|---|---|---|
| `Text.Strip` | GoogleSearchScrapper2.py:65 | the stripped field neither starts nor ends with whitespace |
| `Text.StripRemovesOuterSpace` | GoogleSearchScrapper2.py:65 | the input is whitespace, then the stripped field, then whitespace |
| `Text.StripPadded` | GoogleSearchScrapper.py:31-34 | stripping text that is surrounded only by whitespace, and whose own ends are not whitespace, gives back exactly that text |
| `Text.StripEmptyIffBlank` | GoogleSearchScrapper.py:36-42 | a field is empty after stripping exactly when it held only whitespace, which is when "query cannot be empty" and "filename cannot be empty" fire |
| `Text.StripIdempotent` | GoogleSearchScrapper2.py:65 | stripping twice gives the same result as stripping once |
| `Text.StripFixedIffTrimmed` | GoogleSearchScrapper.py:34 | stripping leaves a field unchanged if and only if it neither starts nor ends with whitespace |
| `Text.StripKeepsNonSpace` | GoogleSearchScrapper2.py:71 | every non-whitespace character of the field survives stripping |
| `Text.ParseInt` | GoogleSearchScrapper2.py:73 | when a number is accepted, the text is an optional `+` or `-` followed by at least one and at most 4300 decimal digits, so a lone sign is refused |
| `Request.ResolveCountLoneSign` | GoogleSearchScrapper2.py:72-76 | a field holding only `+` or `-`, with whitespace around it allowed, gives 10 with the warning |
| `Text.ParseIntDigits` | GoogleSearchScrapper2.py:73 | any text made of a sign of length 0 or 1 (`+` or `-`) followed by at least one decimal digit, leading zeros and `-0` included, is the number it spells with that sign, provided it has at most 4300 digits; with more it is refused |
| `Text.ParseIntToString` | GoogleSearchScrapper2.py:73-76 | every integer written in decimal, negative numbers included, parses back to itself when it has at most 4300 digits, and is refused when it has more |
| `Text.ParseIntRejects` | GoogleSearchScrapper2.py:72-76 | text holding a character that is neither a digit nor a sign is not a number |
| `Request.ResolveCount` | GoogleSearchScrapper2.py:71-76 | the warning is given exactly when the stripped field is non-empty and not a number, and a warned count is always 10; a stripped field that is a number gives that number, with no warning |
| `Request.ResolveCountBlank` | GoogleSearchScrapper.py:45 | a blank or all-whitespace field gives 10, with no warning |
| `Request.ResolveCountNumeral` | GoogleSearchScrapper2.py:72-76 | a typed optional `+` or `-` followed by digits, with or without whitespace around it, is used as the number it spells with no warning, provided it has at most 4300 digits (`+5`, `007`, `-0` and negatives included); a longer one gives 10 with the warning |
| `Request.ResolveCountNotANumber` | GoogleSearchScrapper.py:44-48 | a field with a non-digit, non-sign, non-space character gives 10 with the warning, and the run goes on |
| `Urls.DedupElements` | GoogleSearchScrapper2.py:38-41 | a URL is in the result exactly when it is in the input |
| `Urls.DedupNoDuplicates` | GoogleSearchScrapper2.py:37-40 | no two entries of the result are equal |
| `Urls.DedupFirstOccurrenceOrder` | GoogleSearchScrapper2.py:38-40 | the result lists its URLs in order of their first positions in the input, so it is a subsequence of the input made of first occurrences |
| `Urls.DedupUnique` | GoogleSearchScrapper2.py:37-41 | any list with no repeats, the input's elements, and first-occurrence order equals `Dedup` of the input |
| `Urls.DedupExample` | GoogleSearchScrapper2.py:37-41 | `["b","a","b","c"]` deduplicates to `["b","a","c"]` |
| `Urls.DedupOfDistinct` | GoogleSearchScrapper2.py:37-41 | a list without repeats comes back unchanged |
| `Urls.DedupIdempotent` | GoogleSearchScrapper2.py:37-41 | deduplicating the result again changes nothing |
| `Urls.DedupLength` | GoogleSearchScrapper2.py:37-41 | the result is at most as long as the input, and exactly as long if and only if the input has no repeats |
| `Urls.DedupNonEmpty` | GoogleSearchScrapper2.py:37-41 | the result is empty if and only if the input is |
| `Urls.SameElementsPermutation` | GoogleSearchScrapper.py:18-20 | two lists without repeats that hold the same elements are permutations of each other |
| `Csv.PlainRoundTrip` | GoogleSearchScrapper.py:22-28 | reading the `URL` layout back gives the URLs written, in order |
| `Csv.NumberedRoundTrip` | GoogleSearchScrapper2.py:43-55 | reading the numbered layout back gives the URLs written, in order |
| `ConsoleScraper.FilterUrls` | GoogleSearchScrapper2.py:27-41 | the loop returns `Dedup` of the input: no repeats, same URLs |
| `ConsoleScraper.StoreUrls` | GoogleSearchScrapper2.py:43-55 | the file gets the header `No.`,`URL` and then exactly one row `[k, urls[k-1]]` per URL, for k = 1, ..., len(urls) |
| `ConsoleScraper.RunConsole` | GoogleSearchScrapper2.py:57-102 | an empty stripped query stops before any search and before the count prompt; otherwise there is one search with the stripped query and the resolved count; the run fails if and only if that search answers nothing; on success it writes the deduplicated answer, which is never empty, as numbered rows to `extracted_urls.csv` |
| `GuiScraper.FilterUrls` | GoogleSearchScrapper.py:18-20 | the result has no repeats and the same URLs as the input, in some order (a permutation of `Dedup`); it is no longer than the input and non-empty when the input is |
| `GuiScraper.StoreUrls` | GoogleSearchScrapper.py:22-28 | the file gets the header `URL` and then one single-cell row per URL, in the order given |
| `GuiScraper.FetchWithRetry` | GoogleSearchScrapper.py:50-57 | 1 to 3 calls with the same arguments; every call before the last answered `[]`; the result is the last call's answer; an empty result means all 3 calls answered `[]` |
| `GuiScraper.FetchAndStore` | GoogleSearchScrapper.py:50-68 | with both fields filled in: 1 to 3 identical calls; failure exactly when all 3 answers are empty; otherwise the first non-empty answer is deduplicated in some order and written as `URL` rows to `<filename>.csv`, so "No relevant URLs found" cannot come out |
| `GuiScraper.SearchAndStore` | GoogleSearchScrapper.py:30-68 | an empty query aborts first; only a non-empty query reaches the filename check, which also aborts; neither abort searches; otherwise it makes 1 to 3 searches with the stripped query and resolved count; it fails exactly when all 3 answers are empty; "No relevant URLs found" is never the outcome; on success it writes the first non-empty answer, deduplicated in some order, as `URL` rows to `<stripped filename>.csv` |
| `GuiScraper.BrowseFile` | GoogleSearchScrapper.py:70-74 | a cancelled dialog leaves the field alone; otherwise the field becomes the chosen path minus its last four characters, or empty when the path is shorter than four characters |
| `GuiScraper.BrowseThenExport` | GoogleSearchScrapper.py:34-74 | for a chosen path ending in `.csv`, cutting four characters on browse, then stripping the field and appending `.csv` on export, gives back the chosen path if and only if the cut field neither starts nor ends with whitespace |
| `GuiScraper.BrowseDropsSpace` | GoogleSearchScrapper.py:34-74 | choosing `report .csv` leads to an export to `report.csv`: the space before the extension is stripped away |
| `GuiScraper.BrowseMangles` | GoogleSearchScrapper.py:34-74 | choosing `report.json` leaves the field `report.`, which stripping does not change, so the export goes to `report..csv` |
| `GuiScraper.BrowseFileCorrected` | GoogleSearchScrapper.py:74 | only a trailing `.csv` is removed: for a `.csv` path the field plus `.csv` is the chosen path, and any other path is kept whole |
| `GuiScraper.BrowseCorrectedKeepsName` | GoogleSearchScrapper.py:34-74 | with the corrected browse step, the export (strip, then append `.csv`) goes to the chosen path or to the chosen path plus `.csv` if and only if the field neither starts nor ends with whitespace |

## Left out

- The search library (`get_google_urls`, GoogleSearchScrapper.py:9-16; `get_search_urls`, GoogleSearchScrapper2.py:4-25) is a network call into foreign code. It is replaced by canned responses, and an exception counts as an empty answer.
- Only the query and count of a search are recorded. The language and country (GoogleSearchScrapper.py:12), and the time range, file type, excluded domains and pause (GoogleSearchScrapper2.py:21), go to the library unchanged. They do not affect the pipeline.
- The console's search engine prompt is read and lower-cased, and `get_search_urls` takes it as a parameter, but never passes it on to the library (GoogleSearchScrapper2.py:21). The model has no engine either.
- The 2-second `time.sleep` between retries is left out. It has no logical effect.
- The tkinter window, its widgets, `filedialog` and `mainloop` are left out. Form fields become parameters, and each label text becomes an `Outcome` constructor.
- The console's `input()`/`print()` calls are left out. So are the prompts for engine, time range, file type, excluded domains (with the comma split) and language, and their lower-casing. The count warning survives as a boolean.
- Opening and writing the file, UTF-8 encoding, and the `csv` module's quoting and escaping are left out. A written file is a `CsvFile` value holding its path and rows, and I/O errors are not modelled.
- The save dialog is left out. What it returns is the `chosen` parameter of `BrowseFile`.
- Text.ParseInt: this is weaker than Python's `int()`. It accepts an optional sign and ASCII digits only. `int()` also accepts underscores between digits and non-ASCII decimal digits. The model treats such input as not a number, so the count falls back to 10 with a warning.
- Text.ParseInt: the 4300-digit limit is CPython's default in 3.11 and later, and in the 3.10.7, 3.9.14, 3.8.14 and 3.7.14 releases. Releases before those have no limit, and a program can change the limit at run time. The model fixes it at 4300.
- GuiScraper.FilterUrls: Python's iteration order over a set is not modelled. Any order may come out, which is all the source guarantees.

## Findings

| source | as written | input that shows it | evidently intended | confidence | as-written member | corrected member |
|---|---|---|---|---|---|---|
| GoogleSearchScrapper.py:74 | `filename[:-4]` cuts the last four characters whatever they are | the dialog returns `report.json`; the field becomes `report.`, and the export goes to `report..csv` | remove the `.csv` extension, as the line's own comment says, and nothing else | medium, not executed (depends on the save dialog returning a name with another extension) | `GuiScraper.BrowseMangles` | `GuiScraper.BrowseFileCorrected` |
