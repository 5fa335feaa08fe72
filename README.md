# Provincial statistical yearbook downloader — verified model of the core

The downloader opens an online Chinese provincial statistical yearbook in a browser and works in three steps:

1. It recognises which of several site layouts the yearbook uses.
2. It builds the list of table pages, each with a file identifier, and a map from identifiers to readable table titles.
3. It downloads every page whose identifier has no file in the download directory yet, asking the user before each round. Once the user agrees, it renames the files after their titles.

This project models that core in Dafny. The browser's answers are plain input data:

- the probe results;
- the `(href, innerHTML)` pairs of anchors;
- the menu records an extractor parses, with the literal parser passed in as a function;
- the pages reached by following a link, also passed in as functions.

The directory listings and the user's answers are inputs as well: `listingAt(k)` is the k-th reading of the directory, and `answers` are the replies in order.

Modules, one per component of the script:

- `PyStr`: Python string semantics the script relies on. This covers `rfind`, slicing with negative and out-of-range bounds, `in`, `replace`, `translate` as a deletion table, `strip` with Python's whitespace set, `lower`, and the digit filter.
- `Utf8` and `Percent`: `urllib.parse.unquote_to_bytes(...).decode('utf-8')`. This is percent-decoding at byte level as in section 2.1 of RFC 3986, then strict UTF-8 decoding (RFC 3629) as a partial function.
- `Names`:
  - the file identifier between a link's last `/` and last `.`;
  - the root directory of a link;
  - the key/extension split of a file name;
  - the `clean_n` label cleaning;
  - the Jiangsu `onclick` handler;
  - the Zhejiang 2020+ spreadsheet link;
  - the Anhui 2023+ `"opened"` flag removal.
- `Pages`: the common shape of every extractor. Each menu element is skipped, found (an entry with an optional title), or raises. The page list and the rename map are a left fold of these: appends, last-write-wins map updates, and an abort at the first exception.
- `Extractors`: `get_pages_std`, `get_pages_ah_06`, `get_pages_ah_23`, `get_pages_ah_04`, `get_pages_js` and `get_pages_zj`. Each is a method with the source's loops, proved equal to the fold of its per-element harvests. Lemmas state what every resulting page satisfies.
- `Scrape`: the ordered first-match layout dispatch and the whole `scrape` run. A run is the extraction, then the download session only for a non-empty page list, then the rename question only for a non-empty map.
- `Subpage`: the ordered routing of `process_subpage` and the file each action writes.
- `Reconcile`: `get_downloaded`, the `missing` filter and the `download_missing` loop. The loop reads two answers per round and re-reads the directory each round.
- `Renamer`: the destination of every file, with failures isolated per file.
- `Cli`: the year-range check of the main loop.

## Model

| member | source | states |
|---|---|---|
| PyStr.RFind | get_tjnj_interactive.py:84 | `rfind` is -1 or an index holding the character, with no occurrence after it |
| PyStr.RFindAbsent | get_tjnj_interactive.py:84 | `rfind` is -1 exactly when the character does not occur |
| PyStr.SliceInRange | get_tjnj_interactive.py:84 | a Python slice with bounds inside the string is the plain subsequence |
| PyStr.ContainsIff | get_tjnj_interactive.py:288 | `pat in s` holds exactly when `pat` occurs at some index of `s` |
| PyStr.ReplaceAbsent | get_tjnj_interactive.py:198 | `replace` leaves a string without the pattern unchanged |
| PyStr.ReplaceSingle | get_tjnj_interactive.py:132 | a string holding the pattern once loses exactly that occurrence, everything around it kept |
| PyStr.Delete | get_tjnj_interactive.py:26 | a `translate` with a deletion table leaves none of the table's characters |
| PyStr.DeleteCounts | get_tjnj_interactive.py:26 | every character outside the table keeps its number of occurrences; table characters drop to zero |
| PyStr.DeleteConcat | get_tjnj_interactive.py:86 | deletion works piecewise, so the kept characters stay in their order |
| PyStr.DeleteIdempotent | get_tjnj_interactive.py:86 | deleting twice is deleting once |
| PyStr.StripBounds | get_tjnj_interactive.py:86 | `strip()` is a contiguous piece of its input, cut only at whitespace, and has no whitespace at either end |
| PyStr.Digits | get_tjnj_interactive.py:341 | the digit filter keeps only digits |
| PyStr.DigitsConcat | get_tjnj_interactive.py:341 | the digit filter works piecewise, so the digits of a key are kept in their order |
| PyStr.DigitsSingle | get_tjnj_interactive.py:341 | a single digit is kept and any other single character is dropped |
| PyStr.DigitsOfDigits | get_tjnj_interactive.py:341 | a string of digits passes the filter unchanged |
| Utf8.DecodeEncode | get_tjnj_interactive.py:85 | decoding the UTF-8 encoding of any string gives that string back |
| Utf8.DecodedIsEncoding | get_tjnj_interactive.py:85 | whatever decodes to `s` is exactly the encoding of `s`, so decoding is injective |
| Utf8.EncodeAscii | get_tjnj_interactive.py:85 | ASCII bytes are their own UTF-8 encoding |
| Percent.DecodeEncodeBytes | get_tjnj_interactive.py:85 | percent-decoding undoes percent-encoding for any byte string |
| Percent.UnquoteQuote | get_tjnj_interactive.py:85 | unquoting a quoted identifier yields the identifier |
| Percent.UnquotePlain | get_tjnj_interactive.py:85 | an identifier without `%` unquotes to itself |
| Percent.UnquoteExact | get_tjnj_interactive.py:85 | unquoting succeeds with `t` exactly when the percent-decoded bytes are the UTF-8 encoding of `t` |
| Names.IdentBetween | get_tjnj_interactive.py:84 | with the last `.` after the last `/`, the identifier is the text between them, holds no `/`, and root + identifier + extension is the link |
| Names.IdentNoSlash | get_tjnj_interactive.py:84 | with no `/` the identifier starts at the beginning |
| Names.IdentDotBeforeSlash | get_tjnj_interactive.py:84 | with the last `.` before the last `/` the identifier is empty |
| Names.IdentNoDot | get_tjnj_interactive.py:84 | with no `.` the identifier runs from after the last `/` and drops the link's last character |
| Names.RootIsDirectory | get_tjnj_interactive.py:98 | the root is the prefix through the last `/`, ends in `/` when there is one, and is empty otherwise |
| Names.KeyExt | get_tjnj_interactive.py:336-337 | key followed by extension is the file name |
| Names.KeyOfSaved | get_tjnj_interactive.py:69 | a file saved as identifier plus a one-dot extension has that identifier as its key |
| Names.StripIdempotent | get_tjnj_interactive.py:86 | stripping twice is stripping once |
| Names.CleanLabelIdempotent | get_tjnj_interactive.py:86 | a cleaned label holds none of the `clean_n` characters, and cleaning it again changes nothing |
| Names.JsChapterSuffixOfHandler | get_tjnj_interactive.py:198 | the handler `location.href='p'` yields `p` when `p` has no quote and no second handler prefix |
| Names.ZjExcelUrlOfMenuItem | get_tjnj_interactive.py:245 | the menu item `./html/<name>.html` becomes the link's directory + `/excel/<name>.xlsx` |
| Names.ZjIdentOfMenuItem | get_tjnj_interactive.py:245-246 | the identifier of that spreadsheet link is `<name>` |
| Names.DropOpenedFlagOnce | get_tjnj_interactive.py:132 | a record holding the `"opened"` flag once loses exactly that flag |
| Pages.AccumulateOutcome | get_tjnj_interactive.py:81-88 | the loop raises exactly when some element raises, with the first element's error; otherwise the page list is the found entries in element order |
| Pages.FailurePersists | get_tjnj_interactive.py:85 | once an element has raised, later elements change nothing |
| Pages.AccumulateRenames | get_tjnj_interactive.py:88 | the rename map's keys are the labelled identifiers, each mapped to the label of its last occurrence (last write wins) |
| Pages.EveryPageNamed | get_tjnj_interactive.py:87-88 | when every found element has a label, every page's identifier is a key of the rename map |
| Pages.NoLabelsNoRenames | get_tjnj_interactive.py:244-248 | with no labels the rename map is empty |
| Pages.FlattenConcat | get_tjnj_interactive.py:206-209 | chapter after chapter, the elements are read in chapter order |
| Pages.ChapterPages | get_tjnj_interactive.py:206-215 | a property every chapter's found entries have holds for every page of the chapter loop, and every page is named |
| Extractors.GetPagesStd | get_tjnj_interactive.py:73-90 | the standard loop's result is the fold over its anchors |
| Extractors.PageOrder | get_tjnj_interactive.py:81-87 | the pages' links are the non-empty hrefs, in anchor order |
| Extractors.StdFailure | get_tjnj_interactive.py:85 | the standard extractor raises exactly when some non-empty href has an identifier that does not decode |
| Extractors.StdPages | get_tjnj_interactive.py:80-90 | on success the page links are the non-empty hrefs in order, each identifier is its link's decoded identifier, and each is a rename key |
| Extractors.GetPagesAh06 | get_tjnj_interactive.py:93-116 | the dtree loop's result is the fold over its records |
| Extractors.Ah06Pages | get_tjnj_interactive.py:98-113 | every page link starts with the frame's root, its identifier is the link's identifier, and it is a rename key |
| Extractors.GetPagesAh23 | get_tjnj_interactive.py:119-141 | the 2023+ loop's result is the fold over its flag-stripped records |
| Extractors.Ah23Pages | get_tjnj_interactive.py:126-139 | every page link starts with the root + `statics/`, its identifier is the key of the relative link, and it is a rename key |
| Extractors.ChapterHrefs | get_tjnj_interactive.py:164-168 | the chapter list is the non-empty hrefs, in order |
| Extractors.GetPagesAh04 | get_tjnj_interactive.py:144-184 | menu-font anchors are read as standard when there are any; otherwise every chapter's `hf` links are read in chapter order |
| Extractors.ReadHfLink | get_tjnj_interactive.py:174-182 | one `hf` link is unquoted, parsed and resolved against its chapter's root, and a found one carries a title |
| Extractors.GetPagesAh04Chapters | get_tjnj_interactive.py:169-182 | the chapter loop's result is the fold over all chapters' links, in order |
| Extractors.Ah04Pages | get_tjnj_interactive.py:153-182 | every page's identifier is a rename key; in the chapter layout it is its link's identifier |
| Extractors.GetPagesJs | get_tjnj_interactive.py:187-217 | the chapter URLs are root + cleaned handler, and the result is the fold over every chapter's links in order |
| Extractors.JsPages | get_tjnj_interactive.py:206-215 | every page's identifier is its link's decoded identifier and a rename key |
| Extractors.GetPagesZj | get_tjnj_interactive.py:220-250 | framed sites are read as standard from the excel menu or the contents frame; listed sites from their menu items, raising at an item without `main` |
| Extractors.ZjMissingMainFails | get_tjnj_interactive.py:245 | a 2020+ menu item without a `main` attribute makes the extractor raise |
| Extractors.ZjFramedPages | get_tjnj_interactive.py:227-237 | on a framed site every page's identifier is its link's decoded identifier and a rename key |
| Extractors.ZjListedPages | get_tjnj_interactive.py:240-250 | on a 2020+ site the rename map is empty and every identifier is its link's decoded identifier |
| Extractors.ZjMenuItemHarvest | get_tjnj_interactive.py:245-248 | the menu item `./html/<name>.html` yields the page `.../excel/<name>.xlsx` with identifier `<name>` and no title |
| Scrape.FirstMatchIndex | get_tjnj_interactive.py:363-392 | first-match picks the rule of the first guard that holds, and "unrecognised" when none does |
| Scrape.DispatchIsFirstMatch | get_tjnj_interactive.py:363-392 | the decision chain is first-match over the layouts in the order the script probes them |
| Scrape.UnrecognisedIff | get_tjnj_interactive.py:390-392 | no layout is recognised exactly when none of the seven top-level probes holds |
| Scrape.GetPages | get_tjnj_interactive.py:363-392 | the probing method returns the dispatched layout and that layout's extractor result |
| Scrape.DownloadIffPages | get_tjnj_interactive.py:395-396 | missing files are looked for exactly when extraction returned a non-empty page list |
| Scrape.RenameIffMap | get_tjnj_interactive.py:399-402 | the rename question is asked exactly when the map is non-empty and the input did not run out, and renaming runs exactly when its answer is `y` |
| Scrape.UnrecognisedDoesNothing | get_tjnj_interactive.py:390-402 | an unrecognised yearbook yields no pages, no map, no download and no rename |
| Scrape.PagesNamed | get_tjnj_interactive.py:363-392 | outside the 2020+ Zhejiang layout every page's identifier is a rename key; in that layout the map is empty |
| Scrape.Scrape | get_tjnj_interactive.py:348-404 | a run follows the specified run, and each download round processes exactly that round's missing pages |
| Subpage.Classify | get_tjnj_interactive.py:286-327 | ordered routing, each rule taken exactly when no earlier one applies: `.xls` downloads; otherwise images and documents are saved under `f` unless disabled; otherwise `.htm` pages open their first spreadsheet link, else save the table unless disabled, else save the page unless disabled; no action exactly when none of these applies |
| Subpage.SpreadsheetLinkDownloads | get_tjnj_interactive.py:288-290 | a `.xlsx` link is downloaded by the browser whatever the switches and the page |
| Subpage.SavedUnderIdent | get_tjnj_interactive.py:292-325 | images, documents and tables are saved in the directory with key `f`; a saved HTML page has the link's raw identifier as its key |
| Subpage.HtmlDestKey | get_tjnj_interactive.py:318-320 | a saved HTML page is named after the link's last segment |
| Reconcile.GetDownloaded | get_tjnj_interactive.py:65-70 | the loop collects one key per file of the listing |
| Reconcile.DownloadedIff | get_tjnj_interactive.py:69 | a key counts as downloaded exactly when some file of the listing has it |
| Reconcile.MissingIff | get_tjnj_interactive.py:258 | a page is missing exactly when it is on the list and its identifier has no file |
| Reconcile.MissingConcat | get_tjnj_interactive.py:258 | the filter works piecewise, so it keeps the list's order |
| Reconcile.NothingMissing | get_tjnj_interactive.py:258-260 | nothing is missing exactly when every identifier has a file |
| Reconcile.MissingIdempotent | get_tjnj_interactive.py:258 | filtering the missing pages again changes nothing |
| Reconcile.SavedPageNotMissing | get_tjnj_interactive.py:282-283 | a page whose file is in the next listing is no longer missing |
| Reconcile.ConfirmLoop | get_tjnj_interactive.py:260-283 | the loop reads two answers per round; it completes with nothing missing, stops after a reply other than `y`, or ends when the answers run out |
| Reconcile.ConfirmLoopRounds | get_tjnj_interactive.py:265-277 | every round ran over what that directory reading left missing, after a `y` to the download question |
| Reconcile.ConfirmLoopEnding | get_tjnj_interactive.py:260 | the loop completes exactly when the last directory reading leaves nothing missing |
| Reconcile.NothingToDo | get_tjnj_interactive.py:257-260 | with every page already on disk no question is asked and no round runs |
| Reconcile.ProcessedOnlyMissing | get_tjnj_interactive.py:276-277 | every processed page is on the list and had no file at the start of its round |
| Reconcile.CompleteMeansAllSaved | get_tjnj_interactive.py:281-283 | when the loop completes, every page's identifier has a file |
| Reconcile.DownloadMissing | get_tjnj_interactive.py:253-283 | the method follows the specified session and processes each round's missing pages in order |
| Reconcile.ReadMissing | get_tjnj_interactive.py:282-283 | one re-reading computes the missing filter over the new listing |
| Reconcile.ProcessMissing | get_tjnj_interactive.py:276-277 | every missing page gets its `process_subpage` action, in order |
| Renamer.NewStem | get_tjnj_interactive.py:338-342 | a label starting with a digit is the new stem; any other label follows the key's digits and a space |
| Renamer.RenameOf | get_tjnj_interactive.py:333-345 | a file fails exactly when its key has no label or an empty one; otherwise it is moved from `path/name` to `path/` + new stem + extension, for dotless names too |
| Renamer.RenameKeepsExtension | get_tjnj_interactive.py:336-342 | a renamed file keeps its directory and extension, and its new key is the label, prefixed by the key's digits and a space when the label does not start with a digit |
| Renamer.RenameWithTableNumber | get_tjnj_interactive.py:341-342 | `tab1_3.xls` labelled with a title becomes `13 <title>.xls` |
| Renamer.RenameWithNumberedLabel | get_tjnj_interactive.py:338-339 | a label that starts with a digit replaces the whole stem |
| Renamer.SavedFileRenamed | get_tjnj_interactive.py:336-339 | a file saved under a labelled identifier is renamed |
| Renamer.Rename | get_tjnj_interactive.py:330-345 | every file of the listing is handled on its own, in listing order |
| Cli.YearsAccepted | get_tjnj_interactive.py:434-446 | the year loop ends exactly when 1998 <= start <= end <= 2025 |

## Left out

- Browser control is not modelled: Selenium setup, proxy options, `driver.get`, frame switching, element lookups and `page_source`. What the browser would return is input data.
- `time.sleep` is left out because it only affects timing.
- The file and network side effects of `process_subpage` are left out: `urlretrieve`, `pandas.read_html`/`to_csv` and `open(..., "x")`. The model gives the action and its target path. The exceptions these calls raise are caught in the script and do not change the control flow.
- `os.listdir` is an input listing. `os.mkdir` (`get_path`) is not modelled.
- `os.rename`'s overwrite and error behaviour is not modelled. A listing entry that is a directory is treated like a file name.
- `re.findall` and `ast.literal_eval` on the embedded menu scripts are not modelled. The parser is a function parameter returning an optional record; a parse failure is an exception that ends the extractor.
- `init_sel`, `urls.json` loading and the prompt loops of the main program (lines 410-469) are not modelled, apart from the year-range check. This covers directory, province, year parsing, proxy and the missing-URL questions.
- The `URLs[prov][y]` lookup in `scrape` (line 355) is not modelled; it reads module-level state of the main loop.
- Printed messages, including the "List missing files?" listing, are not modelled. Only the answer's effect on how many answers are consumed is kept.
- An `input()` that finds no answer ends the run. The model returns it as the session ending `InputExhausted`.
- A saved table is written once to `f.csv`. The script writes every dataframe of the page's first table to that same path, so only the last one survives.
- `Cli.YearsAccepted` follows the code's lower bound of 1998, although the script's message says 1999.
- `PyStr.Lower` lower-cases only ASCII letters. Python's `lower()` also maps non-ASCII capitals, which the script's patterns (`.xls`, `.htm`, ...) never contain.
- `PyStr.IsDigit` accepts only `0`-`9`. Python's `isdigit()` also accepts other Unicode digits, such as superscripts and full-width digits.
- `Percent.Unquote` decodes `%` followed by two hex digits. Any other `%` is kept as is, as `unquote_to_bytes` does. Strict UTF-8 decoding rejects surrogates and overlong forms.
