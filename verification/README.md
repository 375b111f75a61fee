# Image metadata registry — a Dafny model

The application lets a user drop image files into a browser page, keeps an
in-memory list of image records (id, file, title, description, keywords)
with one selected record shown in an editor, asks an external generator
(the Gemini API) for a title, description and keywords of every record that
has no title yet, and exports the records as a CSV file. This project models
the deterministic core of that page as pure functions over immutable data:

- `wrappers.dfy` — `Option`.
- `strings.dfy` — the JavaScript string operations the core relies on:
  `Array.prototype.join`, `startsWith`, a global replace with a literal
  pattern (`ReplaceAll`, leftmost non-overlapping matches, scanning resumes
  after each replacement), and `String.prototype.trim` with the ECMAScript
  white-space and line-terminator set.
- `registry.dfy` — the record list and the selected id, and the transitions
  the page performs on them: intake of a dropped batch, clear-all, select,
  the editor's field updates, adding a keyword (directly or from the
  keyword box) and removing one with the full index semantics of
  `Array.prototype.splice(index, 1)`. The registry invariant `Valid`
  (distinct non-empty ids, a selection exactly when there are records, the
  selected id present) and `KeywordsUnique` are proved to be kept by every
  transition that keeps them in the code.
- `generation.dfy` — the Generate button: the API-key guard and the
  sequential pass as a fold over injected generator outcomes (`Failure` for
  a thrown error, `NullResult` for a falsy parse result, `Success`), with
  abort on the first failure.
- `fences.dfy` — the clean-up of the generator's reply before it is parsed
  as JSON: remove every "```json", then every "```", then trim.
- `csv.dfy` — the CSV export, a reader in the style of section 2 of RFC 4180
  (with line feed as record separator), and what the reader recovers from
  the export.
- `settings.dfy` — loading the API key and model from storage with their
  defaults, and the Save button of the settings dialog.

Browser storage, the confirmation dialog, the clock-and-random id
generator and the generator's replies are parameters: `Storage`, the
`confirmed` flag of `ClearAll`, the `ids` of `Intake`, and the `outcomes`
of `Generate`.

Three behaviours of the code worth noting, which the model keeps:

- Intake selects the first record of the whole list (`images[0]`) when
  nothing is selected, not the first new one; under the registry invariant
  the two coincide (`Registry.IntakeSelectsFirstNew`).
- Keywords are kept free of duplicates by the editor, but the generation
  pass stores the generator's keyword list as it comes, so a record can end
  up with a repeated keyword (`Generation.GenerationMayRepeatKeywords`).
- The CSV export doubles quotes only in title and description; keywords are
  quoted without doubling and the file name is written as it is. Lines are
  separated by a line feed, not the CRLF of section 2, rule 1 of RFC 4180
  (see "## Findings").

## Model

| member | source | states |
|---|---|---|
| Registry.FindIndex | script.js:145 | lookup by id finds the first record with that id, and finds nothing exactly when no record has it |
| Registry.ImageFiles | script.js:75 | the accepted files are image files of the batch, every image file of the batch is accepted, nothing else is |
| Registry.ImageFilesAppend | script.js:75 | filtering keeps input order: the accepted files of two batches in a row are those of the first followed by those of the second |
| Registry.NewImages | script.js:79-90 | one new record per accepted file, in order, with the supplied id, the file, empty title, empty description and no keywords |
| Registry.Intake | script.js:74-100 | a batch without image files changes nothing; otherwise existing records are kept as a prefix and one fresh record per image file follows; an existing selection is kept, and with none the first record becomes selected; the registry invariant and keyword uniqueness are kept |
| Registry.IntakeStatus | script.js:83-90 | every record an intake adds starts Pending (its title is empty), and the records already there keep their status |
| Registry.IntakeSelectsFirstNew | script.js:93-95 | when nothing is selected the first record of the new batch becomes the selection |
| Registry.ClearAll | script.js:63-70 | on confirmation no records and no selection remain; without it nothing changes |
| Registry.Select | script.js:137-140 | the records are untouched and the given id becomes the selection; selecting an existing id keeps the invariant |
| Registry.SelectedImage | script.js:142-146 | without a selection (no id, or the empty id) the editor shows nothing; otherwise it shows a record whenever the selected id belongs to one, and any record it shows is in the list and carries the selected id |
| Registry.SelectShowsRecord | script.js:137-146 | selecting a record's non-empty id makes the editor show exactly that record |
| Registry.UpdateField | script.js:221-230 | an unknown id changes nothing; otherwise only the first record with the id changes, and only in the given field, which takes the new value |
| Registry.UpdateFieldStatus | script.js:125-126 | with distinct ids an edit reaches only the record with that id; after a title edit that record is Ready exactly when the new title is non-empty; a description edit changes no status |
| Registry.AddKeyword | script.js:232-238 | an unknown id or a keyword already present changes nothing; otherwise the keyword is appended to that record only; keyword uniqueness and the invariant are kept |
| Registry.AddKeywordIdempotent | script.js:232-238 | adding the same keyword twice is the same as adding it once |
| Registry.EnterKeyword | script.js:210-219 | the typed text is trimmed; a blank entry or no selection changes nothing; otherwise the trimmed entry is added to the selected record exactly as `AddKeyword` adds it (appended when absent, nothing else changes); the invariant and keyword uniqueness are kept |
| Registry.EnterThenRemove | script.js:192-219 | entering a keyword the selected record does not list and then removing that record's last keyword gives back the registry as it was |
| Registry.SpliceOne | script.js:195 | removing one element at an in-range index shifts the later elements left and removes exactly that element; an index past the end removes nothing; a negative index counts from the end, clamped to the first element |
| Registry.SpliceKeepsNoDuplicates | script.js:195 | removing a keyword never introduces a duplicate |
| Registry.RemoveKeyword | script.js:192-198 | without a selected record nothing changes; otherwise only the selected record's keyword list changes, by the splice at the index; invariant and keyword uniqueness are kept |
| Registry.RemoveKeywordInRange | script.js:192-198 | for an in-range index the selected record loses exactly that keyword, later keywords move one place left, and the list is one shorter |
| Generation.ApplyOutcome | script.js:347-354 | a record with a title is skipped; a success overwrites title, description and keywords; a falsy result leaves the record as it was; id and file never change |
| Generation.GenerationPass | script.js:346-360 | the pass stops at the first pending record whose call fails; every record before it has its outcome applied, the failing record and all later ones are untouched |
| Generation.PassMeetsUnique | script.js:346-360 | the position-wise description of the pass determines its result uniquely |
| Generation.GenerationPassAppend | script.js:346-360 | records are processed strictly in order: the pass over a split batch is the pass over the first part followed, unless it aborted, by the pass over the rest |
| Generation.Generate | script.js:333-373 | without an API key nothing changes and the settings dialog is requested; otherwise the records are the result of the pass as `PassMeets` describes it (outcomes applied before the first failing pending record, that record and later ones untouched), ids and selection are kept, and the run completes exactly when no pending record fails, else it reports the first failing record |
| Generation.GenerateStatus | script.js:346-354 | a Ready record stays Ready after a run; a Pending record reached before any failure whose call succeeds becomes Ready exactly when the generated title is non-empty |
| Generation.GenerateKeepsValid | script.js:333-373 | a run keeps the registry invariant |
| Generation.FirstSuccessKeptOnLaterFailure | script.js:346-360 | when the first call succeeds and the second fails, the first record keeps the generated metadata and the second stays empty |
| Generation.GenerationMayRepeatKeywords | script.js:350-353 | the pass can store a keyword list with a repeated keyword, which the keyword editor never produces |
| Strings.Trim | script.js:213 | the trimmed text is a contiguous part of the input with only white space removed on either side, and neither starts nor ends with white space |
| Strings.ReplaceAllAbsent | script.js:461 | a global replace of a pattern that does not occur returns the text unchanged |
| Fences.StripFences | script.js:424 | the cleaned reply contains no "```" and neither starts nor ends with white space |
| Fences.NoFenceLeft | script.js:424 | removing every "```" in one left-to-right pass leaves none behind |
| Fences.StripFencesPlain | script.js:424 | a reply without "```" loses only its surrounding white space |
| Fences.StripFencesBlock | script.js:424 | a backtick-free text wrapped in "```json" and "```" comes back as the trimmed text |
| Fences.StripFencesIdempotent | script.js:424 | cleaning an already cleaned reply changes nothing |
| Settings.Load | script.js:242-243 | the stored key or the empty string, and the stored model or "gemini-1.5-flash"; the model is never empty |
| Settings.Save | script.js:315-329 | the settings are saved exactly when the trimmed key is non-empty; then the trimmed key and the model become the settings and are stored; otherwise nothing changes |
| Settings.SaveThenLoad | script.js:242-243 | what a successful save stores is what the next start-up loads |
| Csv.GenerateCsv | script.js:456-469 | the export starts with the header line, is exactly the header line for no records, and otherwise ends with a record's closing quote (no trailing line feed) |
| Csv.GenerateCsvRoundTrip | script.js:456-469 | for records with a plain file name and no quote in any keyword, reading the export back gives the header names and then exactly one row per record, in order, holding its file name, title, description and keywords joined by ", " |
| Csv.KeywordQuoteSplitsRecord | script.js:463 | a record whose only keyword has the form `a",b` reads back as five fields, ending in `a` and `b"`, instead of its four |
| Csv.FilenameCommaSplitsRecord | script.js:460 | a record whose file name has the form `a,b` reads back as five fields, starting with `a` and `b`, instead of its four |
| Csv.GenerateCsvEscaped | script.js:456-469 | the corrected export keeps the header line, no trailing line feed, and the header alone for no records |
| Csv.GenerateCsvEscapedRoundTrip | script.js:456-469 | with every field escaped, reading the export back recovers each record's file name, title, description and keywords joined by ", ", whatever they contain |
| Csv.Export | script.js:449-454 | there is nothing to download exactly when there are no records; otherwise the downloaded document is the as-written export: it starts with the header, ends with a closing quote, and reads back as the records when every record has a plain file name and quote-free keywords |
| Csv.ExportEscaped | script.js:449-469 | the download with the corrected export: nothing for no records; otherwise a document that starts with the header and reads back as every record's four fields, whatever they contain |

## Left out

- Rendering and event wiring (record cards, keyword tags, upload zone, modal, drag and drop, the file-protocol warning): no logic beyond `Registry.StatusOf`.
- The network: the Gemini request, its URL and payload, the response-shape checks and the connectivity test (script.js:278-313, 375-431); the generator's reply is an injected `Outcome`.
- Reading a file as base64 (script.js:433-440) and `JSON.parse` (script.js:425): foreign library calls; a parse error is a `Failure` outcome.
- Browser storage, `alert` and `confirm`: storage is the `Storage` value and confirmation the `confirmed` flag.
- The download itself, `Blob` and object URLs (script.js:471-483, 81): browser I/O; records carry no URL.
- Id generation from the clock and a random number (script.js:80): ids are a parameter; `Registry.FreshIds` states what the invariant needs of them.
- The random keyword suggestions (script.js:155-172): non-deterministic shuffling; a click on a chip is `Registry.AddKeyword`.
- Asynchrony: the pass is a synchronous fold; a click arriving while a pass is running is not modelled.
- Generation.Generate: the generator's fields are taken to be strings; a reply missing a field, which would store `undefined`, is not modelled.
- Csv.GenerateCsvRoundTrip: holds only for records with a plain file name and quote-free keywords, because the export does not escape those two fields (see "## Findings").
- Csv.Export: reads back as the records only for records with a plain file name and quote-free keywords, for the reason given under Csv.GenerateCsvRoundTrip.
- Csv.GenerateCsvEscapedRoundTrip: recovers the keywords joined by ", ", not the list itself (`["a, b"]` and `["a", "b"]` give the same document), and the id and MIME type, which are not exported.
- Settings.SaveThenLoad: requires a non-empty model, because an empty stored model is replaced by the default on the next load.

## Findings

| source | as written | input that shows it | evidently intended | confidence | as-written member | corrected member |
|---|---|---|---|---|---|---|
| script.js:463 | the joined keywords are put between quotes without doubling the quotes inside them | a record whose only keyword is `x",y`: its line reads back as five fields, the last two `x` and `y"` | escape the keywords cell as title and description are escaped, so every record reads back as four fields | high, not executed | Csv.KeywordQuoteSplitsRecord | Csv.GenerateCsvEscapedRoundTrip |
| script.js:460 | the file name is written without quoting | a record with file name `x,y.jpg`: its line reads back as five fields, the first two `x` and `y.jpg` | quote and escape the file name as well | medium, not executed | Csv.FilenameCommaSplitsRecord | Csv.GenerateCsvEscapedRoundTrip |
