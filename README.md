# Clarence Council development-application scraper — verified model

The scraper reads the Clarence City Council's "advertised plans" page and
stores one row per planning application in the `clarence` table of
`data.sqlite`. Each anchor under `.doc-list` is one application: its text
reads `reference - address - description - closing date`. The scraper
skips anchors that hold an image, strips the text, splits it on the literal
`" - "`, strips each piece, and skips anything that does not give exactly
four pieces. It then builds the row: the address gets `", TAS"` appended,
the closing date is `Date.parse` printed as `YYYY-MM-DD` or the sentinel
`"Invalid Date"`, and every row carries the run's `date_scraped` and a null
`date_received`. A row is inserted only when no row with the same
`council_reference` exists.

The model:

- `ruby_text.dfy` (module `RubyText`): Ruby's `String#strip` and
  `String#split` with a literal pattern. `split` is the left-to-right,
  non-overlapping scan `SplitAll`, followed by dropping trailing empty
  fields, so `"".split(' - ')` is `[]`.
- `dates.dfy` (module `Dates`): dates as `Date#to_s` prints them
  (`YYYY-MM-DD`), and `ParseIso`, which reads that form back and accepts
  no other spelling of a date.
- `listing.dfy` (module `Listing`): an anchor (`Entry`), a stored row
  (`Row`), and `Decode`, which takes one anchor to a row or to the reason
  it is skipped.
- `store.dfy` (module `Store`): the table as the class `Table` with a
  `rows` field. `Select` models the existence query, `InsertIfAbsent`
  models check-then-insert, and `Process` is the listing loop. The
  functions `Step` and `Run` specify one iteration and a whole run over
  the decoded anchors (`Listing.DecodeAll`). The lemmas state what a run
  guarantees.

`Date.parse` and the resolution of an `href` against the page URI are
library calls. They are parameters of the model (`Env.parseDate`,
`Env.resolve`). The run date `Date.today` is the `today` parameter of
`Process`.

## Model

| member | source | states |
|---|---|---|
| `RubyText.Strip` | scraper.rb:68 | the stripped text is empty exactly when the input is all whitespace, and otherwise neither starts nor ends with whitespace |
| `RubyText.LeadingSpacesUnique` | scraper.rb:68 | the count of leading whitespace is exactly the length of the whitespace run before the first other character |
| `RubyText.TrailingSpacesUnique` | scraper.rb:68 | the count of trailing whitespace is exactly the length of the whitespace run after the last other character |
| `RubyText.StripExact` | scraper.rb:68 | whatever sits between two runs of whitespace, and neither starts nor ends with whitespace itself, is exactly what `strip` returns |
| `RubyText.StripDecomposes` | scraper.rb:68 | the input is whitespace, then the stripped text, then whitespace |
| `RubyText.StripIdempotent` | scraper.rb:68-69 | stripping twice is stripping once, so stripping each piece after the whole text loses nothing more |
| `RubyText.Split` | scraper.rb:69 | `String#split` with a literal pattern is the plain scan with its trailing empty fields dropped: the fields are a prefix of the scan, the last kept field is non-empty, and every dropped field is empty |
| `RubyText.JoinSplitAll` | scraper.rb:69 | joining the split fields with the separator gives the input back |
| `RubyText.SplitAllJoin` | scraper.rb:69 | splitting a join of separator-free fields gives those fields back |
| `RubyText.SplitAllFields` | scraper.rb:69 | no field of the scan contains the separator (not even overlapping the separator after it), so the text is cut at every occurrence, leftmost first; with `SplitAllJoin` this makes split and join inverse on separator-free fields |
| `RubyText.LastFieldEmpty` | scraper.rb:69 | the last field is empty only when the text is empty or ends with the separator |
| `RubyText.SplitNoTrailing` | scraper.rb:68-69 | on text not ending in the separator's last character, `split` keeps every field, except that `""` gives no fields |
| `Dates.Decimal` | scraper.rb:83 | the decimal numeral of a number is non-empty digits, with a leading zero only for zero itself |
| `Dates.Padded` | scraper.rb:83 | a number printed zero-padded is all digits, reads back as the same number, and is exactly as wide as asked unless its plain numeral is wider, in which case it is that numeral |
| `Dates.IsoRoundTrip` | scraper.rb:83 | `ToIso`, the `Date#to_s` form `YYYY-MM-DD`, reads back as the same date |
| `Dates.ParseIsoCanonical` | scraper.rb:83 | the printed form is the only text that reads back as a date: whatever `ParseIso` accepts is exactly `ToIso` of the date it returns |
| `Dates.PaddedValue` | scraper.rb:83 | a numeral of exactly the asked width, leading zeros included, is its value printed zero-padded to that width |
| `Dates.ToIsoInjective` | scraper.rb:83 | different dates print differently |
| `Listing.ClosingDate` | scraper.rb:82-86 | the stored closing date is the sentinel exactly when parsing fails; otherwise it reads back as the parsed date |
| `Listing.SentinelIsNotDate` | scraper.rb:85 | `"Invalid Date"` is never a printed date, so the two outcomes cannot be confused |
| `Listing.Name` | scraper.rb:68 | the anchor's name is its text stripped: no whitespace at either end, and empty exactly when the text is all whitespace |
| `Listing.Pieces` | scraper.rb:69 | `name.split(' - ').map(&:strip)` gives one piece per field of `split`, each without surrounding whitespace |
| `Listing.SplitTrimmed` | scraper.rb:68-69 | on stripped text, Ruby's `split` on `" - "` gives exactly the fields of the plain scan (none for `""`) |
| `Listing.FirstPieceNonEmpty` | scraper.rb:68-77 | when the text gives four pieces, the council reference is non-empty and has no surrounding whitespace |
| `Listing.Decode` | scraper.rb:67-88 | an anchor with an image is skipped; otherwise it decodes exactly when the split gives four pieces, and otherwise it is skipped with its name; a decoded row has a non-empty reference, the run's scrape date, no received date, a closing date that is a printed date or the sentinel, and the resolved link |
| `Listing.FourPieces` | scraper.rb:68-72 | when stripped text gives four pieces, they are the stripped fields of the plain scan, those fields are separator-free, and they join back into the text |
| `Listing.DecodedFromPieces` | scraper.rb:68-86 | every decoded row comes from four separator-free raw pieces that, joined with `" - "`, give back the stripped text; the reference, address (with `", TAS"`), description and closing date are those pieces stripped; with `DecodeJoined` this determines the row |
| `Listing.DecodeJoined` | scraper.rb:68-86 | conversely, stripped text made of four separator-free pieces decodes to exactly those pieces, mapped onto the row's columns |
| `Store.RowsWithReference` | scraper.rb:99 | the query returns exactly the rows with the reference; it is empty exactly when no row has it, and it holds at most one row when references are distinct |
| `Store.AddIfAbsent` | scraper.rb:99-110 | afterwards the reference is present; the table is unchanged when it was already there and grows by exactly the row otherwise; distinct references stay distinct |
| `Store.Step` | scraper.rb:67-110 | one loop iteration on a decoded anchor either leaves the table as it was or appends that anchor's row, and only when its reference was new; afterwards the decoded reference is present |
| `Store.AddIfAbsentFirstNew` | scraper.rb:99-110 | the check-then-insert of one more row extends the table exactly as one more candidate extends the first-new rows |
| `Store.StepReferences` | scraper.rb:66-110 | one loop iteration never loses a reference and always holds the reference of the row it decoded |
| `Store.RunExtends` | scraper.rb:66-112 | `Run`, the whole listing loop, only appends: earlier rows are kept unchanged, and each entry adds at most one row |
| `Store.RunKeepsDistinct` | scraper.rb:99-110 | references stay pairwise distinct across a run |
| `Listing.DecodeReferenceStable` | scraper.rb:67-77 | whether an anchor decodes, and to which reference, does not depend on the run date, the date parser or the page URI |
| `Store.RunNewRows` | scraper.rb:66-105 | every row a run adds is the row of one of the decoded anchors |
| `Store.RunRowFields` | scraper.rb:61-105 | every row a run over a listing adds carries the run's scrape date, a null received date, a non-empty reference and a closing date that is a printed date or the sentinel |
| `Store.RunCovers` | scraper.rb:99-110 | after a run, the reference of every anchor that decodes is in the table |
| `Store.RunUnchanged` | scraper.rb:99-110 | a run over anchors whose references are all present leaves the table as it was |
| `Store.RunIdempotent` | scraper.rb:61-112 | running the same listing a second time inserts nothing, even on another day or with another date parser |
| `Store.RunAppend` | scraper.rb:66 | entries are handled one after another: a run over two halves of a listing is the run over the whole |
| `Store.SkippedEntryIgnored` | scraper.rb:67-75 | an anchor that decodes to a skip (image link or malformed text) leaves the table unchanged and does not affect the anchors after it |
| `Store.FirstNewReferences` | scraper.rb:99-110 | for a reference not yet stored, the rows a run keeps hold it exactly when some decoded entry has it |
| `Store.RunOrder` | scraper.rb:66-110 | the rows a run adds are exactly the decoded rows whose reference is new, each at its first occurrence, in document order |
| `Store.Table.constructor` | scraper.rb:28-47 | the table starts with the rows already stored |
| `Store.Table.Select` | scraper.rb:99 | the scan returns exactly the rows the query specifies |
| `Store.Table.InsertIfAbsent` | scraper.rb:99-110 | inserts exactly when no row has the reference, and then appends the row; otherwise the table is unchanged |
| `Store.Table.Process` | scraper.rb:61-112 | the table after the loop is the run over the decoded anchors in document order, with the run date printed once for all of them; distinct references stay distinct |

## Left out

- Fetching the page with open-uri and exiting when that fails (scraper.rb:14-22): network I/O. The model starts from the list of anchors.
- Nokogiri parsing and the `.doc-list a` / `img` selection (scraper.rb:25, 66-67): foreign library calls. Each anchor is an `Entry` with its text, an `hasImg` flag and its `href`.
- `Date.parse` (scraper.rb:83): locale-dependent library parsing, kept as the parameter `Env.parseDate`. `None` stands for the `ArgumentError` it raises. Only the split between a parsed date and the sentinel is modelled.
- `Dates.ToIso`: years before year 0 (which `Date#to_s` prints with a minus sign) are not modelled. Dates are `nat` years on the proleptic Gregorian calendar, while Ruby's `Date` switches to the Julian calendar before 1582.
- Resolving `href` against the page URI (scraper.rb:88): relative reference resolution as in section 5.2 of RFC 3986, kept as the parameter `Env.resolve`. An anchor without `href`, or an `href` that is not a valid URI, would raise in the scraper; this is not modelled.
- SQLite setup, DDL and SQL execution (scraper.rb:28-47, 99-105): the table is an in-memory sequence of rows. The surrogate `id` column and the DDL columns the insert never writes (`applicant`, `owner`, `stage_description`, `stage_status`, `document_description` and `title_reference`, which stay NULL) are not represented.
- The insert names an `application_url` column that the CREATE TABLE does not declare (scraper.rb:44, 103), so the real insert would raise. The model keeps the intended insert-if-absent with an `applicationUrl` column. It adds no error handling, because the code has none.
- Logging (scraper.rb:9, 73, 91-96, 107-109): output only.
- `RubyText.Split`: a single-space pattern, which switches Ruby to whitespace splitting, is excluded by its precondition; the scraper only splits on `" - "`.
- Concurrency: the check-then-insert is not atomic in the scraper either; the model is single-threaded.
