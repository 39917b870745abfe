# SEMrush position-tracking tag generator, modelled in Dafny

The tag generator reads a table with the columns `Content Type`, `Date` and
`Target Keyword` and derives, per row, one `Full Tag` of the form
`"<keyword>, <month><year>, <New|Existing|Unknown>, <Post|Page|Unknown>"`,
e.g. `seo tips, mar2024, New, Post`. This project models the transformation
core of `semrush-position-tracking-tag-generator.py` (lines 8-55) and proves
what it does:

- `wrappers.dfy` (`Wrappers`): `Option` (a cell that may hold no text) and `Result`.
- `classify.dfy` (`Classify`): Python's `pat in text` as an executable search
  proved against "some occurrence exists", and the two ordered,
  case-sensitive classifiers `get_new_existing_tag` and `get_post_page_tag`.
- `date_format.dfy` (`DateFormat`): `format_date`, i.e.
  `datetime.strptime(text, "%m/%d/%Y")` followed by `strftime("%b%Y").lower()`,
  with `None` for a cell that is not text. The parser follows CPython's
  `_strptime`: `%m` is `1[0-2]|0[1-9]|[1-9]`, `%d` is
  `3[01]|[12]\d|0[1-9]|[1-9]| [1-9]`, `%Y` is four digits; the match is taken
  at the start of the text, text left after it raises, and the fields then pass
  `datetime.date`'s checks (year at least 1, day within the month, Gregorian
  leap years). The main theorem, `StrptimeAccepts`, says that `strptime` yields
  the date `d` exactly when `d` is a valid date and the text writes it in one of
  the forms the format allows.
- `tag_generator.dfy` (`TagGenerator`): the row type, the tag template and a
  right-to-left reader that inverts it, the specification `Process` of
  `process_data`, and the method `ProcessData` that performs it column by
  column as the source does (the two classifier columns, the formatted-date
  column in `FormatDates`, the `dropna` and the `Full Tag` projection in
  `FullTags`), proved equal to `Process`.

Behaviour worth knowing, stated as the code has it:

- A `Date` cell that is text but not a date in the format (`"not-a-date"`,
  `"13/01/2024"`, `"02/30/2023"`, `""`) makes `strptime` raise; nothing
  catches it, so `process_data` fails as a whole (`Outcome.Failed`, carrying
  the first such row's reason). Only cells that are not text (a missing cell)
  give `None` and are dropped. The comment on line 45 speaks of dropping rows
  whose date "could not be formatted"; the model follows the code, which
  drops only non-text cells.
- The format is looser than "two-digit month and day": `strptime` also
  accepts `1/5/2024` and a space-padded day such as `12/ 5/1999`.
- The keyword is not escaped. A keyword holding `", "` still yields a tag
  whose four fields can be read back when splitting from the right
  (`SplitFullTag`), because a formatted date and the labels hold no comma.

## Model

| member | source | states |
|---|---|---|
| `Classify.ContainsFrom` | semrush-position-tracking-tag-generator.py:9 | the search from index k answers true exactly when the pattern occurs at some index at or after k |
| `Classify.HasSubstring` | semrush-position-tracking-tag-generator.py:9 | Python's `pat in text` is true exactly when the pattern occurs somewhere in the text |
| `Classify.NewExistingTag` | semrush-position-tracking-tag-generator.py:8-14 | `New` exactly when "New" occurs; `Existing` exactly when "New" is absent and "Update" occurs; `Unknown` exactly when neither occurs |
| `Classify.PostPageTag` | semrush-position-tracking-tag-generator.py:16-22 | `Post` exactly when "Post" occurs; `Page` exactly when "Post" is absent and "Page" occurs; `Unknown` exactly when neither occurs |
| `Classify.NoveltyLabel` | semrush-position-tracking-tag-generator.py:10-14 | the words the source writes for the novelty column; each is non-empty and holds no comma, which `TagGenerator.SplitFullTag` relies on |
| `Classify.PlacementLabel` | semrush-position-tracking-tag-generator.py:18-22 | the words the source writes for the placement column; each is non-empty and holds no comma, which `TagGenerator.SplitFullTag` relies on |
| `Classify.EmptyContentTypeIsUnknown` | semrush-position-tracking-tag-generator.py:8-22 | the empty content type is `Unknown` for both classifiers |
| `Classify.SampleNewPost` | semrush-position-tracking-tag-generator.py:8-22 | "New Post" is classified New and Post |
| `Classify.SampleUpdatePage` | semrush-position-tracking-tag-generator.py:8-22 | "Update Page" is classified Existing and Page: the second rule applies when the first keyword is absent |
| `Classify.SampleRandomText` | semrush-position-tracking-tag-generator.py:8-22 | "Random text" is Unknown for both classifiers |
| `Classify.CaseSensitive` | semrush-position-tracking-tag-generator.py:9-19 | "new post" is Unknown for both classifiers: matching is case-sensitive |
| `Classify.NewWinsAnywhere` | semrush-position-tracking-tag-generator.py:9-10 | any text containing "New", also after "Update", is classified `New` |
| `Classify.PostWinsAnywhere` | semrush-position-tracking-tag-generator.py:17-18 | any text containing "Post", also after "Page", is classified `Post` |
| `DateFormat.DaysInMonth` | semrush-position-tracking-tag-generator.py:26 | every month has 28 to 31 days |
| `DateFormat.IsLeapYear` | semrush-position-tracking-tag-generator.py:26 | definition: the Gregorian leap-year rule; `DateFormat.LeapDayRule` gives it meaning |
| `DateFormat.ValidDate` | semrush-position-tracking-tag-generator.py:26 | definition: the checks `datetime.date` makes (year in 1..9999, month in 1..12, day within its month); `DateFormat.LeapDayRule` and `DateFormat.StrptimeAccepts` give it meaning |
| `DateFormat.LeapDayRule` | semrush-position-tracking-tag-generator.py:26 | February 29th is a valid date exactly in the Gregorian leap years between 1 and 9999 |
| `DateFormat.MatchMonth` | semrush-position-tracking-tag-generator.py:26 | `%m` read by its alternatives in order; a match lies inside the text, and `DateFormat.MatchMonthReads` and `DateFormat.MatchMonthText` show it reads exactly the spellings of its month |
| `DateFormat.MatchDay` | semrush-position-tracking-tag-generator.py:26 | `%d` read by its alternatives in order; a match lies inside the text, and `DateFormat.MatchDayReads` and `DateFormat.MatchDayText` show it reads exactly the spellings of its day |
| `DateFormat.MatchYear` | semrush-position-tracking-tag-generator.py:26 | `%Y` read as four digits; a match spans four characters and gives a year below 10000, and `DateFormat.MatchYearReads` and `DateFormat.MatchYearPad4` show those digits are the zero-padded year |
| `DateFormat.MatchMonthReads` | semrush-position-tracking-tag-generator.py:26 | the characters a `%m` match spans write its month value as "07", "7" or "12" |
| `DateFormat.MatchDayReads` | semrush-position-tracking-tag-generator.py:26 | the characters a `%d` match spans write its day value as "05", "5", " 5" or "31" |
| `DateFormat.MatchYearReads` | semrush-position-tracking-tag-generator.py:26 | the four digits a `%Y` match spans print back as its year value |
| `DateFormat.MatchFormat` | semrush-position-tracking-tag-generator.py:26 | a match of the whole format ends inside the text with a month in 1..12, a day in 1..31 and a year below 10000 |
| `DateFormat.MatchFormatSound` | semrush-position-tracking-tag-generator.py:26 | whatever the format matches starts with a date written in it (month, '/', day, '/', four-digit year), and the match ends where that date does |
| `DateFormat.Strptime` | semrush-position-tracking-tag-generator.py:26 | every date `strptime` returns is a valid calendar date (year at least 1, day within its month) |
| `DateFormat.StrptimeSound` | semrush-position-tracking-tag-generator.py:26 | a text `strptime` accepts writes the returned date in the format |
| `DateFormat.MatchFormatOfPrefix` | semrush-position-tracking-tag-generator.py:26 | a text that starts with a date written in the format is matched as that date, up to the end of the date's year |
| `DateFormat.MatchFormatOfSpelling` | semrush-position-tracking-tag-generator.py:26 | a valid date written in any form the format allows is matched as that date, up to the end of the text |
| `DateFormat.StrptimeComplete` | semrush-position-tracking-tag-generator.py:26 | every valid date, written in any form the format allows, is parsed as that date |
| `DateFormat.StrptimeAccepts` | semrush-position-tracking-tag-generator.py:26 | `strptime` returns d if and only if d is valid and the text writes d in the format |
| `DateFormat.StrptimeRejects` | semrush-position-tracking-tag-generator.py:26 | for every text that starts with fields in the format, the error it raises: unconverted data when text follows the year, otherwise year out of range for year 0 and day out of range for a day past the end of its month |
| `DateFormat.StrptimeNoMatch` | semrush-position-tracking-tag-generator.py:26 | `strptime` raises "does not match format" exactly when no prefix of the text writes a month, day and four-digit year in the format |
| `DateFormat.MonthAbbrev` | semrush-position-tracking-tag-generator.py:27 | the lowered `%b` of a month is three characters |
| `DateFormat.Pad4` | semrush-position-tracking-tag-generator.py:27 | `%Y` of a year below 10000: four digits, zero-padded; `DateFormat.Pad4Injective` and `DateFormat.MatchYearPad4` show `%Y` reads them back |
| `DateFormat.FormatDate` | semrush-position-tracking-tag-generator.py:24-28 | `None` exactly for a non-text cell; a formatted date is always seven characters |
| `DateFormat.FormatDateOfSpelling` | semrush-position-tracking-tag-generator.py:24-27 | a valid date written in the format becomes its month abbreviation followed by its four-digit year |
| `DateFormat.FormatDateOfText` | semrush-position-tracking-tag-generator.py:24-27 | a text cell is formatted exactly when it writes some valid date, otherwise `strptime` raises; the result ends with the cell's own four year digits |
| `DateFormat.FormattedText` | semrush-position-tracking-tag-generator.py:27 | a formatted date is a month abbreviation followed by four digits, and holds no comma |
| `DateFormat.FormatDateOfMissing` | semrush-position-tracking-tag-generator.py:25-28 | a non-text cell gives `None`, never an error |
| `DateFormat.SampleJanuary` | semrush-position-tracking-tag-generator.py:24-27 | "01/15/2024" gives "jan2024" |
| `DateFormat.SampleMarch` | semrush-position-tracking-tag-generator.py:24-27 | "03/05/2024" gives "mar2024" |
| `DateFormat.OneDigitFields` | semrush-position-tracking-tag-generator.py:26 | "1/5/2024" is accepted and gives "jan2024" |
| `DateFormat.SpacePaddedDay` | semrush-position-tracking-tag-generator.py:26 | "12/ 5/1999" is accepted and gives "dec1999" |
| `DateFormat.NonLeapCentury` | semrush-position-tracking-tag-generator.py:26 | "02/29/1900" raises: day out of range |
| `DateFormat.NoFebruary30` | semrush-position-tracking-tag-generator.py:26 | "02/30/2023" raises: day out of range |
| `DateFormat.NoYearZero` | semrush-position-tracking-tag-generator.py:26 | "01/01/0000" raises: year out of range |
| `DateFormat.NoMonth13` | semrush-position-tracking-tag-generator.py:26 | "13/01/2024" raises: does not match the format |
| `DateFormat.NoDateText` | semrush-position-tracking-tag-generator.py:26 | "not-a-date" raises: does not match the format |
| `DateFormat.NoEmptyText` | semrush-position-tracking-tag-generator.py:26 | "" raises: does not match the format |
| `DateFormat.NoTrailingText` | semrush-position-tracking-tag-generator.py:26 | "01/15/20245" raises: unconverted data remains |
| `TagGenerator.FullTag` | semrush-position-tracking-tag-generator.py:50 | definition: the f-string template; `TagGenerator.SplitFullTag` proves it can be read back |
| `TagGenerator.SplitFullTag` | semrush-position-tracking-tag-generator.py:50 | the tag template is inverted by splitting at the last three separators, whatever the keyword holds, when the date holds no comma |
| `TagGenerator.RowTag` | semrush-position-tracking-tag-generator.py:49-51 | definition: the row lambda, filling the template from the row's own keyword and content type; `TagGenerator.TagsOfKept` and `TagGenerator.TagsReadBack` use it |
| `TagGenerator.DateColumn` | semrush-position-tracking-tag-generator.py:43 | definition: `format_date` applied to each `Date` cell; `TagGenerator.FormatDates` computes it in a loop, and `TagGenerator.Process` and `TagGenerator.KeptTextDates` state what it implies |
| `TagGenerator.FirstRaised` | semrush-position-tracking-tag-generator.py:43 | finds the first row whose date `strptime` rejects, and none exactly when no date is rejected |
| `TagGenerator.Process` | semrush-position-tracking-tag-generator.py:37-55 | fails exactly when some row's date text is rejected, with the reason of a rejected row before which no date is rejected |
| `TagGenerator.FormatDates` | semrush-position-tracking-tag-generator.py:43 | the column loop yields the whole formatted-date column when no date is rejected, and otherwise the reason of the first rejected row |
| `TagGenerator.FullTags` | semrush-position-tracking-tag-generator.py:46-52 | the row loop over the kept rows yields the `Full Tag` column that `Tags` specifies |
| `TagGenerator.ProcessData` | semrush-position-tracking-tag-generator.py:37-55 | the column-by-column computation (classifier columns, formatted-date column with its exception, `dropna`, `Full Tag` projection) returns what `Process` specifies |
| `TagGenerator.Kept` | semrush-position-tracking-tag-generator.py:46 | the rows `dropna` keeps are indices of the input |
| `TagGenerator.Tags` | semrush-position-tracking-tag-generator.py:46-52 | the `Full Tag` column after `dropna` has one tag per kept row; `TagGenerator.TagsOfKept` says which tag each is |
| `TagGenerator.KeptRows` | semrush-position-tracking-tag-generator.py:46 | `dropna` keeps exactly the rows whose formatted date is present, in increasing row order |
| `TagGenerator.KeptTextDates` | semrush-position-tracking-tag-generator.py:43-46 | when no date is rejected, the kept rows are exactly those whose `Date` cell is text |
| `TagGenerator.KeptAll` | semrush-position-tracking-tag-generator.py:46 | no more rows are kept than given, and all are kept exactly when every formatted date is present |
| `TagGenerator.TagsOfKept` | semrush-position-tracking-tag-generator.py:46-55 | one tag per kept row, in order; the k-th tag is the template filled from the k-th kept row's own keyword, formatted date and content type |
| `TagGenerator.TagsAppend` | semrush-position-tracking-tag-generator.py:41-55 | the tags of two tables one after the other are the tags of each, one after the other: rows are tagged independently |
| `TagGenerator.TagsReadBack` | semrush-position-tracking-tag-generator.py:49-55 | every output tag reads back into its own row's keyword, formatted date, novelty label and placement label |
| `TagGenerator.ProcessTags` | semrush-position-tracking-tag-generator.py:37-55 | a successful call returns one tag per row whose `Date` cell is text, in row order, each the template filled from that row's own cells |
| `TagGenerator.SampleTableFails` | semrush-position-tracking-tag-generator.py:43 | a table whose second date is "not-a-date" makes the whole call fail |
| `TagGenerator.TaggedThenMissing` | semrush-position-tracking-tag-generator.py:46-55 | a formatted row followed by a row without a date gives exactly the first row's tag |
| `TagGenerator.SampleFullTag` | semrush-position-tracking-tag-generator.py:50 | "seo tips", "mar2024", New, Post fill the template as "seo tips, mar2024, New, Post" |
| `TagGenerator.SampleTableDropsMissing` | semrush-position-tracking-tag-generator.py:41-55 | the sample table with the second date missing gives the single tag "seo tips, mar2024, New, Post" |

## Left out

- The Streamlit page (lines 1, 58-72): title, text, file uploader and table display are presentation and I/O.
- `get_table_download_link` (lines 30-35): CSV writing and base64 encoding by library calls.
- `pd.read_csv` (line 38): the table is given already parsed, as a sequence of rows. A missing column (a `KeyError` in the source) cannot be expressed with this row type, so re-running on the tool's own one-column output is not modelled.
- Content types and keywords are strings; a missing cell in those columns (`in` on NaN raises `TypeError`, the f-string writes `nan`) is not modelled. In the `Date` column every non-text cell, missing or not, is `None`.
- Month abbreviations are English; `strftime("%b")` under another locale is not modelled.
- `strptime`'s `\d` also accepts non-ASCII decimal digits; the model accepts ASCII digits only.
- `DateFormat.FormatDate`: years below 1000 are printed zero-padded to four digits; what `%Y` prints for them depends on the platform's `strftime`.
- `TagGenerator.Process`: on a table with no rows left after `dropna`, the result of `DataFrame.apply(..., axis=1)` and its assignment to a column depend on the pandas version; the model returns an empty tag list.
- Python's exception object (its message text) is reduced to the reason it names (`ParseFailure`).
