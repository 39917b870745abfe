/**
 * `process_data` of the tag generator: classify every row, format every
 * date, drop the rows whose date cell holds no text, build the
 * `Full Tag` of each remaining row and keep that column only.
 *
 * The table arrives already parsed, as a sequence of rows with the three
 * columns the transformation reads. A text date that `strptime` rejects
 * raises out of `process_data`: the whole call fails, no row is dropped
 * for it.
 */
module TagGenerator {
  import opened Wrappers
  import opened Classify
  import opened DateFormat

  /** One row of the uploaded table: the columns `Content Type`, `Date` and `Target Keyword`. */
  datatype Row = Row(contentType: string, date: Option<string>, keyword: string)

  /** What `process_data` does: return the `Full Tag` column, or raise `strptime`'s error. */
  datatype Outcome = Tagged(fullTags: seq<string>) | Failed(failure: ParseFailure)

  /** The separator of the tag template. */
  const Separator: string := ", "

  /** `Separator` starts at index `i` of `s`. */
  predicate SeparatorAt(s: string, i: int)
  {
    0 <= i && i + 2 <= |s| && s[i] == ',' && s[i + 1] == ' '
  }

  /** The tag template `"{keyword}, {date}, {novelty}, {placement}"`. */
  function FullTag(keyword: string, formattedDate: string, novelty: Novelty, placement: Placement): string
  {
    keyword + Separator + formattedDate + Separator + NoveltyLabel(novelty) + Separator + PlacementLabel(placement)
  }

  /** The last separator that ends at or before index `k` of `s`. */
  function LastSeparator(s: string, k: nat): (r: Option<nat>)
    requires k <= |s|
    ensures r.Some? ==> r.value + 2 <= k && SeparatorAt(s, r.value)
    ensures r.Some? ==> forall j :: r.value < j && j + 2 <= k ==> !SeparatorAt(s, j)
    ensures r.None? ==> forall j :: 0 <= j && j + 2 <= k ==> !SeparatorAt(s, j)
  {
    if k < 2 then None
    else if s[k - 2] == ',' && s[k - 1] == ' ' then Some(k - 2)
    else LastSeparator(s, k - 1)
  }

  /** Splits `s` at its last separator into what precedes and what follows it. */
  function SplitLast(s: string): Option<(string, string)>
  {
    match LastSeparator(s, |s|)
    case None => None
    case Some(i) => Some((s[..i], s[i + 2..]))
  }

  /**
   * Reads a tag back into its four fields, splitting from the right, so
   * that a keyword holding commas of its own is still read whole.
   */
  function SplitTag(tag: string): Option<(string, string, string, string)>
  {
    match SplitLast(tag)
    case None => None
    case Some((rest, placement)) =>
      match SplitLast(rest)
      case None => None
      case Some((rest', novelty)) =>
        match SplitLast(rest')
        case None => None
        case Some((keyword, date)) => Some((keyword, date, novelty, placement))
  }

  /** Splitting at the last separator undoes joining with one, when the right part holds no comma. */
  lemma SplitLastJoin(a: string, b: string)
    requires ',' !in b
    ensures SplitLast(a + Separator + b) == Some((a, b))
  {
    var s := a + Separator + b;
    assert SeparatorAt(s, |a|);
    assert s[..|a|] == a && s[|a| + 2..] == b;
  }

  /**
   * The tag template can be read back: whatever the keyword holds, the
   * four fields are recovered when the date holds no comma.
   */
  lemma SplitFullTag(keyword: string, formattedDate: string, novelty: Novelty, placement: Placement)
    requires ',' !in formattedDate
    ensures SplitTag(FullTag(keyword, formattedDate, novelty, placement))
         == Some((keyword, formattedDate, NoveltyLabel(novelty), PlacementLabel(placement)))
  {
    var a := keyword + Separator + formattedDate;
    var b := a + Separator + NoveltyLabel(novelty);
    assert FullTag(keyword, formattedDate, novelty, placement) == b + Separator + PlacementLabel(placement);
    SplitLastJoin(b, PlacementLabel(placement));
    SplitLastJoin(a, NoveltyLabel(novelty));
    SplitLastJoin(keyword, formattedDate);
  }

  /** The `Full Tag` of a row whose date was formatted as `formattedDate`: both classifiers read its own `Content Type`. */
  function RowTag(row: Row, formattedDate: string): string
  {
    FullTag(row.keyword, formattedDate, NewExistingTag(row.contentType), PostPageTag(row.contentType))
  }

  /** The `Formatted Date` column: `format_date` applied to every `Date` cell. */
  function DateColumn(rows: seq<Row>): (dates: seq<FormatResult>)
    ensures |dates| == |rows|
    ensures forall i :: 0 <= i < |rows| ==> dates[i] == FormatDate(rows[i].date)
  {
    seq(|rows|, i requires 0 <= i < |rows| => FormatDate(rows[i].date))
  }

  /** `strptime` raises for none of the entries of a date column. */
  predicate NoneRaised(dates: seq<FormatResult>)
  {
    forall i :: 0 <= i < |dates| ==> !dates[i].ParseError?
  }

  /** The first entry from `k` on where `strptime` raised: the exception that ends the call. */
  function FirstRaised(dates: seq<FormatResult>, k: nat): (r: Option<nat>)
    requires k <= |dates|
    ensures r.Some? ==> k <= r.value < |dates| && dates[r.value].ParseError?
    ensures r.Some? ==> forall j :: k <= j < r.value ==> !dates[j].ParseError?
    ensures r.None? <==> forall j :: k <= j < |dates| ==> !dates[j].ParseError?
    decreases |dates| - k
  {
    if k == |dates| then None
    else if dates[k].ParseError? then Some(k)
    else FirstRaised(dates, k + 1)
  }

  /** The indices of the rows `dropna` keeps: those whose formatted date is present. */
  function Kept(dates: seq<FormatResult>): (idx: seq<nat>)
    ensures forall k :: 0 <= k < |idx| ==> idx[k] < |dates|
  {
    if dates == [] then []
    else Kept(dates[..|dates| - 1]) + (if dates[|dates| - 1].Formatted? then [|dates| - 1] else [])
  }

  /** The `Full Tag` column built from the rows and their formatted dates, for the rows `dropna` keeps. */
  function Tags(rows: seq<Row>, dates: seq<FormatResult>): (tags: seq<string>)
    requires |dates| == |rows|
    ensures |tags| == |Kept(dates)|
  {
    if rows == [] then []
    else
      var n := |rows| - 1;
      Tags(rows[..n], dates[..n]) + (if dates[n].Formatted? then [RowTag(rows[n], dates[n].text)] else [])
  }

  /** `process_data` on an already-parsed table. */
  function Process(rows: seq<Row>): (out: Outcome)
    ensures out.Failed? <==> exists i :: 0 <= i < |rows| && FormatDate(rows[i].date).ParseError?
    ensures out.Failed? ==> exists i :: 0 <= i < |rows| && FormatDate(rows[i].date) == ParseError(out.failure)
                                   && forall j :: 0 <= j < i ==> !FormatDate(rows[j].date).ParseError?
  {
    var dates := DateColumn(rows);
    match FirstRaised(dates, 0)
    case Some(i) => Failed(dates[i].failure)
    case None => Tagged(Tags(rows, dates))
  }

  /**
   * `df['Date'].apply(format_date)`: the formatted-date column, or the
   * failure of the first date `strptime` rejects, which ends the call.
   */
  method FormatDates(rows: seq<Row>) returns (r: Result<seq<FormatResult>, ParseFailure>)
    ensures r.Ok? <==> FirstRaised(DateColumn(rows), 0).None?
    ensures r.Ok? ==> r.value == DateColumn(rows)
    ensures r.Err? ==> r.error == DateColumn(rows)[FirstRaised(DateColumn(rows), 0).value].failure
  {
    var formatted: seq<FormatResult> := [];
    var i := 0;
    while i < |rows|
      invariant 0 <= i <= |rows| && |formatted| == i
      invariant forall j :: 0 <= j < i ==> formatted[j] == FormatDate(rows[j].date)
      invariant NoneRaised(formatted)
    {
      var f := FormatDate(rows[i].date);
      if f.ParseError? {
        assert FirstRaised(DateColumn(rows), 0) == Some(i);
        return Err(f.failure);
      }
      formatted := formatted + [f];
      i := i + 1;
    }
    return Ok(formatted);
  }

  /**
   * `df.dropna(subset=['Formatted Date'])` followed by the row-wise
   * template: one `Full Tag` per kept row, from that row's own cells.
   */
  method FullTags(rows: seq<Row>, formatted: seq<FormatResult>, novelty: seq<Novelty>, placement: seq<Placement>)
    returns (tags: seq<string>)
    requires |formatted| == |rows| && |novelty| == |rows| && |placement| == |rows|
    requires forall i :: 0 <= i < |rows| ==> novelty[i] == NewExistingTag(rows[i].contentType)
    requires forall i :: 0 <= i < |rows| ==> placement[i] == PostPageTag(rows[i].contentType)
    ensures tags == Tags(rows, formatted)
  {
    tags := [];
    var i := 0;
    while i < |rows|
      invariant 0 <= i <= |rows|
      invariant tags == Tags(rows[..i], formatted[..i])
    {
      assert rows[..i + 1][..i] == rows[..i] && formatted[..i + 1][..i] == formatted[..i];
      if formatted[i].Formatted? {
        tags := tags + [FullTag(rows[i].keyword, formatted[i].text, novelty[i], placement[i])];
      }
      i := i + 1;
    }
    assert rows[..|rows|] == rows && formatted[..|rows|] == formatted;
  }

  /**
   * `process_data` on an already-parsed table: the two classifier
   * columns, the formatted-date column, then the tags of the kept rows.
   */
  method ProcessData(rows: seq<Row>) returns (out: Outcome)
    ensures out == Process(rows)
  {
    var novelty := seq(|rows|, i requires 0 <= i < |rows| => NewExistingTag(rows[i].contentType));
    var placement := seq(|rows|, i requires 0 <= i < |rows| => PostPageTag(rows[i].contentType));
    var formatted := FormatDates(rows);
    if formatted.Err? {
      return Failed(formatted.error);
    }
    var tags := FullTags(rows, formatted.value, novelty, placement);
    out := Tagged(tags);
  }

  /** `dropna` keeps exactly the rows whose formatted date is present, in increasing row order. */
  lemma {:induction false} KeptRows(dates: seq<FormatResult>)
    ensures forall k, l :: 0 <= k < l < |Kept(dates)| ==> Kept(dates)[k] < Kept(dates)[l]
    ensures forall i :: 0 <= i < |dates| ==> (i in Kept(dates) <==> dates[i].Formatted?)
  {
    if dates != [] {
      var front := dates[..|dates| - 1];
      KeptRows(front);
      assert forall i :: 0 <= i < |front| ==> front[i] == dates[i];
    }
  }

  /** When no date raised, the rows kept are exactly those whose `Date` cell holds text. */
  lemma KeptTextDates(rows: seq<Row>)
    requires NoneRaised(DateColumn(rows))
    ensures forall i :: 0 <= i < |rows| ==> (i in Kept(DateColumn(rows)) <==> rows[i].date.Some?)
  {
    KeptRows(DateColumn(rows));
  }

  /** The k-th tag is the tag of the k-th kept row, built from that row's own cells. */
  lemma {:induction false} TagsOfKept(rows: seq<Row>, dates: seq<FormatResult>)
    requires |dates| == |rows|
    ensures |Tags(rows, dates)| == |Kept(dates)|
    ensures forall k :: 0 <= k < |Kept(dates)| ==>
              dates[Kept(dates)[k]].Formatted? &&
              Tags(rows, dates)[k] == RowTag(rows[Kept(dates)[k]], dates[Kept(dates)[k]].text)
  {
    KeptRows(dates);
    if rows != [] {
      var n := |rows| - 1;
      TagsOfKept(rows[..n], dates[..n]);
      assert forall i :: 0 <= i < n ==> rows[..n][i] == rows[i] && dates[..n][i] == dates[i];
    }
  }

  /** The tags of two tables one after the other are the tags of each, one after the other. */
  lemma {:induction false} TagsAppend(a: seq<Row>, da: seq<FormatResult>, b: seq<Row>, db: seq<FormatResult>)
    requires |da| == |a| && |db| == |b|
    ensures Tags(a + b, da + db) == Tags(a, da) + Tags(b, db)
    decreases |b|
  {
    if b == [] {
      assert a + b == a && da + db == da;
    } else {
      var n := |b| - 1;
      TagsAppend(a, da, b[..n], db[..n]);
      assert (a + b)[..|a| + n] == a + b[..n];
      assert (da + db)[..|a| + n] == da + db[..n];
    }
  }

  /** Every output tag reads back into its own row's keyword, formatted date and two labels. */
  lemma TagsReadBack(rows: seq<Row>)
    requires Process(rows).Tagged?
    ensures |Process(rows).fullTags| == |Kept(DateColumn(rows))|
    ensures forall k :: 0 <= k < |Kept(DateColumn(rows))| ==>
              var row := rows[Kept(DateColumn(rows))[k]];
              FormatDate(row.date).Formatted? &&
              SplitTag(Process(rows).fullTags[k]) == Some((row.keyword, FormatDate(row.date).text,
                                                           NoveltyLabel(NewExistingTag(row.contentType)),
                                                           PlacementLabel(PostPageTag(row.contentType))))
  {
    var dates := DateColumn(rows);
    TagsOfKept(rows, dates);
    forall k | 0 <= k < |Kept(dates)|
      ensures var row := rows[Kept(dates)[k]];
              FormatDate(row.date).Formatted? &&
              SplitTag(Process(rows).fullTags[k]) == Some((row.keyword, FormatDate(row.date).text,
                                                           NoveltyLabel(NewExistingTag(row.contentType)),
                                                           PlacementLabel(PostPageTag(row.contentType))))
    {
      var row := rows[Kept(dates)[k]];
      FormattedText(row.date);
      SplitFullTag(row.keyword, FormatDate(row.date).text, NewExistingTag(row.contentType), PostPageTag(row.contentType));
    }
  }

  /**
   * What a successful call returns: one tag per row whose `Date` cell is
   * text, in row order, each the template filled from that row's own cells.
   */
  lemma ProcessTags(rows: seq<Row>)
    requires Process(rows).Tagged?
    ensures |Process(rows).fullTags| == |Kept(DateColumn(rows))|
    ensures forall i :: 0 <= i < |rows| ==> (i in Kept(DateColumn(rows)) <==> rows[i].date.Some?)
    ensures forall k, l :: 0 <= k < l < |Kept(DateColumn(rows))| ==> Kept(DateColumn(rows))[k] < Kept(DateColumn(rows))[l]
    ensures forall k :: 0 <= k < |Kept(DateColumn(rows))| ==>
              FormatDate(rows[Kept(DateColumn(rows))[k]].date).Formatted? &&
              Process(rows).fullTags[k] == RowTag(rows[Kept(DateColumn(rows))[k]], FormatDate(rows[Kept(DateColumn(rows))[k]].date).text)
  {
    TagsOfKept(rows, DateColumn(rows));
    KeptTextDates(rows);
    KeptRows(DateColumn(rows));
  }

  /** No more rows are kept than given, and all of them exactly when every date is formatted. */
  lemma {:induction false} KeptAll(dates: seq<FormatResult>)
    ensures |Kept(dates)| <= |dates|
    ensures |Kept(dates)| == |dates| <==> forall i :: 0 <= i < |dates| ==> dates[i].Formatted?
  {
    if dates != [] {
      var front := dates[..|dates| - 1];
      KeptAll(front);
      assert forall i :: 0 <= i < |front| ==> front[i] == dates[i];
    }
  }

  /** The source's sample table with a date text that is no date: the whole call fails. */
  lemma SampleTableFails()
    ensures Process([Row("New Post", Some("03/05/2024"), "seo tips"),
                     Row("Update Page", Some("not-a-date"), "link building")])
         == Failed(DoesNotMatchFormat)
  {
    var rows := [Row("New Post", Some("03/05/2024"), "seo tips"),
                 Row("Update Page", Some("not-a-date"), "link building")];
    SampleMarch();
    NoDateText();
    assert FirstRaised(DateColumn(rows), 0) == Some(1);
  }

  /** A tagged row followed by a row without a date gives exactly the first row's tag. */
  lemma TaggedThenMissing(first: Row, second: Row, formattedDate: string)
    requires FormatDate(first.date) == Formatted(formattedDate) && second.date.None?
    ensures Process([first, second]) == Tagged([RowTag(first, formattedDate)])
  {
    var rows := [first, second];
    var dates := DateColumn(rows);
    assert dates == [Formatted(formattedDate), NotText];
    assert FirstRaised(dates, 0) == None;
    assert rows[..1] == [first] && dates[..1] == [Formatted(formattedDate)];
    assert [first][..0] == [] && [Formatted(formattedDate)][..0] == [];
    assert Tags([first], [Formatted(formattedDate)]) == [RowTag(first, formattedDate)];
    assert Tags(rows, dates) == Tags([first], [Formatted(formattedDate)]);
  }

  /** The template filled with the sample row's fields. */
  lemma SampleFullTag()
    ensures FullTag("seo tips", "mar2024", New, Post) == "seo tips, mar2024, New, Post"
  {
  }

  /** The same table with the second date cell missing: that row is dropped, the first one tagged. */
  lemma SampleTableDropsMissing()
    ensures Process([Row("New Post", Some("03/05/2024"), "seo tips"),
                     Row("Update Page", None, "link building")])
         == Tagged(["seo tips, mar2024, New, Post"])
  {
    var good := Row("New Post", Some("03/05/2024"), "seo tips");
    SampleMarch();
    TaggedThenMissing(good, Row("Update Page", None, "link building"), "mar2024");
    SampleNewPost();
    SampleFullTag();
  }
}
