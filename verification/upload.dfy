/**
 The pure logic of src/components/UploadSection.tsx: which file selections are
 accepted, where the header row of a decoded sheet is, which rows are data,
 and the expiry summary by days until the due date.
 */
module Upload {
  import opened Results
  import opened Text
  import opened Lists
  import opened Cells

  /** A selected file: its name and its MIME type as the browser reports it. */
  datatype FileInfo = FileInfo(name: string, mimeType: string)

  /** The outcome of a selection: nothing selected (the handler returns), an
      error status, or the first file accepted with the others kept as
      companions (the sheet files of an HTML frameset). */
  datatype Selection = NothingSelected | Rejected | Accepted(main: FileInfo, companions: seq<FileInfo>)

  const ValidTypes: seq<string> := [
    "application/vnd.ms-excel",
    "application/vnd.openxmlformats-officedocument.spreadsheetml.sheet",
    "text/csv",
    "text/html"
  ]

  const ValidExtensions: seq<string> := ["xls", "xlsx", "csv", "htm", "html"]

  /** `s.split(sep).pop()`: the text after the last `sep`, or all of `s`. */
  function LastSegment(s: string, sep: char): (r: string)
    ensures sep !in r
    ensures |r| <= |s| && r == s[|s| - |r|..]
    ensures |r| < |s| ==> s[|s| - |r| - 1] == sep
  {
    if s == [] then []
    else if s[|s| - 1] == sep then []
    else LastSegment(s[..|s| - 1], sep) + [s[|s| - 1]]
  }

  /** The lower-cased extension of a file name; the whole name when it has no dot. */
  function Extension(name: string): string {
    Lower(LastSegment(name, '.'))
  }

  /** The extension of `base.ext` is `ext`, lower-cased, whatever `base` holds. */
  lemma {:induction false} ExtensionOf(base: string, ext: string)
    requires '.' !in ext
    ensures Extension(base + "." + ext) == Lower(ext)
  {
    LastSegmentAfter(base + ".", ext);
  }

  lemma {:induction false} LastSegmentAfter(prefix: string, ext: string)
    requires |prefix| > 0 && prefix[|prefix| - 1] == '.' && '.' !in ext
    ensures LastSegment(prefix + ext, '.') == ext
    decreases |ext|
  {
    if ext == [] {
      assert prefix + ext == prefix;
    } else {
      var s := prefix + ext;
      assert s[..|s| - 1] == prefix + ext[..|ext| - 1];
      assert ext[|ext| - 1] in ext;
      LastSegmentAfter(prefix, ext[..|ext| - 1]);
      assert ext[..|ext| - 1] + [ext[|ext| - 1]] == ext;
    }
  }

  predicate AcceptableFile(f: FileInfo) {
    f.mimeType in ValidTypes || Extension(f.name) in ValidExtensions
  }

  /** `handleFileSelection`: only the first file is judged, by its MIME type or
      its extension; when it passes, the rest ride along as companions. */
  function HandleSelection(files: seq<FileInfo>): (r: Selection)
    ensures r.NothingSelected? <==> files == []
    ensures r.Accepted? <==> files != [] && AcceptableFile(files[0])
    ensures r.Accepted? ==> r.main == files[0] && [r.main] + r.companions == files
  {
    if files == [] then NothingSelected
    else if AcceptableFile(files[0]) then Accepted(files[0], files[1..])
    else Rejected
  }

  /** A spreadsheet exported under any of the accepted extensions is accepted,
      whatever the browser reports as its type and whatever follows it. */
  lemma AcceptedByExtension(base: string, ext: string, mimeType: string, rest: seq<FileInfo>)
    requires '.' !in ext && Lower(ext) in ValidExtensions
    ensures HandleSelection([FileInfo(base + "." + ext, mimeType)] + rest)
         == Accepted(FileInfo(base + "." + ext, mimeType), rest)
  {
    ExtensionOf(base, ext);
    assert ([FileInfo(base + "." + ext, mimeType)] + rest)[1..] == rest;
  }

  /** A cell reading exactly `placa`, ignoring case and surrounding blanks. */
  predicate IsExactPlaca(c: Cell) {
    Trim(Lower(Show(c))) == "placa"
  }

  predicate HasExactPlaca(row: seq<Cell>) {
    exists c :: c in row && IsExactPlaca(c)
  }

  predicate IsFilled(c: Cell) {
    Trim(Show(c)) != ""
  }

  predicate MentionsPlaca(c: Cell) {
    Contains(Lower(Show(c)), "placa")
  }

  /** The fallback test: at least three filled cells, one of them mentioning `placa`. */
  predicate LooksLikeHeader(row: seq<Cell>) {
    CountWhere(row, IsFilled) >= 3 && exists c :: c in row && MentionsPlaca(c)
  }

  /** `headerRowIndex`: the first row holding a `placa` cell; failing that the
      first row passing the fallback test; failing that row 10 when the sheet
      has more than ten rows; otherwise -1 (no header row). */
  function HeaderRowIndex(table: seq<seq<Cell>>): (r: int)
    ensures -1 <= r < |table|
    ensures r == -1 ==> |table| <= 10
  {
    var exact := FindIndex(table, HasExactPlaca);
    if exact >= 0 then exact
    else
      var loose := FindIndex(table, LooksLikeHeader);
      if loose >= 0 then loose
      else if |table| > 10 then 10 else -1
  }

  /** A row holding a `placa` cell always wins: the first such row is the header. */
  lemma HeaderRowIndexExact(table: seq<seq<Cell>>, i: nat)
    ensures i < |table| && HasExactPlaca(table[i]) ==>
      && 0 <= HeaderRowIndex(table) <= i
      && HasExactPlaca(table[HeaderRowIndex(table)])
      && forall j :: 0 <= j < HeaderRowIndex(table) ==> !HasExactPlaca(table[j])
  {
    if i < |table| && HasExactPlaca(table[i]) {
      var exact := FindIndex(table, HasExactPlaca);
      assert exact >= 0;
      assert exact <= i;
    }
  }

  /** Without a `placa` cell, the first row passing the fallback test is the header. */
  lemma HeaderRowIndexLoose(table: seq<seq<Cell>>, i: nat)
    ensures (forall j :: 0 <= j < |table| ==> !HasExactPlaca(table[j])) && i < |table| && LooksLikeHeader(table[i]) ==>
      && 0 <= HeaderRowIndex(table) <= i
      && LooksLikeHeader(table[HeaderRowIndex(table)])
      && forall j :: 0 <= j < HeaderRowIndex(table) ==> !LooksLikeHeader(table[j])
  {
    if (forall j :: 0 <= j < |table| ==> !HasExactPlaca(table[j])) && i < |table| && LooksLikeHeader(table[i]) {
      assert FindIndex(table, HasExactPlaca) == -1;
      var loose := FindIndex(table, LooksLikeHeader);
      assert 0 <= loose <= i;
      assert HeaderRowIndex(table) == loose;
    }
  }

  /** With neither test passing anywhere, row 10 is taken when it exists, and
      otherwise there is no header row. */
  lemma HeaderRowIndexFallback(table: seq<seq<Cell>>)
    requires forall j :: 0 <= j < |table| ==> !HasExactPlaca(table[j]) && !LooksLikeHeader(table[j])
    ensures HeaderRowIndex(table) == (if |table| > 10 then 10 else -1)
  {
    var exact := FindIndex(table, HasExactPlaca);
    assert exact == -1;
    var loose := FindIndex(table, LooksLikeHeader);
    assert loose == -1;
  }

  /** `String(h || '').trim()`: falsy cells (including the number 0) become
      empty, and no header starts or ends with white space. */
  function HeaderText(c: Cell): (h: string)
    ensures !Truthy(c) ==> h == ""
    ensures Truthy(c) ==> exists p :: CutAt(Show(c), h, p)
    ensures |h| > 0 ==> !IsSpace(h[0]) && !IsSpace(h[|h| - 1])
  {
    if Truthy(c) then Trim(Show(c)) else ""
  }

  /** The header row mapped cell by cell. The decoder leaves holes for empty
      cells, and `map` keeps them: a hole stays a hole (`None`), every other
      cell becomes its header text. */
  function HeaderTexts(row: seq<Cell>): (hs: seq<Option<string>>)
    ensures |hs| == |row|
    ensures forall i :: 0 <= i < |row| ==> (hs[i].None? <==> row[i].Undefined?)
    ensures forall i :: 0 <= i < |row| && !row[i].Undefined? ==> hs[i] == Some(HeaderText(row[i]))
  {
    seq(|row|, i requires 0 <= i < |row| => if row[i].Undefined? then None else Some(HeaderText(row[i])))
  }

  /** The data-row test: some cell that is neither `undefined` nor `''`
      (a `null` cell counts as a value). */
  predicate HasValue(row: seq<Cell>) {
    exists c :: c in row && c != Undefined && c != Str("")
  }

  /** `row.slice(0, n)` */
  function Truncate(row: seq<Cell>, n: nat): (r: seq<Cell>)
    ensures |r| <= n && |r| <= |row| && r == row[..|r|]
    ensures |row| <= n ==> r == row
    ensures |r| == if |row| <= n then |row| else n
  {
    if |row| <= n then row else row[..n]
  }

  /** The rows with a value, in order, each cut to `width` cells. */
  function KeepDataRows(rows: seq<seq<Cell>>, width: nat): (r: seq<seq<Cell>>)
    ensures |r| == CountWhere(rows, HasValue)
    ensures forall k :: 0 <= k < |r| ==> |r[k]| <= width
  {
    if rows == [] then []
    else (if HasValue(rows[0]) then [Truncate(rows[0], width)] else []) + KeepDataRows(rows[1..], width)
  }

  /** The filter keeps input order: one more row at the end adds exactly that
      row, cut to the header width, when it has a value, and nothing otherwise. */
  lemma {:induction false} KeepDataRowsAppend(rows: seq<seq<Cell>>, row: seq<Cell>, width: nat)
    ensures KeepDataRows(rows + [row], width)
      == KeepDataRows(rows, width) + (if HasValue(row) then [Truncate(row, width)] else [])
  {
    var last := if HasValue(row) then [Truncate(row, width)] else [];
    if rows == [] {
      assert [] + [row] == [row];
      assert [row][1..] == [];
    } else {
      assert (rows + [row])[1..] == rows[1..] + [row];
      KeepDataRowsAppend(rows[1..], row, width);
      var head := if HasValue(rows[0]) then [Truncate(rows[0], width)] else [];
      calc {
        KeepDataRows(rows + [row], width);
        head + KeepDataRows(rows[1..] + [row], width);
        head + (KeepDataRows(rows[1..], width) + last);
        (head + KeepDataRows(rows[1..], width)) + last;
        KeepDataRows(rows, width) + last;
      }
    }
  }

  /** A kept row is a truncated input row with a value, and every input row with
      a value is kept. */
  lemma {:induction false} KeepDataRowsMembers(rows: seq<seq<Cell>>, width: nat)
    ensures forall row :: row in KeepDataRows(rows, width) ==>
      exists i :: 0 <= i < |rows| && HasValue(rows[i]) && row == Truncate(rows[i], width)
    ensures forall i :: 0 <= i < |rows| && HasValue(rows[i]) ==> Truncate(rows[i], width) in KeepDataRows(rows, width)
  {
    if rows != [] {
      KeepDataRowsMembers(rows[1..], width);
      var head := if HasValue(rows[0]) then [Truncate(rows[0], width)] else [];
      assert KeepDataRows(rows, width) == head + KeepDataRows(rows[1..], width);
      forall row | row in KeepDataRows(rows, width)
        ensures exists i :: 0 <= i < |rows| && HasValue(rows[i]) && row == Truncate(rows[i], width)
      {
        if row in head {
          assert HasValue(rows[0]) && row == Truncate(rows[0], width);
        } else {
          assert row in KeepDataRows(rows[1..], width);
          var i :| 0 <= i < |rows[1..]| && HasValue(rows[1..][i]) && row == Truncate(rows[1..][i], width);
          assert rows[i + 1] == rows[1..][i];
        }
      }
      forall i | 0 <= i < |rows| && HasValue(rows[i])
        ensures Truncate(rows[i], width) in KeepDataRows(rows, width)
      {
        if i > 0 {
          assert rows[1..][i - 1] == rows[i];
        }
      }
    }
  }

  /** The table of a decoded sheet: the headers (with the header row's holes
      kept as `None`), the data rows, and whether a header row was found (when
      not, the first row names the columns and the data starts at row 1). */
  datatype Sheet = Sheet(headers: seq<Option<string>>, rows: seq<seq<Cell>>, headerFound: bool)

  /** From `headerRowIndex` to `setExcelData`. An empty sheet yields nothing.
      There is one header per cell of the header row, a hole exactly where the
      row has one, and every data row has a value and is no wider than the
      headers. */
  function ReadSheet(table: seq<seq<Cell>>): (r: Option<Sheet>)
    ensures r.None? <==> table == []
    ensures r.Some? ==>
      var idx := HeaderRowIndex(table);
      var headerRow := if idx >= 0 then idx else 0;
      var hs := r.value.headers;
      && r.value.headerFound == (idx >= 0)
      && |hs| == |table[headerRow]|
      && (forall i :: 0 <= i < |hs| ==> (hs[i].None? <==> table[headerRow][i].Undefined?))
      && (forall i :: 0 <= i < |hs| && hs[i].Some? ==> hs[i].value == HeaderText(table[headerRow][i]))
      && r.value.rows == KeepDataRows(table[headerRow + 1..], |hs|)
      && |r.value.rows| == CountWhere(table[headerRow + 1..], HasValue)
      && forall k :: 0 <= k < |r.value.rows| ==> |r.value.rows[k]| <= |hs|
  {
    if table == [] then None
    else
      var idx := HeaderRowIndex(table);
      var headerRow := if idx >= 0 then idx else 0;
      var headers := HeaderTexts(table[headerRow]);
      Some(Sheet(headers, KeepDataRows(table[headerRow + 1..], |headers|), idx >= 0))
  }

  /** The expiry buckets of the summary. */
  datatype Bucket = DueToday | OneToThree | FourToFifteen | Later | Overdue

  /** Which bucket a due date `days` days from today falls in; past dates are
      counted nowhere. */
  function BucketOf(days: int): (b: Bucket)
    ensures b == DueToday <==> days == 0
    ensures b == OneToThree <==> 1 <= days <= 3
    ensures b == FourToFifteen <==> 4 <= days <= 15
    ensures b == Later <==> days > 15
    ensures b == Overdue <==> days < 0
  {
    if days == 0 then DueToday
    else if 1 <= days <= 3 then OneToThree
    else if 4 <= days <= 15 then FourToFifteen
    else if days > 15 then Later
    else Overdue
  }

  /** The column holding the due date: the first header mentioning `venc`. */
  predicate IsDueHeader(h: string) {
    Contains(Lower(h), "venc")
  }

  /** Where the search for the due-date column stops: at a header mentioning
      `venc`, or at a hole, whose `toLowerCase` throws. */
  predicate StopsDueSearch(h: Option<string>) {
    h.None? || IsDueHeader(h.value)
  }

  /** `vencColIdx`: the first header mentioning `venc`, or -1. `None` when the
      search reaches a hole first: `findIndex` visits holes as `undefined`, and
      calling `toLowerCase` on it throws, so the upload ends in its error
      handler. */
  function DueColumn(headers: seq<Option<string>>): (r: Option<int>)
    ensures r.None? <==> exists j :: 0 <= j < |headers| && headers[j].None? && NoDueHeaderBefore(headers, j)
    ensures r == Some(-1) <==> forall j :: 0 <= j < |headers| ==> headers[j].Some? && !IsDueHeader(headers[j].value)
    ensures r.Some? && r.value >= 0 ==>
      && r.value < |headers| && headers[r.value].Some? && IsDueHeader(headers[r.value].value)
      && NoDueHeaderBefore(headers, r.value)
  {
    var i := FindIndex(headers, StopsDueSearch);
    if i >= 0 && headers[i].None? then None else Some(i)
  }

  /** Every header before position `j` is present and does not mention `venc`. */
  predicate NoDueHeaderBefore(headers: seq<Option<string>>, j: int)
    requires 0 <= j <= |headers|
  {
    forall k :: 0 <= k < j ==> !StopsDueSearch(headers[k])
  }

  /** A hole before the due-date header makes the search throw. */
  lemma DueColumnHoleExample()
    ensures DueColumn([Some("Placa"), None, Some("Vencimiento")]) == None
  {
    var hs := [Some("Placa"), None, Some("Vencimiento")];
    assert hs[1].None? && NoDueHeaderBefore(hs, 1) by {
      assert !Contains("placa", "venc") by {
        MissingFirstNotContains("placa", "venc");
      }
      assert Lower("Placa") == "placa";
    }
  }

  /** A hole after the due-date header is never reached. */
  lemma DueColumnHoleAfterExample()
    ensures DueColumn([Some("Vencimiento"), None]) == Some(0)
  {
    var hs := [Some("Vencimiento"), None];
    assert Lower("Vencimiento") == "vencimiento";
    assert StartsWith("vencimiento", "venc");
    assert IsDueHeader(hs[0].value);
  }

  /** `toDate` followed by the rounding of the difference to today: empty cells
      have no date; for the others `daysUntil` stands for the date parsing and
      the clock, which are not modelled. */
  function DaysUntil(c: Cell, daysUntil: Cell -> Option<int>): (r: Option<int>)
    ensures Show(c) == "" ==> r.None?
    ensures Show(c) != "" ==> r == daysUntil(c)
  {
    if c.Undefined? || c.Null? || c == Str("") then None else daysUntil(c)
  }

  /** Whether `row` is counted in bucket `b`. */
  predicate InBucket(row: seq<Cell>, col: int, daysUntil: Cell -> Option<int>, b: Bucket) {
    var d := DaysUntil(At(row, col), daysUntil);
    d.Some? && BucketOf(d.value) == b
  }

  /** The test "row is counted in bucket `b`", as a function on rows. */
  function InBucketOf(col: int, daysUntil: Cell -> Option<int>, b: Bucket): seq<Cell> -> bool {
    row => InBucket(row, col, daysUntil, b)
  }

  datatype Summary = Summary(dueToday: nat, oneToThree: nat, fourToFifteen: nat, later: nat)

  function Total(s: Summary): nat {
    s.dueToday + s.oneToThree + s.fourToFifteen + s.later
  }

  /** One step of the counting loop: the bucket counter the day difference
      `d` falls in goes up by one; no date or a past date changes nothing. */
  function Tally(s: Summary, d: Option<int>): (r: Summary)
    ensures d.None? || BucketOf(d.value) == Overdue ==> r == s
    ensures d.Some? && BucketOf(d.value) == DueToday ==> r == s.(dueToday := s.dueToday + 1)
    ensures d.Some? && BucketOf(d.value) == OneToThree ==> r == s.(oneToThree := s.oneToThree + 1)
    ensures d.Some? && BucketOf(d.value) == FourToFifteen ==> r == s.(fourToFifteen := s.fourToFifteen + 1)
    ensures d.Some? && BucketOf(d.value) == Later ==> r == s.(later := s.later + 1)
    ensures Total(s) <= Total(r) <= Total(s) + 1
  {
    if d.None? then s
    else if d.value == 0 then s.(dueToday := s.dueToday + 1)
    else if d.value >= 1 && d.value <= 3 then s.(oneToThree := s.oneToThree + 1)
    else if d.value >= 4 && d.value <= 15 then s.(fourToFifteen := s.fourToFifteen + 1)
    else if d.value > 15 then s.(later := s.later + 1)
    else s
  }

  /** `s` holds, for each bucket, the number of `rows` counted in it. */
  predicate Counts(s: Summary, rows: seq<seq<Cell>>, col: int, daysUntil: Cell -> Option<int>) {
    && s.dueToday == CountWhere(rows, InBucketOf(col, daysUntil, DueToday))
    && s.oneToThree == CountWhere(rows, InBucketOf(col, daysUntil, OneToThree))
    && s.fourToFifteen == CountWhere(rows, InBucketOf(col, daysUntil, FourToFifteen))
    && s.later == CountWhere(rows, InBucketOf(col, daysUntil, Later))
    && Total(s) <= |rows|
  }

  /** Tallying one more row keeps the counts exact. */
  lemma {:induction false} TallyCounts(s: Summary, rows: seq<seq<Cell>>, row: seq<Cell>, col: int, daysUntil: Cell -> Option<int>)
    requires Counts(s, rows, col, daysUntil)
    ensures Counts(Tally(s, DaysUntil(At(row, col), daysUntil)), rows + [row], col, daysUntil)
  {
    CountWhereAppend(rows, row, InBucketOf(col, daysUntil, DueToday));
    CountWhereAppend(rows, row, InBucketOf(col, daysUntil, OneToThree));
    CountWhereAppend(rows, row, InBucketOf(col, daysUntil, FourToFifteen));
    CountWhereAppend(rows, row, InBucketOf(col, daysUntil, Later));
  }

  /** The expiry summary: for each bucket, the number of data rows whose due
      date falls in it; all zero without a due-date column. Rows without a date
      and overdue rows are not counted, so the four counts never add up to more
      than the rows. `None` when the column search throws on a hole: no summary
      is set and the upload is marked as failed. */
  method Summarize(sheet: Sheet, daysUntil: Cell -> Option<int>) returns (r: Option<Summary>)
    ensures r.None? <==> DueColumn(sheet.headers).None?
    ensures DueColumn(sheet.headers) == Some(-1) ==> r == Some(Summary(0, 0, 0, 0))
    ensures r.Some? && DueColumn(sheet.headers).value >= 0 ==>
      var col := DueColumn(sheet.headers).value;
      var s := r.value;
      && s.dueToday == CountWhere(sheet.rows, InBucketOf(col, daysUntil, DueToday))
      && s.oneToThree == CountWhere(sheet.rows, InBucketOf(col, daysUntil, OneToThree))
      && s.fourToFifteen == CountWhere(sheet.rows, InBucketOf(col, daysUntil, FourToFifteen))
      && s.later == CountWhere(sheet.rows, InBucketOf(col, daysUntil, Later))
    ensures r.Some? ==> Total(r.value) <= |sheet.rows|
  {
    var due := DueColumn(sheet.headers);
    if due.None? {
      return None;
    }
    var col := due.value;
    var s := Summary(0, 0, 0, 0);
    if col < 0 {
      return Some(s);
    }
    var rows := sheet.rows;
    var i := 0;
    assert rows[..0] == [];
    while i < |rows|
      invariant 0 <= i <= |rows|
      invariant Counts(s, rows[..i], col, daysUntil)
    {
      var row := rows[i];
      TallyCounts(s, rows[..i], row, col, daysUntil);
      assert rows[..i + 1] == rows[..i] + [row];
      s := Tally(s, DaysUntil(At(row, col), daysUntil));
      i := i + 1;
    }
    assert rows[..i] == rows;
    return Some(s);
  }

  /** `n.toString().padStart(2, '0')` */
  function Pad2(n: nat): (r: string)
    ensures |r| >= 2 && AllDigits(r)
    ensures n >= 10 ==> r == NatToString(n)
  {
    if n < 10 then "0" + NatToString(n) else NatToString(n)
  }

  /** Padding never changes the value the digits denote. */
  lemma Pad2Value(n: nat)
    ensures DigitsValue(Pad2(n)) == n
  {
    NatToStringRoundTrip(n);
    if n < 10 {
      var r := Pad2(n);
      assert r[..|r| - 1] == "0";
    }
  }
}
