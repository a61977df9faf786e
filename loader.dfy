/** `load_data`: read the five year sheets in order, normalise each sheet's
    headers, pick its count and station columns, coerce counts, stamp the
    year, canonicalise line labels, drop rows without alcaldía or estación,
    skip any sheet that fails, and concatenate what is left. */
module Loader {
  import opened Wrappers
  import opened Text
  import opened Cells
  import opened Columns
  import opened Keys
  import opened Filter

  /** A sheet as `read_excel` returns it: the header row and the data rows.
      A row shorter than the header reads as missing cells at its end. */
  datatype Sheet = Sheet(header: seq<ColumnLabel>, rows: seq<seq<Cell>>)

  /** One row of the loaded frame: the columns `año`, `alcaldia`, `linea`,
      `estacion` and `robos`. */
  datatype Record = Record(year: int, alcaldia: Key, linea: string, estacion: Key, robos: real)

  /** Why a sheet contributes no rows. */
  datatype SheetError =
    | SheetMissing             // `read_excel` raises: no sheet of that name
    | HeaderNotText            // `col.strip()` raises on a non-text header
    | NoCountColumn            // no header contains "robo" or "reporte"
    | NoStationColumn          // no header contains "estacion"
    | MissingColumn(name: string) // `df[name]` raises KeyError

  /** The sheets `load_data` reads, in the order it reads them. */
  const YearSheets: seq<string> := ["2020", "2021", "2022", "2023", "2024"]

  /** `int(year)` for a sheet name made of digits. */
  function SheetYear(name: string): int
    requires AllDigits(name)
  {
    DigitsValue(name)
  }

  /** The value of a four-digit name "202d". */
  lemma YearValue(s: string)
    requires |s| == 4 && s[..3] == "202" && '0' <= s[3] <= '9'
    ensures AllDigits(s) && DigitsValue(s) == 2020 + (s[3] as int - '0' as int)
  {
    assert "202"[..2] == "20" && "20"[..1] == "2" && "2"[..0] == "";
    assert DigitsValue("202") == 202;
  }

  lemma YearSheetsAreYears()
    ensures forall i :: 0 <= i < |YearSheets| ==>
      AllDigits(YearSheets[i]) && SheetYear(YearSheets[i]) == 2020 + i
  {
    YearValue("2020");
    YearValue("2021");
    YearValue("2022");
    YearValue("2023");
    YearValue("2024");
  }

  function CellAt(row: seq<Cell>, j: nat): Cell {
    if j < |row| then row[j] else Empty
  }

  // ----- headers -----

  predicate AllText(header: seq<ColumnLabel>) {
    forall j :: 0 <= j < |header| ==> header[j].TextLabel?
  }

  /** The list comprehension over `df.columns`; it raises on the first header
      that is not text. */
  function NormalizedHeaders(header: seq<ColumnLabel>): (r: Result<seq<string>, SheetError>)
    ensures r.Success? <==> AllText(header)
    ensures r.Success? ==> |r.value| == |header|
    ensures r.Success? ==> forall j :: 0 <= j < |header| ==> r.value[j] == NormalizeHeader(header[j].text)
  {
    if AllText(header) then
      Success(seq(|header|, j requires 0 <= j < |header| => NormalizeHeader(header[j].text)))
    else
      Failure(HeaderNotText)
  }

  /** Where `df[name]` finds its column. */
  function ColumnIndex(names: seq<string>, name: string): (r: Option<nat>)
    ensures r.Some? ==> r.value < |names| && names[r.value] == name
    ensures r.Some? ==> forall j :: 0 <= j < r.value ==> names[j] != name
    ensures r.None? <==> name !in names
  {
    var r := FirstMatch(names, h => h == name);
    assert r.None? ==> forall j :: 0 <= j < |names| ==> names[j] != name;
    r
  }

  /** A column found first at `i` is the one `df[name]` reads. */
  lemma ColumnIndexAt(names: seq<string>, name: string, i: nat)
    requires i < |names| && names[i] == name
    requires forall j :: 0 <= j < i ==> names[j] != name
    ensures ColumnIndex(names, name) == Some(i)
  {
    var r := ColumnIndex(names, name);
    assert name in names;
    assert r.value <= i;
  }

  /** The column names after `df.rename`. */
  function Renamed(names: seq<string>, countCol: string, stationCol: string): (r: seq<string>)
    ensures |r| == |names|
    ensures forall j :: 0 <= j < |names| ==> r[j] == Rename(names[j], countCol, stationCol)
  {
    seq(|names|, j requires 0 <= j < |names| => Rename(names[j], countCol, stationCol))
  }

  /** The positions of the columns the frame keeps. */
  datatype Layout = Layout(count: nat, alcaldia: nat, linea: nat, estacion: nat)

  /** The header work of one sheet: normalise, find the two role columns,
      rename, and locate `robos`, `alcaldia`, `linea` and `estacion`, failing
      where the source raises or skips. */
  function SheetLayout(header: seq<ColumnLabel>): Result<Layout, SheetError> {
    match NormalizedHeaders(header)
    case Failure(e) => Failure(e)
    case Success(names) => RoleLayout(names)
  }

  /** The part of the header work that follows normalisation. */
  function RoleLayout(names: seq<string>): Result<Layout, SheetError> {
    var robosCol := FirstMatch(names, IsCountHeader);
    var estacionCol := FirstMatch(names, IsStationHeader);
    if robosCol.None? then Failure(NoCountColumn)
    else if estacionCol.None? then Failure(NoStationColumn)
    else
      ColumnsLayout(Renamed(names, names[robosCol.value], names[estacionCol.value]))
  }

  /** `df[['robos', 'alcaldia', 'linea', 'estacion']]` on the renamed
      columns: the first column of each name, in that order of lookup. */
  function ColumnsLayout(cols: seq<string>): Result<Layout, SheetError> {
    match ColumnIndex(cols, "robos")
    case None => Failure(MissingColumn("robos"))
    case Some(c) =>
      match ColumnIndex(cols, "alcaldia")
      case None => Failure(MissingColumn("alcaldia"))
      case Some(a) =>
        match ColumnIndex(cols, "linea")
        case None => Failure(MissingColumn("linea"))
        case Some(l) =>
          match ColumnIndex(cols, "estacion")
          case None => Failure(MissingColumn("estacion"))
          case Some(e) => Success(Layout(c, a, l, e))
  }

  /** The selection succeeds exactly when all four names are present, and
      each role then points at the first column of that name. */
  lemma ColumnsLayoutFinds(cols: seq<string>)
    ensures ColumnsLayout(cols).Success? <==>
      "robos" in cols && "alcaldia" in cols && "linea" in cols && "estacion" in cols
    ensures ColumnsLayout(cols).Failure? ==> ColumnsLayout(cols).error.MissingColumn?
    ensures ColumnsLayout(cols).Success? ==>
      && FirstIs(cols, ColumnsLayout(cols).value.count, "robos")
      && FirstIs(cols, ColumnsLayout(cols).value.alcaldia, "alcaldia")
      && FirstIs(cols, ColumnsLayout(cols).value.linea, "linea")
      && FirstIs(cols, ColumnsLayout(cols).value.estacion, "estacion")
  {
  }

  /** `i` is the first position of `name` in `cols`. */
  predicate FirstIs(cols: seq<string>, i: nat, name: string) {
    i < |cols| && cols[i] == name && forall j :: 0 <= j < i ==> cols[j] != name
  }

  /** "robos" and "estacion" carry their own roles; "alcaldia" and "linea"
      carry none. */
  lemma RoleNames()
    ensures IsCountHeader("robos") && IsStationHeader("estacion")
  {
    assert "robos"[..4] == "robo";
    assert "estacion"[..8] == "estacion";
  }

  /** A header without an "r" or an "s" carries no role. */
  lemma NoRoleWithout(h: string)
    requires 'r' !in h && 's' !in h
    ensures !IsCountHeader(h) && !IsStationHeader(h)
  {
    ContainsHasChars(h, "robo");
    ContainsHasChars(h, "reporte");
    ContainsHasChars(h, "estacion");
    assert "robo"[0] == 'r' && "reporte"[0] == 'r' && "estacion"[1] == 's';
  }

  lemma PlainColumnsHaveNoRole()
    ensures !IsCountHeader("alcaldia") && !IsStationHeader("alcaldia")
    ensures !IsCountHeader("linea") && !IsStationHeader("linea")
  {
    assert forall i :: 0 <= i < |"alcaldia"| ==> "alcaldia"[i] != 'r' && "alcaldia"[i] != 's';
    assert forall i :: 0 <= i < |"linea"| ==> "linea"[i] != 'r' && "linea"[i] != 's';
    NoRoleWithout("alcaldia");
    NoRoleWithout("linea");
  }

  /** A header that is not text is the only source of `HeaderNotText`. */
  lemma LayoutHeaderNotText(header: seq<ColumnLabel>)
    ensures SheetLayout(header) == Failure(HeaderNotText) <==> !AllText(header)
  {
    if AllText(header) {
      RoleLayoutErrors(NormalizedHeaders(header).value);
    }
  }

  /** The role errors, in the order the source meets them: no count column,
      then no station column; past those, only a missing column. */
  lemma RoleLayoutErrors(names: seq<string>)
    ensures RoleLayout(names) == Failure(NoCountColumn) <==>
      forall j :: 0 <= j < |names| ==> !IsCountHeader(names[j])
    ensures (exists j :: 0 <= j < |names| && IsCountHeader(names[j])) ==>
      (RoleLayout(names) == Failure(NoStationColumn) <==>
        forall j :: 0 <= j < |names| ==> !IsStationHeader(names[j]))
    ensures RoleLayout(names).Failure? ==>
      RoleLayout(names).error in {NoCountColumn, NoStationColumn} || RoleLayout(names).error.MissingColumn?
  {
    var robosCol := FirstMatch(names, IsCountHeader);
    var estacionCol := FirstMatch(names, IsStationHeader);
    if robosCol.Some? && estacionCol.Some? {
      ColumnsLayoutFinds(Renamed(names, names[robosCol.value], names[estacionCol.value]));
    }
  }

  /** The station column is the first header containing "estacion". */
  lemma RoleLayoutStation(names: seq<string>, l: Layout)
    requires RoleLayout(names) == Success(l)
    ensures l.estacion < |names| && IsStationHeader(names[l.estacion])
    ensures forall j :: 0 <= j < l.estacion ==> !IsStationHeader(names[j])
  {
    var c0 := FirstMatch(names, IsCountHeader).value;
    var e0 := FirstMatch(names, IsStationHeader).value;
    var cols := Renamed(names, names[c0], names[e0]);
    assert ColumnsLayout(cols) == Success(l);
    ColumnsLayoutFinds(cols);
    RenameOutcome(names[e0], names[c0], names[e0]);
    RenameOutcome(names[l.estacion], names[c0], names[e0]);
    RoleNames();
    assert l.estacion <= e0;
  }

  /** The count column is the first header containing "robo" or "reporte",
      unless that first header also contains "estacion": the station role
      wins the rename, and the count is then read from a column named
      "robos" further on. */
  lemma RoleLayoutCount(names: seq<string>, l: Layout)
    requires RoleLayout(names) == Success(l)
    ensures l.count < |names| && IsCountHeader(names[l.count])
    ensures || (forall j :: 0 <= j < l.count ==> !IsCountHeader(names[j]))
            || (exists k :: 0 <= k < l.count && IsCountHeader(names[k]) && IsStationHeader(names[k])
                  && forall j :: 0 <= j < k ==> !IsCountHeader(names[j]))
  {
    var c0 := FirstMatch(names, IsCountHeader).value;
    var e0 := FirstMatch(names, IsStationHeader).value;
    var cols := Renamed(names, names[c0], names[e0]);
    assert ColumnsLayout(cols) == Success(l);
    ColumnsLayoutFinds(cols);
    RenameOutcome(names[l.count], names[c0], names[e0]);
    RenameOutcome(names[c0], names[c0], names[e0]);
    RoleNames();
    assert c0 <= l.count;
    if names[c0] != names[e0] {
      assert l.count <= c0;
    } else if c0 < l.count {
      assert IsStationHeader(names[c0]);
    }
  }

  /** "alcaldia" and "linea" are taken under exactly those names. */
  lemma RoleLayoutExactColumns(names: seq<string>, l: Layout)
    requires RoleLayout(names) == Success(l)
    ensures l.alcaldia < |names| && names[l.alcaldia] == "alcaldia"
    ensures l.linea < |names| && names[l.linea] == "linea"
  {
    var c0 := FirstMatch(names, IsCountHeader).value;
    var e0 := FirstMatch(names, IsStationHeader).value;
    var cols := Renamed(names, names[c0], names[e0]);
    assert ColumnsLayout(cols) == Success(l);
    ColumnsLayoutFinds(cols);
    RenameKeeps(names[l.alcaldia], names[c0], names[e0], "alcaldia");
    RenameKeeps(names[l.linea], names[c0], names[e0], "linea");
  }

  /** With the count role on a header that is not also the station header,
      a station header, "alcaldia" and "linea" are all the layout needs. */
  lemma RoleLayoutSucceeds(names: seq<string>)
    requires exists c :: 0 <= c < |names| && IsCountHeader(names[c]) && !IsStationHeader(names[c])
                         && (forall j :: 0 <= j < c ==> !IsCountHeader(names[j]))
    requires exists e :: 0 <= e < |names| && IsStationHeader(names[e])
    requires "alcaldia" in names && "linea" in names
    ensures RoleLayout(names).Success?
  {
    var c0 := FirstMatch(names, IsCountHeader).value;
    var e0 := FirstMatch(names, IsStationHeader).value;
    var cols := Renamed(names, names[c0], names[e0]);
    assert RoleLayout(names) == ColumnsLayout(cols);
    ColumnsLayoutFinds(cols);
    var a :| 0 <= a < |names| && names[a] == "alcaldia";
    var n :| 0 <= n < |names| && names[n] == "linea";
    PlainColumnsHaveNoRole();
    RenameKeeps(names[a], names[c0], names[e0], "alcaldia");
    RenameKeeps(names[n], names[c0], names[e0], "linea");
    RenameOutcome(names[c0], names[c0], names[e0]);
    RenameOutcome(names[e0], names[c0], names[e0]);
    assert cols[a] == "alcaldia" && cols[n] == "linea";
    assert cols[c0] == "robos";
    assert cols[e0] == "estacion";
  }

  // ----- rows -----

  /** The line label: `astype(str)`, `str.upper()`, every "LÍNEA" and then
      every "LINEA" replaced by "L", `str.strip()`. The `fillna` that follows
      in the source never fires, since `astype(str)` leaves no missing value. */
  function CanonicalLine(c: Cell): string {
    Strip(ReplaceAll(ReplaceAll(Upper(CellText(c)), "L\U{00CD}NEA", "L"), "LINEA", "L"))
  }

  /** The value a non-missing cell contributes as a group-by key. */
  function KeyOf(c: Cell): Key
    requires !c.Empty?
  {
    match c
    case Number(v, _) => Num(v)
    case Text(s) => Str(s)
  }

  /** One data row after the column assignments, or `None` when `dropna`
      removes it (a missing alcaldía or estación; the other three columns
      are never missing by then). */
  function RowRecord(year: int, layout: Layout, row: seq<Cell>): (r: Option<Record>)
    ensures r.None? <==> CellAt(row, layout.alcaldia).Empty? || CellAt(row, layout.estacion).Empty?
    ensures r.Some? ==> r.value.year == year
    ensures r.Some? ==> r.value.robos == CountValue(CellAt(row, layout.count))
    ensures r.Some? ==> r.value.linea == CanonicalLine(CellAt(row, layout.linea))
    ensures r.Some? ==> r.value.alcaldia == KeyOf(CellAt(row, layout.alcaldia))
                        && r.value.estacion == KeyOf(CellAt(row, layout.estacion))
  {
    var a, e := CellAt(row, layout.alcaldia), CellAt(row, layout.estacion);
    if a.Empty? || e.Empty? then None
    else Some(Record(year, KeyOf(a), CanonicalLine(CellAt(row, layout.linea)), KeyOf(e),
                     CountValue(CellAt(row, layout.count))))
  }

  /** The rows `dropna` keeps, in sheet order. This row-by-row recursion is
      the reference definition; `RecordsArePresent` shows it is the generic
      filter of `RowRecords`, and `RecordsInRowOrder` says what it keeps. */
  function Records(year: int, layout: Layout, rows: seq<seq<Cell>>): seq<Record> {
    if rows == [] then []
    else Records(year, layout, rows[..|rows| - 1]) + Kept(RowRecord(year, layout, rows[|rows| - 1]))
  }

  function Kept(o: Option<Record>): seq<Record> {
    if o.Some? then [o.value] else []
  }

  /** Every kept record is a row of the sheet, stamped with the sheet's year,
      and there are at most as many records as rows. */
  lemma RecordsFromRows(year: int, layout: Layout, rows: seq<seq<Cell>>)
    ensures |Records(year, layout, rows)| <= |rows|
    ensures forall r :: r in Records(year, layout, rows) ==>
      r.year == year && exists row :: row in rows && RowRecord(year, layout, row) == Some(r)
  {
    var rs, ks := Records(year, layout, rows), KeptRows(year, layout, rows);
    RecordsInRowOrder(year, layout, rows);
    forall r | r in rs
      ensures r.year == year && exists row :: row in rows && RowRecord(year, layout, row) == Some(r)
    {
      var k :| 0 <= k < |rs| && rs[k] == r;
      assert rows[ks[k]] in rows;
    }
  }

  /** A row with both alcaldía and estación present is kept. */
  lemma CompleteRowKept(year: int, layout: Layout, rows: seq<seq<Cell>>, i: nat)
    requires i < |rows|
    requires !CellAt(rows[i], layout.alcaldia).Empty? && !CellAt(rows[i], layout.estacion).Empty?
    ensures RowRecord(year, layout, rows[i]).value in Records(year, layout, rows)
  {
    var rs, ks := Records(year, layout, rows), KeptRows(year, layout, rows);
    RecordsInRowOrder(year, layout, rows);
    var k :| 0 <= k < |ks| && ks[k] == i;
    assert rs[k] == RowRecord(year, layout, rows[i]).value;
  }

  /** What `dropna` sees, one entry per row. */
  function RowRecords(year: int, layout: Layout, rows: seq<seq<Cell>>): (os: seq<Option<Record>>)
    ensures |os| == |rows| && forall i :: 0 <= i < |rows| ==> os[i] == RowRecord(year, layout, rows[i])
  {
    seq(|rows|, i requires 0 <= i < |rows| => RowRecord(year, layout, rows[i]))
  }

  /** The row-by-row recursion of `Records` is the filter of `RowRecords`. */
  lemma {:induction false} RecordsArePresent(year: int, layout: Layout, rows: seq<seq<Cell>>)
    ensures Records(year, layout, rows) == Present(RowRecords(year, layout, rows))
  {
    if rows != [] {
      var os := RowRecords(year, layout, rows);
      RecordsArePresent(year, layout, rows[..|rows| - 1]);
      assert RowRecords(year, layout, rows[..|rows| - 1]) == os[..|os| - 1];
    }
  }

  /** The positions of the rows `dropna` keeps, in sheet order. */
  function KeptRows(year: int, layout: Layout, rows: seq<seq<Cell>>): seq<nat> {
    PresentAt(RowRecords(year, layout, rows))
  }

  /** `dropna` keeps rows in order and each at most once: the k-th record is
      the record of the k-th kept row, the kept positions strictly increase,
      and a position is kept exactly when its row has both alcaldía and
      estación. */
  lemma RecordsInRowOrder(year: int, layout: Layout, rows: seq<seq<Cell>>)
    ensures |Records(year, layout, rows)| == |KeptRows(year, layout, rows)| <= |rows|
    ensures forall k :: 0 <= k < |KeptRows(year, layout, rows)| ==>
      KeptRows(year, layout, rows)[k] < |rows|
      && RowRecord(year, layout, rows[KeptRows(year, layout, rows)[k]]) == Some(Records(year, layout, rows)[k])
    ensures forall k, m :: 0 <= k < m < |KeptRows(year, layout, rows)| ==>
      KeptRows(year, layout, rows)[k] < KeptRows(year, layout, rows)[m]
    ensures forall i :: 0 <= i < |rows| ==>
      (i in KeptRows(year, layout, rows) <==>
       !CellAt(rows[i], layout.alcaldia).Empty? && !CellAt(rows[i], layout.estacion).Empty?)
  {
    RecordsArePresent(year, layout, rows);
    PresentInOrder(RowRecords(year, layout, rows));
  }

  /** One sheet of the workbook, through the body of the loop. */
  function LoadSheet(year: int, sheet: Sheet): Result<seq<Record>, SheetError> {
    match SheetLayout(sheet.header)
    case Failure(e) => Failure(e)
    case Success(layout) => Success(Records(year, layout, sheet.rows))
  }

  /** One iteration of the loop: read the sheet named `name` and load it. */
  function LoadYear(workbook: map<string, Sheet>, name: string): Result<seq<Record>, SheetError>
    requires AllDigits(name)
  {
    if name !in workbook then Failure(SheetMissing)
    else LoadSheet(SheetYear(name), workbook[name])
  }

  /** What the loop gets from each sheet named in `names`, in order. */
  function Outcomes(workbook: map<string, Sheet>, names: seq<string>): (o: seq<Result<seq<Record>, SheetError>>)
    requires forall i :: 0 <= i < |names| ==> AllDigits(names[i])
    ensures |o| == |names| && forall i :: 0 <= i < |names| ==> o[i] == LoadYear(workbook, names[i])
  {
    seq(|names|, i requires 0 <= i < |names| => LoadYear(workbook, names[i]))
  }

  /** The frames of the sheets that loaded, concatenated in order; a sheet
      that failed contributes nothing. */
  function Collect(outcomes: seq<Result<seq<Record>, SheetError>>): seq<Record> {
    if outcomes == [] then []
    else
      var last := outcomes[|outcomes| - 1];
      Collect(outcomes[..|outcomes| - 1]) + (if last.Success? then last.value else [])
  }

  /** The frame `load_data` returns. */
  function Loaded(workbook: map<string, Sheet>): seq<Record> {
    YearSheetsAreYears();
    Collect(Outcomes(workbook, YearSheets))
  }

  /** `pd.concat` of the collected frames. */
  function Concat(frames: seq<seq<Record>>): seq<Record> {
    if frames == [] then [] else Concat(frames[..|frames| - 1]) + frames[|frames| - 1]
  }

  /** `load_data`: the loop over the year sheets, collecting the frames of the
      sheets that load and concatenating them at the end. */
  method LoadData(workbook: map<string, Sheet>) returns (df: seq<Record>)
    ensures df == Loaded(workbook)
  {
    YearSheetsAreYears();
    ghost var outcomes := Outcomes(workbook, YearSheets);
    var dfs: seq<seq<Record>> := [];
    for i := 0 to |YearSheets|
      invariant Concat(dfs) == Collect(outcomes[..i])
    {
      assert outcomes[..i + 1][..i] == outcomes[..i];
      var outcome := LoadYear(workbook, YearSheets[i]);
      assert outcome == outcomes[i];
      if outcome.Success? {
        dfs := dfs + [outcome.value];
      }
    }
    assert outcomes[..|YearSheets|] == outcomes;
    if dfs == [] {
      return [];
    }
    df := Concat(dfs);
  }

  // ----- properties of the loaded frame -----

  /** A record is collected exactly when some successful outcome holds it. */
  lemma {:induction false} CollectMembership(outcomes: seq<Result<seq<Record>, SheetError>>, r: Record)
    ensures r in Collect(outcomes) <==>
      exists i :: 0 <= i < |outcomes| && outcomes[i].Success? && r in outcomes[i].value
  {
    if outcomes != [] {
      var init := outcomes[..|outcomes| - 1];
      CollectMembership(init, r);
      assert forall i :: 0 <= i < |init| ==> init[i] == outcomes[i];
    }
  }

  lemma LoadedMembership(workbook: map<string, Sheet>, r: Record)
    ensures forall i :: 0 <= i < |YearSheets| ==> AllDigits(YearSheets[i])
    ensures r in Loaded(workbook) <==>
      exists i :: 0 <= i < |YearSheets| && LoadYear(workbook, YearSheets[i]).Success?
        && r in LoadYear(workbook, YearSheets[i]).value
  {
    YearSheetsAreYears();
    CollectMembership(Outcomes(workbook, YearSheets), r);
  }

  /** Every record of a sheet carries that sheet's year. */
  lemma LoadYearStampsYear(workbook: map<string, Sheet>, name: string)
    requires AllDigits(name)
    ensures YearsAre(LoadYear(workbook, name), SheetYear(name))
  {
    if name in workbook {
      var sheet := workbook[name];
      match SheetLayout(sheet.header)
      case Success(layout) =>
        RecordsFromRows(SheetYear(name), layout, sheet.rows);
      case Failure(_) =>
    }
  }

  /** Every loaded record comes from one of the five year sheets and carries
      its year. */
  lemma LoadedYears(workbook: map<string, Sheet>)
    ensures forall r :: r in Loaded(workbook) ==> 2020 <= r.year <= 2024
  {
    YearSheetsAreYears();
    forall r | r in Loaded(workbook) ensures 2020 <= r.year <= 2024 {
      LoadedMembership(workbook, r);
      var i :| 0 <= i < |YearSheets| && LoadYear(workbook, YearSheets[i]).Success?
        && r in LoadYear(workbook, YearSheets[i]).value;
      LoadYearStampsYear(workbook, YearSheets[i]);
    }
  }

  /** The years of the records of outcome i. */
  predicate YearsAre(o: Result<seq<Record>, SheetError>, year: int) {
    o.Success? ==> forall r :: r in o.value ==> r.year == year
  }

  predicate YearsNonDecreasing(f: seq<Record>) {
    forall i, j :: 0 <= i <= j < |f| ==> f[i].year <= f[j].year
  }

  /** Outcomes whose years increase are collected with years never
      decreasing. */
  lemma {:induction false} CollectOrdered(outcomes: seq<Result<seq<Record>, SheetError>>, years: seq<int>)
    requires |years| == |outcomes|
    requires forall i :: 0 <= i < |outcomes| ==> YearsAre(outcomes[i], years[i])
    requires forall i, j :: 0 <= i < j < |years| ==> years[i] < years[j]
    ensures YearsNonDecreasing(Collect(outcomes))
    ensures outcomes != [] ==> forall r :: r in Collect(outcomes) ==> r.year <= years[|years| - 1]
  {
    if outcomes != [] {
      var n := |outcomes| - 1;
      var init, last := outcomes[..n], outcomes[n];
      CollectOrdered(init, years[..n]);
      var a, b := Collect(init), if last.Success? then last.value else [];
      var f := Collect(outcomes);
      assert f == a + b;
      assert YearsAre(last, years[n]);
      assert forall r :: r in a ==> r.year <= years[n] by {
        if init != [] {
          assert years[..n][n - 1] < years[n];
        }
      }
      forall i, j | 0 <= i <= j < |f| ensures f[i].year <= f[j].year {
        if j < |a| {
          assert f[i] == a[i] && f[j] == a[j];
          assert a[i].year <= a[j].year;
        } else if i < |a| {
          assert f[i] in a;
          assert last.Success? && f[j] == last.value[j - |a|];
          assert f[j] in last.value;
        } else {
          assert last.Success? && f[i] == last.value[i - |a|] && f[j] == last.value[j - |a|];
          assert f[i] in last.value && f[j] in last.value;
        }
      }
      forall r | r in f ensures r.year <= years[n] {
        if r !in a {
          assert r in b;
        }
      }
    }
  }

  /** Sheets are concatenated in year order: years never decrease along the
      result. */
  lemma LoadedYearsAscending(workbook: map<string, Sheet>)
    ensures YearsNonDecreasing(Loaded(workbook))
  {
    YearSheetsAreYears();
    var outcomes := Outcomes(workbook, YearSheets);
    var years := seq(|YearSheets|, i => 2020 + i);
    forall i | 0 <= i < |outcomes| ensures YearsAre(outcomes[i], years[i]) {
      LoadYearStampsYear(workbook, YearSheets[i]);
      assert SheetYear(YearSheets[i]) == years[i];
    }
    CollectOrdered(outcomes, years);
    assert Loaded(workbook) == Collect(outcomes);
  }

  /** Failed outcomes are interchangeable: two outcome lists that agree on
      every successful entry collect the same frame. */
  lemma {:induction false} CollectIgnoresFailures(o1: seq<Result<seq<Record>, SheetError>>, o2: seq<Result<seq<Record>, SheetError>>)
    requires |o1| == |o2|
    requires forall i :: 0 <= i < |o1| ==> o1[i] == o2[i] || (o1[i].Failure? && o2[i].Failure?)
    ensures Collect(o1) == Collect(o2)
  {
    if o1 != [] {
      var n := |o1| - 1;
      CollectIgnoresFailures(o1[..n], o2[..n]);
    }
  }

  /** A sheet that fails is as good as absent: removing it from the workbook
      leaves the result unchanged, and the other sheets load as before. */
  lemma LoadedSkipsFailingSheet(workbook: map<string, Sheet>, bad: string)
    requires AllDigits(bad)
    requires LoadYear(workbook, bad).Failure?
    ensures Loaded(workbook) == Loaded(workbook - {bad})
  {
    YearSheetsAreYears();
    var o1, o2 := Outcomes(workbook, YearSheets), Outcomes(workbook - {bad}, YearSheets);
    forall i | 0 <= i < |o1| ensures o1[i] == o2[i] || (o1[i].Failure? && o2[i].Failure?) {
      if YearSheets[i] != bad {
        assert o1[i] == LoadYear(workbook, YearSheets[i]);
        assert YearSheets[i] in workbook <==> YearSheets[i] in workbook - {bad};
      }
    }
    CollectIgnoresFailures(o1, o2);
  }

  /** Nothing is collected exactly when no outcome is a success with rows. */
  lemma {:induction false} CollectEmptyIff(outcomes: seq<Result<seq<Record>, SheetError>>)
    ensures Collect(outcomes) == [] <==>
      forall i :: 0 <= i < |outcomes| ==> outcomes[i].Failure? || outcomes[i].value == []
  {
    if outcomes != [] {
      var init := outcomes[..|outcomes| - 1];
      CollectEmptyIff(init);
      assert forall i :: 0 <= i < |init| ==> init[i] == outcomes[i];
    }
  }

  /** The result is empty exactly when no year sheet loads with a row. */
  lemma LoadedEmptyIff(workbook: map<string, Sheet>)
    ensures forall i :: 0 <= i < |YearSheets| ==> AllDigits(YearSheets[i])
    ensures Loaded(workbook) == [] <==>
      forall i :: 0 <= i < |YearSheets| ==>
        LoadYear(workbook, YearSheets[i]).Failure? || LoadYear(workbook, YearSheets[i]).value == []
  {
    YearSheetsAreYears();
    CollectEmptyIff(Outcomes(workbook, YearSheets));
  }

  // ----- line labels -----

  /** A line label has no lower-case letter and no whitespace at either end. */
  lemma CanonicalLineShape(c: Cell)
    ensures Trimmed(CanonicalLine(c))
    ensures NoLower(CanonicalLine(c))
  {
    var u := Upper(CellText(c));
    var s1 := ReplaceAll(u, "L\U{00CD}NEA", "L");
    var s2 := ReplaceAll(s1, "LINEA", "L");
    assert NoLower("L");
    UpperHasNoLower(CellText(c));
    ReplaceAllNoLower(u, "L\U{00CD}NEA", "L");
    ReplaceAllNoLower(s1, "LINEA", "L");
    StripNoLower(s2);
    StripIsTrimmedSlice(s2);
  }

  /** The four steps of `CanonicalLine`, one at a time. */
  lemma LineSteps(s: string, u: string, s1: string, s2: string, r: string)
    requires Upper(s) == u
    requires ReplaceAll(u, "L\U{00CD}NEA", "L") == s1
    requires ReplaceAll(s1, "LINEA", "L") == s2
    requires Strip(s2) == r
    ensures CanonicalLine(Text(s)) == r
  {
  }

  lemma UpperLineaOne()
    ensures Upper("Linea 1") == "LINEA 1"
  {
    var s := "Linea 1";
    assert s[1..] == "inea 1" && s[2..] == "nea 1" && s[3..] == "ea 1";
    assert s[4..] == "a 1" && s[5..] == " 1" && s[6..] == "1";
  }

  lemma UpperAccentedLineaOne()
    ensures Upper("L\U{00ED}nea 1") == "L\U{00CD}NEA 1"
  {
    var s := "L\U{00ED}nea 1";
    assert s[1..] == "\U{00ED}nea 1" && s[2..] == "nea 1" && s[3..] == "ea 1";
    assert s[4..] == "a 1" && s[5..] == " 1" && s[6..] == "1";
  }

  lemma UpperNan()
    ensures Upper("nan") == "NAN"
  {
    var s := "nan";
    assert s[1..] == "an" && s[2..] == "n";
  }

  lemma ReplaceAccentedLinea()
    ensures ReplaceAll("L\U{00CD}NEA 1", "L\U{00CD}NEA", "L") == "L 1"
  {
    var s := "L\U{00CD}NEA 1";
    assert s[..5] == "L\U{00CD}NEA" && s[5..] == " 1";
  }

  lemma ReplacePlainLineaAbsent()
    ensures ReplaceAll("LINEA 1", "L\U{00CD}NEA", "L") == "LINEA 1"
  {
    var pat := "L\U{00CD}NEA";
    var u := "LINEA 1";
    assert u[..5] != pat by { assert u[..5][1] != pat[1]; }
    assert u[1..] == "INEA 1" && u[1..][..5] != pat;
    assert u[2..] == "NEA 1" && u[2..][..5] != pat;
    assert ReplaceAll(u[3..], pat, "L") == u[3..];
  }

  lemma ReplacePlainLinea()
    ensures ReplaceAll("LINEA 1", "LINEA", "L") == "L 1"
  {
    var u := "LINEA 1";
    assert u[..5] == "LINEA" && u[5..] == " 1";
  }

  lemma ReplaceInShortLabel()
    ensures ReplaceAll("L 1", "LINEA", "L") == "L 1"
    ensures ReplaceAll("NAN", "L\U{00CD}NEA", "L") == "NAN"
    ensures ReplaceAll("NAN", "LINEA", "L") == "NAN"
  {
  }

  lemma StripShortLabels()
    ensures Strip("L 1") == "L 1"
    ensures Strip("NAN") == "NAN"
  {
    assert Trimmed("L 1") && Trimmed("NAN");
    StripIsTrimmedSlice("L 1");
    StripIsTrimmedSlice("NAN");
  }

  /** "LÍNEA 1", "Línea 1" and "Linea 1" all become "L 1": the inner space
      survives, only the word is abbreviated. */
  lemma LineLabelExamples()
    ensures CanonicalLine(Text("L\U{00CD}NEA 1")) == "L 1"
    ensures CanonicalLine(Text("L\U{00ED}nea 1")) == "L 1"
    ensures CanonicalLine(Text("Linea 1")) == "L 1"
  {
    var s := "L\U{00CD}NEA 1";
    assert NoLower(s);
    UpperOfNoLower(s);
    UpperAccentedLineaOne();
    UpperLineaOne();
    ReplaceAccentedLinea();
    ReplacePlainLineaAbsent();
    ReplacePlainLinea();
    ReplaceInShortLabel();
    StripShortLabels();
    LineSteps(s, s, "L 1", "L 1", "L 1");
    LineSteps("L\U{00ED}nea 1", s, "L 1", "L 1", "L 1");
    LineSteps("Linea 1", "LINEA 1", "LINEA 1", "L 1", "L 1");
  }

  /** A trimmed upper-case label without the letter L holds neither "LÍNEA"
      nor "LINEA", so it comes through unchanged. */
  lemma PlainLineLabelKept(s: string)
    requires Trimmed(s) && NoLower(s)
    requires forall i :: 0 <= i < |s| ==> s[i] != 'L'
    ensures CanonicalLine(Text(s)) == s
  {
    UpperOfNoLower(s);
    NoLetterNoWord(s, "L\U{00CD}NEA");
    ReplaceAbsent(s, "L\U{00CD}NEA", "L");
    NoLetterNoWord(s, "LINEA");
    ReplaceAbsent(s, "LINEA", "L");
    StripIsTrimmedSlice(s);
    LineSteps(s, s, s, s, s);
  }

  /** A word starting with a letter `s` lacks does not occur in `s`. */
  lemma NoLetterNoWord(s: string, pat: string)
    requires pat != [] && forall i :: 0 <= i < |s| ==> s[i] != pat[0]
    ensures forall i :: 0 <= i <= |s| - |pat| ==> !OccursAt(s, pat, i)
  {
    forall i | 0 <= i <= |s| - |pat| ensures !OccursAt(s, pat, i) {
      assert s[i..i + |pat|][0] == s[i];
    }
  }

  /** The label "DESCONOCIDA" that the line chart filters out comes only from
      a line cell that already reads so. */
  lemma UnknownLineLabelKept()
    ensures CanonicalLine(Text("DESCONOCIDA")) == "DESCONOCIDA"
  {
    PlainLineLabelKept("DESCONOCIDA");
  }

  /** A missing line cell becomes "NAN", never "DESCONOCIDA". */
  lemma MissingLineIsNan()
    ensures CanonicalLine(Empty) == "NAN"
  {
    UpperNan();
    ReplaceInShortLabel();
    StripShortLabels();
    LineSteps("nan", "NAN", "NAN", "NAN", "NAN");
    assert CanonicalLine(Empty) == CanonicalLine(Text("nan"));
  }
}
