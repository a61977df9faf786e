/** The data behind the gender pie chart: the sheet "Hoja1" with its columns
    "genero" and "frecuencia". `programa.py` reads every header through
    `str()`, and cleans the rows; `graficas.py` calls `strip()` on the header
    itself, so a header that is not text makes it fail, and it keeps every
    row as it is. Both return `None` when the sheet cannot be used. */
module Gender {
  import opened Wrappers
  import opened Text
  import opened Cells
  import opened Columns
  import opened Loader
  import opened Filter

  const GenderSheet: string := "Hoja1"

  /** `str(col)` of a header. */
  function LabelText(l: ColumnLabel): string {
    match l
    case TextLabel(t) => t
    case OtherLabel(shown) => shown
  }

  /** `[str(col).strip().lower() for col in df_gender.columns]`: no accent is
      removed and no space replaced. */
  function GenderHeaders(header: seq<ColumnLabel>): (names: seq<string>)
    ensures |names| == |header|
    ensures forall j :: 0 <= j < |header| ==> names[j] == Lower(Strip(LabelText(header[j])))
  {
    seq(|header|, j requires 0 <= j < |header| => Lower(Strip(LabelText(header[j]))))
  }

  // ----- programa.py -----

  /** One slice of the pie after cleaning: the gender label and a number. */
  datatype Slice = Slice(genero: Cell, frecuencia: real)

  /** A row survives `dropna()` on both columns and the `dropna` that follows
      `to_numeric(..., errors='coerce')` on "frecuencia". */
  predicate Usable(row: seq<Cell>, g: nat, f: nat) {
    CellAt(row, g) != Empty && ToNumeric(CellAt(row, f)).Some?
  }

  function SliceOf(row: seq<Cell>, g: nat, f: nat): Slice
    requires Usable(row, g, f)
  {
    Slice(CellAt(row, g), ToNumeric(CellAt(row, f)).value)
  }

  /** The cleaning steps, row by row and in order. This recursion is the
      reference definition; `CleanRowsArePresent` shows it is the generic
      filter of `RowSlices`, and `CleanRowsInOrder` says what it keeps. */
  function CleanRows(rows: seq<seq<Cell>>, g: nat, f: nat): seq<Slice> {
    if rows == [] then []
    else
      var last := rows[|rows| - 1];
      CleanRows(rows[..|rows| - 1], g, f) + (if Usable(last, g, f) then [SliceOf(last, g, f)] else [])
  }

  /** The cleaned data keeps exactly the usable rows: each slice comes from a
      usable row with its number read by `to_numeric`, and each usable row
      gives a slice. */
  lemma CleanRowsKeepsUsable(rows: seq<seq<Cell>>, g: nat, f: nat)
    ensures |CleanRows(rows, g, f)| <= |rows|
    ensures forall s :: s in CleanRows(rows, g, f) ==>
      exists i :: 0 <= i < |rows| && Usable(rows[i], g, f) && s == SliceOf(rows[i], g, f)
    ensures forall i :: 0 <= i < |rows| && Usable(rows[i], g, f) ==> SliceOf(rows[i], g, f) in CleanRows(rows, g, f)
  {
    var ss, ks := CleanRows(rows, g, f), UsableRows(rows, g, f);
    CleanRowsInOrder(rows, g, f);
    forall s | s in ss
      ensures exists i :: 0 <= i < |rows| && Usable(rows[i], g, f) && s == SliceOf(rows[i], g, f)
    {
      var k :| 0 <= k < |ss| && ss[k] == s;
      assert Usable(rows[ks[k]], g, f) && s == SliceOf(rows[ks[k]], g, f);
    }
    forall i | 0 <= i < |rows| && Usable(rows[i], g, f)
      ensures SliceOf(rows[i], g, f) in ss
    {
      var k :| 0 <= k < |ks| && ks[k] == i;
      assert ss[k] == SliceOf(rows[i], g, f);
    }
  }

  /** What the cleaning decides for each row. */
  function RowSlice(row: seq<Cell>, g: nat, f: nat): (o: Option<Slice>)
    ensures o.Some? <==> Usable(row, g, f)
    ensures o.Some? ==> o.value.genero == CellAt(row, g) && ToNumeric(CellAt(row, f)) == Some(o.value.frecuencia)
  {
    if Usable(row, g, f) then Some(SliceOf(row, g, f)) else None
  }

  function RowSlices(rows: seq<seq<Cell>>, g: nat, f: nat): (os: seq<Option<Slice>>)
    ensures |os| == |rows| && forall i :: 0 <= i < |rows| ==> os[i] == RowSlice(rows[i], g, f)
  {
    seq(|rows|, i requires 0 <= i < |rows| => RowSlice(rows[i], g, f))
  }

  /** The row-by-row recursion of `CleanRows` is the filter of `RowSlices`. */
  lemma {:induction false} CleanRowsArePresent(rows: seq<seq<Cell>>, g: nat, f: nat)
    ensures CleanRows(rows, g, f) == Present(RowSlices(rows, g, f))
  {
    if rows != [] {
      var os := RowSlices(rows, g, f);
      CleanRowsArePresent(rows[..|rows| - 1], g, f);
      assert RowSlices(rows[..|rows| - 1], g, f) == os[..|os| - 1];
    }
  }

  /** The positions of the rows the cleaning keeps, in sheet order. */
  function UsableRows(rows: seq<seq<Cell>>, g: nat, f: nat): seq<nat> {
    PresentAt(RowSlices(rows, g, f))
  }

  /** The cleaning keeps rows in order and each at most once: the k-th slice
      is read from the k-th usable row, the kept positions strictly increase,
      and a position is kept exactly when its row is usable. */
  lemma CleanRowsInOrder(rows: seq<seq<Cell>>, g: nat, f: nat)
    ensures |CleanRows(rows, g, f)| == |UsableRows(rows, g, f)| <= |rows|
    ensures forall k :: 0 <= k < |UsableRows(rows, g, f)| ==>
      UsableRows(rows, g, f)[k] < |rows|
      && Usable(rows[UsableRows(rows, g, f)[k]], g, f)
      && CleanRows(rows, g, f)[k] == SliceOf(rows[UsableRows(rows, g, f)[k]], g, f)
    ensures forall k, m :: 0 <= k < m < |UsableRows(rows, g, f)| ==>
      UsableRows(rows, g, f)[k] < UsableRows(rows, g, f)[m]
    ensures forall i :: 0 <= i < |rows| ==> (i in UsableRows(rows, g, f) <==> Usable(rows[i], g, f))
  {
    CleanRowsArePresent(rows, g, f);
    PresentInOrder(RowSlices(rows, g, f));
  }

  lemma {:induction false} CleanRowsEmptyIff(rows: seq<seq<Cell>>, g: nat, f: nat)
    ensures CleanRows(rows, g, f) == [] <==> forall i :: 0 <= i < |rows| ==> !Usable(rows[i], g, f)
  {
    CleanRowsKeepsUsable(rows, g, f);
    if CleanRows(rows, g, f) != [] {
      assert CleanRows(rows, g, f)[0] in CleanRows(rows, g, f);
    }
  }

  /** `generate_gender_plot` of `programa.py`, up to the drawing. */
  function GenderData(workbook: map<string, Sheet>): Option<seq<Slice>> {
    if GenderSheet !in workbook then None
    else
      var sheet := workbook[GenderSheet];
      var names := GenderHeaders(sheet.header);
      match (ColumnIndex(names, "genero"), ColumnIndex(names, "frecuencia"))
      case (Some(g), Some(f)) =>
        var slices := CleanRows(sheet.rows, g, f);
        if slices == [] then None else Some(slices)
      case _ => None
  }

  /** `None` exactly when the sheet is missing, a column is missing after
      `strip().lower()`, or no row survives the cleaning; otherwise every
      slice has a gender and a number. */
  lemma GenderDataNoneIff(workbook: map<string, Sheet>)
    ensures GenderData(workbook).None? <==>
      || GenderSheet !in workbook
      || "genero" !in GenderHeaders(workbook[GenderSheet].header)
      || "frecuencia" !in GenderHeaders(workbook[GenderSheet].header)
      || (forall i :: 0 <= i < |workbook[GenderSheet].rows| ==>
            !Usable(workbook[GenderSheet].rows[i],
                    ColumnIndex(GenderHeaders(workbook[GenderSheet].header), "genero").value,
                    ColumnIndex(GenderHeaders(workbook[GenderSheet].header), "frecuencia").value))
    ensures GenderData(workbook).Some? ==>
      forall s :: s in GenderData(workbook).value ==> s.genero != Empty
    ensures GenderData(workbook).Some? ==>
      GenderData(workbook).value ==
        CleanRows(workbook[GenderSheet].rows,
                  ColumnIndex(GenderHeaders(workbook[GenderSheet].header), "genero").value,
                  ColumnIndex(GenderHeaders(workbook[GenderSheet].header), "frecuencia").value)
  {
    if GenderSheet in workbook {
      var sheet := workbook[GenderSheet];
      var names := GenderHeaders(sheet.header);
      if "genero" in names && "frecuencia" in names {
        var g := ColumnIndex(names, "genero").value;
        var f := ColumnIndex(names, "frecuencia").value;
        CleanRowsEmptyIff(sheet.rows, g, f);
        CleanRowsKeepsUsable(sheet.rows, g, f);
      }
    }
  }

  /** No accent is removed: a header holding one of ó é í á ú ñ, in either
      case and wherever it sits ("Género", " GÉNERO ", "Frecuencia de
      género"), never reads as "genero" or "frecuencia". */
  lemma AccentedHeaderNotFound(l: ColumnLabel, i: nat)
    requires i < |LabelText(l)| && IsAccented(LowerChar(LabelText(l)[i]))
    ensures GenderHeaders([l])[0] != "genero"
    ensures GenderHeaders([l])[0] != "frecuencia"
  {
    var t := LabelText(l);
    AccentIsNotSpace(t[i]);
    var k := StripKeepsNonSpace(t, i);
    var name := GenderHeaders([l])[0];
    assert name == Lower(Strip(t));
    assert name[k] == LowerChar(t[i]);
    AccentedNotAName(name, k);
  }

  lemma AccentIsNotSpace(c: char)
    requires IsAccented(LowerChar(c))
    ensures !IsSpace(c)
  {
  }

  lemma AccentedNotAName(name: string, k: nat)
    requires k < |name| && IsAccented(name[k])
    ensures name != "genero" && name != "frecuencia"
  {
    assert forall j :: 0 <= j < |"genero"| ==> !IsAccented("genero"[j]);
    assert forall j :: 0 <= j < |"frecuencia"| ==> !IsAccented("frecuencia"[j]);
  }

  // ----- graficas.py -----

  /** One slice as `graficas.py` draws it: both cells untouched. */
  datatype RawSlice = RawSlice(genero: Cell, frecuencia: Cell)

  /** `df_gender['genero']` and `df_gender['frecuencia']`, side by side. */
  function RawSlices(rows: seq<seq<Cell>>, g: nat, f: nat): (slices: seq<RawSlice>)
    ensures |slices| == |rows|
    ensures forall i :: 0 <= i < |rows| ==> slices[i] == RawSlice(CellAt(rows[i], g), CellAt(rows[i], f))
  {
    seq(|rows|, i requires 0 <= i < |rows| => RawSlice(CellAt(rows[i], g), CellAt(rows[i], f)))
  }

  /** `generate_gender_plot` of `graficas.py`, up to the drawing. */
  function RawGenderData(workbook: map<string, Sheet>): Option<seq<RawSlice>> {
    if GenderSheet !in workbook || !AllText(workbook[GenderSheet].header) then None
    else
      var sheet := workbook[GenderSheet];
      var names := GenderHeaders(sheet.header);
      match (ColumnIndex(names, "genero"), ColumnIndex(names, "frecuencia"))
      case (Some(g), Some(f)) =>
        Some(RawSlices(sheet.rows, g, f))
      case _ => None
  }

  /** `None` exactly when the sheet is missing, a header is not text (its
      `strip()` raises) or a column is missing; otherwise one slice per row,
      with nothing cleaned, even an empty sheet. */
  lemma RawGenderDataSpec(workbook: map<string, Sheet>)
    ensures RawGenderData(workbook).None? <==>
      || GenderSheet !in workbook
      || !AllText(workbook[GenderSheet].header)
      || "genero" !in GenderHeaders(workbook[GenderSheet].header)
      || "frecuencia" !in GenderHeaders(workbook[GenderSheet].header)
    ensures RawGenderData(workbook).Some? ==>
      && |RawGenderData(workbook).value| == |workbook[GenderSheet].rows|
      && forall i :: 0 <= i < |workbook[GenderSheet].rows| ==>
           RawGenderData(workbook).value[i].genero ==
             CellAt(workbook[GenderSheet].rows[i], ColumnIndex(GenderHeaders(workbook[GenderSheet].header), "genero").value)
    ensures RawGenderData(workbook).Some? ==>
      RawGenderData(workbook).value ==
        RawSlices(workbook[GenderSheet].rows,
                  ColumnIndex(GenderHeaders(workbook[GenderSheet].header), "genero").value,
                  ColumnIndex(GenderHeaders(workbook[GenderSheet].header), "frecuencia").value)
  {
  }

  // ----- the two variants side by side -----

  /** A header already stripped and lower-case is read as it is. */
  lemma PlainHeader(s: string)
    requires Trimmed(s)
    requires forall i :: 0 <= i < |s| ==> !IsUpperChar(s[i])
    ensures Lower(Strip(s)) == s
  {
    StripIsTrimmedSlice(s);
  }

  /** A sheet with a numeric header beside "genero" and "frecuencia", and one
      usable row. */
  const NumericHeaderSheet: Sheet := Sheet(
    [TextLabel("genero"), TextLabel("frecuencia"), OtherLabel("2024")],
    [[Text("Mujer"), Number(3.0, "3")]])

  lemma GeneroHeader()
    ensures Lower(Strip("genero")) == "genero"
  {
    PlainHeader("genero");
  }

  lemma FrecuenciaHeader()
    ensures Lower(Strip("frecuencia")) == "frecuencia"
  {
    PlainHeader("frecuencia");
  }

  lemma PlainColumns(header: seq<ColumnLabel>)
    requires |header| >= 2 && header[0] == TextLabel("genero") && header[1] == TextLabel("frecuencia")
    ensures ColumnIndex(GenderHeaders(header), "genero") == Some(0)
    ensures ColumnIndex(GenderHeaders(header), "frecuencia") == Some(1)
  {
    var names := GenderHeaders(header);
    GeneroHeader();
    FrecuenciaHeader();
    assert names[0] == "genero" && names[1] == "frecuencia";
    ColumnIndexAt(names, "genero", 0);
    assert |names[0]| != |"frecuencia"|;
    ColumnIndexAt(names, "frecuencia", 1);
  }

  lemma NumericHeaderRows()
    ensures CleanRows(NumericHeaderSheet.rows, 0, 1) == [Slice(Text("Mujer"), 3.0)]
  {
    assert NumericHeaderSheet.rows[..0] == [];
  }

  /** On that sheet the `str()` of `programa.py` reads the numeric header and
      draws the row, while the `strip()` of `graficas.py` raises and nothing
      is drawn. */
  lemma NumericHeaderVariants()
    ensures RawGenderData(map[GenderSheet := NumericHeaderSheet]) == None
    ensures GenderData(map[GenderSheet := NumericHeaderSheet]) == Some([Slice(Text("Mujer"), 3.0)])
  {
    assert !AllText(NumericHeaderSheet.header) by {
      assert !NumericHeaderSheet.header[2].TextLabel?;
    }
    PlainColumns(NumericHeaderSheet.header);
    NumericHeaderRows();
  }
}
