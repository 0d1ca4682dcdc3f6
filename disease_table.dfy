/**
 * The lookup of the predicted disease in the static medical table
 * (app.py:17-18 and 83-92): header names and disease names are compared
 * after `strip().lower()`, the first matching row wins, and blank or
 * missing `causes` / `medicine` fields fall back to fixed placeholders.
 */
module DiseaseTable {
  import opened Wrappers
  import opened Text

  const NO_CAUSE := "Not available"
  const NO_MEDICINE := "Please consult a doctor or take general pain relievers"
  const ADVISORY := "Based on symptoms and disease, consult your Doctor or take medicine for your respective disease."

  /** The medical table as read from its CSV file: a header and rows of cells. */
  datatype Table = Table(header: seq<string>, rows: seq<seq<string>>)

  /** Every row has one cell per column, as a CSV reader lays it out. */
  predicate Rectangular(t: Table) {
    forall row :: row in t.rows ==> |row| == |t.header|
  }

  /** What the page shows for a predicted disease. */
  datatype Advice =
    | Details(cause: string, medicine: string)  // a row matched
    | Suggestion(message: string)               // no row matched

  /** The table has no `disease` column: the filter on it fails. */
  datatype LookupError = NoDiseaseColumn

  /** `medical_df.columns.str.strip().str.lower()`. */
  function NormalizeHeader(header: seq<string>): seq<string> {
    seq(|header|, i requires 0 <= i < |header| => Normalize(header[i]))
  }

  /**
   * Position of the first occurrence of `x` in `xs`, or None when it does
   * not occur: pandas' label lookup of a column, and `iloc[0]` after a
   * boolean filter.
   */
  function IndexOf(xs: seq<string>, x: string): (r: Option<nat>)
    ensures r.None? <==> x !in xs
    ensures r.Some? ==> r.value < |xs| && xs[r.value] == x && x !in xs[..r.value]
  {
    if xs == [] then None
    else if xs[0] == x then Some(0)
    else match IndexOf(xs[1..], x)
      case None => None
      case Some(j) =>
        assert xs[..j + 1] == [xs[0]] + xs[1..][..j];
        Some(j + 1)
  }

  /**
   * `row.get(name, '')` on a row of the table whose columns are labelled
   * `columns`: the cell of the first column labelled `name`, or the empty
   * string when there is none.
   */
  function Field(columns: seq<string>, row: seq<string>, name: string): string
    requires |row| == |columns|
  {
    match IndexOf(columns, name)
    case None => ""
    case Some(c) => row[c]
  }

  /** `value if value else placeholder`. */
  function Shown(value: string, placeholder: string): string {
    if value != "" then value else placeholder
  }

  /** `medical_df["disease"].str.strip().str.lower()` for the column at `d`. */
  function NormalizedColumn(rows: seq<seq<string>>, d: nat): seq<string>
    requires forall row :: row in rows ==> d < |row|
  {
    seq(|rows|, k requires 0 <= k < |rows| => assert rows[k] in rows; Normalize(rows[k][d]))
  }

  /**
   * Lines 83-92: find the predicted label among the table's diseases,
   * ignoring case and surrounding white space. A missing `disease` column
   * is the only failure; a shown cause or medicine is never blank, and a
   * label found in no row always yields the same advisory text.
   */
  function Lookup(t: Table, predicted: string): (r: Result<Advice, LookupError>)
    requires Rectangular(t)
    ensures r.Failure? <==> "disease" !in NormalizeHeader(t.header)
    ensures r.Success? && r.value.Suggestion? ==> r.value.message == ADVISORY
    ensures r.Success? && r.value.Details? ==> r.value.cause != "" && r.value.medicine != ""
  {
    var columns := NormalizeHeader(t.header);
    match IndexOf(columns, "disease")
    case None => Failure(NoDiseaseColumn)
    case Some(d) =>
      match IndexOf(NormalizedColumn(t.rows, d), Normalize(predicted))
      case None => Success(Suggestion(ADVISORY))
      case Some(k) =>
        var row := t.rows[k];
        Success(Details(Shown(Field(columns, row, "causes"), NO_CAUSE),
                        Shown(Field(columns, row, "medicine"), NO_MEDICINE)))
  }

  // ---------------------------------------------------------------------
  // Reference statements, in terms of the raw header and cells.

  /** `c` is the first column whose header, stripped and lower-cased, is `name`. */
  ghost predicate IsColumn(header: seq<string>, c: int, name: string) {
    0 <= c < |header| && Normalize(header[c]) == name
    && forall i :: 0 <= i < c ==> Normalize(header[i]) != name
  }

  /** Row `k` is the first whose disease cell matches `predicted` up to case and white space. */
  ghost predicate IsFirstMatch(t: Table, d: int, k: int, predicted: string)
    requires Rectangular(t) && 0 <= d < |t.header|
  {
    0 <= k < |t.rows| && Normalize(t.rows[k][d]) == Normalize(predicted)
    && forall j :: 0 <= j < k ==> Normalize(t.rows[j][d]) != Normalize(predicted)
  }

  /** The cell under column `name` of a row, or "" when the table has no such column. */
  ghost function CellOrEmpty(header: seq<string>, row: seq<string>, name: string): string
    requires |row| == |header|
  {
    if exists c :: IsColumn(header, c, name) then
      var c :| IsColumn(header, c, name); row[c]
    else ""
  }

  lemma ColumnIndexIsColumn(header: seq<string>, name: string)
    ensures IndexOf(NormalizeHeader(header), name).Some? ==>
              IsColumn(header, IndexOf(NormalizeHeader(header), name).value, name)
    ensures IndexOf(NormalizeHeader(header), name).None? ==>
              forall i :: 0 <= i < |header| ==> Normalize(header[i]) != name
  {
    var columns := NormalizeHeader(header);
    var r := IndexOf(columns, name);
    if r.Some? {
      forall i | 0 <= i < r.value ensures Normalize(header[i]) != name {
        assert columns[..r.value][i] == columns[i];
      }
    } else {
      forall i | 0 <= i < |header| ensures Normalize(header[i]) != name {
        assert columns[i] == Normalize(header[i]);
      }
    }
  }

  /** The first occurrence is the one IndexOf reports. */
  lemma IndexOfFirst(xs: seq<string>, x: string, k: nat)
    requires k < |xs| && xs[k] == x
    requires forall j :: 0 <= j < k ==> xs[j] != x
    ensures IndexOf(xs, x) == Some(k)
  {
    var r := IndexOf(xs, x);
    assert xs[k] in xs;
    assert forall j :: 0 <= j < r.value ==> xs[..r.value][j] == xs[j];
  }

  /** The disease column at `d` is the one the lookup filters on. */
  lemma DiseaseColumnFound(t: Table, d: int)
    requires Rectangular(t) && IsColumn(t.header, d, "disease")
    ensures IndexOf(NormalizeHeader(t.header), "disease") == Some(d)
  {
    var columns := NormalizeHeader(t.header);
    forall j | 0 <= j < d ensures columns[j] != "disease" {
      assert columns[j] == Normalize(t.header[j]);
    }
    IndexOfFirst(columns, "disease", d);
  }

  lemma IsColumnUnique(header: seq<string>, c1: int, c2: int, name: string)
    requires IsColumn(header, c1, name) && IsColumn(header, c2, name)
    ensures c1 == c2
  {
  }

  lemma FieldIsCell(header: seq<string>, row: seq<string>, name: string)
    requires |row| == |header|
    ensures Field(NormalizeHeader(header), row, name) == CellOrEmpty(header, row, name)
  {
    ColumnIndexIsColumn(header, name);
    var r := IndexOf(NormalizeHeader(header), name);
    if r.Some? {
      assert IsColumn(header, r.value, name);
      var c :| IsColumn(header, c, name);
      IsColumnUnique(header, c, r.value, name);
      assert CellOrEmpty(header, row, name) == row[r.value];
    } else {
      assert !exists c :: IsColumn(header, c, name);
      assert CellOrEmpty(header, row, name) == "";
    }
  }

  /** Without a `disease` column the lookup fails, whatever the label. */
  lemma LookupNoDiseaseColumn(t: Table, predicted: string)
    requires Rectangular(t)
    requires forall i :: 0 <= i < |t.header| ==> Normalize(t.header[i]) != "disease"
    ensures Lookup(t, predicted) == Failure(NoDiseaseColumn)
  {
    assert "disease" !in NormalizeHeader(t.header);
  }

  /** When no disease cell matches the predicted, the advisory text is shown, whatever the predicted. */
  lemma LookupNoMatch(t: Table, predicted: string, d: int)
    requires Rectangular(t) && IsColumn(t.header, d, "disease")
    requires forall k :: 0 <= k < |t.rows| ==> Normalize(t.rows[k][d]) != Normalize(predicted)
    ensures Lookup(t, predicted) == Success(Suggestion(ADVISORY))
  {
    DiseaseColumnFound(t, d);
    var column := NormalizedColumn(t.rows, d);
    var key := Normalize(predicted);
    forall k | 0 <= k < |column| ensures column[k] != key {
      assert column[k] == Normalize(t.rows[k][d]);
    }
    assert key !in column;
    assert IndexOf(column, key) == None;
  }

  /**
   * When row `k` is the first match, its `causes` and `medicine` cells are
   * shown, each replaced by its placeholder when blank or when the table
   * has no such column.
   */
  lemma LookupFirstMatch(t: Table, predicted: string, d: int, k: int)
    requires Rectangular(t) && IsColumn(t.header, d, "disease")
    requires IsFirstMatch(t, d, k, predicted)
    ensures Lookup(t, predicted) == Success(Details(
      if CellOrEmpty(t.header, t.rows[k], "causes") != "" then CellOrEmpty(t.header, t.rows[k], "causes") else NO_CAUSE,
      if CellOrEmpty(t.header, t.rows[k], "medicine") != "" then CellOrEmpty(t.header, t.rows[k], "medicine") else NO_MEDICINE))
  {
    DiseaseColumnFound(t, d);
    var column := NormalizedColumn(t.rows, d);
    var key := Normalize(predicted);
    forall j | 0 <= j < k ensures column[j] != key {
      assert column[j] == Normalize(t.rows[j][d]);
    }
    assert column[k] == key;
    IndexOfFirst(column, key, k);
    assert t.rows[k] in t.rows;
    FieldIsCell(t.header, t.rows[k], "causes");
    FieldIsCell(t.header, t.rows[k], "medicine");
  }

  /** Labels that agree up to case and surrounding white space get the same answer. */
  lemma LookupIgnoresCaseAndSpace(t: Table, predicted1: string, predicted2: string)
    requires Rectangular(t)
    requires EqualIgnoringCase(Trim(predicted1), Trim(predicted2))
    ensures Lookup(t, predicted1) == Lookup(t, predicted2)
  {
    NormalizeEqualIff(predicted1, predicted2);
  }

  /** The example table: header "Disease", causes, medicine and one row (flu, virus, rest). */
  function FluTable(): Table {
    Table(["Disease", "causes", "medicine"], [["flu", "virus", "rest"]])
  }

  lemma FluTableLowered()
    ensures Lower("Disease") == "disease" && Lower("causes") == "causes"
    ensures Lower("medicine") == "medicine" && Lower("flu") == "flu" && Lower("Flu") == "flu"
  {
  }

  // One lemma per name keeps each proof about literal strings small.
  lemma DiseaseHeaderNormal() ensures Normalize("Disease") == "disease" {
    FluTableLowered();
    NormalizeUnpadded("Disease");
  }

  lemma CausesHeaderNormal() ensures Normalize("causes") == "causes" {
    FluTableLowered();
    NormalizeUnpadded("causes");
  }

  lemma MedicineHeaderNormal() ensures Normalize("medicine") == "medicine" {
    FluTableLowered();
    NormalizeUnpadded("medicine");
  }

  lemma FluCellNormal() ensures Normalize("flu") == "flu" {
    FluTableLowered();
    NormalizeUnpadded("flu");
  }

  lemma FluLabelNormal() ensures Normalize(" Flu") == "flu" {
    FluTableLowered();
    PaddedFlu();
  }

  lemma PaddedFlu()
    ensures Trim(" Flu") == "Flu"
  {
    assert " Flu"[0] == ' ' && " Flu"[1..] == "Flu";
    assert !IsSpace('F') && !IsSpace('u');
    assert TrimStart("Flu") == "Flu";
    assert TrimStart(" Flu") == "Flu";
    assert TrimEnd("Flu") == "Flu";
  }

  lemma NormalizeUnpadded(s: string)
    requires s != [] && !IsSpace(s[0]) && !IsSpace(s[|s| - 1])
    ensures Normalize(s) == Lower(s)
  {
    TrimUnpadded(s);
  }

  lemma FluTableColumns()
    ensures IsColumn(FluTable().header, 0, "disease")
    ensures IsColumn(FluTable().header, 1, "causes")
    ensures IsColumn(FluTable().header, 2, "medicine")
  {
    DiseaseHeaderNormal();
    CausesHeaderNormal();
    MedicineHeaderNormal();
  }

  lemma FluTableCells()
    ensures CellOrEmpty(FluTable().header, FluTable().rows[0], "causes") == "virus"
    ensures CellOrEmpty(FluTable().header, FluTable().rows[0], "medicine") == "rest"
  {
    var t := FluTable();
    FluTableColumns();
    assert CellOrEmpty(t.header, t.rows[0], "causes") == "virus" by {
      var c :| IsColumn(t.header, c, "causes");
      IsColumnUnique(t.header, c, 1, "causes");
    }
    assert CellOrEmpty(t.header, t.rows[0], "medicine") == "rest" by {
      var c :| IsColumn(t.header, c, "medicine");
      IsColumnUnique(t.header, c, 2, "medicine");
    }
  }

  /** The label " Flu" finds the row (flu, virus, rest) despite the header's and label's casing and padding. */
  lemma LookupExample()
    ensures Lookup(FluTable(), " Flu") == Success(Details("virus", "rest"))
  {
    var t := FluTable();
    FluTableColumns();
    FluTableCells();
    assert IsFirstMatch(t, 0, 0, " Flu") by {
      FluCellNormal();
      FluLabelNormal();
    }
    LookupFirstMatch(t, " Flu", 0, 0);
  }
}
