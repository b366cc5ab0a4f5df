/** The row of a spreadsheet import, as the import hooks see it: a dictionary from column name
    to cell that the hooks check and rewrite in place. */
module ImportRows {
  import opened Results
  import opened Text

  /** A column of an import sheet: the headers the hooks read by name, and any other header. */
  datatype Column =
    | ProjectId | Name | Description | BusinessArea | ProjectType | ProjectManager
    | Status | Priority | EffortSize | Clarity | Timeline | TCode | IpbssRemedy | WeekCommencing
    | CreatedBy | IsActive | IsStaff | Email | Username | FirstName | LastName | Gender | Occupation
    | Other(header: string)

  /** A cell: text, a boolean the hooks write as a default, a whole number, or an empty cell. */
  datatype Cell = Text(s: string) | Flag(b: bool) | Number(n: int) | Null

  /** Python truthiness of a cell. */
  predicate Truthy(c: Cell) {
    match c
    case Text(s) => s != []
    case Flag(b) => b
    case Number(n) => n != 0
    case Null => false
  }

  /** `str(cell)`. */
  function Str(c: Cell): (r: string)
    ensures c.Text? ==> r == c.s
    ensures c.Number? && c.n >= 0 ==> r == ShowNat(c.n)
  {
    match c
    case Text(s) => s
    case Flag(b) => if b then "True" else "False"
    case Number(n) => if n >= 0 then ShowNat(n) else "-" + ShowNat(-n)
    case Null => "None"
  }

  /** Why a hook refuses a row (the `ValueError` it raises, or the `AttributeError` of calling
      `strip` on a cell that is not text). */
  datatype RowError =
    | Blank(field: Column)
    | NotText(field: Column)
    | BadProjectId(id: string)
    | BadChoice(field: Column, value: Cell)
    | BadEmail(email: string)

  /** `row.get(key)` is truthy. */
  predicate Present(cells: map<Column, Cell>, key: Column) {
    key in cells && Truthy(cells[key])
  }

  /** `row.get(key, '').strip()` is non-empty: the column is there, holds text, and the text
      is not blank. */
  predicate Filled(cells: map<Column, Cell>, key: Column) {
    key in cells && cells[key].Text? && HasText(cells[key].s)
  }

  /** What the required-field test raises for one column, if anything. */
  function FieldFailure(cells: map<Column, Cell>, key: Column): (r: Option<RowError>)
    ensures r.None? <==> Filled(cells, key)
    ensures r.Some? ==> (r.value.Blank? || r.value.NotText?) && r.value.field == key
  {
    if key !in cells then Some(Blank(key))
    else match cells[key]
      case Text(s) => if HasText(s) then None else Some(Blank(key))
      case _ => Some(NotText(key))
  }

  /** The first required column, in order, whose test fails. */
  function RequiredFailure(cells: map<Column, Cell>, fields: seq<Column>): (r: Option<RowError>)
    ensures r.None? <==> forall i :: 0 <= i < |fields| ==> Filled(cells, fields[i])
    ensures r.Some? ==> (r.value.Blank? || r.value.NotText?)
    ensures r.Some? ==> r.value.field in fields && !Filled(cells, r.value.field)
  {
    if fields == [] then None
    else if FieldFailure(cells, fields[0]).Some? then FieldFailure(cells, fields[0])
    else RequiredFailure(cells, fields[1..])
  }

  /** `if field in row and row[field]: row[field] = str(row[field]).strip()`. */
  function CleanOne(cells: map<Column, Cell>, key: Column): map<Column, Cell> {
    if Present(cells, key) then cells[key := Text(Strip(Str(cells[key])))] else cells
  }

  /** The text-cleaning loop over `fields`, in order. */
  function CleanedText(cells: map<Column, Cell>, fields: seq<Column>): map<Column, Cell> {
    if fields == [] then cells
    else CleanOne(CleanedText(cells, fields[..|fields| - 1]), fields[|fields| - 1])
  }

  /** Cleaning changes no column set, strips each listed column that held a truthy value, and
      leaves every other cell as it was; listing a column twice strips it once. */
  lemma {:induction false} CleanedTextCell(cells: map<Column, Cell>, fields: seq<Column>, key: Column)
    ensures key in CleanedText(cells, fields) <==> key in cells
    ensures key in cells ==>
              CleanedText(cells, fields)[key] ==
              (if key in fields && Truthy(cells[key]) then Text(Strip(Str(cells[key]))) else cells[key])
  {
    if fields != [] {
      var prefix := fields[..|fields| - 1];
      var last := fields[|fields| - 1];
      var before := CleanedText(cells, prefix);
      CleanedTextCell(cells, prefix, key);
      assert fields == prefix + [last];
      assert CleanedText(cells, fields) == CleanOne(before, last);
      if key in cells && key == last && Truthy(cells[key]) && key in prefix {
        StripIdempotent(Str(cells[key]));
      }
    }
  }

  /** Cleaning keeps the set of columns. */
  lemma CleanedTextKeys(cells: map<Column, Cell>, fields: seq<Column>)
    ensures CleanedText(cells, fields).Keys == cells.Keys
  {
    forall k | k in CleanedText(cells, fields) || k in cells
      ensures k in CleanedText(cells, fields) <==> k in cells
    {
      CleanedTextCell(cells, fields, k);
    }
  }

  /** An import row: the hooks read and rewrite its cells in place. */
  class ImportRow {
    var cells: map<Column, Cell>

    constructor (cells: map<Column, Cell>)
      ensures this.cells == cells
    {
      this.cells := cells;
    }
  }

  /** The required-field loop: the first listed column that is missing, not text, or blank. */
  method CheckRequired(row: ImportRow, fields: seq<Column>) returns (failure: Option<RowError>)
    ensures failure == RequiredFailure(row.cells, fields)
  {
    var i := 0;
    while i < |fields|
      invariant 0 <= i <= |fields|
      invariant RequiredFailure(row.cells, fields) == RequiredFailure(row.cells, fields[i..])
    {
      assert fields[i..][1..] == fields[i + 1..];
      var f := FieldFailure(row.cells, fields[i]);
      if f.Some? {
        return f;
      }
      i := i + 1;
    }
    return None;
  }

  /** The text-cleaning loop: strips, in place, each listed column holding a truthy value. */
  method CleanTextFields(row: ImportRow, fields: seq<Column>)
    modifies row
    ensures row.cells == CleanedText(old(row.cells), fields)
  {
    var i := 0;
    while i < |fields|
      invariant 0 <= i <= |fields|
      invariant row.cells == CleanedText(old(row.cells), fields[..i])
    {
      var f := fields[i];
      assert fields[..i + 1][..i] == fields[..i];
      if f in row.cells && Truthy(row.cells[f]) {
        row.cells := row.cells[f := Text(Strip(Str(row.cells[f])))];
      }
      i := i + 1;
    }
    assert fields[..i] == fields;
  }
}
