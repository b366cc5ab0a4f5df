/** The spreadsheet import hooks for business areas, project types and projects: each checks a
    row and rewrites it in place before the row is matched against the database. */
module ProjectResources {
  import opened Results
  import opened Text
  import opened ImportRows
  import opened ProjectModels

  const ProjectRequired: seq<Column> :=
    [ProjectId, Name, Description, BusinessArea, ProjectType, ProjectManager]
  const ProjectTextFields: seq<Column> :=
    [Name, Description, Clarity, Timeline, TCode, IpbssRemedy, WeekCommencing]

  /** The text columns the project hook strips. */
  predicate IsTextColumn(key: Column) {
    key.Name? || key.Description? || key.Clarity? || key.Timeline? || key.TCode? || key.IpbssRemedy?
    || key.WeekCommencing?
  }

  lemma TextColumns(key: Column)
    ensures key in ProjectTextFields <==> IsTextColumn(key)
  {
  }

  /** A stripped, non-blank text cell. */
  predicate CleanText(cells: map<Column, Cell>, key: Column) {
    Filled(cells, key) && Strip(cells[key].s) == cells[key].s
  }

  /** Stripping a non-blank text gives a non-blank text that strips to itself. */
  lemma StrippedStaysFilled(s: string)
    requires HasText(s)
    ensures HasText(Strip(s)) && Strip(Strip(s)) == Strip(s)
  {
    StripKeepsText(s);
  }

  // Business areas and project types

  /** Both hooks refuse a row whose name is missing, not text, or blank. */
  function NameVerdict(cells: map<Column, Cell>): (r: Result<(), RowError>)
    ensures r.Ok? <==> Filled(cells, Name)
    ensures r.Err? ==> (r.error.Blank? || r.error.NotText?) && r.error.field == Name
  {
    var f := RequiredFailure(cells, [Name]);
    if f.Some? then Err(f.value) else Ok(())
  }

  /** A project-type row after its hook: the name stripped. */
  function ProjectTypeCleaned(cells: map<Column, Cell>): map<Column, Cell>
    requires Filled(cells, Name)
  {
    cells[Name := Text(Strip(cells[Name].s))]
  }

  /** A business-area row after its hook: the name stripped, and `is_active` set to true when
      the column is missing or holds the empty text. */
  function BusinessAreaCleaned(cells: map<Column, Cell>): map<Column, Cell>
    requires Filled(cells, Name)
  {
    var c := ProjectTypeCleaned(cells);
    if IsActive !in c || c[IsActive] == Text("") then c[IsActive := Flag(true)] else c
  }

  method ProjectTypeBeforeImportRow(row: ImportRow) returns (res: Result<(), RowError>)
    modifies row
    ensures res == NameVerdict(old(row.cells))
    ensures res.Err? ==> row.cells == old(row.cells)
    ensures res.Ok? ==> row.cells == ProjectTypeCleaned(old(row.cells))
  {
    var missing := CheckRequired(row, [Name]);
    if missing.Some? {
      return Err(missing.value);
    }
    row.cells := row.cells[Name := Text(Strip(Str(row.cells[Name])))];
    return Ok(());
  }

  method BusinessAreaBeforeImportRow(row: ImportRow) returns (res: Result<(), RowError>)
    modifies row
    ensures res == NameVerdict(old(row.cells))
    ensures res.Err? ==> row.cells == old(row.cells)
    ensures res.Ok? ==> row.cells == BusinessAreaCleaned(old(row.cells))
  {
    var missing := CheckRequired(row, [Name]);
    if missing.Some? {
      return Err(missing.value);
    }
    assert Filled(row.cells, [Name][0]);
    row.cells := row.cells[Name := Text(Strip(Str(row.cells[Name])))];
    assert row.cells == ProjectTypeCleaned(old(row.cells));
    if IsActive !in row.cells || row.cells[IsActive] == Text("") {
      row.cells := row.cells[IsActive := Flag(true)];
    }
    return Ok(());
  }

  /** An accepted business area has a clean name and a non-empty `is_active`, keeps every other
      cell, and a second pass through the hook accepts it and changes nothing. */
  lemma BusinessAreaNormalised(cells: map<Column, Cell>)
    requires NameVerdict(cells).Ok?
    ensures var c := BusinessAreaCleaned(cells);
      && CleanText(c, Name) && c[Name].s == Strip(cells[Name].s)
      && IsActive in c && c[IsActive] != Text("")
      && (IsActive in cells && cells[IsActive] != Text("") ==> c[IsActive] == cells[IsActive])
      && c.Keys == cells.Keys + {IsActive}
      && (forall k :: k in cells && k != Name && k != IsActive ==> c[k] == cells[k])
      && NameVerdict(c).Ok? && BusinessAreaCleaned(c) == c
  {
    StrippedStaysFilled(cells[Name].s);
    var c := BusinessAreaCleaned(cells);
    assert c[Name] == Text(Strip(cells[Name].s));
    assert ProjectTypeCleaned(c) == c;
  }

  /** An accepted project type has a clean name, keeps every other cell, and is a fixed point
      of its hook. */
  lemma ProjectTypeNormalised(cells: map<Column, Cell>)
    requires NameVerdict(cells).Ok?
    ensures var c := ProjectTypeCleaned(cells);
      && CleanText(c, Name) && c[Name].s == Strip(cells[Name].s)
      && c.Keys == cells.Keys
      && (forall k :: k in cells && k != Name ==> c[k] == cells[k])
      && NameVerdict(c).Ok? && ProjectTypeCleaned(c) == c
  {
    StrippedStaysFilled(cells[Name].s);
  }

  // Projects

  /** A choice column passes when it is empty or holds one of the choice keys as text. */
  predicate ChoiceOk(cells: map<Column, Cell>, key: Column, keys: seq<string>) {
    !Present(cells, key) || (cells[key].Text? && cells[key].s in keys)
  }

  /** The first of status, priority and effort size, in that order, holding an unknown code. */
  function ChoiceFailure(cells: map<Column, Cell>): (r: Option<RowError>)
    ensures r.None? <==>
      ChoiceOk(cells, Status, Statuses) && ChoiceOk(cells, Priority, Priorities)
      && ChoiceOk(cells, EffortSize, EffortSizes)
    ensures r.Some? ==> r.value.BadChoice? && r.value.field in cells && r.value.value == cells[r.value.field]
  {
    if !ChoiceOk(cells, Status, Statuses) then Some(BadChoice(Status, cells[Status]))
    else if !ChoiceOk(cells, Priority, Priorities) then Some(BadChoice(Priority, cells[Priority]))
    else if !ChoiceOk(cells, EffortSize, EffortSizes) then Some(BadChoice(EffortSize, cells[EffortSize]))
    else None
  }

  /** Each required column holds non-blank text. */
  predicate RequiredFilled(cells: map<Column, Cell>) {
    && Filled(cells, ProjectId) && Filled(cells, Name) && Filled(cells, Description)
    && Filled(cells, BusinessArea) && Filled(cells, ProjectType) && Filled(cells, ProjectManager)
  }

  /** The required-column loop over the six project columns passes exactly when each holds
      non-blank text. */
  lemma ProjectRequiredFilled(cells: map<Column, Cell>)
    ensures RequiredFailure(cells, ProjectRequired).None? <==> RequiredFilled(cells)
  {
    var fs := ProjectRequired;
    assert fs[0] == ProjectId && fs[1] == Name && fs[2] == Description;
    assert fs[3] == BusinessArea && fs[4] == ProjectType && fs[5] == ProjectManager;
    if RequiredFailure(cells, fs).None? {
      assert Filled(cells, fs[0]) && Filled(cells, fs[1]) && Filled(cells, fs[2]);
      assert Filled(cells, fs[3]) && Filled(cells, fs[4]) && Filled(cells, fs[5]);
    }
    if RequiredFilled(cells) {
      forall i | 0 <= i < |fs| ensures Filled(cells, fs[i]) {
        assert i == 0 || i == 1 || i == 2 || i == 3 || i == 4 || i == 5;
      }
    }
  }

  /** The project identifier as the hook reads it, stripped. */
  function StrippedId(cells: map<Column, Cell>): string
    requires Filled(cells, ProjectId)
  {
    Strip(cells[ProjectId].s)
  }

  predicate IdOk(id: string) {
    IsDigitString(id) && |id| == 7
  }

  /** The row after the identifier is written back stripped and the text columns are cleaned:
      the state in which the choice columns are checked. */
  function Staged(cells: map<Column, Cell>): map<Column, Cell>
    requires Filled(cells, ProjectId)
  {
    map k | k in cells ::
      if k == ProjectId then Text(StrippedId(cells))
      else if IsTextColumn(k) && Truthy(cells[k]) then Text(Strip(Str(cells[k])))
      else cells[k]
  }

  /** One cell of the staged row. */
  lemma StagedCell(cells: map<Column, Cell>, key: Column)
    requires Filled(cells, ProjectId) && key in cells
    ensures key in Staged(cells)
    ensures Staged(cells)[key] ==
      if key == ProjectId then Text(StrippedId(cells))
      else if IsTextColumn(key) && Truthy(cells[key]) then Text(Strip(Str(cells[key])))
      else cells[key]
  {
  }

  /** The hook's loop over the text columns, run after the identifier is written back,
      produces exactly the staged row. */
  lemma StagedByLoop(cells: map<Column, Cell>)
    requires Filled(cells, ProjectId)
    ensures CleanedText(cells[ProjectId := Text(StrippedId(cells))], ProjectTextFields) == Staged(cells)
  {
    var base := cells[ProjectId := Text(StrippedId(cells))];
    var looped := CleanedText(base, ProjectTextFields);
    forall k | k in looped || k in Staged(cells)
      ensures k in looped && k in Staged(cells) && looped[k] == Staged(cells)[k]
    {
      CleanedTextCell(base, ProjectTextFields, k);
      TextColumns(k);
    }
  }

  /** The project hook's verdict: the required columns, then the identifier, then the choices. */
  function ProjectVerdict(cells: map<Column, Cell>): (r: Result<(), RowError>)
    ensures r.Ok? ==> RequiredFilled(cells) && IdOk(StrippedId(cells)) && ChoiceFailure(Staged(cells)).None?
    ensures RequiredFilled(cells) ==> Filled(cells, ProjectId)
    ensures RequiredFilled(cells) && IdOk(StrippedId(cells)) && ChoiceFailure(Staged(cells)).None? ==> r.Ok?
    ensures r.Err? && r.error.BadProjectId? ==> RequiredFilled(cells) && r.error.id == StrippedId(cells) && !IdOk(r.error.id)
  {
    var missing := RequiredFailure(cells, ProjectRequired);
    ProjectRequiredFilled(cells);
    if missing.Some? then Err(missing.value)
    else
      var id := StrippedId(cells);
      if !IdOk(id) then Err(BadProjectId(id))
      else
        var bad := ChoiceFailure(Staged(cells));
        if bad.Some? then Err(bad.value) else Ok(())
  }

  /** The defaults the hook fills in last: status NEW, priority MEDIUM, and the creator taken
      from the project manager column. */
  function Defaulted(cells: map<Column, Cell>): map<Column, Cell>
    requires ProjectManager in cells
  {
    var c1 := if !Present(cells, Status) then cells[Status := Text("NEW")] else cells;
    var c2 := if !Present(c1, Priority) then c1[Priority := Text("MEDIUM")] else c1;
    if !Present(c2, CreatedBy) then c2[CreatedBy := c2[ProjectManager]] else c2
  }

  /** An accepted project row after its hook. */
  function ProjectCleaned(cells: map<Column, Cell>): map<Column, Cell>
    requires ProjectVerdict(cells).Ok?
  {
    Defaulted(Staged(cells))
  }

  /** Filling the defaults leaves a truthy status, priority and creator alone, and sets the
      missing ones to NEW, MEDIUM and the project manager. */
  lemma DefaultedCell(cells: map<Column, Cell>, key: Column)
    requires ProjectManager in cells
    ensures Defaulted(cells).Keys == cells.Keys + {Status, Priority, CreatedBy}
    ensures Defaulted(cells)[Status] == (if Present(cells, Status) then cells[Status] else Text("NEW"))
    ensures Defaulted(cells)[Priority] == (if Present(cells, Priority) then cells[Priority] else Text("MEDIUM"))
    ensures Defaulted(cells)[CreatedBy] == (if Present(cells, CreatedBy) then cells[CreatedBy] else cells[ProjectManager])
    ensures key in cells && key != Status && key != Priority && key != CreatedBy ==> Defaulted(cells)[key] == cells[key]
  {
  }

  /** Two rows agree on a column: both have it with the same cell, or neither has it. */
  predicate AgreeOn(a: map<Column, Cell>, b: map<Column, Cell>, key: Column) {
    (key in a <==> key in b) && (key in b ==> a[key] == b[key])
  }

  /** The defaults filled on a row that agrees with `cells` on the choice and creator columns,
      described in terms of `cells`. */
  lemma DefaultsOver(s: map<Column, Cell>, cells: map<Column, Cell>)
    requires ProjectManager in s
    requires AgreeOn(s, cells, Status) && AgreeOn(s, cells, Priority) && AgreeOn(s, cells, EffortSize)
    requires AgreeOn(s, cells, CreatedBy) && AgreeOn(s, cells, ProjectManager)
    requires ChoiceFailure(s).None?
    ensures var c := Defaulted(s);
      && c[Status].Text? && c[Status].s in Statuses
      && c[Status] == (if Present(cells, Status) then cells[Status] else Text("NEW"))
      && c[Priority].Text? && c[Priority].s in Priorities
      && c[Priority] == (if Present(cells, Priority) then cells[Priority] else Text("MEDIUM"))
      && ChoiceOk(c, EffortSize, EffortSizes)
      && (EffortSize in cells ==> c[EffortSize] == cells[EffortSize])
      && c[CreatedBy] == (if Present(cells, CreatedBy) then cells[CreatedBy] else cells[ProjectManager])
  {
    DefaultedCell(s, EffortSize);
  }

  /** An accepted project row leaves the hook with a seven-digit identifier and a stripped,
      non-blank name and description. */
  lemma ProjectIdentityNormalised(cells: map<Column, Cell>)
    requires ProjectVerdict(cells).Ok?
    ensures var c := ProjectCleaned(cells);
      && c[ProjectId] == Text(StrippedId(cells)) && IdOk(StrippedId(cells))
      && CleanText(c, Name) && c[Name].s == Strip(cells[Name].s)
      && CleanText(c, Description) && c[Description].s == Strip(cells[Description].s)
  {
    var s := Staged(cells);
    DefaultedCell(s, ProjectId);
    DefaultedCell(s, Name);
    DefaultedCell(s, Description);
    StrippedStaysFilled(cells[Name].s);
    StrippedStaysFilled(cells[Description].s);
  }

  /** An accepted project row keeps its columns, adds status, priority and creator, and keeps
      the business area, project type and project manager as they came. */
  lemma ProjectReferencesKept(cells: map<Column, Cell>)
    requires ProjectVerdict(cells).Ok?
    ensures var c := ProjectCleaned(cells);
      && c.Keys == cells.Keys + {Status, Priority, CreatedBy}
      && c[BusinessArea] == cells[BusinessArea] && c[ProjectType] == cells[ProjectType]
      && c[ProjectManager] == cells[ProjectManager]
  {
    var s := Staged(cells);
    DefaultedCell(s, BusinessArea);
    DefaultedCell(s, ProjectType);
    DefaultedCell(s, ProjectManager);
  }

  /** An accepted project row leaves the hook with a known status and priority (the ones
      given, or NEW and MEDIUM when none was), an effort size that is empty or known and
      unchanged, and a creator (the one given, or the project manager when none was). */
  lemma ProjectChoicesDefaulted(cells: map<Column, Cell>)
    requires ProjectVerdict(cells).Ok?
    ensures var c := ProjectCleaned(cells);
      && c[Status].Text? && c[Status].s in Statuses
      && c[Status] == (if Present(cells, Status) then cells[Status] else Text("NEW"))
      && c[Priority].Text? && c[Priority].s in Priorities
      && c[Priority] == (if Present(cells, Priority) then cells[Priority] else Text("MEDIUM"))
      && ChoiceOk(c, EffortSize, EffortSizes)
      && (EffortSize in cells ==> c[EffortSize] == cells[EffortSize])
      && c[CreatedBy] == (if Present(cells, CreatedBy) then cells[CreatedBy] else cells[ProjectManager])
  {
    var s := Staged(cells);
    StagedAgrees(cells, Status);
    StagedAgrees(cells, Priority);
    StagedAgrees(cells, EffortSize);
    StagedAgrees(cells, CreatedBy);
    StagedAgrees(cells, ProjectManager);
    DefaultsOver(s, cells);
  }

  /** Staging leaves the columns it neither strips nor rewrites as they were. */
  lemma StagedAgrees(cells: map<Column, Cell>, key: Column)
    requires Filled(cells, ProjectId) && key != ProjectId && !IsTextColumn(key)
    ensures AgreeOn(Staged(cells), cells, key)
  {
  }

  /** A text column of an accepted row is, after the hook, either the stripped text or the
      untouched falsy cell, so a second strip leaves it alone. */
  lemma TextColumnSettled(cells: map<Column, Cell>, key: Column)
    requires ProjectVerdict(cells).Ok? && key in ProjectCleaned(cells) && IsTextColumn(key)
    ensures var c := ProjectCleaned(cells);
      key in cells && (Truthy(c[key]) ==> Text(Strip(Str(c[key]))) == c[key])
  {
    var s := Staged(cells);
    DefaultedCell(s, key);
    assert key in s;
    StagedCell(cells, key);
    if Truthy(cells[key]) {
      var t := Strip(Str(cells[key]));
      StripIdempotent(Str(cells[key]));
      assert ProjectCleaned(cells)[key] == Text(t);
      assert Str(Text(t)) == t;
    }
  }

  /** The identifier and required columns of an accepted, cleaned row read as they did. */
  lemma CleanedRequired(cells: map<Column, Cell>)
    requires ProjectVerdict(cells).Ok?
    ensures RequiredFilled(ProjectCleaned(cells))
    ensures StrippedId(ProjectCleaned(cells)) == StrippedId(cells)
  {
    var c := ProjectCleaned(cells);
    var id := StrippedId(cells);
    CleanedIdCell(cells);
    StrippedStaysFilled(cells[ProjectId].s);
    StrippedIdOf(c, id);
    CleanedTextFilled(cells, Name);
    CleanedTextFilled(cells, Description);
    CleanedCellKept(cells, BusinessArea);
    CleanedCellKept(cells, ProjectType);
    CleanedCellKept(cells, ProjectManager);
  }

  /** The identifier cell of an accepted, cleaned row is the stripped identifier. */
  lemma CleanedIdCell(cells: map<Column, Cell>)
    requires ProjectVerdict(cells).Ok?
    ensures ProjectId in ProjectCleaned(cells) && ProjectCleaned(cells)[ProjectId] == Text(StrippedId(cells))
  {
    DefaultedCell(Staged(cells), ProjectId);
  }

  lemma StrippedIdOf(c: map<Column, Cell>, id: string)
    requires ProjectId in c && c[ProjectId] == Text(id) && HasText(id) && Strip(id) == id
    ensures Filled(c, ProjectId) && StrippedId(c) == id
  {
  }

  /** A required text column of an accepted, cleaned row still holds non-blank text. */
  lemma CleanedTextFilled(cells: map<Column, Cell>, key: Column)
    requires ProjectVerdict(cells).Ok? && (key == Name || key == Description)
    ensures Filled(ProjectCleaned(cells), key)
  {
    DefaultedCell(Staged(cells), key);
    StrippedStaysFilled(cells[key].s);
  }

  /** A column the hook neither strips nor defaults comes out of it as it went in. */
  lemma CleanedCellKept(cells: map<Column, Cell>, key: Column)
    requires ProjectVerdict(cells).Ok? && key in cells
    requires key != ProjectId && !IsTextColumn(key) && key != Status && key != Priority && key != CreatedBy
    ensures key in ProjectCleaned(cells) && ProjectCleaned(cells)[key] == cells[key]
  {
    DefaultedCell(Staged(cells), key);
  }

  lemma RestagedCell(cells: map<Column, Cell>, key: Column)
    requires ProjectVerdict(cells).Ok? && key in ProjectCleaned(cells)
    requires RequiredFilled(ProjectCleaned(cells)) && StrippedId(ProjectCleaned(cells)) == StrippedId(cells)
    ensures Staged(ProjectCleaned(cells))[key] == ProjectCleaned(cells)[key]
  {
    var c := ProjectCleaned(cells);
    StagedCell(c, key);
    if key == ProjectId {
      CleanedIdCell(cells);
    } else if IsTextColumn(key) {
      TextColumnSettled(cells, key);
    }
  }

  /** Staging an accepted, cleaned row again changes none of its cells. */
  lemma RestagingChangesNothing(cells: map<Column, Cell>)
    requires ProjectVerdict(cells).Ok?
    ensures RequiredFilled(ProjectCleaned(cells))
    ensures Staged(ProjectCleaned(cells)) == ProjectCleaned(cells)
  {
    var c := ProjectCleaned(cells);
    CleanedRequired(cells);
    forall k | k in c
      ensures Staged(c)[k] == c[k]
    {
      RestagedCell(cells, k);
    }
  }

  /** The defaults of an accepted, cleaned row are all present already. */
  lemma DefaultsAlreadyFilled(cells: map<Column, Cell>)
    requires ProjectVerdict(cells).Ok?
    ensures ProjectManager in ProjectCleaned(cells)
    ensures Defaulted(ProjectCleaned(cells)) == ProjectCleaned(cells)
  {
    ProjectReferencesKept(cells);
    ProjectChoicesDefaulted(cells);
    HasTextIffNotBlank(cells[ProjectManager].s);
  }

  /** Running the project hook again on a row it accepted accepts it and changes nothing. */
  lemma ProjectCleanedIsFixed(cells: map<Column, Cell>)
    requires ProjectVerdict(cells).Ok?
    ensures ProjectVerdict(ProjectCleaned(cells)).Ok?
    ensures ProjectCleaned(ProjectCleaned(cells)) == ProjectCleaned(cells)
  {
    var c := ProjectCleaned(cells);
    RestagingChangesNothing(cells);
    DefaultsAlreadyFilled(cells);
    ProjectChoicesDefaulted(cells);
    CleanedRequired(cells);
    assert Staged(c) == c;
    assert ChoiceFailure(c).None?;
    assert ProjectVerdict(c).Ok?;
    assert ProjectCleaned(c) == Defaulted(c);
  }

  /** The three choice checks, in order, on the staged row. */
  method CheckChoices(row: ImportRow) returns (failure: Option<RowError>)
    ensures failure == ChoiceFailure(row.cells)
  {
    if Present(row.cells, Status) && !(row.cells[Status].Text? && row.cells[Status].s in Statuses) {
      return Some(BadChoice(Status, row.cells[Status]));
    }
    if Present(row.cells, Priority) && !(row.cells[Priority].Text? && row.cells[Priority].s in Priorities) {
      return Some(BadChoice(Priority, row.cells[Priority]));
    }
    if Present(row.cells, EffortSize) && !(row.cells[EffortSize].Text? && row.cells[EffortSize].s in EffortSizes) {
      return Some(BadChoice(EffortSize, row.cells[EffortSize]));
    }
    return None;
  }

  /** The defaults, filled in place. */
  method FillDefaults(row: ImportRow)
    requires ProjectManager in row.cells
    modifies row
    ensures row.cells == Defaulted(old(row.cells))
  {
    if !Present(row.cells, Status) {
      row.cells := row.cells[Status := Text("NEW")];
    }
    if !Present(row.cells, Priority) {
      row.cells := row.cells[Priority := Text("MEDIUM")];
    }
    if !Present(row.cells, CreatedBy) {
      row.cells := row.cells[CreatedBy := row.cells[ProjectManager]];
    }
  }

  method ProjectBeforeImportRow(row: ImportRow) returns (res: Result<(), RowError>)
    modifies row
    ensures res == ProjectVerdict(old(row.cells))
    ensures res.Ok? ==> row.cells == ProjectCleaned(old(row.cells))
    ensures res.Err? && !res.error.BadChoice? ==> row.cells == old(row.cells)
    ensures res.Err? && res.error.BadChoice? ==> RequiredFilled(old(row.cells)) && row.cells == Staged(old(row.cells))
  {
    var missing := CheckRequired(row, ProjectRequired);
    if missing.Some? {
      return Err(missing.value);
    }
    ProjectRequiredFilled(row.cells);
    var id := Strip(Str(row.cells[ProjectId]));
    if !(IsDigitString(id) && |id| == 7) {
      return Err(BadProjectId(id));
    }
    row.cells := row.cells[ProjectId := Text(id)];
    CleanTextFields(row, ProjectTextFields);
    StagedByLoop(old(row.cells));
    var bad := CheckChoices(row);
    if bad.Some? {
      return Err(bad.value);
    }
    FillDefaults(row);
    return Ok(());
  }
}
