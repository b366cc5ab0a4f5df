/** The spreadsheet import hook for users: it checks a row and rewrites it in place (email,
    username, names, flags and choice fields) before the row is matched by email. */
module UserResources {
  import opened Results
  import opened Text
  import opened ImportRows
  import opened UserModels

  const UserRequired: seq<Column> := [Email, FirstName, LastName]

  /** Each required column holds non-blank text. */
  predicate UserRequiredFilled(cells: map<Column, Cell>) {
    Filled(cells, Email) && Filled(cells, FirstName) && Filled(cells, LastName)
  }

  /** The required-column loop over the three user columns passes exactly when each holds
      non-blank text. */
  lemma UserRequiredMeans(cells: map<Column, Cell>)
    ensures RequiredFailure(cells, UserRequired).None? <==> UserRequiredFilled(cells)
  {
    var fs := UserRequired;
    assert fs[0] == Email && fs[1] == FirstName && fs[2] == LastName;
    if UserRequiredFilled(cells) {
      forall i | 0 <= i < |fs| ensures Filled(cells, fs[i]) {
        assert i == 0 || i == 1 || i == 2;
      }
    }
  }

  /** The email as the hook rewrites it: stripped and lower-cased. */
  function NormalEmail(cells: map<Column, Cell>): string
    requires Filled(cells, Email)
  {
    Lower(Strip(cells[Email].s))
  }

  /** The user hook's verdict: the required columns, then an '@' in the normalised email. */
  function UserVerdict(cells: map<Column, Cell>): (r: Result<(), RowError>)
    ensures r.Ok? <==> UserRequiredFilled(cells) && '@' in NormalEmail(cells)
    ensures r.Err? && r.error.BadEmail? ==>
              UserRequiredFilled(cells) && r.error.email == NormalEmail(cells) && '@' !in r.error.email
    ensures r.Err? && !r.error.BadEmail? ==> !UserRequiredFilled(cells)
  {
    var missing := RequiredFailure(cells, UserRequired);
    UserRequiredMeans(cells);
    if missing.Some? then Err(missing.value)
    else
      var email := NormalEmail(cells);
      if '@' !in email then Err(BadEmail(email)) else Ok(())
  }

  /** `str(row[key]).strip().title()`. */
  function Named(cells: map<Column, Cell>, key: Column): map<Column, Cell>
    requires key in cells
  {
    cells[key := Text(Title(Strip(Str(cells[key]))))]
  }

  /** A flag set to `value` when the column is missing or holds the empty text. */
  function FlagDefault(cells: map<Column, Cell>, key: Column, value: bool): map<Column, Cell> {
    if key !in cells || cells[key] == Text("") then cells[key := Flag(value)] else cells
  }

  /** A truthy cell outside `choices` replaced by `fallback`. */
  function ChoiceOrFallback(cells: map<Column, Cell>, key: Column, choices: seq<string>, fallback: string): map<Column, Cell> {
    if Present(cells, key) && !(cells[key].Text? && cells[key].s in choices) then cells[key := Text(fallback)]
    else cells
  }

  /** The row with the normalised email and, when none was given, the username taken from it. */
  function WithIdentity(cells: map<Column, Cell>): map<Column, Cell>
    requires Filled(cells, Email)
  {
    var email := NormalEmail(cells);
    var c := cells[Email := Text(email)];
    if !Present(c, Username) then c[Username := Text(BeforeFirst(email, '@'))] else c
  }

  /** The flag defaults and the choice fallbacks, the last steps of the hook. */
  function WithDefaults(cells: map<Column, Cell>): map<Column, Cell> {
    var flags := FlagDefault(FlagDefault(cells, IsActive, true), IsStaff, false);
    ChoiceOrFallback(ChoiceOrFallback(flags, Gender, GenderChoices, DefaultGender),
                     Occupation, OccupationChoices, DefaultOccupation)
  }

  /** An accepted user row after its hook. */
  function UserCleaned(cells: map<Column, Cell>): map<Column, Cell>
    requires UserVerdict(cells).Ok?
  {
    WithDefaults(Named(Named(WithIdentity(cells), FirstName), LastName))
  }

  /** The defaults and fallbacks, filled in place. */
  method FillUserDefaults(row: ImportRow)
    modifies row
    ensures row.cells == WithDefaults(old(row.cells))
  {
    if IsActive !in row.cells || row.cells[IsActive] == Text("") {
      row.cells := row.cells[IsActive := Flag(true)];
    }
    if IsStaff !in row.cells || row.cells[IsStaff] == Text("") {
      row.cells := row.cells[IsStaff := Flag(false)];
    }
    if Present(row.cells, Gender) && !(row.cells[Gender].Text? && row.cells[Gender].s in GenderChoices) {
      row.cells := row.cells[Gender := Text(DefaultGender)];
    }
    if Present(row.cells, Occupation) && !(row.cells[Occupation].Text? && row.cells[Occupation].s in OccupationChoices) {
      row.cells := row.cells[Occupation := Text(DefaultOccupation)];
    }
  }

  method UserBeforeImportRow(row: ImportRow) returns (res: Result<(), RowError>)
    modifies row
    ensures res == UserVerdict(old(row.cells))
    ensures res.Err? ==> row.cells == old(row.cells)
    ensures res.Ok? ==> row.cells == UserCleaned(old(row.cells))
  {
    var missing := CheckRequired(row, UserRequired);
    UserRequiredMeans(row.cells);
    if missing.Some? {
      return Err(missing.value);
    }
    var email := Lower(Strip(Str(row.cells[Email])));
    if '@' !in email {
      return Err(BadEmail(email));
    }
    row.cells := row.cells[Email := Text(email)];
    if !Present(row.cells, Username) {
      row.cells := row.cells[Username := Text(BeforeFirst(email, '@'))];
    }
    assert row.cells == WithIdentity(old(row.cells));
    row.cells := row.cells[FirstName := Text(Title(Strip(Str(row.cells[FirstName]))))];
    row.cells := row.cells[LastName := Text(Title(Strip(Str(row.cells[LastName]))))];
    FillUserDefaults(row);
    return Ok(());
  }

  /** An accepted user row leaves the hook with a lower-case email holding an '@', the username
      given or else the email's text before its first '@', and stripped, title-cased names. */
  lemma UserIdentityNormalised(cells: map<Column, Cell>)
    requires UserVerdict(cells).Ok?
    ensures var c := UserCleaned(cells); var e := NormalEmail(cells);
      && c[Email] == Text(e) && '@' in e
      && (forall i :: 0 <= i < |e| ==> !IsAsciiUpper(e[i]))
      && c[Username] == (if Present(cells, Username) then cells[Username] else Text(BeforeFirst(e, '@')))
      && c[FirstName] == Text(Title(Strip(cells[FirstName].s)))
      && c[LastName] == Text(Title(Strip(cells[LastName].s)))
  {
    var n := Named(Named(WithIdentity(cells), FirstName), LastName);
    NamedIdentity(cells);
    DefaultsKeep(n, Email);
    DefaultsKeep(n, Username);
    DefaultsKeep(n, FirstName);
    DefaultsKeep(n, LastName);
    LowerHasNoUpper(Strip(cells[Email].s));
  }

  /** The row after the identity and name steps, before the defaults. */
  lemma NamedIdentity(cells: map<Column, Cell>)
    requires UserRequiredFilled(cells)
    ensures var n := Named(Named(WithIdentity(cells), FirstName), LastName); var e := NormalEmail(cells);
      && Email in n && Username in n && FirstName in n && LastName in n
      && n[Email] == Text(e)
      && n[Username] == (if Present(cells, Username) then cells[Username] else Text(BeforeFirst(e, '@')))
      && n[FirstName] == Text(Title(Strip(cells[FirstName].s)))
      && n[LastName] == Text(Title(Strip(cells[LastName].s)))
  {
  }

  /** The defaults and fallbacks leave every other column as it was. */
  lemma DefaultsKeep(cells: map<Column, Cell>, key: Column)
    requires key in cells && key != IsActive && key != IsStaff && key != Gender && key != Occupation
    ensures key in WithDefaults(cells) && WithDefaults(cells)[key] == cells[key]
  {
  }

  /** The username taken from the email is the text before its first '@': the email is that
      text, then '@', then the rest. */
  lemma LocalPartPrefix(e: string)
    requires '@' in e
    ensures var u := BeforeFirst(e, '@'); |u| < |e| && e == u + ['@'] + e[|u| + 1..]
  {
  }

  /** The flag defaults: a flag given as anything but the empty text is kept, and a missing
      or empty one is set to `value`. */
  lemma FlagDefaultCell(cells: map<Column, Cell>, key: Column, value: bool, other: Column)
    ensures key in FlagDefault(cells, key, value)
    ensures FlagDefault(cells, key, value)[key] ==
            (if key in cells && cells[key] != Text("") then cells[key] else Flag(value))
    ensures other != key ==> (other in FlagDefault(cells, key, value) <==> other in cells)
    ensures other != key && other in cells ==> FlagDefault(cells, key, value)[other] == cells[other]
  {
  }

  /** The choice fallback: a falsy or valid cell is kept, any other is replaced. */
  lemma FallbackCell(cells: map<Column, Cell>, key: Column, choices: seq<string>, fallback: string, other: Column)
    requires fallback in choices && fallback != []
    ensures var c := ChoiceOrFallback(cells, key, choices, fallback);
      && (key in c <==> key in cells)
      && (!Present(c, key) || (c[key].Text? && c[key].s in choices))
      && (key in cells && (!Present(cells, key) || (cells[key].Text? && cells[key].s in choices)) ==> c[key] == cells[key])
      && (Present(cells, key) && !(cells[key].Text? && cells[key].s in choices) ==> c[key] == Text(fallback))
      && (other != key ==> (other in c <==> other in cells))
      && (other != key && other in cells ==> c[other] == cells[other])
  {
  }

  /** The flags after the defaults: kept when given as anything but the empty text, set to
      true and false otherwise. */
  lemma DefaultsSetFlags(n: map<Column, Cell>)
    ensures var c := WithDefaults(n);
      && IsActive in c && IsStaff in c
      && c[IsActive] == (if IsActive in n && n[IsActive] != Text("") then n[IsActive] else Flag(true))
      && c[IsStaff] == (if IsStaff in n && n[IsStaff] != Text("") then n[IsStaff] else Flag(false))
  {
    var f1 := FlagDefault(n, IsActive, true);
    var f2 := FlagDefault(f1, IsStaff, false);
    var g := ChoiceOrFallback(f2, Gender, GenderChoices, DefaultGender);
    FlagDefaultCell(n, IsActive, true, IsStaff);
    FlagDefaultCell(f1, IsStaff, false, IsActive);
    FallbackCell(f2, Gender, GenderChoices, DefaultGender, IsActive);
    FallbackCell(f2, Gender, GenderChoices, DefaultGender, IsStaff);
    FallbackCell(g, Occupation, OccupationChoices, DefaultOccupation, IsActive);
    FallbackCell(g, Occupation, OccupationChoices, DefaultOccupation, IsStaff);
  }

  /** The choices after the fallbacks: present exactly when given, kept when falsy or valid,
      replaced by the default otherwise. */
  lemma DefaultsSetChoices(n: map<Column, Cell>)
    ensures var c := WithDefaults(n);
      && (Gender in c <==> Gender in n) && (Occupation in c <==> Occupation in n)
      && (!Present(c, Gender) || (c[Gender].Text? && c[Gender].s in GenderChoices))
      && (!Present(c, Occupation) || (c[Occupation].Text? && c[Occupation].s in OccupationChoices))
      && (Gender in n ==>
            c[Gender] == (if !Present(n, Gender) || (n[Gender].Text? && n[Gender].s in GenderChoices)
                          then n[Gender] else Text(DefaultGender)))
      && (Occupation in n ==>
            c[Occupation] == (if !Present(n, Occupation) || (n[Occupation].Text? && n[Occupation].s in OccupationChoices)
                              then n[Occupation] else Text(DefaultOccupation)))
  {
    var f1 := FlagDefault(n, IsActive, true);
    var f2 := FlagDefault(f1, IsStaff, false);
    var g := ChoiceOrFallback(f2, Gender, GenderChoices, DefaultGender);
    FlagDefaultCell(n, IsActive, true, Gender);
    FlagDefaultCell(f1, IsStaff, false, Gender);
    FlagDefaultCell(n, IsActive, true, Occupation);
    FlagDefaultCell(f1, IsStaff, false, Occupation);
    FallbackCell(f2, Gender, GenderChoices, DefaultGender, Occupation);
    FallbackCell(g, Occupation, OccupationChoices, DefaultOccupation, Gender);
  }

  /** The identity and name steps leave the flag and choice columns as they came. */
  lemma NamedKeeps(cells: map<Column, Cell>, key: Column)
    requires UserVerdict(cells).Ok?
    requires key == IsActive || key == IsStaff || key == Gender || key == Occupation
    ensures var n := Named(Named(WithIdentity(cells), FirstName), LastName);
      (key in n <==> key in cells) && (key in cells ==> n[key] == cells[key])
  {
  }

  /** An accepted user row leaves the hook with `is_active` and `is_staff` set: true and false
      unless given as anything but the empty text. */
  lemma UserFlagsDefaulted(cells: map<Column, Cell>)
    requires UserVerdict(cells).Ok?
    ensures var c := UserCleaned(cells);
      && c[IsActive] == (if IsActive in cells && cells[IsActive] != Text("") then cells[IsActive] else Flag(true))
      && c[IsStaff] == (if IsStaff in cells && cells[IsStaff] != Text("") then cells[IsStaff] else Flag(false))
  {
    var n := Named(Named(WithIdentity(cells), FirstName), LastName);
    DefaultsSetFlags(n);
    NamedKeeps(cells, IsActive);
    NamedKeeps(cells, IsStaff);
  }

  /** An accepted user row leaves the hook with a gender and an occupation that are empty or
      valid choices: a valid or falsy one is kept, an invalid one becomes "Other" or "other". */
  lemma UserChoicesFallBack(cells: map<Column, Cell>)
    requires UserVerdict(cells).Ok?
    ensures var c := UserCleaned(cells);
      && (Gender in c <==> Gender in cells) && (Occupation in c <==> Occupation in cells)
      && (!Present(c, Gender) || (c[Gender].Text? && c[Gender].s in GenderChoices))
      && (!Present(c, Occupation) || (c[Occupation].Text? && c[Occupation].s in OccupationChoices))
      && (Gender in cells ==>
            c[Gender] == (if !Present(cells, Gender) || (cells[Gender].Text? && cells[Gender].s in GenderChoices)
                          then cells[Gender] else Text(DefaultGender)))
      && (Occupation in cells ==>
            c[Occupation] == (if !Present(cells, Occupation) || (cells[Occupation].Text? && cells[Occupation].s in OccupationChoices)
                              then cells[Occupation] else Text(DefaultOccupation)))
  {
    var n := Named(Named(WithIdentity(cells), FirstName), LastName);
    DefaultsSetChoices(n);
    NamedKeeps(cells, Gender);
    NamedKeeps(cells, Occupation);
  }

  /** The username the hook takes from an email can fail the username validator: a '-' or '+'
      before the '@' passes the import but not the validator. */
  lemma DerivedUsernameMayBeInvalid(e: string, i: int)
    requires '@' in e && 0 <= i < |BeforeFirst(e, '@')| && (e[i] == '-' || e[i] == '+')
    ensures !UsernameValid(BeforeFirst(e, '@'))
  {
    var u := BeforeFirst(e, '@');
    assert u[i] == e[i];
    UsernameRefusesMessageChars(u, i);
  }

  /** An email that starts with '@' gives an empty username, which is not a valid one. */
  lemma EmptyLocalPart(e: string)
    requires e != [] && e[0] == '@'
    ensures BeforeFirst(e, '@') == [] && !UsernameValid(BeforeFirst(e, '@'))
  {
  }
}
