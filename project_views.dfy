/** The inline edit of one project field: the allowed fields, the checks each value passes,
    what is stored, and the value shown back to the page. */
module ProjectViews {
  import opened Results
  import opened Text
  import opened ProjectModels
  import opened UserModels
  import opened Uuids

  /** The fields the inline editor may change. */
  datatype EditField =
    | StatusField | PriorityField | ManagerField | NameField
    | EffortSizeField | TimelineField | TCodeField | DescriptionField

  /** The field names the request may carry. */
  function FieldName(f: EditField): string {
    match f
    case StatusField => "status"
    case PriorityField => "priority"
    case ManagerField => "project_manager"
    case NameField => "name"
    case EffortSizeField => "effort_size"
    case TimelineField => "timeline"
    case TCodeField => "t_code"
    case DescriptionField => "description"
  }

  const AllowedFields: seq<string> :=
    ["status", "priority", "project_manager", "name", "effort_size", "timeline", "t_code", "description"]

  /** The field a request names, if it is one of the allowed fields. */
  function ParseField(field: Option<string>): (r: Option<EditField>)
    ensures r.Some? <==> field.Some? && field.value in AllowedFields
    ensures r.Some? ==> FieldName(r.value) == field.value
  {
    if field.None? then None
    else match field.value
      case "status" => Some(StatusField)
      case "priority" => Some(PriorityField)
      case "project_manager" => Some(ManagerField)
      case "name" => Some(NameField)
      case "effort_size" => Some(EffortSizeField)
      case "timeline" => Some(TimelineField)
      case "t_code" => Some(TCodeField)
      case "description" => Some(DescriptionField)
      case _ => None
  }

  /** Every editable field is named by exactly one allowed name. */
  lemma FieldNamesRoundTrip(f: EditField)
    ensures FieldName(f) in AllowedFields && ParseField(Some(FieldName(f))) == Some(f)
  {
  }

  /** The answers the view gives instead of saving. `Raised` is an exception caught by the
      view's last handler: a missing value where text is needed, a manager value that is not a
      UUID, or more than one user matching it. */
  datatype EditError =
    | InvalidRequest | InvalidField | InvalidManager | ManagerNotFound
    | EmptyName | NameTooLong | TimelineTooLong | TCodeTooLong | DescriptionTooLong
    | InvalidEffortSize | InvalidChoice | Raised

  /** The editable fields of a project, as values. */
  datatype ProjectFields = ProjectFields(
    status: string,
    priority: string,
    managerId: int,
    name: string,
    effortSize: Option<string>,
    timeline: string,
    tCode: string,
    description: string)

  const NameMax := 200
  const TimelineMax := 200
  const TCodeMax := 50
  const DescriptionMax := 1000

  /** The length limit of a text field, checked on the value as sent. */
  function TextLimit(f: EditField): int
    requires f.TimelineField? || f.TCodeField? || f.DescriptionField?
  {
    match f
    case TimelineField => TimelineMax
    case TCodeField => TCodeMax
    case DescriptionField => DescriptionMax
  }

  /** The error for a text field over its limit. */
  function TooLong(f: EditField): EditError
    requires f.TimelineField? || f.TCodeField? || f.DescriptionField?
  {
    match f
    case TimelineField => TimelineTooLong
    case TCodeField => TCodeTooLong
    case DescriptionField => DescriptionTooLong
  }

  /** The project with text field `f` set to `s`. */
  function WithText(p: ProjectFields, f: EditField, s: string): ProjectFields
    requires f.NameField? || f.TimelineField? || f.TCodeField? || f.DescriptionField?
  {
    match f
    case NameField => p.(name := s)
    case TimelineField => p.(timeline := s)
    case TCodeField => p.(tCode := s)
    case DescriptionField => p.(description := s)
  }

  /** The primary keys of the active users whose UUID is `id`, in ascending order. */
  function ActiveWithId(users: seq<User>, id: nat): (r: seq<nat>)
    ensures forall k: nat :: k in r <==> k < |users| && users[k].id == id && users[k].isActive
    ensures forall i, j :: 0 <= i < j < |r| ==> r[i] < r[j]
    ensures forall i :: 0 <= i < |r| ==> r[i] < |users|
  {
    if users == [] then []
    else
      var n := |users| - 1;
      ActiveWithId(users[..n], id) + (if users[n].id == id && users[n].isActive then [n] else [])
  }

  /** The manager check, `User.objects.get(id=value, is_active=True)`: a non-empty value that
      converts to a UUID (otherwise the conversion raises), then exactly one active user with
      that UUID (none is "not found"; several raise), who becomes the manager. */
  function ManagerEdit(p: ProjectFields, value: Option<string>, users: seq<User>): (r: Result<ProjectFields, EditError>)
    ensures value.None? || value.value == "" ==> r == Err(InvalidManager)
    ensures r.Ok? ==> value.Some? && 0 <= r.value.managerId < |users| && users[r.value.managerId].isActive
                      && ParseUuid(value.value) == Some(users[r.value.managerId].id)
                      && r.value == p.(managerId := r.value.managerId)
  {
    if value.None? || value.value == "" then Err(InvalidManager)
    else match ParseUuid(value.value)
      case None => Err(Raised)
      case Some(id) =>
        var found := ActiveWithId(users, id);
        if found == [] then Err(ManagerNotFound)
        else if |found| > 1 then Err(Raised)
        else Ok(p.(managerId := found[0]))
  }

  /** The checks and the assignment for field `f`: the project after a successful edit, or the
      answer the view gives instead. */
  function EditAs(p: ProjectFields, f: EditField, value: Option<string>, users: seq<User>): (r: Result<ProjectFields, EditError>)
    ensures r.Ok? && !f.EffortSizeField? ==> value.Some?
    ensures r.Ok? ==> (r.value.status != p.status ==> f.StatusField?)
                      && (r.value.priority != p.priority ==> f.PriorityField?)
                      && (r.value.managerId != p.managerId ==> f.ManagerField?)
                      && (r.value.name != p.name ==> f.NameField?)
                      && (r.value.effortSize != p.effortSize ==> f.EffortSizeField?)
                      && (r.value.timeline != p.timeline ==> f.TimelineField?)
                      && (r.value.tCode != p.tCode ==> f.TCodeField?)
                      && (r.value.description != p.description ==> f.DescriptionField?)
    ensures r.Ok? && f.StatusField? ==> r.value.status in Statuses
    ensures r.Ok? && f.PriorityField? ==> r.value.priority in Priorities
    ensures r.Ok? && f.EffortSizeField? && r.value.effortSize.Some? ==> r.value.effortSize.value in EffortSizes
    ensures r.Ok? && f.NameField? ==> r.value.name != [] && |r.value.name| <= NameMax
  {
    match f
    case ManagerField => ManagerEdit(p, value, users)
    case NameField =>
      if value.None? then Err(Raised)
      else if Strip(value.value) == [] then Err(EmptyName)
      else if |Strip(value.value)| > NameMax then Err(NameTooLong)
      else Ok(p.(name := Strip(value.value)))
    case EffortSizeField =>
      if value.None? || value.value == "" then Ok(p.(effortSize := None))
      else if value.value !in EffortSizes then Err(InvalidEffortSize)
      else Ok(p.(effortSize := value))
    case StatusField =>
      if value.None? || value.value !in Statuses then Err(InvalidChoice)
      else Ok(p.(status := value.value))
    case PriorityField =>
      if value.None? || value.value !in Priorities then Err(InvalidChoice)
      else Ok(p.(priority := value.value))
    case _ =>
      if value.None? then Err(Raised)
      else if |value.value| > TextLimit(f) then Err(TooLong(f))
      else Ok(WithText(p, f, Strip(value.value)))
  }

  /** The whole view: an AJAX POST naming an allowed field, then that field's checks. */
  function Edit(ajaxPost: bool, p: ProjectFields, field: Option<string>, value: Option<string>,
                users: seq<User>): (r: Result<ProjectFields, EditError>)
    ensures !ajaxPost ==> r == Err(InvalidRequest)
    ensures ajaxPost && (field.None? || field.value !in AllowedFields) ==> r == Err(InvalidField)
    ensures r.Ok? ==> ajaxPost && field.Some? && field.value in AllowedFields
  {
    if !ajaxPost then Err(InvalidRequest)
    else if ParseField(field).None? then Err(InvalidField)
    else EditAs(p, ParseField(field).value, value, users)
  }

  /** The label of a choice code, or the code itself when it has none. */
  function Label(code: string): string {
    match code
    case "NEW" => "New"
    case "IN_PROGRESS" => "In Progress"
    case "COMPLETE" => "Complete"
    case "ON_HOLD" => "On Hold"
    case "CANCELLED" => "Cancelled"
    case "LOW" => "Low"
    case "MEDIUM" => "Medium"
    case "HIGH" => "High"
    case "CRITICAL" => "Critical"
    case _ => code
  }

  function EffortLabel(code: string): string {
    match code
    case "S" => "Small"
    case "M" => "Medium"
    case "L" => "Large"
    case _ => code
  }

  /** The user's full name: first and last name joined by a space, stripped. */
  function FullName(u: User): string {
    Strip(u.firstName + " " + u.lastName)
  }

  /** How a manager is shown: the full name, or the username when the full name is empty. */
  function ManagerDisplay(u: User): (r: string)
    ensures r == u.username || r == FullName(u)
    ensures r == u.username <== FullName(u) == []
  {
    if FullName(u) != [] then FullName(u) else u.username
  }

  /** The value shown back for field `f` of the saved project: none for a cleared effort size. */
  function DisplayValue(p: ProjectFields, f: EditField, users: seq<User>): (r: Option<string>)
    requires f.ManagerField? ==> 0 <= p.managerId < |users|
    ensures r.None? <==> f.EffortSizeField? && (p.effortSize.None? || p.effortSize.value == "")
    ensures f.ManagerField? ==> r == Some(users[p.managerId].username) || r == Some(FullName(users[p.managerId]))
    ensures f.NameField? || f.TimelineField? || f.TCodeField? || f.DescriptionField? ==>
              WithText(p, f, r.value) == p
  {
    match f
    case ManagerField => Some(ManagerDisplay(users[p.managerId]))
    case NameField => Some(p.name)
    case TimelineField => Some(p.timeline)
    case TCodeField => Some(p.tCode)
    case DescriptionField => Some(p.description)
    case EffortSizeField => if p.effortSize.Some? && p.effortSize.value != "" then Some(EffortLabel(p.effortSize.value)) else None
    case StatusField => Some(Label(p.status))
    case PriorityField => Some(Label(p.priority))
  }

  /** A project row the view loads, edits in place and saves. */
  class EditableProject {
    var status: string
    var priority: string
    var managerId: int
    var name: string
    var effortSize: Option<string>
    var timeline: string
    var tCode: string
    var description: string

    constructor (p: ProjectFields)
      ensures Snapshot() == p
    {
      status := p.status;
      priority := p.priority;
      managerId := p.managerId;
      name := p.name;
      effortSize := p.effortSize;
      timeline := p.timeline;
      tCode := p.tCode;
      description := p.description;
    }

    function Snapshot(): ProjectFields
      reads this
    {
      ProjectFields(status, priority, managerId, name, effortSize, timeline, tCode, description)
    }
  }

  /** The inline edit: checks the request, sets the one field in place and answers with the
      value to show. A refused request changes nothing. */
  method UpdateProjectField(project: EditableProject, ajaxPost: bool, field: Option<string>,
                            value: Option<string>, users: seq<User>)
      returns (res: Result<Option<string>, EditError>)
    modifies project
    ensures var e := Edit(ajaxPost, old(project.Snapshot()), field, value, users);
      && (res.Err? <==> e.Err?)
      && (res.Err? ==> res.error == e.error && project.Snapshot() == old(project.Snapshot()))
      && (res.Ok? ==> project.Snapshot() == e.value)
    ensures res.Ok? ==> ParseField(field).Some?
    ensures res.Ok? && ParseField(field).Some? ==>
              (ParseField(field).value.ManagerField? ==> 0 <= project.managerId < |users|)
              && res.value == DisplayValue(project.Snapshot(), ParseField(field).value, users)
  {
    if !ajaxPost {
      return Err(InvalidRequest);
    }
    var f := ParseField(field);
    if f.None? {
      return Err(InvalidField);
    }
    match f.value {
      case ManagerField =>
        if value.None? || value.value == "" {
          return Err(InvalidManager);
        }
        var id := ParseUuid(value.value);
        if id.None? {
          return Err(Raised);
        }
        var found := ActiveWithId(users, id.value);
        if found == [] {
          return Err(ManagerNotFound);
        }
        if |found| > 1 {
          return Err(Raised);
        }
        project.managerId := found[0];
      case NameField =>
        if value.None? {
          return Err(Raised);
        }
        var stripped := Strip(value.value);
        if stripped == [] {
          return Err(EmptyName);
        }
        if |stripped| > NameMax {
          return Err(NameTooLong);
        }
        project.name := stripped;
      case EffortSizeField =>
        if value.Some? && value.value != "" && value.value !in EffortSizes {
          return Err(InvalidEffortSize);
        }
        project.effortSize := if value.Some? && value.value != "" then value else None;
      case StatusField =>
        if value.None? || value.value !in Statuses {
          return Err(InvalidChoice);
        }
        project.status := value.value;
      case PriorityField =>
        if value.None? || value.value !in Priorities {
          return Err(InvalidChoice);
        }
        project.priority := value.value;
      case TimelineField =>
        if value.None? {
          return Err(Raised);
        }
        if |value.value| > TimelineMax {
          return Err(TimelineTooLong);
        }
        project.timeline := Strip(value.value);
      case TCodeField =>
        if value.None? {
          return Err(Raised);
        }
        if |value.value| > TCodeMax {
          return Err(TCodeTooLong);
        }
        project.tCode := Strip(value.value);
      case DescriptionField =>
        if value.None? {
          return Err(Raised);
        }
        if |value.value| > DescriptionMax {
          return Err(DescriptionTooLong);
        }
        project.description := Strip(value.value);
    }
    return Ok(DisplayValue(project.Snapshot(), f.value, users));
  }

  /** A successful edit changes the named field and no other. */
  lemma EditTouchesOneField(ajaxPost: bool, p: ProjectFields, field: Option<string>, value: Option<string>, users: seq<User>)
    requires Edit(ajaxPost, p, field, value, users).Ok?
    ensures ajaxPost && ParseField(field).Some?
    ensures var q := Edit(ajaxPost, p, field, value, users).value; var f := ParseField(field).value;
      && (q.status != p.status ==> f.StatusField?)
      && (q.priority != p.priority ==> f.PriorityField?)
      && (q.managerId != p.managerId ==> f.ManagerField?)
      && (q.name != p.name ==> f.NameField?)
      && (q.effortSize != p.effortSize ==> f.EffortSizeField?)
      && (q.timeline != p.timeline ==> f.TimelineField?)
      && (q.tCode != p.tCode ==> f.TCodeField?)
      && (q.description != p.description ==> f.DescriptionField?)
  {
  }

  /** The name is accepted exactly when its stripped text is non-blank and at most 200 long,
      and it is stored stripped. */
  lemma NameRule(p: ProjectFields, v: string, users: seq<User>)
    ensures var r := Edit(true, p, Some("name"), Some(v), users);
      && (r.Ok? <==> HasText(v) && |Strip(v)| <= NameMax)
      && (r.Ok? ==> r.value.name == Strip(v) && HasText(r.value.name) && |r.value.name| <= NameMax)
      && (!HasText(v) ==> r == Err(EmptyName))
  {
    HasTextIffNotBlank(v);
    if HasText(v) {
      StripKeepsText(v);
    }
  }

  /** Timeline, T/code and description are limited on the value as sent, before stripping: a
      value over the limit is refused even when its stripped text would fit. Within the limit
      it is stored stripped, so what is stored fits as well. */
  lemma TextLimitRule(p: ProjectFields, f: EditField, v: string, users: seq<User>)
    requires f.TimelineField? || f.TCodeField? || f.DescriptionField?
    ensures var r := Edit(true, p, Some(FieldName(f)), Some(v), users);
      && (r.Ok? <==> |v| <= TextLimit(f))
      && (r.Err? ==> r.error == TooLong(f))
      && (r.Ok? ==> r.value == WithText(p, f, Strip(v)) && |Strip(v)| <= TextLimit(f))
  {
    StripSpec(v);
  }

  /** A text field sent padded with spaces past its limit is refused although its text fits. */
  lemma PaddedTimelineRefused(p: ProjectFields, users: seq<User>)
    ensures var v := seq(201, i => if i == 0 then 'x' else ' ');
      Strip(v) == "x" && Edit(true, p, Some("timeline"), Some(v), users) == Err(TimelineTooLong)
  {
    var v := seq(201, i => if i == 0 then 'x' else ' ');
    assert LStrip(v) == v;
    RStripSpec(v);
    var r := RStrip(v);
    assert r == v[..1] == "x";
  }

  /** Status and priority take exactly their choice codes; the empty value and a missing value
      are refused. */
  lemma ChoiceRule(p: ProjectFields, v: Option<string>, users: seq<User>)
    ensures var r := Edit(true, p, Some("status"), v, users);
      (r.Ok? <==> v.Some? && v.value in Statuses) && (r.Ok? ==> r.value.status == v.value)
      && (r.Err? ==> r.error == InvalidChoice)
    ensures var r := Edit(true, p, Some("priority"), v, users);
      (r.Ok? <==> v.Some? && v.value in Priorities) && (r.Ok? ==> r.value.priority == v.value)
      && (r.Err? ==> r.error == InvalidChoice)
    ensures Edit(true, p, Some("status"), Some(""), users).Err?
    ensures Edit(true, p, Some("priority"), Some(""), users).Err?
  {
  }

  /** The effort size: an empty or missing value clears it, S, M or L is stored, and anything
      else is refused. */
  lemma EffortSizeRule(p: ProjectFields, v: Option<string>, users: seq<User>)
    ensures var r := Edit(true, p, Some("effort_size"), v, users);
      && (r.Ok? <==> v.None? || v.value == "" || v.value in EffortSizes)
      && (r.Ok? ==> (r.value.effortSize.None? <==> v.None? || v.value == ""))
      && (r.Ok? && r.value.effortSize.Some? ==> r.value.effortSize.value in EffortSizes)
      && (r.Err? ==> r.error == InvalidEffortSize)
  {
  }

  /** The manager: an empty value is refused, a value that is not a UUID raises, and a UUID
      must belong to exactly one active user, who then manages the project; none is "not
      found". */
  lemma ManagerRule(p: ProjectFields, v: Option<string>, users: seq<User>)
    ensures var r := Edit(true, p, Some("project_manager"), v, users);
      && (v.None? || v.value == "" ==> r == Err(InvalidManager))
      && (v.Some? && v.value != "" && ParseUuid(v.value).None? ==> r == Err(Raised))
      && (r.Ok? <==> v.Some? && v.value != "" && ParseUuid(v.value).Some?
                     && |ActiveWithId(users, ParseUuid(v.value).value)| == 1)
      && (r.Ok? ==> 0 <= r.value.managerId < |users| && users[r.value.managerId].isActive
                    && users[r.value.managerId].id == ParseUuid(v.value).value
                    && r.value == p.(managerId := r.value.managerId))
      && (r == Err(ManagerNotFound) <==>
            v.Some? && v.value != "" && ParseUuid(v.value).Some?
            && forall k :: 0 <= k < |users| ==> !(users[k].id == ParseUuid(v.value).value && users[k].isActive))
  {
    if v.Some? && v.value != "" && ParseUuid(v.value).Some? {
      var found := ActiveWithId(users, ParseUuid(v.value).value);
      if found != [] {
        assert found[0] in found;
      }
    }
  }

  /** UUIDs are unique among the users, as the field's constraint requires. */
  predicate UniqueIds(users: seq<User>) {
    forall i, j :: 0 <= i < |users| && 0 <= j < |users| && users[i].id == users[j].id ==> i == j
  }

  /** Without an active user holding the UUID, nothing is found. */
  lemma {:induction false} NoneFound(users: seq<User>, id: nat)
    requires forall m :: 0 <= m < |users| ==> !(users[m].id == id && users[m].isActive)
    ensures ActiveWithId(users, id) == []
  {
    if users != [] {
      var n := |users| - 1;
      assert forall m :: 0 <= m < n ==> users[..n][m] == users[m];
      NoneFound(users[..n], id);
    }
  }

  /** With unique UUIDs, an active user holding the UUID is the one user found. */
  lemma OnlyMatch(users: seq<User>, id: nat, k: nat)
    requires UniqueIds(users) && k < |users| && users[k].id == id && users[k].isActive
    ensures ActiveWithId(users, id) == [k]
  {
    var r := ActiveWithId(users, id);
    assert k in r;
    forall i | 0 <= i < |r| ensures r[i] == k {
      assert r[i] in r;
      assert users[r[i]].id == users[k].id;
    }
    IncreasingSpread(r);
    assert r[|r| - 1] == k == r[0];
  }

  /** A strictly increasing run of numbers spans at least its length less one. */
  lemma {:induction false} IncreasingSpread(r: seq<nat>)
    requires |r| >= 1 && forall i, j :: 0 <= i < j < |r| ==> r[i] < r[j]
    ensures r[|r| - 1] >= r[0] + |r| - 1
  {
    if |r| > 1 {
      IncreasingSpread(r[..|r| - 1]);
      assert r[|r| - 2] < r[|r| - 1];
    }
  }

  /** The text of an active user's UUID, as the page sends it, makes that user the manager. */
  lemma ManagerByUuid(p: ProjectFields, users: seq<User>, k: nat)
    requires UniqueIds(users) && k < |users| && users[k].isActive && users[k].id < UuidLimit
    ensures Edit(true, p, Some("project_manager"), Some(UuidText(users[k].id)), users) == Ok(p.(managerId := k))
  {
    var t := UuidText(users[k].id);
    UuidRoundTrip(users[k].id);
    OnlyMatch(users, users[k].id, k);
    assert t != "" && ParseUuid(t) == Some(users[k].id);
    assert ManagerEdit(p, Some(t), users) == Ok(p.(managerId := k));
    ManagerFieldEdit(p, Some(t), users);
  }

  /** An AJAX edit of the manager field is the manager check. */
  lemma ManagerFieldEdit(p: ProjectFields, value: Option<string>, users: seq<User>)
    ensures Edit(true, p, Some("project_manager"), value, users) == ManagerEdit(p, value, users)
  {
    assert ParseField(Some("project_manager")) == Some(ManagerField);
  }

  /** A user's number is not its UUID: a numeric manager value raises, whatever the users. */
  lemma NumericManagerRaises(p: ProjectFields, users: seq<User>)
    ensures Edit(true, p, Some("project_manager"), Some("5"), users) == Err(Raised)
  {
    NumberIsNoUuid();
  }

  /** Sending back what a successful edit stored is accepted and changes nothing. */
  lemma ResubmitStored(p: ProjectFields, f: EditField, v: Option<string>, users: seq<User>)
    requires !f.ManagerField?
    requires Edit(true, p, Some(FieldName(f)), v, users).Ok?
    ensures var q := Edit(true, p, Some(FieldName(f)), v, users).value;
      var stored := match f
        case StatusField => Some(q.status)
        case PriorityField => Some(q.priority)
        case NameField => Some(q.name)
        case EffortSizeField => q.effortSize
        case TimelineField => Some(q.timeline)
        case TCodeField => Some(q.tCode)
        case DescriptionField => Some(q.description);
      Edit(true, q, Some(FieldName(f)), stored, users) == Ok(q)
  {
    FieldNamesRoundTrip(f);
    if v.Some? {
      StripIdempotent(v.value);
      StripSpec(v.value);
      if f.NameField? {
        HasTextIffNotBlank(v.value);
        StripKeepsText(v.value);
        HasTextIffNotBlank(Strip(v.value));
      }
    }
  }
}
