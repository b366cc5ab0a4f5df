/** The custom user: the username validator, the choice fields with their defaults, and how a
    user is displayed. */
module UserModels {
  import opened Text

  const GenderChoices: seq<string> := ["Male", "Female", "Other"]
  const OccupationChoices: seq<string> :=
    ["network_engineer", "system_admin", "devops_engineer", "security_analyst", "it_manager",
     "tech_support", "other"]
  const DefaultGender: string := "Other"
  const DefaultOccupation: string := "other"

  /** The characters of `[a-zA-Z0-9_\.]`. */
  predicate UsernameChar(c: char) {
    IsAsciiLetter(c) || IsAsciiDigit(c) || c == '_' || c == '.'
  }

  predicate UsernameChars(s: string) {
    forall i :: 0 <= i < |s| ==> UsernameChar(s[i])
  }

  /** The username validator, the pattern `^[a-zA-Z0-9_\.]+$` searched in the text: one or more
      allowed characters, where `$` also matches before one final newline. */
  function UsernameValid(s: string): (r: bool)
    ensures r <==> (s != [] && UsernameChars(s))
                   || (|s| >= 2 && s[|s| - 1] == '\n' && UsernameChars(s[..|s| - 1]))
  {
    var body := if s != [] && s[|s| - 1] == '\n' then s[..|s| - 1] else s;
    body != [] && UsernameChars(body)
  }

  /** '@', '+' and '-' are refused wherever they appear, although the validator's message lists
      them as allowed. */
  lemma UsernameRefusesMessageChars(s: string, i: int)
    requires 0 <= i < |s| && (s[i] == '@' || s[i] == '+' || s[i] == '-')
    ensures !UsernameValid(s)
  {
    if |s| >= 2 && s[|s| - 1] == '\n' && i < |s| - 1 {
      assert s[..|s| - 1][i] == s[i];
    }
  }

  /** Letters, digits, '_' and '.' pass; so does one trailing newline, but not two, and not a
      newline alone. */
  lemma UsernameExamples()
    ensures UsernameValid("john.doe_1")
    ensures UsernameValid("john\n")
    ensures !UsernameValid("john\n\n")
    ensures !UsernameValid("\n")
    ensures !UsernameValid("")
  {
    assert "john\n"[..4] == "john";
    assert "john\n\n"[..5] == "john\n";
    assert !UsernameChar("john\n"[4]);
  }

  /** A user as the model sees it: the fields the core reads. `id` is the user's UUID (a field
      of its own; the primary key is a separate number). */
  datatype User = User(
    id: nat,
    username: string,
    email: string,
    firstName: string,
    lastName: string,
    gender: string,
    occupation: string,
    isActive: bool,
    isStaff: bool)

  /** A user created with only the required fields takes the field defaults: gender and
      occupation "other", active, not staff. The random UUID the field draws is a parameter. */
  function NewUser(id: nat, username: string, email: string, firstName: string, lastName: string): (u: User)
    ensures u.id == id && u.username == username && u.email == email
    ensures u.firstName == firstName && u.lastName == lastName
    ensures u.gender == DefaultGender && u.occupation == DefaultOccupation
    ensures u.isActive && !u.isStaff
  {
    User(id, username, email, firstName, lastName, DefaultGender, DefaultOccupation, true, false)
  }

  /** The defaults are valid choices. */
  lemma DefaultsAreChoices()
    ensures DefaultGender in GenderChoices && DefaultOccupation in OccupationChoices
  {
  }
}
