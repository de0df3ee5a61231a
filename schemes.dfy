/**
 * src/schemes/schemes.py: the request bodies with their field constraints,
 * and the user view returned to clients.
 */
module Schemes {
  import opened Wrappers
  import opened UserModel

  /**
   * EmailStr is checked by a foreign validator; this stand-in asks for one
   * '@' with something on either side.
   */
  predicate IsEmail(s: string)
  {
    exists i :: 0 < i < |s| - 1 && s[i] == '@' && '@' !in s[..i] && '@' !in s[i + 1..]
  }

  datatype LoginRequest = LoginRequest(email: string, password: string)

  /**
   * The bodies pydantic admits to the login handler: an email and a
   * non-empty password. Any other body is answered 422 before the handler.
   */
  predicate ValidLoginRequest(r: LoginRequest)
    ensures ValidLoginRequest(r) ==> r.email != [] && r.password != []
  {
    IsEmail(r.email) && |r.password| >= 1
  }

  datatype Registration = Registration(firstName: string, lastName: string, email: string,
                                       password: string, password2: string)

  /** validate_passwords_match: the confirmation repeats the password character for character. */
  predicate PasswordsMatch(r: Registration)
    ensures PasswordsMatch(r) ==> |r.password| == |r.password2| && forall i :: 0 <= i < |r.password| ==> r.password[i] == r.password2[i]
  {
    r.password == r.password2
  }

  /**
   * The registrations pydantic admits: names of 1 to 50 characters, which
   * the name columns hold, an email, and two matching passwords of at least
   * eight characters.
   */
  predicate ValidRegistration(r: Registration)
    ensures ValidRegistration(r) ==>
              && 1 <= |r.firstName| <= NameLength && 1 <= |r.lastName| <= NameLength
              && r.email != [] && r.password == r.password2 && |r.password| >= 8
  {
    && 1 <= |r.firstName| <= 50 && 1 <= |r.lastName| <= 50
    && IsEmail(r.email)
    && |r.password| >= 8 && |r.password2| >= 8
    && PasswordsMatch(r)
  }

  /** A field of a request body: left out, sent as null, or sent with a value. */
  datatype Input<T> = Omitted | SentNull | Given(value: T)

  /** UpdateUser after defaults are applied: None only for an explicit null. */
  datatype UpdateUser = UpdateUser(firstName: Option<string>, lastName: Option<string>, email: Option<string>)

  const FirstNamePlaceholder := "Ввести имя или null"
  const LastNamePlaceholder := "Ввести фамилию или null"
  const EmailPlaceholder := "Ввести email или null"

  function WithDefault(i: Input<string>, placeholder: string): (r: Option<string>)
    ensures r.None? <==> i.SentNull?
    ensures i.Omitted? ==> r == Some(placeholder)
    ensures i.Given? ==> r == Some(i.value)
  {
    match i
    case Omitted => Some(placeholder)
    case SentNull => None
    case Given(s) => Some(s)
  }

  /** The UpdateUser a request body yields: an omitted field holds its placeholder text. */
  function MakeUpdateUser(firstName: Input<string>, lastName: Input<string>, email: Input<string>): (u: UpdateUser)
    ensures u.firstName.None? <==> firstName.SentNull?
    ensures u.lastName.None? <==> lastName.SentNull?
    ensures u.email.None? <==> email.SentNull?
    ensures firstName.Omitted? ==> u.firstName == Some(FirstNamePlaceholder)
    ensures lastName.Omitted? ==> u.lastName == Some(LastNamePlaceholder)
    ensures email.Omitted? ==> u.email == Some(EmailPlaceholder)
    ensures firstName.Given? ==> u.firstName == Some(firstName.value)
    ensures lastName.Given? ==> u.lastName == Some(lastName.value)
    ensures email.Given? ==> u.email == Some(email.value)
  {
    UpdateUser(WithDefault(firstName, FirstNamePlaceholder),
               WithDefault(lastName, LastNamePlaceholder),
               WithDefault(email, EmailPlaceholder))
  }

  /** The constraints pydantic checks on the fields the client sent (defaults are not validated). */
  predicate ValidUpdateInput(firstName: Input<string>, lastName: Input<string>, email: Input<string>)
    ensures ValidUpdateInput(firstName, lastName, email) ==>
              && (firstName.Given? ==> |firstName.value| <= NameLength)
              && (lastName.Given? ==> |lastName.value| <= NameLength)
              && (email.Given? ==> email.value != [])
  {
    && (firstName.Given? ==> 1 <= |firstName.value| <= 50)
    && (lastName.Given? ==> 1 <= |lastName.value| <= 50)
    && (email.Given? ==> 1 <= |email.value| <= 50 && IsEmail(email.value))
  }

  /** model_dump(exclude_none=True), as the column dictionary of the UPDATE. */
  function DumpExcludeNone(u: UpdateUser): (d: map<Column, Value>)
    ensures FirstName in d <==> u.firstName.Some?
    ensures LastName in d <==> u.lastName.Some?
    ensures Email in d <==> u.email.Some?
    ensures d.Keys <= {FirstName, LastName, Email}
    ensures FirstName in d ==> d[FirstName] == Str(u.firstName.value)
    ensures LastName in d ==> d[LastName] == Str(u.lastName.value)
    ensures Email in d ==> d[Email] == Str(u.email.value)
  {
    (if u.firstName.Some? then map[FirstName := Str(u.firstName.value)] else map[])
    + (if u.lastName.Some? then map[LastName := Str(u.lastName.value)] else map[])
    + (if u.email.Some? then map[Email := Str(u.email.value)] else map[])
  }

  /** "No data to update" arises exactly when all three fields were sent as null. */
  lemma NothingToUpdate(firstName: Input<string>, lastName: Input<string>, email: Input<string>)
    ensures DumpExcludeNone(MakeUpdateUser(firstName, lastName, email)) == map[]
            <==> firstName.SentNull? && lastName.SentNull? && email.SentNull?
  {
    var d := DumpExcludeNone(MakeUpdateUser(firstName, lastName, email));
    if !firstName.SentNull? { assert FirstName in d; }
    if !lastName.SentNull? { assert LastName in d; }
    if !email.SentNull? { assert Email in d; }
  }

  /**
   * A validated update body always fits the table's name columns, so its
   * UPDATE can only be refused for a duplicate email.
   */
  lemma ValidUpdateFits(firstName: Input<string>, lastName: Input<string>, email: Input<string>)
    requires ValidUpdateInput(firstName, lastName, email)
    ensures AllFit(DumpExcludeNone(MakeUpdateUser(firstName, lastName, email)))
  {
  }

  /**
   * A partial update writes the fields the body carries and nothing else:
   * the password hash, the active flag and the role are never touched.
   */
  lemma UpdateWritesOnlySentFields(u: User, data: UpdateUser)
    requires AllFit(DumpExcludeNone(data))
    ensures Apply(u, DumpExcludeNone(data))
            == u.(firstName := if data.firstName.Some? then data.firstName.value else u.firstName,
                  lastName := if data.lastName.Some? then data.lastName.value else u.lastName,
                  email := if data.email.Some? then data.email.value else u.email)
  {
    var d := DumpExcludeNone(data);
    var r := Apply(u, d);
    assert Get(r, FirstName) == if FirstName in d then d[FirstName] else Get(u, FirstName);
    assert Get(r, LastName) == if LastName in d then d[LastName] else Get(u, LastName);
    assert Get(r, Email) == if Email in d then d[Email] else Get(u, Email);
    assert Get(r, HashPassword) == Get(u, HashPassword);
    assert Get(r, IsActive) == Get(u, IsActive);
    assert Get(r, Role) == Get(u, Role);
  }

  datatype UserResponse = UserResponse(id: int, firstName: string, lastName: string, email: string,
                                       isActive: bool, role: string, refreshTokenHash: Option<string>)

  /** UserResponse.model_validate(user): the public fields; the User model has no refresh_token_hash. */
  function ToResponse(u: User): (v: UserResponse)
    ensures v.id == u.id && v.email == u.email && v.firstName == u.firstName && v.lastName == u.lastName
    ensures v.isActive == u.isActive && v.role == u.role && v.refreshTokenHash.None?
  {
    UserResponse(u.id, u.firstName, u.lastName, u.email, u.isActive, u.role, None)
  }

  /** The view never depends on the password hash. */
  lemma ResponseHidesHash(u: User, hashPassword: string)
    ensures ToResponse(u.(hashPassword := hashPassword)) == ToResponse(u)
  {
  }
}
