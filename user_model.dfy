/**
 * src/Models/User.py: the `users` table. A row is a `User`; the dictionaries
 * the repositories pass to INSERT and UPDATE map columns to values. The
 * table's constraints (NOT NULL, column types, VARCHAR lengths, UNIQUE
 * email, primary key) decide which writes the database accepts.
 */
module UserModel {
  import opened Exceptions

  /** A Python value as it appears in a column dictionary or a filter. */
  datatype Value = Null | Str(s: string) | Bool(b: bool) | Int(i: int)

  /**
   * `{k: v for k, v in d.items() if v is not None}`. The ORM does the same
   * to a new object: an attribute left at None is not part of the INSERT,
   * so the column's default applies.
   */
  function DropNone(d: map<Column, Value>): (r: map<Column, Value>)
    ensures forall c :: c in r <==> c in d && d[c] != Null
    ensures forall c :: c in r ==> r[c] == d[c]
  {
    map c | c in d && d[c] != Null :: d[c]
  }

  /** Python truthiness: None, "", False and 0 are false. */
  predicate Truthy(v: Value)
  {
    match v
    case Null => false
    case Str(s) => s != ""
    case Bool(b) => b
    case Int(i) => i != 0
  }

  /** The writable columns (the primary key is assigned by the database). */
  datatype Column = Email | FirstName | LastName | HashPassword | IsActive | Role

  datatype User = User(id: int, email: string, firstName: string, lastName: string,
                       hashPassword: string, isActive: bool, role: string)

  const DefaultIsActive := true
  const DefaultRole := "user"
  const NameLength := 50  // String(50)
  const RoleLength := 20  // String(20)

  function Get(u: User, c: Column): Value
  {
    match c
    case Email => Str(u.email)
    case FirstName => Str(u.firstName)
    case LastName => Str(u.lastName)
    case HashPassword => Str(u.hashPassword)
    case IsActive => Bool(u.isActive)
    case Role => Str(u.role)
  }

  /** Does the column accept the value: right type, not NULL, within its length? */
  predicate Fits(c: Column, v: Value)
  {
    match c
    case Email => v.Str?
    case FirstName => v.Str? && |v.s| <= NameLength
    case LastName => v.Str? && |v.s| <= NameLength
    case HashPassword => v.Str?
    case IsActive => v.Bool?
    case Role => v.Str? && |v.s| <= RoleLength
  }

  /**
   * Does the value have the column's Python type: bool for is_active, str
   * for the others? The driver refuses any other parameter before the
   * statement reaches the database.
   */
  predicate Typed(c: Column, v: Value)
  {
    if c == IsActive then v.Bool? else v.Str?
  }

  predicate AllTyped(d: map<Column, Value>)
  {
    forall c :: c in d ==> Typed(c, d[c])
  }

  predicate AllFit(d: map<Column, Value>)
  {
    forall c :: c in d ==> Fits(c, d[c])
  }

  function StrAt(d: map<Column, Value>, c: Column, otherwise: string): string
  {
    if c in d && d[c].Str? then d[c].s else otherwise
  }

  function BoolAt(d: map<Column, Value>, c: Column, otherwise: bool): bool
  {
    if c in d && d[c].Bool? then d[c].b else otherwise
  }

  /** The row an UPDATE ... SET d writes over `u`: the columns of `d` take their new values. */
  function Apply(u: User, d: map<Column, Value>): (r: User)
    requires AllFit(d)
    ensures r.id == u.id
    ensures forall c :: Get(r, c) == if c in d then d[c] else Get(u, c)
  {
    User(u.id,
         StrAt(d, Email, u.email), StrAt(d, FirstName, u.firstName), StrAt(d, LastName, u.lastName),
         StrAt(d, HashPassword, u.hashPassword), BoolAt(d, IsActive, u.isActive), StrAt(d, Role, u.role))
  }

  /** The row `User(**d)` inserts under `id`; is_active and role take their defaults when absent. */
  function NewRow(id: int, d: map<Column, Value>): (r: User)
    requires AllFit(d)
    ensures r.id == id
    ensures forall c :: c in d ==> Get(r, c) == d[c]
    ensures IsActive !in d ==> r.isActive == DefaultIsActive
    ensures Role !in d ==> r.role == DefaultRole
  {
    User(id, StrAt(d, Email, ""), StrAt(d, FirstName, ""), StrAt(d, LastName, ""),
         StrAt(d, HashPassword, ""), BoolAt(d, IsActive, DefaultIsActive), StrAt(d, Role, DefaultRole))
  }

  predicate EmailsUnique(users: map<int, User>)
  {
    forall i, j :: i in users && j in users && i != j ==> users[i].email != users[j].email
  }

  /** The invariant of the table: rows are keyed by their id and email is UNIQUE. */
  predicate TableInvariant(users: map<int, User>)
  {
    (forall id :: id in users ==> users[id].id == id) && EmailsUnique(users)
  }

  predicate EmailTaken(users: map<int, User>, email: string)
  {
    exists id :: id in users && users[id].email == email
  }

  /** No row other than `id`'s holds `email`. */
  predicate EmailFreeExcept(users: map<int, User>, email: string, id: int)
  {
    forall j :: j in users && j != id ==> users[j].email != email
  }

  /** The INSERT succeeds: the NOT NULL columns without a default are given, all fit, and the email is new. */
  predicate InsertOk(users: map<int, User>, d: map<Column, Value>)
  {
    && Email in d && FirstName in d && LastName in d && HashPassword in d
    && AllFit(d)
    && !EmailTaken(users, d[Email].s)
  }

  /** The UPDATE of row `id` succeeds: all values fit and a new email belongs to no other row. */
  predicate UpdateOk(users: map<int, User>, id: int, d: map<Column, Value>)
  {
    AllFit(d) && (Email in d ==> EmailFreeExcept(users, d[Email].s, id))
  }

  /** `filter_by(**f)`: every column of the filter equals the given value. */
  predicate Matches(u: User, f: map<Column, Value>)
  {
    forall c :: c in f ==> Get(u, c) == f[c]
  }

  /** The one row holding `email`, in a table whose emails are unique. */
  ghost function UserWithEmail(users: map<int, User>, email: string): (u: User)
    requires EmailTaken(users, email)
    requires TableInvariant(users)
    ensures u.id in users && users[u.id] == u && u.email == email
  {
    var id :| id in users && users[id].email == email;
    users[id]
  }

  lemma UserWithEmailIsUnique(users: map<int, User>, u: User)
    requires TableInvariant(users)
    requires u.id in users && users[u.id] == u
    ensures EmailTaken(users, u.email) && UserWithEmail(users, u.email) == u
  {
  }

  lemma MatchesEmail(u: User, email: string)
    ensures Matches(u, map[Email := Str(email)]) <==> u.email == email
  {
    if Matches(u, map[Email := Str(email)]) {
      assert Get(u, Email) == Str(email);
    }
  }

  /** An accepted UPDATE keeps the table invariant. */
  lemma UpdateKeepsInvariant(users: map<int, User>, id: int, d: map<Column, Value>)
    requires TableInvariant(users) && id in users && UpdateOk(users, id, d)
    ensures TableInvariant(users[id := Apply(users[id], d)])
  {
    var users' := users[id := Apply(users[id], d)];
    forall i, j | i in users' && j in users' && i != j
      ensures users'[i].email != users'[j].email
    {
      if i == id {
        assert Get(users'[i], Email) == if Email in d then d[Email] else Get(users[i], Email);
      } else if j == id {
        assert Get(users'[j], Email) == if Email in d then d[Email] else Get(users[j], Email);
      }
    }
  }

  /** An accepted INSERT under a new id keeps the table invariant. */
  lemma InsertKeepsInvariant(users: map<int, User>, id: int, d: map<Column, Value>)
    requires TableInvariant(users) && id !in users && InsertOk(users, d)
    ensures TableInvariant(users[id := NewRow(id, d)])
  {
    assert Get(NewRow(id, d), Email) == d[Email];
  }

  /** Writing the same columns twice is writing them once. */
  lemma ApplyIdempotent(u: User, d: map<Column, Value>)
    requires AllFit(d)
    ensures Apply(Apply(u, d), d) == Apply(u, d)
  {
  }

  /**
   * A refused write. PostgreSQL reports a duplicate email or a NULL as an
   * IntegrityError and an over-long string as a DataError; a parameter of
   * the wrong Python type is refused by the driver before the statement is
   * sent. Each ends the request with a 500.
   */
  const WriteRefused := Unhandled("DatabaseError", "the users table refused the write")

  /** A value of PostgreSQL's INTEGER type, the type of the `id` column. */
  predicate InIntegerRange(n: int) { -0x8000_0000 <= n < 0x8000_0000 }

  /**
   * The DataError asyncpg raises, before the query is sent, for an id
   * parameter outside the INTEGER range; like any DatabaseError it ends
   * the request with a 500.
   */
  const IdOutOfRange := Unhandled("DataError", "invalid input for query argument $1 (value out of int32 range)")

  /**
   * The error `nextval` raises once the `id` sequence, an INTEGER sequence,
   * has handed out its last value; no row can be inserted after that.
   */
  const SequenceExhausted := Unhandled("DataError", "nextval: reached maximum value of sequence \"users_id_seq\"")

  /** A filtering condition of the listing query. */
  datatype Condition = EmailEquals(email: Value)

  /**
   * get_cond_list: one email-equality condition when `email` is truthy, none
   * otherwise; a dictionary without the key raises KeyError.
   */
  function GetCondList(kwargs: map<string, Value>): (r: Result<seq<Condition>>)
    ensures "email" !in kwargs <==> r.Err?
    ensures r.Ok? ==> (r.value != [] <==> Truthy(kwargs["email"]))
    ensures r.Ok? && r.value != [] ==> r.value == [EmailEquals(kwargs["email"])]
  {
    if "email" !in kwargs then Err(Unhandled("KeyError", "email"))
    else if Truthy(kwargs["email"]) then Ok([EmailEquals(kwargs["email"])])
    else Ok([])
  }
}
