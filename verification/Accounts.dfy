/** The customer table, the answers of the API, and each operation as one atomic step on the table. */
module Accounts {
  import opened Options
  import opened Text
  import opened Platform
  import opened PasswordPolicy
  import opened Bcrypt
  import opened Email
  import opened LongText
  import Audit

  datatype Role = CUSTOMER | ADMIN

  datatype Customer = Customer(
    id: nat,
    email: Str,
    passwordHash: PasswordHash,
    role: Role,
    enabled: bool,
    createdAt: int,
    updatedAt: int)

  /** Rows in commit order, and the last id the autoincrement column gave out. */
  datatype Table = Table(rows: seq<Customer>, lastId: nat)

  datatype Exception =
    | DuplicateEmail
    | InvalidPassword
    | InvalidCredentials
    | ProfileAccessDenied
    | DbUpdate            // the unique index refused the row
    | MoreThanOneElement  // SingleOrDefaultAsync found several rows
    | MalformedNumber     // long.Parse failed

  datatype CustomerResponse = CustomerResponse(id: nat, email: Str, role: string, createdAt: int)

  /** The claims of an access token. */
  datatype Token = Token(subject: string, email: Str, role: string)

  datatype Response =
    | Created(customer: CustomerResponse)
    | LoggedIn(token: Token, customer: CustomerResponse)
    | ProfileView(customer: CustomerResponse)
    | Error(status: nat, error: string, message: string)

  /** The global exception handler; anything it does not know is a 500. */
  function Handle(e: Exception): Response {
    match e
    case DuplicateEmail => Error(409, "Conflict", "An account with this email already exists.")
    case InvalidPassword => Error(400, "Bad Request", "The submitted password does not meet the security policy.")
    case InvalidCredentials => Error(401, "Unauthorized", "Invalid email or password.")
    case ProfileAccessDenied => Error(403, "Forbidden", "Access to this resource is denied.")
    case _ => Error(500, "Internal Server Error", "An unexpected error occurred.")
  }

  /** The error bodies, word for word. */
  lemma ErrorBodies()
    ensures Handle(InvalidPassword)
         == Error(400, "Bad Request", "The submitted password does not meet the security policy.")
    ensures Handle(InvalidCredentials) == Error(401, "Unauthorized", "Invalid email or password.")
    ensures Handle(ProfileAccessDenied) == Error(403, "Forbidden", "Access to this resource is denied.")
    ensures Handle(DuplicateEmail) == Error(409, "Conflict", "An account with this email already exists.")
    ensures Handle(DbUpdate) == Handle(MoreThanOneElement) == Handle(MalformedNumber)
         == Error(500, "Internal Server Error", "An unexpected error occurred.")
  {
  }

  function StatusOf(response: Response): nat {
    match response
    case Created(_) => 201
    case LoggedIn(_, _) => 200
    case ProfileView(_) => 200
    case Error(status, _, _) => status
  }

  function RoleName(role: Role): string {
    match role
    case CUSTOMER => "CUSTOMER"
    case ADMIN => "ADMIN"
  }

  function ToResponse(c: Customer): CustomerResponse {
    CustomerResponse(c.id, c.email, RoleName(c.role), c.createdAt)
  }

  function IssueToken(c: Customer): Token {
    Token(ToText(c.id), c.email, RoleName(c.role))
  }

  // ----- Queries -----

  predicate AnyWithEmail(rows: seq<Customer>, email: Str) {
    exists i :: 0 <= i < |rows| && rows[i].email == email
  }

  function WithEmail(rows: seq<Customer>, email: Str): seq<Customer> {
    if rows == [] then []
    else if rows[0].email == email then [rows[0]] + WithEmail(rows[1..], email)
    else WithEmail(rows[1..], email)
  }

  function WithId(rows: seq<Customer>, id: int): seq<Customer> {
    if rows == [] then []
    else if rows[0].id == id then [rows[0]] + WithId(rows[1..], id)
    else WithId(rows[1..], id)
  }

  function SingleOrDefault(found: seq<Customer>): Result<Option<Customer>, Exception> {
    if found == [] then Ok(None)
    else if |found| == 1 then Ok(Some(found[0]))
    else Err(MoreThanOneElement)
  }

  // ----- Writes -----

  /** The entity a registration tracks; the store assigns the id. */
  function NewCustomer(env: Runtime, key: Str, password: Str, salt: Salt, now: int): Customer {
    var stamp := Audit.Stamped(Audit.Added, Audit.Times(0, 0), now);
    Customer(0, key, HashPassword(env, password, salt), CUSTOMER, true, stamp.createdAt, stamp.updatedAt)
  }

  /** `SaveChanges` for one added entity, under the unique index on email. */
  function Insert(t: Table, entity: Customer): Result<Table, Exception> {
    if AnyWithEmail(t.rows, entity.email) then Err(DbUpdate)
    else Ok(Table(t.rows + [entity.(id := t.lastId + 1)], t.lastId + 1))
  }

  function Toggled(c: Customer, email: Str, enabled: bool, now: int): Customer {
    if c.email != email || c.enabled == enabled then c
    else
      var stamp := Audit.Stamped(Audit.Modified, Audit.Times(c.createdAt, c.updatedAt), now);
      c.(enabled := enabled, createdAt := stamp.createdAt, updatedAt := stamp.updatedAt)
  }

  /** Switching one account on or off; saving an unchanged row stamps nothing. */
  function SetEnabled(t: Table, email: Str, enabled: bool, now: int): Table {
    t.(rows := seq(|t.rows|, i requires 0 <= i < |t.rows| => Toggled(t.rows[i], email, enabled, now)))
  }

  // ----- Operations as atomic steps -----

  function RegisterAtomically(env: Runtime, t: Table, email: Str, password: Str, salt: Salt, now: int)
    : (Table, Response)
  {
    var key := NormalizeEmail(env, email);
    if !Compliant(env.category, password) then (t, Handle(InvalidPassword))
    else if AnyWithEmail(t.rows, key) then (t, Handle(DuplicateEmail))
    else
      var row := NewCustomer(env, key, password, salt, now).(id := t.lastId + 1);
      (Table(t.rows + [row], t.lastId + 1), Created(ToResponse(row)))
  }

  function LoginAnswer(env: Runtime, t: Table, email: Str, password: Str): Response {
    match SingleOrDefault(WithEmail(t.rows, NormalizeEmail(env, email)))
    case Err(e) => Handle(e)
    case Ok(None) => Handle(InvalidCredentials)
    case Ok(Some(c)) =>
      if !c.enabled || !Verify(env, password, c.passwordHash) then Handle(InvalidCredentials)
      else LoggedIn(IssueToken(c), ToResponse(c))
  }

  function ProfileAnswer(t: Table, id: int, token: Token): Response {
    match ParseLong(token.subject)
    case None => Handle(MalformedNumber)
    case Some(callerId) =>
      if id != callerId then Handle(ProfileAccessDenied)
      else
        match SingleOrDefault(WithId(t.rows, id))
        case Err(e) => Handle(e)
        case Ok(None) => Handle(ProfileAccessDenied)
        case Ok(Some(c)) => ProfileView(ToResponse(c))
  }

  // ----- Well-formed tables -----

  ghost predicate RowOk(env: Runtime, c: Customer) {
    && NormalizeEmail(env, c.email) == c.email
    && c.role == CUSTOMER
    && exists password: Str ::
         Compliant(env.category, password) && c.passwordHash == HashPassword(env, password, c.passwordHash.salt)
  }

  ghost predicate UniqueEmails(rows: seq<Customer>) {
    forall i, j :: 0 <= i < j < |rows| ==> rows[i].email != rows[j].email
  }

  ghost predicate IncreasingIds(t: Table) {
    && (forall i, j :: 0 <= i < j < |t.rows| ==> t.rows[i].id < t.rows[j].id)
    && (forall i :: 0 <= i < |t.rows| ==> 1 <= t.rows[i].id <= t.lastId)
  }

  ghost predicate TableOk(env: Runtime, t: Table) {
    && UniqueEmails(t.rows)
    && IncreasingIds(t)
    && (forall i :: 0 <= i < |t.rows| ==> RowOk(env, t.rows[i]))
  }

  lemma {:induction false} NoneWithEmail(rows: seq<Customer>, email: Str)
    requires !AnyWithEmail(rows, email)
    ensures WithEmail(rows, email) == []
  {
    if rows != [] {
      assert rows[0].email != email;
      assert forall i :: 0 <= i < |rows| - 1 ==> rows[1..][i] == rows[i + 1];
      NoneWithEmail(rows[1..], email);
    }
  }

  /** With unique emails the lookup by email finds the row that has it. */
  lemma {:induction false} TheOneWithEmail(rows: seq<Customer>, i: nat)
    requires UniqueEmails(rows) && i < |rows|
    ensures WithEmail(rows, rows[i].email) == [rows[i]]
  {
    if i == 0 {
      NoneWithEmail(rows[1..], rows[0].email);
    } else {
      TheOneWithEmail(rows[1..], i - 1);
    }
  }

  lemma {:induction false} NoneWithId(rows: seq<Customer>, id: int)
    requires forall i :: 0 <= i < |rows| ==> rows[i].id != id
    ensures WithId(rows, id) == []
  {
    if rows != [] {
      NoneWithId(rows[1..], id);
    }
  }

  /** With increasing ids the lookup by id finds the row that has it. */
  lemma {:induction false} TheOneWithId(rows: seq<Customer>, i: nat)
    requires forall j, k :: 0 <= j < k < |rows| ==> rows[j].id < rows[k].id
    requires i < |rows|
    ensures WithId(rows, rows[i].id) == [rows[i]]
  {
    if i == 0 {
      NoneWithId(rows[1..], rows[0].id);
    } else {
      TheOneWithId(rows[1..], i - 1);
    }
  }

  /** On a well-formed table neither lookup ever finds several rows. */
  lemma LookupsAreSingle(env: Runtime, t: Table, email: Str, id: int)
    requires TableOk(env, t)
    ensures SingleOrDefault(WithEmail(t.rows, email)).Ok?
    ensures SingleOrDefault(WithId(t.rows, id)).Ok?
  {
    if AnyWithEmail(t.rows, email) {
      var i :| 0 <= i < |t.rows| && t.rows[i].email == email;
      TheOneWithEmail(t.rows, i);
    } else {
      NoneWithEmail(t.rows, email);
    }
    if i: nat :| i < |t.rows| && t.rows[i].id == id {
      TheOneWithId(t.rows, i);
    } else {
      NoneWithId(t.rows, id);
    }
  }

  /** The token and the account a login is answered with are the row's, field by field. */
  predicate Carries(token: Token, shown: CustomerResponse, row: Customer) {
    && token.subject == ToText(row.id) && token.email == row.email
    && token.role == (if row.role == CUSTOMER then "CUSTOMER" else "ADMIN")
    && shown.id == row.id && shown.email == row.email && shown.createdAt == row.createdAt
    && shown.role == (if row.role == CUSTOMER then "CUSTOMER" else "ADMIN")
  }

  /** The row logs in whoever knows the password of this enabled account. */
  predicate Admits(env: Runtime, row: Customer, email: Str, q: Str) {
    row.email == NormalizeEmail(env, email) && row.enabled && Verify(env, q, row.passwordHash)
  }

  lemma LoginWithRow(env: Runtime, t: Table, i: nat, email: Str, q: Str)
    requires UniqueEmails(t.rows) && i < |t.rows| && t.rows[i].email == NormalizeEmail(env, email)
    ensures var row, answer := t.rows[i], LoginAnswer(env, t, email, q);
            if row.enabled && Verify(env, q, row.passwordHash) then
              answer.LoggedIn? && Carries(answer.token, answer.customer, row)
            else answer == Error(401, "Unauthorized", "Invalid email or password.")
  {
    TheOneWithEmail(t.rows, i);
  }

  lemma LoginWithoutRow(env: Runtime, t: Table, email: Str, q: Str)
    requires !AnyWithEmail(t.rows, NormalizeEmail(env, email))
    ensures LoginAnswer(env, t, email, q) == Error(401, "Unauthorized", "Invalid email or password.")
  {
    NoneWithEmail(t.rows, NormalizeEmail(env, email));
  }

  /** Only an enabled row with the email's key and a matching hash logs in; every other login gets the one 401. */
  lemma LoginAnswerMeans(env: Runtime, t: Table, email: Str, q: Str)
    requires UniqueEmails(t.rows)
    ensures var answer := LoginAnswer(env, t, email, q);
            && (answer.LoggedIn? <==> exists i :: 0 <= i < |t.rows| && Admits(env, t.rows[i], email, q))
            && (answer.LoggedIn? ==>
                  exists i :: 0 <= i < |t.rows| && Admits(env, t.rows[i], email, q)
                           && Carries(answer.token, answer.customer, t.rows[i]))
            && (!answer.LoggedIn? ==> answer == Error(401, "Unauthorized", "Invalid email or password."))
  {
    if i :| 0 <= i < |t.rows| && t.rows[i].email == NormalizeEmail(env, email) {
      LoginWithRow(env, t, i, email, q);
      assert forall j :: 0 <= j < |t.rows| && Admits(env, t.rows[j], email, q) ==> j == i;
      assert LoginAnswer(env, t, email, q).LoggedIn? ==> Admits(env, t.rows[i], email, q);
    } else {
      LoginWithoutRow(env, t, email, q);
    }
  }

  lemma ProfileWithRow(env: Runtime, t: Table, i: nat, token: Token)
    requires TableOk(env, t) && i < |t.rows| && ParseLong(token.subject) == Some(t.rows[i].id)
    ensures var row := t.rows[i];
            && ProfileAnswer(t, row.id, token).ProfileView?
            && ProfileAnswer(t, row.id, token).customer
            == CustomerResponse(row.id, row.email, "CUSTOMER", row.createdAt)
  {
    TheOneWithId(t.rows, i);
    assert RowOk(env, t.rows[i]);
  }

  lemma ProfileRefused(t: Table, id: int, token: Token)
    requires ParseLong(token.subject) == Some(id) ==> forall i :: 0 <= i < |t.rows| ==> t.rows[i].id != id
    ensures ProfileAnswer(t, id, token)
         == if ParseLong(token.subject).Some? then Error(403, "Forbidden", "Access to this resource is denied.")
            else Error(500, "Internal Server Error", "An unexpected error occurred.")
  {
    if ParseLong(token.subject) == Some(id) {
      NoneWithId(t.rows, id);
    }
  }

  /** Only the caller's own existing row is shown; every other caller gets the one 403, or 500 without a numeric id. */
  lemma ProfileAnswerMeans(env: Runtime, t: Table, id: int, token: Token)
    requires TableOk(env, t)
    ensures var rows, answer := t.rows, ProfileAnswer(t, id, token);
            && (answer.ProfileView? <==>
                  ParseLong(token.subject) == Some(id) && exists i :: 0 <= i < |rows| && rows[i].id == id)
            && (answer.ProfileView? ==>
                  exists i :: 0 <= i < |rows| && rows[i].id == id
                           && answer.customer == CustomerResponse(id, rows[i].email, "CUSTOMER", rows[i].createdAt))
            && (!answer.ProfileView? ==>
                  answer == if ParseLong(token.subject).Some?
                            then Error(403, "Forbidden", "Access to this resource is denied.")
                            else Error(500, "Internal Server Error", "An unexpected error occurred."))
  {
    if i :| 0 <= i < |t.rows| && t.rows[i].id == id && ParseLong(token.subject) == Some(id) {
      ProfileWithRow(env, t, i, token);
    } else {
      ProfileRefused(t, id, token);
    }
  }

  /** Switching an account sets its flag, stamps it if that was a change, and touches no other row. */
  lemma SetEnabledMeans(t: Table, email: Str, enabled: bool, now: int, i: nat)
    requires i < |t.rows|
    ensures var row, t' := t.rows[i], SetEnabled(t, email, enabled, now);
            && |t'.rows| == |t.rows| && t'.lastId == t.lastId
            && (row.email != email ==> t'.rows[i] == row)
            && (row.email == email ==>
                  t'.rows[i] == Customer(row.id, row.email, row.passwordHash, row.role, enabled, row.createdAt,
                                         if row.enabled == enabled then row.updatedAt else now))
  {
  }

  lemma InsertKeepsKeys(t: Table, entity: Customer)
    requires UniqueEmails(t.rows) && IncreasingIds(t) && Insert(t, entity).Ok?
    ensures UniqueEmails(Insert(t, entity).value.rows) && IncreasingIds(Insert(t, entity).value)
  {
  }

  lemma InsertKeepsTableOk(env: Runtime, t: Table, entity: Customer)
    requires TableOk(env, t) && RowOk(env, entity) && Insert(t, entity).Ok?
    ensures TableOk(env, Insert(t, entity).value)
  {
    var t' := Insert(t, entity).value;
    InsertKeepsKeys(t, entity);
    SameAccountOk(env, entity, t'.rows[|t.rows|]);
    assert forall i :: 0 <= i < |t.rows| ==> t'.rows[i] == t.rows[i];
  }

  /** Whether a row is well-formed depends on its email, hash and role only. */
  lemma SameAccountOk(env: Runtime, c: Customer, d: Customer)
    requires RowOk(env, c) && d.email == c.email && d.passwordHash == c.passwordHash && d.role == c.role
    ensures RowOk(env, d)
  {
  }

  lemma SetEnabledKeepsKeys(t: Table, email: Str, enabled: bool, now: int)
    requires UniqueEmails(t.rows) && IncreasingIds(t)
    ensures UniqueEmails(SetEnabled(t, email, enabled, now).rows) && IncreasingIds(SetEnabled(t, email, enabled, now))
  {
    var t' := SetEnabled(t, email, enabled, now);
    assert forall i :: 0 <= i < |t.rows| ==> t'.rows[i].email == t.rows[i].email && t'.rows[i].id == t.rows[i].id;
  }

  lemma SetEnabledKeepsTableOk(env: Runtime, t: Table, email: Str, enabled: bool, now: int)
    requires TableOk(env, t)
    ensures TableOk(env, SetEnabled(t, email, enabled, now))
  {
    var t' := SetEnabled(t, email, enabled, now);
    SetEnabledKeepsKeys(t, email, enabled, now);
    forall i | 0 <= i < |t'.rows|
      ensures RowOk(env, t'.rows[i])
    {
      SameAccountOk(env, t.rows[i], t'.rows[i]);
    }
  }

  /** A new entity for a normalised email and a compliant password is a well-formed row. */
  lemma NewCustomerOk(env: Runtime, email: Str, password: Str, salt: Salt, now: int)
    requires LawfulText(env) && Compliant(env.category, password)
    ensures RowOk(env, NewCustomer(env, NormalizeEmail(env, email), password, salt, now))
  {
    NormalizeIsIdempotent(env, email);
  }
}
