/** The services as the controllers call them: one request running by itself against the shared database. */
module Services {
  import opened Options
  import opened Text
  import opened Platform
  import opened PasswordPolicy
  import opened Bcrypt
  import opened Email
  import opened LongText
  import opened Accounts

  class Database {
    var table: Table

    constructor ()
      ensures table == Table([], 0)
    {
      table := Table([], 0);
    }
  }

  function Respond<T>(result: Result<T, Exception>, success: T -> Response): Response {
    match result
    case Ok(value) => success(value)
    case Err(e) => Handle(e)
  }

  class CustomerService {
    const env: Runtime
    const db: Database

    constructor (env: Runtime, db: Database)
      ensures this.env == env && this.db == db
    {
      this.env := env;
      this.db := db;
    }

    /** Undisturbed, a registration is the atomic one; the unique index is then never what refuses it. */
    method RegisterAsync(email: Str, password: Str, salt: Salt, now: int)
        returns (result: Result<CustomerResponse, Exception>)
      modifies db
      ensures (db.table, Respond(result, c => Created(c)))
           == RegisterAtomically(env, old(db.table), email, password, salt, now)
      ensures result.Err? ==> result.error in {InvalidPassword, DuplicateEmail} && db.table == old(db.table)
      ensures result == Err(InvalidPassword) <==> !Compliant(env.category, password)
      ensures result == Err(DuplicateEmail) <==>
                && Compliant(env.category, password)
                && exists i :: 0 <= i < |old(db.table.rows)|
                            && old(db.table.rows)[i].email == NormalizeEmail(env, email)
      ensures result.Ok? ==>
                var key, id := NormalizeEmail(env, email), old(db.table.lastId) + 1;
                && db.table.lastId == id
                && db.table.rows == old(db.table.rows)
                                  + [Customer(id, key, HashPassword(env, password, salt), CUSTOMER, true, now, now)]
                && result.value == CustomerResponse(id, key, "CUSTOMER", now)
      ensures old(TableOk(env, db.table)) && LawfulText(env) ==> TableOk(env, db.table)
    {
      var key := NormalizeEmail(env, email);
      var compliant := IsCompliant(env.category, Some(password));
      if !compliant {
        return Err(InvalidPassword);
      }
      if AnyWithEmail(db.table.rows, key) {
        return Err(DuplicateEmail);
      }
      var customer := NewCustomer(env, key, password, salt, now);
      ghost var before := db.table;
      match Insert(db.table, customer) {
        case Err(e) =>
          return Err(e);
        case Ok(table) =>
          db.table := table;
      }
      assert db.table.rows[|db.table.rows| - 1] == customer.(id := before.lastId + 1);
      if TableOk(env, before) && LawfulText(env) {
        NewCustomerOk(env, email, password, salt, now);
        InsertKeepsTableOk(env, before, customer);
      }
      return Ok(ToResponse(db.table.rows[|db.table.rows| - 1]));
    }

    method GetProfileAsync(requestedId: int, callerId: int) returns (result: Result<CustomerResponse, Exception>)
      ensures forall token: Token | ParseLong(token.subject) == Some(callerId) ::
                Respond(result, c => ProfileView(c)) == ProfileAnswer(db.table, requestedId, token)
      ensures result.Ok? ==> requestedId == callerId == result.value.id
      ensures TableOk(env, db.table) ==>
                (result.Ok? <==> requestedId == callerId && exists i :: 0 <= i < |db.table.rows|
                                                                     && db.table.rows[i].id == requestedId)
      ensures TableOk(env, db.table) && result.Ok? ==>
                exists i :: 0 <= i < |db.table.rows| && db.table.rows[i].id == requestedId
                         && result.value == CustomerResponse(requestedId, db.table.rows[i].email, "CUSTOMER",
                                                             db.table.rows[i].createdAt)
      ensures TableOk(env, db.table) && result.Err? ==> result.error == ProfileAccessDenied
    {
      if TableOk(env, db.table) {
        ProfileLookup(env, db.table, requestedId);
      }
      if requestedId != callerId {
        return Err(ProfileAccessDenied);
      }
      match SingleOrDefault(WithId(db.table.rows, requestedId)) {
        case Err(e) =>
          return Err(e);
        case Ok(None) =>
          return Err(ProfileAccessDenied);
        case Ok(Some(customer)) =>
          WithIdHasId(db.table.rows, requestedId);
          return Ok(ToResponse(customer));
      }
    }
  }

  /** The lookup by id finds the row that has the id, if there is one. */
  lemma ProfileLookup(env: Runtime, t: Table, id: int)
    requires TableOk(env, t)
    ensures (exists i :: 0 <= i < |t.rows| && t.rows[i].id == id) ==>
              exists i :: 0 <= i < |t.rows| && t.rows[i].id == id && t.rows[i].role == CUSTOMER
                       && WithId(t.rows, id) == [t.rows[i]]
    ensures (forall i :: 0 <= i < |t.rows| ==> t.rows[i].id != id) ==> WithId(t.rows, id) == []
  {
    if i :| 0 <= i < |t.rows| && t.rows[i].id == id {
      TheOneWithId(t.rows, i);
      assert RowOk(env, t.rows[i]);
    } else {
      NoneWithId(t.rows, id);
    }
  }

  lemma {:induction false} WithIdHasId(rows: seq<Customer>, id: int)
    ensures forall i :: 0 <= i < |WithId(rows, id)| ==> WithId(rows, id)[i].id == id
  {
    if rows != [] {
      WithIdHasId(rows[1..], id);
    }
  }

  lemma LoginLookup(rows: seq<Customer>, key: Str)
    requires UniqueEmails(rows)
    ensures SingleOrDefault(WithEmail(rows, key)).Ok?
  {
    if i :| 0 <= i < |rows| && rows[i].email == key {
      TheOneWithEmail(rows, i);
    } else {
      NoneWithEmail(rows, key);
    }
  }

  datatype LoginResponse = LoginResponse(token: Token, customer: CustomerResponse)

  class AuthService {
    const env: Runtime
    const db: Database

    constructor (env: Runtime, db: Database)
      ensures this.env == env && this.db == db
    {
      this.env := env;
      this.db := db;
    }

    method LoginAsync(email: Str, password: Str) returns (result: Result<LoginResponse, Exception>)
      ensures Respond(result, (r: LoginResponse) => LoggedIn(r.token, r.customer))
           == LoginAnswer(env, db.table, email, password)
      ensures result.Ok? ==>
                var (token, customer) := (result.value.token, result.value.customer);
                && ParseLong(token.subject) == (if customer.id <= MAX_LONG then Some(customer.id) else None)
                && token.email == customer.email && token.role == customer.role
      ensures UniqueEmails(db.table.rows) ==>
                (result.Ok? <==> exists i :: 0 <= i < |db.table.rows|
                                          && Admits(env, db.table.rows[i], email, password))
      ensures UniqueEmails(db.table.rows) && result.Ok? ==>
                exists i :: 0 <= i < |db.table.rows| && Admits(env, db.table.rows[i], email, password)
                         && Carries(result.value.token, result.value.customer, db.table.rows[i])
      ensures UniqueEmails(db.table.rows) && result.Err? ==> result.error == InvalidCredentials
    {
      if UniqueEmails(db.table.rows) {
        LoginAnswerMeans(env, db.table, email, password);
        LoginLookup(db.table.rows, NormalizeEmail(env, email));
      }
      match SingleOrDefault(WithEmail(db.table.rows, NormalizeEmail(env, email))) {
        case Err(e) =>
          return Err(e);
        case Ok(None) =>
          return Err(InvalidCredentials);
        case Ok(Some(customer)) =>
          if !customer.enabled || !Verify(env, password, customer.passwordHash) {
            return Err(InvalidCredentials);
          }
          IdRoundTrip(customer.id);
          return Ok(LoginResponse(IssueToken(customer), ToResponse(customer)));
      }
    }
  }
}
