/** From registration over login to the profile, across any run; and what refusals give away. */
module AccountRuns {
  import opened Options
  import opened Text
  import opened Platform
  import opened PasswordPolicy
  import opened Bcrypt
  import opened Email
  import opened LongText
  import opened Accounts
  import opened Protocol
  import opened Registration

  /** After `j` actions, registration `r` for (email, password) has been answered 201 with this account. */
  ghost predicate Registered(env: Runtime, s0: State, trace: seq<Action>, j: nat, r: nat,
                             email: Str, password: Str, account: CustomerResponse)
    requires Exec(env, s0, trace).Some?
  {
    j <= |trace|
    && var calls := StateAt(env, s0, trace, j).calls;
       r in calls && calls[r].request == Register(email, password) && Answer(calls[r]) == Some(Created(account))
  }

  /** Action `k` is the row read of request `q`, made by call `c`. */
  ghost predicate Reads(env: Runtime, s0: State, trace: seq<Action>, k: nat, c: nat, q: Request)
    requires Exec(env, s0, trace).Some?
  {
    k < |trace| && trace[k] == Fetch(c)
    && var calls := StateAt(env, s0, trace, k).calls; c in calls && calls[c].request == q
  }

  /** After `k` actions call `c` has this answer. */
  ghost predicate Gets(env: Runtime, s0: State, trace: seq<Action>, k: nat, c: nat, response: Response)
    requires Exec(env, s0, trace).Some?
  {
    k <= |trace|
    && var calls := StateAt(env, s0, trace, k).calls; c in calls && Answer(calls[c]) == Some(response)
  }

  /** The call that reads is answered from the table as it is then. */
  lemma ReadAnswers(env: Runtime, s0: State, trace: seq<Action>, k: nat, c: nat, q: Request)
    requires Exec(env, s0, trace).Some? && Reads(env, s0, trace, k, c, q) && !q.Register?
    ensures Gets(env, s0, trace, k + 1, c, FetchOutcome(env, StateAt(env, s0, trace, k).table, q))
  {
    StateAtStep(env, s0, trace, k);
  }

  /** The row behind a 201, in any later state. */
  lemma RowBehindCreated(env: Runtime, s0: State, trace: seq<Action>, j: nat, k: nat, r: nat,
                         email: Str, password: Str, account: CustomerResponse) returns (i: nat)
    requires LawfulText(env) && Run(env, s0, trace) && j <= k <= |trace|
    requires Registered(env, s0, trace, j, r, email, password, account)
    ensures i < |StateAt(env, s0, trace, k).table.rows|
    ensures var row := StateAt(env, s0, trace, k).table.rows[i];
            && ToResponse(row) == account && row.email == NormalizeEmail(env, email)
            && Compliant(env.category, password)
            && row.passwordHash == HashPassword(env, password, row.passwordHash.salt)
  {
    PrefixRuns(env, s0, trace, j);
    AccountsInvariant(env, s0, trace[..j]);
    var s := StateAt(env, s0, trace, j);
    assert HasRow(env, s, |s0.table.rows|, s.calls[r]);
    i :| |s0.table.rows| <= i < |s.table.rows| && Owns(env, s.calls[r], s.table.rows[i]);
    RunGrows(env, s0, trace, j, k);
    assert SameAccount(s.table.rows[i], StateAt(env, s0, trace, k).table.rows[i]);
  }

  /**
   After a 201 for (e, p), a login whose email has the same key reads that account's row. It is answered with the
   account if that is enabled and the password verifies against the stored hash, and 401 otherwise.
   */
  lemma LoginReadsTheRow(env: Runtime, s0: State, trace: seq<Action>,
                         j: nat, r: nat, e: Str, p: Str, account: CustomerResponse,
                         k: nat, l: nat, email: Str, q: Str) returns (row: Customer)
    requires LawfulText(env) && Run(env, s0, trace) && j <= k
    requires Registered(env, s0, trace, j, r, e, p, account)
    requires Reads(env, s0, trace, k, l, Login(email, q)) && NormalizeEmail(env, email) == NormalizeEmail(env, e)
    ensures row in StateAt(env, s0, trace, k).table.rows && ToResponse(row) == account
    ensures Compliant(env.category, p) && row.passwordHash == HashPassword(env, p, row.passwordHash.salt)
    ensures Gets(env, s0, trace, k + 1, l,
                 if row.enabled && Verify(env, q, row.passwordHash) then LoggedIn(IssueToken(row), account)
                 else Handle(InvalidCredentials))
  {
    var s := StateAt(env, s0, trace, k);
    var i := RowBehindCreated(env, s0, trace, j, k, r, e, p, account);
    row := s.table.rows[i];
    PrefixRuns(env, s0, trace, k);
    LoginFindsRow(env, s.table, i, email, q);
    ReadAnswers(env, s0, trace, k, l, Login(email, q));
  }

  lemma LoginFindsRow(env: Runtime, t: Table, i: nat, email: Str, q: Str)
    requires TableOk(env, t) && i < |t.rows| && t.rows[i].email == NormalizeEmail(env, email)
    ensures LoginAnswer(env, t, email, q)
         == if t.rows[i].enabled && Verify(env, q, t.rows[i].passwordHash)
            then LoggedIn(IssueToken(t.rows[i]), ToResponse(t.rows[i])) else Handle(InvalidCredentials)
  {
    TheOneWithEmail(t.rows, i);
  }

  /** With the password it was registered with, exactly an enabled account can log in. */
  lemma OwnPasswordSucceeds(env: Runtime, s0: State, trace: seq<Action>,
                            j: nat, r: nat, e: Str, p: Str, account: CustomerResponse,
                            k: nat, l: nat, email: Str) returns (row: Customer)
    requires LawfulText(env) && Run(env, s0, trace) && j <= k
    requires Registered(env, s0, trace, j, r, e, p, account)
    requires Reads(env, s0, trace, k, l, Login(email, p)) && NormalizeEmail(env, email) == NormalizeEmail(env, e)
    ensures row in StateAt(env, s0, trace, k).table.rows && ToResponse(row) == account
    ensures row.enabled <==> Gets(env, s0, trace, k + 1, l, LoggedIn(IssueToken(row), account))
  {
    row := LoginReadsTheRow(env, s0, trace, j, r, e, p, account, k, l, email, p);
  }

  /**
   Exactly which passwords log in: `q` does if the account is enabled when its row is read and `q` opens an account
   of `p`. For a NUL-free `p` that means `q` begins with the key of `p`, or is `p` repeated with NULs in between; for
   a NUL-free `q` as well, `q` is `p`, or `p` has exactly 72 bytes and `q` extends it. The token's subject parses back
   to the account's id.
   */
  lemma LoginSucceedsIff(env: Runtime, s0: State, trace: seq<Action>,
                         j: nat, r: nat, e: Str, p: Str, account: CustomerResponse,
                         k: nat, l: nat, email: Str, q: Str) returns (row: Customer)
    requires Lawful(env) && Run(env, s0, trace) && j <= k
    requires Registered(env, s0, trace, j, r, e, p, account)
    requires Reads(env, s0, trace, k, l, Login(email, q)) && NormalizeEmail(env, email) == NormalizeEmail(env, e)
    requires WellFormed(p) && WellFormed(q)
    ensures row in StateAt(env, s0, trace, k).table.rows && ToResponse(row) == account
    ensures Gets(env, s0, trace, k + 1, l,
                 if row.enabled && Opens(p, q) then LoggedIn(IssueToken(row), account) else Handle(InvalidCredentials))
    ensures NulFree(p) ==> (Opens(p, q) <==> EffectiveKey(Utf8(p)) <= Utf8(q) || Repeats(p + [0], q + [0]))
    ensures NulFree(p) && NulFree(q) ==>
              (Opens(p, q) <==> q == p || (|Utf8(p)| == KEY_BYTES && Utf8(p) <= Utf8(q)))
    ensures ParseLong(IssueToken(row).subject) == if account.id <= MAX_LONG then Some(account.id) else None
  {
    row := LoginReadsTheRow(env, s0, trace, j, r, e, p, account, k, l, email, q);
    VerifiesIff(env, p, q, row.passwordHash.salt);
    if NulFree(p) {
      OpensIff(p, q);
    }
    IdRoundTrip(row.id);
  }

  /** With a token for the account of a 201, the profile shows what the 201 showed, and no other profile opens. */
  lemma ProfileShowsTheAccount(env: Runtime, s0: State, trace: seq<Action>,
                               j: nat, r: nat, e: Str, p: Str, account: CustomerResponse,
                               k: nat, v: nat, id: int, token: Token)
    requires LawfulText(env) && Run(env, s0, trace) && j <= k
    requires Registered(env, s0, trace, j, r, e, p, account)
    requires Reads(env, s0, trace, k, v, ViewProfile(id, token)) && token.subject == ToText(account.id)
    ensures Gets(env, s0, trace, k + 1, v,
                 if account.id > MAX_LONG then Handle(MalformedNumber)
                 else if id == account.id then ProfileView(account) else Handle(ProfileAccessDenied))
  {
    var s := StateAt(env, s0, trace, k);
    var i := RowBehindCreated(env, s0, trace, j, k, r, e, p, account);
    PrefixRuns(env, s0, trace, k);
    ProfileFindsRow(env, s.table, i, id, token);
    ReadAnswers(env, s0, trace, k, v, ViewProfile(id, token));
  }

  lemma ProfileFindsRow(env: Runtime, t: Table, i: nat, id: int, token: Token)
    requires TableOk(env, t) && i < |t.rows| && token.subject == ToText(t.rows[i].id)
    ensures ProfileAnswer(t, id, token)
         == if t.rows[i].id > MAX_LONG then Handle(MalformedNumber)
            else if id == t.rows[i].id then ProfileView(ToResponse(t.rows[i])) else Handle(ProfileAccessDenied)
  {
    IdRoundTrip(t.rows[i].id);
    TheOneWithId(t.rows, i);
  }

  /**
   The whole way: whoever registered, then logged in for the same email key and was given a token, sees with that
   token, whenever the profile is read, exactly the account the registration was answered with.
   */
  lemma JourneyReturnsToTheAccount(env: Runtime, s0: State, trace: seq<Action>,
                                   j: nat, r: nat, e: Str, p: Str, account: CustomerResponse,
                                   k: nat, l: nat, email: Str, q: Str, token: Token, shown: CustomerResponse,
                                   n: nat, v: nat, id: int)
    requires LawfulText(env) && Run(env, s0, trace) && j <= k && j <= n
    requires Registered(env, s0, trace, j, r, e, p, account) && account.id <= MAX_LONG
    requires Reads(env, s0, trace, k, l, Login(email, q)) && NormalizeEmail(env, email) == NormalizeEmail(env, e)
    requires Gets(env, s0, trace, k + 1, l, LoggedIn(token, shown))
    requires Reads(env, s0, trace, n, v, ViewProfile(id, token))
    ensures shown == account
    ensures Gets(env, s0, trace, n + 1, v,
                 if id == account.id then ProfileView(account) else Handle(ProfileAccessDenied))
  {
    var row := LoginReadsTheRow(env, s0, trace, j, r, e, p, account, k, l, email, q);
    ProfileShowsTheAccount(env, s0, trace, j, r, e, p, account, n, v, id, token);
  }

  // ----- Refusals -----

  /** What any login in any run is answered: a token for the row that admits it, or the one 401. */
  lemma LoginAnswered(env: Runtime, s0: State, trace: seq<Action>, k: nat, l: nat, email: Str, q: Str)
      returns (answer: Response)
    requires LawfulText(env) && Run(env, s0, trace) && Reads(env, s0, trace, k, l, Login(email, q))
    ensures Gets(env, s0, trace, k + 1, l, answer)
    ensures var rows := StateAt(env, s0, trace, k).table.rows;
            && (answer.LoggedIn? <==>
                  exists i :: 0 <= i < |rows| && Admits(env, rows[i], email, q))
            && (answer.LoggedIn? ==>
                  exists i :: 0 <= i < |rows| && Admits(env, rows[i], email, q)
                           && Carries(answer.token, answer.customer, rows[i]))
            && (!answer.LoggedIn? ==> answer == Error(401, "Unauthorized", "Invalid email or password."))
  {
    PrefixRuns(env, s0, trace, k);
    ReadAnswers(env, s0, trace, k, l, Login(email, q));
    answer := LoginAnswer(env, StateAt(env, s0, trace, k).table, email, q);
    LoginAnswerMeans(env, StateAt(env, s0, trace, k).table, email, q);
  }

  /** A login in any run succeeds or is answered the one 401; for a key without a row it is the 401. */
  lemma FailedLoginIs401(env: Runtime, s0: State, trace: seq<Action>, k: nat, l: nat, email: Str, q: Str)
      returns (answer: Response)
    requires LawfulText(env) && Run(env, s0, trace) && Reads(env, s0, trace, k, l, Login(email, q))
    ensures Gets(env, s0, trace, k + 1, l, answer)
    ensures answer.LoggedIn? || answer == Error(401, "Unauthorized", "Invalid email or password.")
    ensures StatusOf(answer) == if answer.LoggedIn? then 200 else 401
    ensures !AnyWithEmail(StateAt(env, s0, trace, k).table.rows, NormalizeEmail(env, email)) ==>
              answer == Error(401, "Unauthorized", "Invalid email or password.")
  {
    answer := LoginAnswered(env, s0, trace, k, l, email, q);
  }

  /** What any profile view in any run is answered. */
  lemma ProfileAnswered(env: Runtime, s0: State, trace: seq<Action>, k: nat, v: nat, id: int, token: Token)
      returns (answer: Response)
    requires LawfulText(env) && Run(env, s0, trace) && Reads(env, s0, trace, k, v, ViewProfile(id, token))
    ensures Gets(env, s0, trace, k + 1, v, answer)
    ensures StatusOf(answer) == if answer.ProfileView? then 200 else if ParseLong(token.subject).Some? then 403 else 500
    ensures var rows := StateAt(env, s0, trace, k).table.rows;
            && (answer.ProfileView? <==>
                  ParseLong(token.subject) == Some(id) && exists i :: 0 <= i < |rows| && rows[i].id == id)
            && (answer.ProfileView? ==>
                  exists i :: 0 <= i < |rows| && rows[i].id == id
                           && answer.customer == CustomerResponse(id, rows[i].email, "CUSTOMER", rows[i].createdAt))
            && (!answer.ProfileView? ==>
                  answer == if ParseLong(token.subject).Some?
                            then Error(403, "Forbidden", "Access to this resource is denied.")
                            else Error(500, "Internal Server Error", "An unexpected error occurred."))
  {
    PrefixRuns(env, s0, trace, k);
    ReadAnswers(env, s0, trace, k, v, ViewProfile(id, token));
    answer := ProfileAnswer(StateAt(env, s0, trace, k).table, id, token);
    ProfileAnswerMeans(env, StateAt(env, s0, trace, k).table, id, token);
  }

  /** In any two runs, two logins that do not succeed get the same answer, whatever the reason. */
  lemma FailedLoginsLookAlike(
      env: Runtime, s0: State, trace: seq<Action>, k: nat, l: nat, email: Str, q: Str, answer: Response,
      s0': State, trace': seq<Action>, k': nat, l': nat, email': Str, q': Str, answer': Response)
    requires LawfulText(env) && Run(env, s0, trace) && Run(env, s0', trace')
    requires Reads(env, s0, trace, k, l, Login(email, q)) && Gets(env, s0, trace, k + 1, l, answer)
    requires Reads(env, s0', trace', k', l', Login(email', q')) && Gets(env, s0', trace', k' + 1, l', answer')
    requires !answer.LoggedIn? && !answer'.LoggedIn?
    ensures answer == answer'
  {
    var a := FailedLoginIs401(env, s0, trace, k, l, email, q);
    var a' := FailedLoginIs401(env, s0', trace', k', l', email', q');
  }

  /**
   In any run, a profile view that is not one's own, or is one's own without a row, gets the one 403: the answer does
   not depend on the table.
   */
  lemma ForeignProfileIs403(env: Runtime, s0: State, trace: seq<Action>, k: nat, v: nat, id: int, token: Token)
    requires LawfulText(env) && Run(env, s0, trace) && Reads(env, s0, trace, k, v, ViewProfile(id, token))
    requires ParseLong(token.subject).Some?
    requires ParseLong(token.subject).value != id
          || var rows := StateAt(env, s0, trace, k).table.rows; forall i :: 0 <= i < |rows| ==> rows[i].id != id
    ensures Gets(env, s0, trace, k + 1, v, Handle(ProfileAccessDenied)) && StatusOf(Handle(ProfileAccessDenied)) == 403
  {
    ReadAnswers(env, s0, trace, k, v, ViewProfile(id, token));
    if ParseLong(token.subject).value == id {
      NoneWithId(StateAt(env, s0, trace, k).table.rows, id);
    }
  }
}
