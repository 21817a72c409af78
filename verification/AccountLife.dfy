/** The life of one account over a run: how its row is created, and who may log in as the administrator acts. */
module AccountLife {
  import opened Options
  import opened Text
  import opened Platform
  import opened PasswordPolicy
  import opened Bcrypt
  import opened Email
  import opened LongText
  import opened Accounts
  import opened Protocol
  import opened Registration
  import opened AccountRuns

  // ----- Creation -----

  predicate IsTracked(s: State, r: nat) {
    r in s.calls && s.calls[r].request.Register? && s.calls[r].progress.Tracked?
  }

  /** The entity a registration tracks, field by field: an enabled customer stamped with one instant. */
  predicate Fresh(env: Runtime, q: Request, entity: Customer, salt: Salt, now: int)
    requires q.Register?
  {
    && entity.email == NormalizeEmail(env, q.email)
    && entity.passwordHash == HashPassword(env, q.password, salt)
    && entity.role == CUSTOMER && entity.enabled
    && entity.createdAt == now && entity.updatedAt == now
  }

  lemma BecomesTracked(env: Runtime, s: State, a: Action, r: nat)
    requires Step(env, s, a).Some? && IsTracked(Step(env, s, a).value, r)
    ensures r in s.calls && s.calls[r].request == Step(env, s, a).value.calls[r].request
    ensures var entity := Step(env, s, a).value.calls[r].progress.entity;
            || (IsTracked(s, r) && s.calls[r].progress.entity == entity)
            || (a.Build? && a.r == r && Fresh(env, s.calls[r].request, entity, a.salt, a.now))
  {
  }

  /** What a call tracks was built by an earlier action of its own. */
  lemma {:induction false} TrackedWasBuilt(env: Runtime, s0: State, trace: seq<Action>, k: nat, r: nat) returns (b: nat)
    requires Exec(env, s0, trace).Some? && s0.calls == map[] && k <= |trace|
    requires IsTracked(StateAt(env, s0, trace, k), r)
    ensures b < k && trace[b].Build? && trace[b].r == r
    ensures var c := StateAt(env, s0, trace, k).calls[r];
            Fresh(env, c.request, c.progress.entity, trace[b].salt, trace[b].now)
    decreases k
  {
    StateAtEnds(env, s0, trace);
    StateAtStep(env, s0, trace, k - 1);
    BecomesTracked(env, StateAt(env, s0, trace, k - 1), trace[k - 1], r);
    if IsTracked(StateAt(env, s0, trace, k - 1), r) {
      b := TrackedWasBuilt(env, s0, trace, k - 1, r);
    } else {
      b := k - 1;
    }
  }

  /** Commit number `m` of the run is a 201 for this request, with this account. */
  ghost predicate Commits(env: Runtime, s0: State, trace: seq<Action>, m: nat, r: nat, q: Request,
                          account: CustomerResponse)
    requires Exec(env, s0, trace).Some?
  {
    && m < |trace| && trace[m] == Commit(r) && q.Register?
    && Gets(env, s0, trace, m + 1, r, Created(account))
    && StateAt(env, s0, trace, m + 1).calls[r].request == q
  }

  lemma CreatedByCommit(env: Runtime, s: State, a: Action, r: nat)
    requires Step(env, s, a).Some? && r in Step(env, s, a).value.calls && IsCreated(Step(env, s, a).value.calls[r])
    requires Step(env, s, a).value.calls[r].request.Register?
    ensures a == Commit(r) || (r in s.calls && Answer(s.calls[r]) == Answer(Step(env, s, a).value.calls[r]))
  {
  }

  /** Every 201 stems from a commit of its call. */
  lemma {:induction false} CreatedWasCommitted(env: Runtime, s0: State, trace: seq<Action>, j: nat, r: nat,
                                               e: Str, p: Str, account: CustomerResponse) returns (m: nat)
    requires Exec(env, s0, trace).Some? && s0.calls == map[]
    requires Registered(env, s0, trace, j, r, e, p, account)
    ensures m < j && Commits(env, s0, trace, m, r, Register(e, p), account)
    decreases j
  {
    StateAtEnds(env, s0, trace);
    StateAtStep(env, s0, trace, j - 1);
    CreatedByCommit(env, StateAt(env, s0, trace, j - 1), trace[j - 1], r);
    if trace[j - 1] == Commit(r) {
      m := j - 1;
    } else {
      StepGrows(env, StateAt(env, s0, trace, j - 1), trace[j - 1]);
      m := CreatedWasCommitted(env, s0, trace, j - 1, r, e, p, account);
    }
  }

  lemma CommitAppends(env: Runtime, s: State, r: nat)
    requires IsTracked(s, r) && Step(env, s, Commit(r)).Some?
    requires IsCreated(Step(env, s, Commit(r)).value.calls[r])
    ensures var s' := Step(env, s, Commit(r)).value;
            var row := s.calls[r].progress.entity.(id := s.table.lastId + 1);
            && s'.table == Table(s.table.rows + [row], row.id)
            && s'.calls[r].request == s.calls[r].request
            && Answer(s'.calls[r]).value.customer == ToResponse(row)
  {
  }

  /**
   The row a 201 commits: the next id, the key of the email, the hash of the password with the salt its call drew, an
   enabled customer, created and updated at the instant at which its call stamped it. The 201 shows that row.
   */
  lemma CommittedRow(env: Runtime, s0: State, trace: seq<Action>, m: nat, r: nat, q: Request,
                     account: CustomerResponse) returns (b: nat)
    requires LawfulText(env) && Run(env, s0, trace) && Commits(env, s0, trace, m, r, q, account)
    ensures b < m && trace[b].Build? && trace[b].r == r
    ensures var before, after := StateAt(env, s0, trace, m).table, StateAt(env, s0, trace, m + 1).table;
            var id, key := before.lastId + 1, NormalizeEmail(env, q.email);
            && after.lastId == id
            && after.rows == before.rows
                           + [Customer(id, key, HashPassword(env, q.password, trace[b].salt), CUSTOMER, true,
                                       trace[b].now, trace[b].now)]
            && account == CustomerResponse(id, key, "CUSTOMER", trace[b].now)
  {
    var s := StateAt(env, s0, trace, m);
    PrefixRuns(env, s0, trace, m);
    StateAtStep(env, s0, trace, m);
    assert CallOk(env, s.calls[r]);
    CommitAppends(env, s, r);
    b := TrackedWasBuilt(env, s0, trace, m, r);
  }

  // ----- The enabled flag -----

  /** What the last administration of the account in this stretch of the run set its flag to. */
  function LastFlag(actions: seq<Action>, key: Str): Option<bool> {
    if actions == [] then None
    else if Last(actions).Administer? && Last(actions).email == key then Some(Last(actions).enabled)
    else LastFlag(Init(actions), key)
  }

  /** The administrator can act on an account exactly if it exists. */
  lemma AdministersExisting(env: Runtime, s0: State, trace: seq<Action>, key: Str, enabled: bool, now: int)
    requires LawfulText(env) && Run(env, s0, trace)
    ensures Run(env, s0, trace + [Administer(key, enabled, now)]) <==>
              AnyWithEmail(Final(env, s0, trace).table.rows, key)
  {
    EveryStateOk(env, s0, trace);
    assert Init(trace + [Administer(key, enabled, now)]) == trace;
    AdministersIn(env, Final(env, s0, trace), key, enabled, now);
  }

  lemma AdministersIn(env: Runtime, s: State, key: Str, enabled: bool, now: int)
    requires UniqueEmails(s.table.rows)
    ensures Step(env, s, Administer(key, enabled, now)).Some? <==> AnyWithEmail(s.table.rows, key)
  {
    LookupFinds(s.table.rows, key);
  }

  lemma LookupFinds(rows: seq<Customer>, key: Str)
    requires UniqueEmails(rows)
    ensures |WithEmail(rows, key)| == 1 <==> exists i :: 0 <= i < |rows| && rows[i].email == key
  {
    if i :| 0 <= i < |rows| && rows[i].email == key {
      TheOneWithEmail(rows, i);
    } else {
      NoneWithEmail(rows, key);
    }
  }

  lemma LastFlagAfter(trace: seq<Action>, j: nat, k: nat, key: Str)
    requires j < k <= |trace|
    ensures var a := trace[k - 1];
            LastFlag(trace[j..k], key)
            == if a.Administer? && a.email == key then Some(a.enabled) else LastFlag(trace[j..k - 1], key)
  {
    assert Init(trace[j..k]) == trace[j..k - 1];
  }

  lemma FlagStep(env: Runtime, s: State, a: Action, i: nat)
    requires Step(env, s, a).Some? && i < |s.table.rows|
    ensures var row, rows' := s.table.rows[i], Step(env, s, a).value.table.rows;
            && i < |rows'| && rows'[i].email == row.email
            && rows'[i].enabled == if a.Administer? && a.email == row.email then a.enabled else row.enabled
  {
    if a.Administer? {
      SetEnabledMeans(s.table, a.email, a.enabled, a.now, i);
    }
  }

  /** An account is enabled as the last administration of its email left it; nothing else ever changes its flag. */
  lemma {:induction false} FlagFollowsAdministrator(env: Runtime, s0: State, trace: seq<Action>, j: nat, k: nat, i: nat)
    requires Exec(env, s0, trace).Some? && j <= k <= |trace|
    requires i < |StateAt(env, s0, trace, j).table.rows|
    ensures var row, rows' := StateAt(env, s0, trace, j).table.rows[i], StateAt(env, s0, trace, k).table.rows;
            && i < |rows'| && rows'[i].email == row.email
            && rows'[i].enabled == LastFlag(trace[j..k], row.email).GetOr(row.enabled)
    decreases k
  {
    if j < k {
      FlagFollowsAdministrator(env, s0, trace, j, k - 1, i);
      StateAtStep(env, s0, trace, k - 1);
      FlagStep(env, StateAt(env, s0, trace, k - 1), trace[k - 1], i);
      LastFlagAfter(trace, j, k, StateAt(env, s0, trace, j).table.rows[i].email);
    } else {
      assert trace[j..k] == [];
    }
  }

  /** Accounts are created enabled: after its 201 an account is disabled only while an administrator has it so. */
  lemma EnabledUnlessSwitchedOff(env: Runtime, s0: State, trace: seq<Action>, m: nat, r: nat, q: Request,
                                 account: CustomerResponse, k: nat) returns (i: nat)
    requires LawfulText(env) && Run(env, s0, trace) && Commits(env, s0, trace, m, r, q, account) && m < k <= |trace|
    ensures var rows := StateAt(env, s0, trace, k).table.rows;
            && i < |rows| && rows[i].id == account.id && rows[i].email == NormalizeEmail(env, q.email)
            && (rows[i].enabled <==> LastFlag(trace[m + 1..k], rows[i].email) != Some(false))
  {
    var b := CommittedRow(env, s0, trace, m, r, q, account);
    i := |StateAt(env, s0, trace, m).table.rows|;
    FlagFollowsAdministrator(env, s0, trace, m + 1, k, i);
    RunGrows(env, s0, trace, m + 1, k);
    assert SameAccount(StateAt(env, s0, trace, m + 1).table.rows[i], StateAt(env, s0, trace, k).table.rows[i]);
  }

  lemma CommitRegisters(env: Runtime, s0: State, trace: seq<Action>, m: nat, r: nat, e: Str, p: Str,
                        account: CustomerResponse)
    requires Exec(env, s0, trace).Some? && Commits(env, s0, trace, m, r, Register(e, p), account)
    ensures Registered(env, s0, trace, m + 1, r, e, p, account)
  {
  }

  lemma SameIdSameRow(env: Runtime, t: Table, i: nat, row: Customer)
    requires TableOk(env, t) && i < |t.rows| && row in t.rows && row.id == t.rows[i].id
    ensures row == t.rows[i]
  {
  }

  /**
   What a login after a 201 is answered depends on the password and on what the administrator did since, and on
   nothing else: it opens the account unless the account was last switched off.
   */
  lemma LoginAfterCommit(env: Runtime, s0: State, trace: seq<Action>, m: nat, r: nat, e: Str, p: Str,
                         account: CustomerResponse, k: nat, l: nat, email: Str, q: Str)
    requires Lawful(env) && Run(env, s0, trace) && m < k
    requires Commits(env, s0, trace, m, r, Register(e, p), account)
    requires Reads(env, s0, trace, k, l, Login(email, q)) && NormalizeEmail(env, email) == NormalizeEmail(env, e)
    ensures Gets(env, s0, trace, k + 1, l,
                 if LastFlag(trace[m + 1..k], NormalizeEmail(env, e)) != Some(false) && Opens(p, q)
                 then LoggedIn(Token(ToText(account.id), account.email, "CUSTOMER"), account)
                 else Error(401, "Unauthorized", "Invalid email or password."))
  {
    CommitRegisters(env, s0, trace, m, r, e, p, account);
    var row := LoginReadsTheRow(env, s0, trace, m + 1, r, e, p, account, k, l, email, q);
    RowStands(env, s0, trace, m, r, e, p, account, k, row);
    VerifiesIff(env, p, q, row.passwordHash.salt);
    ErrorBodies();
  }

  lemma RowStands(env: Runtime, s0: State, trace: seq<Action>, m: nat, r: nat, e: Str, p: Str,
                  account: CustomerResponse, k: nat, row: Customer)
    requires LawfulText(env) && Run(env, s0, trace) && m < k <= |trace|
    requires Commits(env, s0, trace, m, r, Register(e, p), account)
    requires row in StateAt(env, s0, trace, k).table.rows && ToResponse(row) == account
    ensures row.enabled <==> LastFlag(trace[m + 1..k], NormalizeEmail(env, e)) != Some(false)
    ensures IssueToken(row) == Token(ToText(account.id), account.email, "CUSTOMER")
  {
    var i := EnabledUnlessSwitchedOff(env, s0, trace, m, r, Register(e, p), account, k);
    PrefixRuns(env, s0, trace, k);
    SameIdSameRow(env, StateAt(env, s0, trace, k).table, i, row);
    assert RowOk(env, row);
  }

  /** Whoever registered and was not touched by an administrator since logs in with the registered password. */
  lemma RegisteredLogsIn(env: Runtime, s0: State, trace: seq<Action>, m: nat, r: nat, e: Str, p: Str,
                         account: CustomerResponse, k: nat, l: nat, email: Str)
    requires LawfulText(env) && Run(env, s0, trace) && m < k
    requires Commits(env, s0, trace, m, r, Register(e, p), account)
    requires Reads(env, s0, trace, k, l, Login(email, p)) && NormalizeEmail(env, email) == NormalizeEmail(env, e)
    requires forall x :: m < x < k && trace[x].Administer? ==> trace[x].email != NormalizeEmail(env, e)
    ensures Gets(env, s0, trace, k + 1, l, LoggedIn(Token(ToText(account.id), account.email, "CUSTOMER"), account))
  {
    CommitRegisters(env, s0, trace, m, r, e, p, account);
    var row := LoginReadsTheRow(env, s0, trace, m + 1, r, e, p, account, k, l, email, p);
    RowStands(env, s0, trace, m, r, e, p, account, k, row);
    NoFlag(trace[m + 1..k], NormalizeEmail(env, e));
  }

  lemma {:induction false} NoFlag(actions: seq<Action>, key: Str)
    requires forall x :: 0 <= x < |actions| && actions[x].Administer? ==> actions[x].email != key
    ensures LastFlag(actions, key) == None
  {
    if actions != [] {
      NoFlag(Init(actions), key);
    }
  }
}
