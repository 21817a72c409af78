/** What runs establish about registrations: rows and their owners, and the race for one email. */
module Registration {
  import opened Options
  import opened Text
  import opened Platform
  import opened PasswordPolicy
  import opened Bcrypt
  import opened Email
  import opened Accounts
  import opened Protocol

  // ----- Committed rows and successful registrations correspond one to one -----

  predicate IsCreated(c: Call) {
    Answer(c).Some? && Answer(c).value.Created?
  }

  /** The row is what this registration asked for, and the call was answered with it. */
  ghost predicate Owns(env: Runtime, c: Call, row: Customer) {
    && c.request.Register?
    && Answer(c) == Some(Created(ToResponse(row)))
    && row.email == NormalizeEmail(env, c.request.email)
    && Compliant(env.category, c.request.password)
    && row.passwordHash == HashPassword(env, c.request.password, row.passwordHash.salt)
  }

  ghost predicate HasOwner(env: Runtime, s: State, row: Customer) {
    exists r :: r in s.calls && Owns(env, s.calls[r], row)
  }

  ghost predicate HasRow(env: Runtime, s: State, n0: nat, c: Call) {
    exists i :: n0 <= i < |s.table.rows| && Owns(env, c, s.table.rows[i])
  }

  /** Rows from number `n0` on and calls answered 201 own one another, one to one. */
  ghost predicate OwnersMatch(env: Runtime, s: State, n0: nat) {
    && n0 <= |s.table.rows|
    && RowsOwned(env, s, n0)
    && AnswersBacked(env, s, n0)
    && DistinctAnswers(s)
  }

  ghost predicate RowsOwned(env: Runtime, s: State, n0: nat) {
    forall i :: n0 <= i < |s.table.rows| ==> HasOwner(env, s, s.table.rows[i])
  }

  ghost predicate AnswersBacked(env: Runtime, s: State, n0: nat) {
    forall r | r in s.calls && IsCreated(s.calls[r]) :: HasRow(env, s, n0, s.calls[r])
  }

  ghost predicate DistinctAnswers(s: State) {
    forall r1, r2 | r1 in s.calls && r2 in s.calls && IsCreated(s.calls[r1])
                    && Answer(s.calls[r1]) == Answer(s.calls[r2]) :: r1 == r2
  }

  lemma OwnershipGrows(env: Runtime, s: State, later: State, r: nat, i: nat)
    requires Grows(s, later) && r in s.calls && i < |s.table.rows|
    requires Owns(env, s.calls[r], s.table.rows[i])
    ensures Owns(env, later.calls[r], later.table.rows[i])
  {
    assert SameAccount(s.table.rows[i], later.table.rows[i]);
  }

  lemma OldOwnersMatch(env: Runtime, s: State, later: State, n0: nat)
    requires OwnersMatch(env, s, n0) && Grows(s, later)
    ensures forall i :: n0 <= i < |s.table.rows| ==> HasOwner(env, later, later.table.rows[i])
    ensures forall r | r in s.calls && IsCreated(s.calls[r]) :: HasRow(env, later, n0, later.calls[r])
  {
    forall i | n0 <= i < |s.table.rows|
      ensures HasOwner(env, later, later.table.rows[i])
    {
      assert HasOwner(env, s, s.table.rows[i]);
      var r :| r in s.calls && Owns(env, s.calls[r], s.table.rows[i]);
      OwnershipGrows(env, s, later, r, i);
    }
    forall r | r in s.calls && IsCreated(s.calls[r])
      ensures HasRow(env, later, n0, later.calls[r])
    {
      assert HasRow(env, s, n0, s.calls[r]);
      var i :| n0 <= i < |s.table.rows| && Owns(env, s.calls[r], s.table.rows[i]);
      OwnershipGrows(env, s, later, r, i);
    }
  }

  /** No call but a committing one becomes a 201, and no action but a commit adds a row. */
  lemma OnlyCommitsCreate(env: Runtime, s: State, a: Action)
    requires Step(env, s, a).Some? && !a.Commit?
    ensures var s' := Step(env, s, a).value;
            && |s'.table.rows| == |s.table.rows|
            && forall r | r in s'.calls && IsCreated(s'.calls[r]) ::
                 r in s.calls && Answer(s.calls[r]) == Answer(s'.calls[r])
  {
  }

  lemma CommitCreatesOwnedRow(env: Runtime, s: State, r: nat)
    requires StateOk(env, s) && Step(env, s, Commit(r)).Some?
    requires IsCreated(Step(env, s, Commit(r)).value.calls[r])
    ensures var s' := Step(env, s, Commit(r)).value;
            && |s'.table.rows| == |s.table.rows| + 1
            && Owns(env, s'.calls[r], Last(s'.table.rows))
            && Last(s'.table.rows).id == s.table.lastId + 1
  {
    assert CallOk(env, s.calls[r]);
  }

  lemma CreatedIdsAreOld(env: Runtime, s: State, n0: nat, r: nat)
    requires TableOk(env, s.table) && OwnersMatch(env, s, n0) && r in s.calls && IsCreated(s.calls[r])
    ensures Answer(s.calls[r]).value.customer.id <= s.table.lastId
  {
    assert HasRow(env, s, n0, s.calls[r]);
  }

  lemma CommitKeepsAnswersDistinct(env: Runtime, s: State, r: nat, n0: nat)
    requires StateOk(env, s) && OwnersMatch(env, s, n0) && Step(env, s, Commit(r)).Some?
    ensures DistinctAnswers(Step(env, s, Commit(r)).value)
  {
    var s' := Step(env, s, Commit(r)).value;
    assert forall q | q in s'.calls && q != r :: s'.calls[q] == s.calls[q];
    if IsCreated(s'.calls[r]) {
      forall q | q in s.calls && q != r && IsCreated(s.calls[q])
        ensures Answer(s'.calls[q]) != Answer(s'.calls[r])
      {
        CreatedAnswerIsNew(env, s, r, q, n0);
      }
    }
  }

  lemma CreatedAnswerIsNew(env: Runtime, s: State, r: nat, q: nat, n0: nat)
    requires StateOk(env, s) && OwnersMatch(env, s, n0) && Step(env, s, Commit(r)).Some?
    requires IsCreated(Step(env, s, Commit(r)).value.calls[r])
    requires q in s.calls && q != r && IsCreated(s.calls[q])
    ensures Answer(s.calls[q]) != Answer(Step(env, s, Commit(r)).value.calls[r])
  {
    CommitCreatesOwnedRow(env, s, r);
    CreatedIdsAreOld(env, s, n0, q);
  }

  /** A commit either leaves the rows alone or appends one that its call owns. */
  lemma CommitOutcome(env: Runtime, s: State, r: nat)
    requires StateOk(env, s) && Step(env, s, Commit(r)).Some?
    ensures var s' := Step(env, s, Commit(r)).value;
            || s'.table == s.table
            || (|s'.table.rows| == |s.table.rows| + 1 && HasOwner(env, s', Last(s'.table.rows)))
  {
    var s' := Step(env, s, Commit(r)).value;
    if IsCreated(s'.calls[r]) {
      CommitCreatesOwnedRow(env, s, r);
      assert r in s'.calls;
    }
  }

  lemma RowsStayOwned(env: Runtime, s: State, later: State, n0: nat)
    requires OwnersMatch(env, s, n0) && Grows(s, later)
    requires later.table == s.table
          || (|later.table.rows| == |s.table.rows| + 1 && HasOwner(env, later, Last(later.table.rows)))
    ensures RowsOwned(env, later, n0)
  {
    OldOwnersMatch(env, s, later, n0);
    forall i | n0 <= i < |later.table.rows|
      ensures HasOwner(env, later, later.table.rows[i])
    {
      if i == |s.table.rows| {
        assert later.table.rows[i] == Last(later.table.rows);
      }
    }
  }

  lemma CommitKeepsAnswersBacked(env: Runtime, s: State, r: nat, n0: nat)
    requires StateOk(env, s) && OwnersMatch(env, s, n0) && Step(env, s, Commit(r)).Some?
    ensures AnswersBacked(env, Step(env, s, Commit(r)).value, n0)
  {
    var s' := Step(env, s, Commit(r)).value;
    StepGrows(env, s, Commit(r));
    OldOwnersMatch(env, s, s', n0);
    forall q | q in s'.calls && IsCreated(s'.calls[q])
      ensures HasRow(env, s', n0, s'.calls[q])
    {
      if q == r {
        CommitBacksAnswer(env, s, r, n0);
      } else {
        CommitKeepsOthers(env, s, r, q);
      }
    }
  }

  lemma CommitBacksAnswer(env: Runtime, s: State, r: nat, n0: nat)
    requires StateOk(env, s) && n0 <= |s.table.rows| && Step(env, s, Commit(r)).Some?
    requires IsCreated(Step(env, s, Commit(r)).value.calls[r])
    ensures HasRow(env, Step(env, s, Commit(r)).value, n0, Step(env, s, Commit(r)).value.calls[r])
  {
    CommitCreatesOwnedRow(env, s, r);
    var s' := Step(env, s, Commit(r)).value;
    assert Owns(env, s'.calls[r], s'.table.rows[|s.table.rows|]);
  }

  lemma CommitKeepsOthers(env: Runtime, s: State, r: nat, q: nat)
    requires Step(env, s, Commit(r)).Some? && q in Step(env, s, Commit(r)).value.calls && q != r
    ensures q in s.calls && Step(env, s, Commit(r)).value.calls[q] == s.calls[q]
  {
  }

  lemma StepKeepsOwners(env: Runtime, s: State, a: Action, n0: nat)
    requires StateOk(env, s) && OwnersMatch(env, s, n0) && Step(env, s, a).Some?
    ensures OwnersMatch(env, Step(env, s, a).value, n0)
  {
    if a.Commit? {
      StepGrows(env, s, a);
      CommitOutcome(env, s, a.r);
      RowsStayOwned(env, s, Step(env, s, a).value, n0);
      CommitKeepsAnswersBacked(env, s, a.r, n0);
      CommitKeepsAnswersDistinct(env, s, a.r, n0);
    } else {
      StepGrows(env, s, a);
      OldOwnersMatch(env, s, Step(env, s, a).value, n0);
      OnlyCommitsCreate(env, s, a);
    }
  }

  /**
   In every reachable state emails are distinct and normalised, ids increase in commit order, every row is a
   CUSTOMER with the hash of a compliant password, and the rows the run added are exactly the registrations
   answered 201, each with the id and email it was answered.
   */
  lemma {:induction false} AccountsInvariant(env: Runtime, s0: State, trace: seq<Action>)
    requires LawfulText(env) && Run(env, s0, trace)
    ensures TableOk(env, Final(env, s0, trace).table)
    ensures OwnersMatch(env, Final(env, s0, trace), |s0.table.rows|)
  {
    EveryStateOk(env, s0, trace);
    if trace != [] {
      AccountsInvariant(env, s0, Init(trace));
      EveryStateOk(env, s0, Init(trace));
      StepKeepsOwners(env, Final(env, s0, Init(trace)), Last(trace), |s0.table.rows|);
    }
  }

  // ----- The race for one email -----

  /** A registration for this key that passes the policy. */
  predicate Contends(env: Runtime, c: Call, key: Str) {
    c.request.Register? && NormalizeEmail(env, c.request.email) == key && Compliant(env.category, c.request.password)
  }

  /** An answered registration got 400 for a non-compliant password, else 201, 409 or 500 with the email taken. */
  ghost predicate RegistrationAnswered(env: Runtime, s: State, r: nat)
    requires r in s.calls
  {
    var q, answer := s.calls[r].request, Answer(s.calls[r]);
    q.Register? && answer.Some? ==>
      if Compliant(env.category, q.password) then
        && (answer.value.Created? || answer.value == Handle(DuplicateEmail) || answer.value == Handle(DbUpdate))
        && AnyWithEmail(s.table.rows, NormalizeEmail(env, q.email))
      else
        answer.value == Handle(InvalidPassword)
  }

  ghost predicate AllRegistrationsAnswered(env: Runtime, s: State) {
    forall r | r in s.calls :: RegistrationAnswered(env, s, r)
  }

  lemma OldRowsKeepEmails(s: State, later: State)
    requires Grows(s, later)
    ensures forall i :: 0 <= i < |s.table.rows| ==> later.table.rows[i].email == s.table.rows[i].email
  {
    assert forall i :: 0 <= i < |s.table.rows| ==> SameAccount(s.table.rows[i], later.table.rows[i]);
  }

  lemma EmailsStay(s: State, later: State, key: Str)
    requires Grows(s, later) && AnyWithEmail(s.table.rows, key)
    ensures AnyWithEmail(later.table.rows, key)
  {
    var i :| 0 <= i < |s.table.rows| && s.table.rows[i].email == key;
    assert SameAccount(s.table.rows[i], later.table.rows[i]);
  }

  lemma CommitAnswersRegistration(env: Runtime, s: State, r: nat)
    requires StateOk(env, s) && Step(env, s, Commit(r)).Some?
    ensures RegistrationAnswered(env, Step(env, s, Commit(r)).value, r)
  {
    assert CallOk(env, s.calls[r]);
    var entity := s.calls[r].progress.entity;
    if Insert(s.table, entity).Ok? {
      assert Last(Insert(s.table, entity).value.rows).email == entity.email;
    }
  }

  lemma AnsweredStays(env: Runtime, s: State, later: State, r: nat)
    requires Grows(s, later) && r in s.calls && RegistrationAnswered(env, s, r)
    requires r in later.calls && Answer(later.calls[r]) == Answer(s.calls[r])
    ensures RegistrationAnswered(env, later, r)
  {
    if s.calls[r].request.Register? && AnyWithEmail(s.table.rows, NormalizeEmail(env, s.calls[r].request.email)) {
      EmailsStay(s, later, NormalizeEmail(env, s.calls[r].request.email));
    }
  }

  lemma StepAnswersRegistration(env: Runtime, s: State, a: Action, r: nat)
    requires StateOk(env, s) && AllRegistrationsAnswered(env, s) && Step(env, s, a).Some?
    requires r in Step(env, s, a).value.calls
    ensures RegistrationAnswered(env, Step(env, s, a).value, r)
  {
    var s' := Step(env, s, a).value;
    if a == Commit(r) {
      CommitAnswersRegistration(env, s, r);
    } else if a == Check(r) {
      CheckAnswersRegistration(env, s, r);
    } else if s'.calls[r].request.Register? && Answer(s'.calls[r]).Some? {
      OthersKeepAnswer(env, s, a, r);
      StepGrows(env, s, a);
      AnsweredStays(env, s, s', r);
    }
  }

  /** Only its check and its commit answer a registration. */
  lemma OthersKeepAnswer(env: Runtime, s: State, a: Action, r: nat)
    requires Step(env, s, a).Some? && a != Commit(r) && a != Check(r)
    requires var s' := Step(env, s, a).value;
             r in s'.calls && s'.calls[r].request.Register? && Answer(s'.calls[r]).Some?
    ensures r in s.calls && Answer(s.calls[r]) == Answer(Step(env, s, a).value.calls[r])
  {
  }

  lemma CheckAnswersRegistration(env: Runtime, s: State, r: nat)
    requires Step(env, s, Check(r)).Some?
    ensures RegistrationAnswered(env, Step(env, s, Check(r)).value, r)
  {
  }

  lemma {:induction false} AnsweredRegistrations(env: Runtime, s0: State, trace: seq<Action>)
    requires LawfulText(env) && Run(env, s0, trace)
    ensures AllRegistrationsAnswered(env, Final(env, s0, trace))
  {
    if trace != [] {
      AnsweredRegistrations(env, s0, Init(trace));
      EveryStateOk(env, s0, Init(trace));
      forall r | r in Final(env, s0, trace).calls
        ensures RegistrationAnswered(env, Final(env, s0, trace), r)
      {
        StepAnswersRegistration(env, Final(env, s0, Init(trace)), Last(trace), r);
      }
    }
  }

  /** What an answered registration got, written out. */
  lemma RegistrationAnswers(env: Runtime, s0: State, trace: seq<Action>, r: nat)
    requires LawfulText(env) && Run(env, s0, trace)
    requires r in Final(env, s0, trace).calls && Final(env, s0, trace).calls[r].request.Register?
    requires Answer(Final(env, s0, trace).calls[r]).Some?
    ensures var s := Final(env, s0, trace);
            var answer := Answer(s.calls[r]).value;
            if Compliant(env.category, s.calls[r].request.password) then
              answer.Created? || answer in {
                Error(409, "Conflict", "An account with this email already exists."),
                Error(500, "Internal Server Error", "An unexpected error occurred.")
              }
            else
              answer == Error(400, "Bad Request", "The submitted password does not meet the security policy.")
    ensures var s := Final(env, s0, trace);
            var answer := Answer(s.calls[r]).value;
            answer.Created? ==>
              exists i :: |s0.table.rows| <= i < |s.table.rows|
                       && s.table.rows[i].email == NormalizeEmail(env, s.calls[r].request.email)
                       && answer.customer == CustomerResponse(s.table.rows[i].id, s.table.rows[i].email, "CUSTOMER",
                                                              s.table.rows[i].createdAt)
  {
    var s := Final(env, s0, trace);
    AnsweredRegistrations(env, s0, trace);
    AnswerBodies(env, s, r);
    AccountsInvariant(env, s0, trace);
    if IsCreated(s.calls[r]) {
      var i := CreatedShowsItsRow(env, s, |s0.table.rows|, r);
    }
  }

  lemma AnswerBodies(env: Runtime, s: State, r: nat)
    requires r in s.calls && RegistrationAnswered(env, s, r)
    requires s.calls[r].request.Register? && Answer(s.calls[r]).Some?
    ensures var answer := Answer(s.calls[r]).value;
            if Compliant(env.category, s.calls[r].request.password) then
              answer.Created? || answer in {
                Error(409, "Conflict", "An account with this email already exists."),
                Error(500, "Internal Server Error", "An unexpected error occurred.")
              }
            else
              answer == Error(400, "Bad Request", "The submitted password does not meet the security policy.")
  {
    ErrorBodies();
  }

  lemma CreatedShowsItsRow(env: Runtime, s: State, n0: nat, r: nat) returns (i: nat)
    requires TableOk(env, s.table) && OwnersMatch(env, s, n0) && r in s.calls && IsCreated(s.calls[r])
    ensures s.calls[r].request.Register? && n0 <= i < |s.table.rows|
    ensures var row := s.table.rows[i];
            && row.email == NormalizeEmail(env, s.calls[r].request.email)
            && Answer(s.calls[r]).value.customer == CustomerResponse(row.id, row.email, "CUSTOMER", row.createdAt)
  {
    assert HasRow(env, s, n0, s.calls[r]);
    i :| n0 <= i < |s.table.rows| && Owns(env, s.calls[r], s.table.rows[i]);
    assert RowOk(env, s.table.rows[i]);
  }

  /** A registration that passed the request gates is never refused for its password. */
  lemma ValidatedIsNeverBadRequest(env: Runtime, s0: State, trace: seq<Action>, r: nat)
    requires LawfulText(env) && Run(env, s0, trace)
    requires r in Final(env, s0, trace).calls && Final(env, s0, trace).calls[r].request.Register?
    requires var password := Some(Final(env, s0, trace).calls[r].request.password);
             NotBlank(env, password) && ValidPassword(env.category, password)
    ensures var answer := Answer(Final(env, s0, trace).calls[r]);
            answer.Some? ==> StatusOf(answer.value) in {201, 409, 500}
  {
    GatesAgree(env, Some(Final(env, s0, trace).calls[r].request.password));
    AnsweredRegistrations(env, s0, trace);
    assert RegistrationAnswered(env, Final(env, s0, trace), r);
  }

  /** The email is taken by a call of this run, and by one only. */
  lemma TheOwnerOfKey(env: Runtime, s0: State, trace: seq<Action>, key: Str) returns (w: nat)
    requires LawfulText(env) && Run(env, s0, trace)
    requires !AnyWithEmail(s0.table.rows, key) && AnyWithEmail(Final(env, s0, trace).table.rows, key)
    ensures var s := Final(env, s0, trace);
            && w in s.calls && Contends(env, s.calls[w], key) && IsCreated(s.calls[w])
            && forall r | r in s.calls && Contends(env, s.calls[r], key) && IsCreated(s.calls[r]) :: r == w
  {
    var s, n0 := Final(env, s0, trace), |s0.table.rows|;
    AccountsInvariant(env, s0, trace);
    RunGrows(env, s0, trace, 0, |trace|);
    StateAtEnds(env, s0, trace);
    OldRowsKeepEmails(s0, s);
    var i :| 0 <= i < |s.table.rows| && s.table.rows[i].email == key;
    assert HasOwner(env, s, s.table.rows[i]);
    w :| w in s.calls && Owns(env, s.calls[w], s.table.rows[i]);
    forall r | r in s.calls && Contends(env, s.calls[r], key) && IsCreated(s.calls[r])
      ensures r == w
    {
      OneOwnerPerKey(env, s, n0, key, i, w, r);
    }
  }

  lemma OneOwnerPerKey(env: Runtime, s: State, n0: nat, key: Str, i: nat, w: nat, r: nat)
    requires TableOk(env, s.table) && OwnersMatch(env, s, n0)
    requires i < |s.table.rows| && s.table.rows[i].email == key
    requires w in s.calls && Owns(env, s.calls[w], s.table.rows[i])
    requires r in s.calls && Contends(env, s.calls[r], key) && IsCreated(s.calls[r])
    ensures r == w
  {
    assert HasRow(env, s, n0, s.calls[r]);
    var j :| n0 <= j < |s.table.rows| && Owns(env, s.calls[r], s.table.rows[j]);
    SameEmailSameRow(s.table.rows, i, j);
  }

  lemma SameEmailSameRow(rows: seq<Customer>, i: nat, j: nat)
    requires UniqueEmails(rows) && i < |rows| && j < |rows| && rows[i].email == rows[j].email
    ensures i == j
  {
  }

  /**
   If an email is free at the start and some compliant registrations for it all finish, under any schedule
   exactly one is answered 201 and every other 409 or 500.
   */
  lemma ExactlyOneWinner(env: Runtime, s0: State, trace: seq<Action>, key: Str) returns (w: nat)
    requires LawfulText(env) && Run(env, s0, trace)
    requires !AnyWithEmail(s0.table.rows, key)
    requires var s := Final(env, s0, trace);
             && (exists r :: r in s.calls && Contends(env, s.calls[r], key))
             && (forall r | r in s.calls && Contends(env, s.calls[r], key) :: Answer(s.calls[r]).Some?)
    ensures var s := Final(env, s0, trace);
            && w in s.calls && Contends(env, s.calls[w], key) && IsCreated(s.calls[w])
            && StatusOf(Answer(s.calls[w]).value) == 201
            && forall r | r in s.calls && Contends(env, s.calls[r], key) && r != w ::
                 StatusOf(Answer(s.calls[r]).value) in {409, 500}
  {
    var s := Final(env, s0, trace);
    AnsweredRegistrations(env, s0, trace);
    var r :| r in s.calls && Contends(env, s.calls[r], key);
    ContenderStatus(env, s, r, key);
    w := TheOwnerOfKey(env, s0, trace, key);
    forall q | q in s.calls && Contends(env, s.calls[q], key) && q != w
      ensures StatusOf(Answer(s.calls[q]).value) in {409, 500}
    {
      ContenderStatus(env, s, q, key);
    }
  }

  lemma ContenderStatus(env: Runtime, s: State, r: nat, key: Str)
    requires AllRegistrationsAnswered(env, s)
    requires r in s.calls && Contends(env, s.calls[r], key) && Answer(s.calls[r]).Some?
    ensures IsCreated(s.calls[r]) || StatusOf(Answer(s.calls[r]).value) in {409, 500}
    ensures AnyWithEmail(s.table.rows, key)
  {
    assert RegistrationAnswered(env, s, r);
  }

  /**
   The emails of the table are, at any point of a run, those it started with and those compliant registrations have
   been answered for.
   */
  lemma EmailsAccountedFor(env: Runtime, s0: State, trace: seq<Action>, key: Str)
    requires LawfulText(env) && Run(env, s0, trace)
    ensures var s := Final(env, s0, trace);
            AnyWithEmail(s.table.rows, key) <==>
              (|| AnyWithEmail(s0.table.rows, key)
               || exists r :: r in s.calls && Contends(env, s.calls[r], key) && Answer(s.calls[r]).Some?)
  {
    var s := Final(env, s0, trace);
    if AnyWithEmail(s0.table.rows, key) {
      RunGrows(env, s0, trace, 0, |trace|);
      StateAtEnds(env, s0, trace);
      EmailsStay(s0, s, key);
    } else if AnyWithEmail(s.table.rows, key) {
      var w := TheOwnerOfKey(env, s0, trace, key);
    } else if r :| r in s.calls && Contends(env, s.calls[r], key) && Answer(s.calls[r]).Some? {
      AnsweredRegistrations(env, s0, trace);
      ContenderStatus(env, s, r, key);
    }
  }

  // ----- When the answer is 500 -----

  /** The email a registration is for is taken. */
  predicate Taken(env: Runtime, s: State, q: Request)
    requires q.Register?
  {
    AnyWithEmail(s.table.rows, NormalizeEmail(env, q.email))
  }

  predicate BetweenCheckAndCommit(s: State, r: nat) {
    r in s.calls && s.calls[r].request.Register? && (s.calls[r].progress.FoundFree? || s.calls[r].progress.Tracked?)
  }

  lemma EntersByFreeCheck(env: Runtime, s: State, a: Action, r: nat)
    requires Step(env, s, a).Some? && BetweenCheckAndCommit(Step(env, s, a).value, r)
    ensures r in s.calls && s.calls[r].request == Step(env, s, a).value.calls[r].request
    ensures BetweenCheckAndCommit(s, r) || (a == Check(r) && !Taken(env, s, s.calls[r].request))
  {
  }

  /** A registration past its check was checked at an instant when the email was free. */
  lemma {:induction false} CheckedWhileFree(env: Runtime, s0: State, trace: seq<Action>, k: nat, r: nat)
      returns (c: nat)
    requires Exec(env, s0, trace).Some? && s0.calls == map[] && k <= |trace|
    requires BetweenCheckAndCommit(StateAt(env, s0, trace, k), r)
    ensures c < k && trace[c] == Check(r)
    ensures !Taken(env, StateAt(env, s0, trace, c), StateAt(env, s0, trace, k).calls[r].request)
    decreases k
  {
    StateAtEnds(env, s0, trace);
    StateAtStep(env, s0, trace, k - 1);
    EntersByFreeCheck(env, StateAt(env, s0, trace, k - 1), trace[k - 1], r);
    if BetweenCheckAndCommit(StateAt(env, s0, trace, k - 1), r) {
      c := CheckedWhileFree(env, s0, trace, k - 1, r);
    } else {
      c := k - 1;
    }
  }

  lemma StepRefuses(env: Runtime, s: State, a: Action, r: nat)
    requires StateOk(env, s) && Step(env, s, a).Some?
    requires r in Step(env, s, a).value.calls && Step(env, s, a).value.calls[r].request.Register?
    requires Answer(Step(env, s, a).value.calls[r]) == Some(Handle(DbUpdate))
    requires !(r in s.calls && Answer(s.calls[r]) == Some(Handle(DbUpdate)))
    ensures a == Commit(r) && r in s.calls && s.calls[r].progress.Tracked?
    ensures AnyWithEmail(s.table.rows, NormalizeEmail(env, s.calls[r].request.email))
  {
    if a == Commit(r) {
      CommitAnswers(env, s, r);
    } else if a == Check(r) {
      CheckNeverRefuses(env, s, r);
      assert false;
    } else {
      OthersKeepAnswer(env, s, a, r);
      assert false;
    }
  }

  lemma CheckNeverRefuses(env: Runtime, s: State, r: nat)
    requires Step(env, s, Check(r)).Some?
    ensures Answer(Step(env, s, Check(r)).value.calls[r]) != Some(Handle(DbUpdate))
  {
  }

  /** A compliant registration answered 500 was refused by the index when it committed. */
  lemma {:induction false} RefusedAtCommit(env: Runtime, s0: State, trace: seq<Action>, k: nat, r: nat)
      returns (m: nat)
    requires LawfulText(env) && Run(env, s0, trace) && k <= |trace|
    requires var s := StateAt(env, s0, trace, k);
             && r in s.calls && s.calls[r].request.Register?
             && Answer(s.calls[r]) == Some(Handle(DbUpdate))
    ensures m < k && trace[m] == Commit(r)
    ensures var s := StateAt(env, s0, trace, m);
            && r in s.calls && s.calls[r].request == StateAt(env, s0, trace, k).calls[r].request
            && s.calls[r].progress.Tracked?
            && AnyWithEmail(s.table.rows, NormalizeEmail(env, s.calls[r].request.email))
    decreases k
  {
    StateAtEnds(env, s0, trace);
    var before := StateAt(env, s0, trace, k - 1);
    StateAtStep(env, s0, trace, k - 1);
    StepGrows(env, before, trace[k - 1]);
    PrefixRuns(env, s0, trace, k - 1);
    if r in before.calls && Answer(before.calls[r]) == Some(Handle(DbUpdate)) {
      m := RefusedAtCommit(env, s0, trace, k - 1, r);
    } else {
      m := k - 1;
      StepRefuses(env, before, trace[m], r);
    }
  }

  predicate TakenAt(env: Runtime, s0: State, trace: seq<Action>, k: nat, key: Str)
    requires Exec(env, s0, trace).Some? && k <= |trace|
  {
    AnyWithEmail(StateAt(env, s0, trace, k).table.rows, key)
  }

  /** Between a free and a taken instant lies an action that took the email. */
  lemma {:induction false} FirstTaken(env: Runtime, s0: State, trace: seq<Action>, key: Str, c: nat, m: nat)
      returns (k: nat)
    requires Exec(env, s0, trace).Some? && c <= m <= |trace|
    requires !TakenAt(env, s0, trace, c, key) && TakenAt(env, s0, trace, m, key)
    ensures c <= k < m && !TakenAt(env, s0, trace, k, key) && TakenAt(env, s0, trace, k + 1, key)
    decreases m
  {
    if TakenAt(env, s0, trace, m - 1, key) {
      k := FirstTaken(env, s0, trace, key, c, m - 1);
    } else {
      k := m - 1;
    }
  }

  /** That action is the commit of a contender, which the run answers 201. */
  lemma TakerWins(env: Runtime, s0: State, trace: seq<Action>, key: Str, k: nat)
    requires LawfulText(env) && Run(env, s0, trace) && k < |trace|
    requires !TakenAt(env, s0, trace, k, key) && TakenAt(env, s0, trace, k + 1, key)
    ensures trace[k].Commit?
    ensures var calls := Final(env, s0, trace).calls;
            trace[k].r in calls && Contends(env, calls[trace[k].r], key) && IsCreated(calls[trace[k].r])
  {
    var s, s' := StateAt(env, s0, trace, k), StateAt(env, s0, trace, k + 1);
    assert StateOk(env, s) by {
      PrefixRuns(env, s0, trace, k);
    }
    StateAtStep(env, s0, trace, k);
    CommitTakesEmail(env, s, trace[k], key);
    StepGrows(env, s, trace[k]);
    AnswerStaysInRun(env, s0, trace, k + 1, trace[k].r);
  }

  lemma CommitTakesEmail(env: Runtime, s: State, a: Action, key: Str)
    requires StateOk(env, s) && Step(env, s, a).Some?
    requires !AnyWithEmail(s.table.rows, key) && AnyWithEmail(Step(env, s, a).value.table.rows, key)
    ensures a.Commit? && a.r in s.calls && Contends(env, s.calls[a.r], key)
    ensures IsCreated(Step(env, s, a).value.calls[a.r])
  {
    if a.Commit? {
      assert CallOk(env, s.calls[a.r]);
    } else {
      OthersTakeNoEmail(env, s, a, key);
      assert false;
    }
  }

  lemma OthersTakeNoEmail(env: Runtime, s: State, a: Action, key: Str)
    requires Step(env, s, a).Some? && !a.Commit? && AnyWithEmail(Step(env, s, a).value.table.rows, key)
    ensures AnyWithEmail(s.table.rows, key)
  {
    var s' := Step(env, s, a).value;
    OnlyCommitsCreate(env, s, a);
    StepGrows(env, s, a);
    OldRowsKeepEmails(s, s');
    var i :| 0 <= i < |s'.table.rows| && s'.table.rows[i].email == key;
    assert s.table.rows[i].email == key;
  }

  /** Call `r` was checked, then `w` committed, then `r` tried to commit. */
  ghost predicate Raced(trace: seq<Action>, r: nat, w: nat) {
    exists c, k, m {:trigger trace[c], trace[k], trace[m]} ::
      0 <= c < k < m < |trace| && trace[c] == Check(r) && trace[k] == Commit(w) && trace[m] == Commit(r)
  }

  /** Neither call returned before the other was invoked. */
  ghost predicate Overlap(trace: seq<Action>, r: nat, w: nat) {
    NotAfter(trace, r, w) && NotAfter(trace, w, r)
  }

  /** Every invocation of `r` comes before every return of `w`. */
  ghost predicate NotAfter(trace: seq<Action>, r: nat, w: nat) {
    forall x, y | 0 <= x < |trace| && 0 <= y < |trace|
                  && trace[x] == Return(w) && trace[y].Invoke? && trace[y].r == r :: y < x
  }

  /** A registration is answered 500 only if the winner committed between its check and its own commit. */
  lemma ServerErrorMeansRace(env: Runtime, s0: State, trace: seq<Action>, r: nat) returns (w: nat)
    requires LawfulText(env) && Run(env, s0, trace)
    requires var s := Final(env, s0, trace);
             && r in s.calls && s.calls[r].request.Register?
             && Answer(s.calls[r]).Some? && StatusOf(Answer(s.calls[r]).value) == 500
    ensures var s := Final(env, s0, trace);
            && w != r && w in s.calls && IsCreated(s.calls[w])
            && Contends(env, s.calls[w], NormalizeEmail(env, s.calls[r].request.email))
    ensures Raced(trace, r, w) && Overlap(trace, r, w)
  {
    AnsweredRegistrations(env, s0, trace);
    assert RegistrationAnswered(env, Final(env, s0, trace), r);
    var key := NormalizeEmail(env, Final(env, s0, trace).calls[r].request.email);
    var c, k, m := RaceInstants(env, s0, trace, r);
    TakerWins(env, s0, trace, key, k);
    w := trace[k].r;
    assert trace[c] == Check(r) && trace[k] == Commit(w) && trace[m] == Commit(r);
    RacersOverlap(env, s0, trace, r, w, c, k, m);
    if w == r {
      CommitsOnce(env, s0, trace, k, m, r);
      assert false;
    }
  }

  lemma RaceInstants(env: Runtime, s0: State, trace: seq<Action>, r: nat) returns (c: nat, k: nat, m: nat)
    requires LawfulText(env) && Run(env, s0, trace)
    requires var s := Final(env, s0, trace);
             r in s.calls && s.calls[r].request.Register? && Answer(s.calls[r]) == Some(Handle(DbUpdate))
    ensures c < k < m < |trace| && trace[c] == Check(r) && trace[m] == Commit(r)
    ensures var key := NormalizeEmail(env, Final(env, s0, trace).calls[r].request.email);
            !TakenAt(env, s0, trace, k, key) && TakenAt(env, s0, trace, k + 1, key)
  {
    StateAtEnds(env, s0, trace);
    var key := NormalizeEmail(env, Final(env, s0, trace).calls[r].request.email);
    m := RefusedAtCommit(env, s0, trace, |trace|, r);
    c := CheckedWhileFree(env, s0, trace, m, r);
    k := FirstTaken(env, s0, trace, key, c, m);
    if k == c {
      StateAtStep(env, s0, trace, c);
    }
  }

  lemma CommitsOnce(env: Runtime, s0: State, trace: seq<Action>, k: nat, m: nat, r: nat)
    requires Exec(env, s0, trace).Some? && k < |trace| && m < |trace|
    requires trace[k] == Commit(r) && trace[m] == Commit(r)
    ensures k == m
  {
    var first, second := if k < m then k else m, if k < m then m else k;
    if first < second {
      StateAtStep(env, s0, trace, first);
      RunGrows(env, s0, trace, first + 1, second);
      StateAtStep(env, s0, trace, second);
    }
  }

  lemma RacersOverlap(env: Runtime, s0: State, trace: seq<Action>, r: nat, w: nat, c: nat, k: nat, m: nat)
    requires Exec(env, s0, trace).Some? && c < k < m < |trace|
    requires trace[c] == Check(r) && trace[k] == Commit(w) && trace[m] == Commit(r)
    ensures Overlap(trace, r, w)
  {
    forall y | 0 <= y < |trace| && trace[y].Invoke?
      ensures trace[y].r == r ==> y < c
      ensures trace[y].r == w ==> y < k
    {
      if trace[y].r == r && y >= c {
        ActsAfterInvoke(env, s0, trace, c, y, r);
      }
      if trace[y].r == w && y >= k {
        ActsAfterInvoke(env, s0, trace, k, y, w);
      }
    }
    forall x | 0 <= x < |trace|
      ensures trace[x] == Return(w) ==> k < x
      ensures trace[x] == Return(r) ==> m < x
    {
      if trace[x] == Return(w) && x <= k {
        CommitsBeforeReturn(env, s0, trace, k, x, w);
      }
      if trace[x] == Return(r) && x <= m {
        CommitsBeforeReturn(env, s0, trace, m, x, r);
      }
    }
  }

  lemma ActsAfterInvoke(env: Runtime, s0: State, trace: seq<Action>, k: nat, y: nat, r: nat)
    requires Exec(env, s0, trace).Some? && k < |trace| && y < |trace|
    requires trace[k] in {Check(r), Commit(r)} && trace[y].Invoke? && trace[y].r == r
    ensures y < k
  {
    if k < y {
      StateAtStep(env, s0, trace, k);
      RunGrows(env, s0, trace, k, y);
      StateAtStep(env, s0, trace, y);
    }
  }

  lemma CommitsBeforeReturn(env: Runtime, s0: State, trace: seq<Action>, k: nat, x: nat, r: nat)
    requires Exec(env, s0, trace).Some? && k < |trace| && x < |trace|
    requires trace[k] == Commit(r) && trace[x] == Return(r)
    ensures k < x
  {
    if x < k {
      StateAtStep(env, s0, trace, x);
      RunGrows(env, s0, trace, x + 1, k);
      StateAtStep(env, s0, trace, k);
    }
  }

  // ----- Which answer, exactly -----

  /** The call is past a check that found its email free, and has not been answered 400 or 409. */
  predicate PastFreeCheck(s: State, r: nat) {
    && r in s.calls && s.calls[r].request.Register? && !s.calls[r].progress.Arrived?
    && (Answer(s.calls[r]).Some? ==> IsCreated(s.calls[r]) || Answer(s.calls[r]).value == Handle(DbUpdate))
  }

  lemma PastFreeCheckStays(env: Runtime, s: State, a: Action, r: nat)
    requires PastFreeCheck(s, r) && Step(env, s, a).Some?
    ensures PastFreeCheck(Step(env, s, a).value, r)
  {
  }

  /** Once its check found the email free, a registration is never answered 409 (nor 400). */
  lemma {:induction false} FreeCheckIsNeverConflict(
      env: Runtime, s0: State, trace: seq<Action>, c: nat, k: nat, r: nat)
    requires Exec(env, s0, trace).Some? && c <= k <= |trace|
    requires PastFreeCheck(StateAt(env, s0, trace, c), r)
    ensures PastFreeCheck(StateAt(env, s0, trace, k), r)
    decreases k
  {
    if c < k {
      FreeCheckIsNeverConflict(env, s0, trace, c, k - 1, r);
      StateAtStep(env, s0, trace, k - 1);
      PastFreeCheckStays(env, StateAt(env, s0, trace, k - 1), trace[k - 1], r);
    }
  }

  /** A compliant registration is answered 409 at its check, or is past a free check. */
  lemma CheckSettles(env: Runtime, s: State, r: nat)
    requires Step(env, s, Check(r)).Some? && r in s.calls && s.calls[r].request.Register?
    requires var s' := Step(env, s, Check(r)).value;
             r in s'.calls ==> Compliant(env.category, s'.calls[r].request.password)
    ensures var s' := Step(env, s, Check(r)).value;
            && r in s'.calls && s'.calls[r].request == s.calls[r].request
            && if Taken(env, s, s.calls[r].request) then Answer(s'.calls[r]) == Some(Handle(DuplicateEmail))
               else PastFreeCheck(s', r)
  {
  }

  lemma CheckSettlesInRun(env: Runtime, s0: State, trace: seq<Action>, c: nat, r: nat)
    requires Exec(env, s0, trace).Some? && c < |trace| && trace[c] == Check(r)
    requires var s := Final(env, s0, trace);
             && r in s.calls && s.calls[r].request.Register? && Compliant(env.category, s.calls[r].request.password)
    ensures var s, s' := StateAt(env, s0, trace, c), StateAt(env, s0, trace, c + 1);
            var q := Final(env, s0, trace).calls[r].request;
            && r in s'.calls
            && if Taken(env, s, q) then Answer(s'.calls[r]) == Some(Handle(DuplicateEmail)) else PastFreeCheck(s', r)
  {
    StateAtStep(env, s0, trace, c);
    StateAtEnds(env, s0, trace);
    RunGrows(env, s0, trace, c + 1, |trace|);
    CheckSettles(env, StateAt(env, s0, trace, c), r);
  }

  /** A finished compliant registration is answered 409 exactly if the email was taken when it checked. */
  lemma ConflictIffTakenAtCheck(env: Runtime, s0: State, trace: seq<Action>, c: nat, r: nat)
    requires Exec(env, s0, trace).Some? && c < |trace| && trace[c] == Check(r)
    requires var s := Final(env, s0, trace);
             && r in s.calls && s.calls[r].request.Register?
             && Compliant(env.category, s.calls[r].request.password) && Answer(s.calls[r]).Some?
    ensures Answer(Final(env, s0, trace).calls[r]) == Some(Handle(DuplicateEmail))
       <==> Taken(env, StateAt(env, s0, trace, c), Final(env, s0, trace).calls[r].request)
  {
    CheckSettlesInRun(env, s0, trace, c, r);
    if Taken(env, StateAt(env, s0, trace, c), Final(env, s0, trace).calls[r].request) {
      AnswerStaysInRun(env, s0, trace, c + 1, r);
    } else {
      StateAtEnds(env, s0, trace);
      FreeCheckIsNeverConflict(env, s0, trace, c + 1, |trace|, r);
    }
  }

  /** A registration that commits is answered 500 if the email is taken by then and 201 if not. */
  lemma ServerErrorIffTakenAtCommit(env: Runtime, s0: State, trace: seq<Action>, m: nat, r: nat)
    requires LawfulText(env) && Run(env, s0, trace) && m < |trace| && trace[m] == Commit(r)
    ensures var s := StateAt(env, s0, trace, m);
            && r in s.calls && s.calls[r].request.Register? && r in Final(env, s0, trace).calls
            && var answer := Answer(Final(env, s0, trace).calls[r]);
               answer.Some? && if Taken(env, s, s.calls[r].request) then answer.value == Handle(DbUpdate)
                               else answer.value.Created?
  {
    var s, s' := StateAt(env, s0, trace, m), StateAt(env, s0, trace, m + 1);
    StateAtEnds(env, s0, trace);
    assert StateOk(env, s) by {
      PrefixRuns(env, s0, trace, m);
    }
    StateAtStep(env, s0, trace, m);
    CommitAnswers(env, s, r);
    AnswerStaysInRun(env, s0, trace, m + 1, r);
  }

  lemma AnswerStays(s: State, later: State, r: nat)
    requires Grows(s, later) && r in s.calls && Answer(s.calls[r]).Some?
    ensures r in later.calls && later.calls[r].request == s.calls[r].request
    ensures Answer(later.calls[r]) == Answer(s.calls[r])
  {
  }

  lemma AnswerStaysInRun(env: Runtime, s0: State, trace: seq<Action>, k: nat, r: nat)
    requires Exec(env, s0, trace).Some? && k <= |trace|
    requires var s := StateAt(env, s0, trace, k);
             r in s.calls && Answer(s.calls[r]).Some?
    ensures var s, later := StateAt(env, s0, trace, k), Final(env, s0, trace);
            && r in later.calls && later.calls[r].request == s.calls[r].request
            && Answer(later.calls[r]) == Answer(s.calls[r])
  {
    StateAtEnds(env, s0, trace);
    RunGrows(env, s0, trace, k, |trace|);
    AnswerStays(StateAt(env, s0, trace, k), Final(env, s0, trace), r);
  }

  lemma CommitAnswers(env: Runtime, s: State, r: nat)
    requires StateOk(env, s) && Step(env, s, Commit(r)).Some?
    ensures r in s.calls && s.calls[r].request.Register?
    ensures r in Step(env, s, Commit(r)).value.calls
    ensures var call := Step(env, s, Commit(r)).value.calls[r];
            call.request == s.calls[r].request &&
            if Taken(env, s, s.calls[r].request) then Answer(call) == Some(Handle(DbUpdate)) else IsCreated(call)
  {
    assert CallOk(env, s.calls[r]);
  }

  /** Two registrations that both check first. */
  function RaceTrace(q: Request): seq<Action> {
    [Invoke(0, q), Invoke(1, q), Check(0), Check(1), Build(0, 0, 0), Build(1, 0, 0), Commit(0), Commit(1)]
  }

  function Both(t: Table, q: Request, p0: Progress, p1: Progress): State {
    State(t, map[0 := Call(q, p0), 1 := Call(q, p1)])
  }

  lemma BothAdvance(t: Table, q: Request, p0: Progress, p1: Progress, p: Progress)
    ensures Advance(Both(t, q, p0, p1), 0, p) == Both(t, q, p, p1)
    ensures Advance(Both(t, q, p0, p1), 1, p) == Both(t, q, p0, p)
  {
  }

  lemma BothCheck(env: Runtime, t: Table, q: Request, p: Progress)
    requires q.Register? && Compliant(env.category, q.password) && !AnyWithEmail(t.rows, NormalizeEmail(env, q.email))
    ensures Step(env, Both(t, q, Arrived, p), Check(0)) == Some(Both(t, q, FoundFree, p))
    ensures Step(env, Both(t, q, p, Arrived), Check(1)) == Some(Both(t, q, p, FoundFree))
  {
    BothAdvance(t, q, Arrived, p, FoundFree);
    BothAdvance(t, q, p, Arrived, FoundFree);
  }

  lemma BothBuild(env: Runtime, t: Table, q: Request, p: Progress)
    requires q.Register?
    ensures var tracked := Tracked(NewCustomer(env, NormalizeEmail(env, q.email), q.password, 0, 0));
            && Step(env, Both(t, q, FoundFree, p), Build(0, 0, 0)) == Some(Both(t, q, tracked, p))
            && Step(env, Both(t, q, p, FoundFree), Build(1, 0, 0)) == Some(Both(t, q, p, tracked))
  {
    var tracked := Tracked(NewCustomer(env, NormalizeEmail(env, q.email), q.password, 0, 0));
    BothAdvance(t, q, FoundFree, p, tracked);
    BothAdvance(t, q, p, FoundFree, tracked);
  }

  lemma PrefixExtends(env: Runtime, s0: State, trace: seq<Action>, k: nat, s: State, s': State)
    requires k < |trace| && Exec(env, s0, trace[..k]) == Some(s) && Step(env, s, trace[k]) == Some(s')
    ensures Exec(env, s0, trace[..k + 1]) == Some(s')
  {
    assert Init(trace[..k + 1]) == trace[..k];
  }

  /** The trace begins with two registrations that both pass the check before either commits. */
  predicate BeginsRace(trace: seq<Action>, q: Request) {
    && |trace| >= 6 && trace[0] == Invoke(0, q) && trace[1] == Invoke(1, q)
    && trace[2] == Check(0) && trace[3] == Check(1) && trace[4] == Build(0, 0, 0) && trace[5] == Build(1, 0, 0)
  }

  lemma RaceInvokes(env: Runtime, t: Table, q: Request, trace: seq<Action>)
    requires BeginsRace(trace, q)
    ensures Exec(env, State(t, map[]), trace[..2]) == Some(Both(t, q, Arrived, Arrived))
  {
    var s0, one := State(t, map[]), State(t, map[0 := Call(q, Arrived)]);
    PrefixExtends(env, s0, trace, 0, s0, one);
    PrefixExtends(env, s0, trace, 1, one, Both(t, q, Arrived, Arrived));
  }

  lemma RaceChecks(env: Runtime, t: Table, q: Request, trace: seq<Action>)
    requires q.Register? && Compliant(env.category, q.password) && !AnyWithEmail(t.rows, NormalizeEmail(env, q.email))
    requires BeginsRace(trace, q)
    ensures Exec(env, State(t, map[]), trace[..4]) == Some(Both(t, q, FoundFree, FoundFree))
  {
    var s0 := State(t, map[]);
    RaceInvokes(env, t, q, trace);
    BothCheck(env, t, q, Arrived);
    BothCheck(env, t, q, FoundFree);
    PrefixExtends(env, s0, trace, 2, Both(t, q, Arrived, Arrived), Both(t, q, FoundFree, Arrived));
    PrefixExtends(env, s0, trace, 3, Both(t, q, FoundFree, Arrived), Both(t, q, FoundFree, FoundFree));
  }

  lemma RaceBegins(env: Runtime, t: Table, q: Request, entity: Customer, trace: seq<Action>)
    requires q.Register? && Compliant(env.category, q.password) && !AnyWithEmail(t.rows, NormalizeEmail(env, q.email))
    requires entity == NewCustomer(env, NormalizeEmail(env, q.email), q.password, 0, 0)
    requires BeginsRace(trace, q)
    ensures Exec(env, State(t, map[]), trace[..6]) == Some(Both(t, q, Tracked(entity), Tracked(entity)))
  {
    var s0, tracked := State(t, map[]), Tracked(entity);
    RaceChecks(env, t, q, trace);
    BothBuild(env, t, q, FoundFree);
    BothBuild(env, t, q, tracked);
    PrefixExtends(env, s0, trace, 4, Both(t, q, FoundFree, FoundFree), Both(t, q, tracked, FoundFree));
    PrefixExtends(env, s0, trace, 5, Both(t, q, tracked, FoundFree), Both(t, q, tracked, tracked));
  }

  /** Call 0 was answered 201 and call 1, for the same email, 500. */
  predicate SecondLoses(s: State) {
    && 0 in s.calls && 1 in s.calls && IsCreated(s.calls[0])
    && Answer(s.calls[1]).Some? && StatusOf(Answer(s.calls[1]).value) == 500
  }

  lemma RaceEnds(env: Runtime, t: Table, q: Request, entity: Customer)
    requires !AnyWithEmail(t.rows, entity.email)
    ensures var start := Both(t, q, Tracked(entity), Tracked(entity));
            var first := Step(env, start, Commit(0));
            && first.Some? && Step(env, first.value, Commit(1)).Some?
            && var s := Step(env, first.value, Commit(1)).value;
               SecondLoses(s)
  {
    var t' := Insert(t, entity).value;
    assert Last(t'.rows).email == entity.email;
    assert Insert(t', entity) == Err(DbUpdate);
  }

  /** Whatever the email, password and table, the later commit of the two is a 500 although both passed the check. */
  lemma RaceLoserAnswers500(env: Runtime, t: Table, q: Request)
    requires LawfulText(env) && TableOk(env, t)
    requires q.Register? && Compliant(env.category, q.password) && !AnyWithEmail(t.rows, NormalizeEmail(env, q.email))
    ensures var s0 := State(t, map[]);
            Run(env, s0, RaceTrace(q)) && SecondLoses(Final(env, s0, RaceTrace(q)))
  {
    RaceRuns(env, t, q);
  }

  lemma RaceRuns(env: Runtime, t: Table, q: Request)
    requires q.Register? && Compliant(env.category, q.password) && !AnyWithEmail(t.rows, NormalizeEmail(env, q.email))
    ensures var s0 := State(t, map[]);
            Exec(env, s0, RaceTrace(q)).Some? && SecondLoses(Final(env, s0, RaceTrace(q)))
  {
    var s0, trace := State(t, map[]), RaceTrace(q);
    var entity := NewCustomer(env, NormalizeEmail(env, q.email), q.password, 0, 0);
    RaceBegins(env, t, q, entity, trace);
    RaceEnds(env, t, q, entity);
    var start := Both(t, q, Tracked(entity), Tracked(entity));
    var first := Step(env, start, Commit(0)).value;
    PrefixExtends(env, s0, trace, 6, start, first);
    PrefixExtends(env, s0, trace, 7, first, Step(env, first, Commit(1)).value);
    assert trace[..8] == trace;
  }
}
