/**
 Requests in flight over the shared table. Each database call of a request is one action; everything a request
 does between two calls is local to it and is part of the action that follows.
 */
module Protocol {
  import opened Options
  import opened Text
  import opened Platform
  import opened PasswordPolicy
  import opened Email
  import opened Accounts

  datatype Request =
    | Register(email: Str, password: Str)
    | Login(email: Str, password: Str)
    | ViewProfile(id: int, token: Token)

  datatype Progress =
    | Arrived
    | FoundFree                     // AnyAsync saw no row with the email
    | Tracked(entity: Customer)     // hashed, added to the change tracker and stamped
    | Answered(response: Response)  // the outcome is fixed, the response not yet sent
    | Returned(response: Response)

  datatype Call = Call(request: Request, progress: Progress)

  datatype State = State(table: Table, calls: map<nat, Call>)

  datatype Action =
    | Invoke(r: nat, request: Request)
    | Check(r: nat)                        // policy re-check and AnyAsync
    | Build(r: nat, salt: Salt, now: int)  // HashPassword, Add, audit stamp
    | Commit(r: nat)                       // base.SaveChangesAsync
    | Fetch(r: nat)                        // SingleOrDefaultAsync of a login or a profile view
    | Return(r: nat)
    | Administer(email: Str, enabled: bool, now: int)

  predicate At(s: State, r: nat, p: Progress) {
    r in s.calls && s.calls[r].progress == p
  }

  predicate RegisterAt(s: State, r: nat, p: Progress) {
    At(s, r, p) && s.calls[r].request.Register?
  }

  function Advance(s: State, r: nat, p: Progress): State
    requires r in s.calls
  {
    s.(calls := s.calls[r := s.calls[r].(progress := p)])
  }

  function CheckOutcome(env: Runtime, t: Table, q: Request): Progress
    requires q.Register?
  {
    if !Compliant(env.category, q.password) then Answered(Handle(InvalidPassword))
    else if AnyWithEmail(t.rows, NormalizeEmail(env, q.email)) then Answered(Handle(DuplicateEmail))
    else FoundFree
  }

  function FetchOutcome(env: Runtime, t: Table, q: Request): Response
    requires !q.Register?
  {
    match q
    case Login(email, password) => LoginAnswer(env, t, email, password)
    case ViewProfile(id, token) => ProfileAnswer(t, id, token)
  }

  /** The state after an action, or `None` where the action cannot happen. */
  function Step(env: Runtime, s: State, a: Action): Option<State> {
    match a
    case Invoke(r, q) =>
      if r in s.calls then None else Some(s.(calls := s.calls[r := Call(q, Arrived)]))
    case Check(r) =>
      if !RegisterAt(s, r, Arrived) then None
      else Some(Advance(s, r, CheckOutcome(env, s.table, s.calls[r].request)))
    case Build(r, salt, now) =>
      if !RegisterAt(s, r, FoundFree) then None
      else
        var q := s.calls[r].request;
        Some(Advance(s, r, Tracked(NewCustomer(env, NormalizeEmail(env, q.email), q.password, salt, now))))
    case Commit(r) =>
      if r !in s.calls || !s.calls[r].progress.Tracked? then None
      else
        (match Insert(s.table, s.calls[r].progress.entity)
         case Err(e) => Some(Advance(s, r, Answered(Handle(e))))
         case Ok(t) => Some(Advance(s.(table := t), r, Answered(Created(ToResponse(t.rows[|t.rows| - 1]))))))
    case Fetch(r) =>
      if !At(s, r, Arrived) || s.calls[r].request.Register? then None
      else Some(Advance(s, r, Answered(FetchOutcome(env, s.table, s.calls[r].request))))
    case Return(r) =>
      if r !in s.calls || !s.calls[r].progress.Answered? then None
      else Some(Advance(s, r, Returned(s.calls[r].progress.response)))
    case Administer(email, enabled, now) =>
      if |WithEmail(s.table.rows, email)| != 1 then None
      else Some(s.(table := SetEnabled(s.table, email, enabled, now)))
  }

  // ----- Runs -----

  function Last<T>(s: seq<T>): T
    requires s != []
  {
    s[|s| - 1]
  }

  function Init<T>(s: seq<T>): seq<T>
    requires s != []
  {
    s[..|s| - 1]
  }

  function Exec(env: Runtime, s0: State, trace: seq<Action>): Option<State> {
    if trace == [] then Some(s0)
    else
      var before := Exec(env, s0, Init(trace));
      if before.None? then None else Step(env, before.value, Last(trace))
  }

  /** A run starts from any well-formed table, with no request in flight, and takes possible actions only. */
  ghost predicate Run(env: Runtime, s0: State, trace: seq<Action>) {
    TableOk(env, s0.table) && s0.calls == map[] && Exec(env, s0, trace).Some?
  }

  function Final(env: Runtime, s0: State, trace: seq<Action>): State
    requires Exec(env, s0, trace).Some?
  {
    Exec(env, s0, trace).value
  }

  lemma {:induction false} PrefixExecutes(env: Runtime, s0: State, trace: seq<Action>, k: nat)
    requires Exec(env, s0, trace).Some? && k <= |trace|
    ensures Exec(env, s0, trace[..k]).Some?
  {
    if k == |trace| {
      assert trace[..k] == trace;
    } else {
      PrefixExecutes(env, s0, Init(trace), k);
      assert Init(trace)[..k] == trace[..k];
    }
  }

  /** The state after the first `k` actions of a run. */
  function StateAt(env: Runtime, s0: State, trace: seq<Action>, k: nat): State
    requires Exec(env, s0, trace).Some? && k <= |trace|
  {
    PrefixExecutes(env, s0, trace, k);
    Final(env, s0, trace[..k])
  }

  lemma StateAtStep(env: Runtime, s0: State, trace: seq<Action>, k: nat)
    requires Exec(env, s0, trace).Some? && k < |trace|
    ensures Step(env, StateAt(env, s0, trace, k), trace[k]) == Some(StateAt(env, s0, trace, k + 1))
  {
    PrefixExecutes(env, s0, trace, k);
    PrefixExecutes(env, s0, trace, k + 1);
    assert Init(trace[..k + 1]) == trace[..k];
  }

  lemma StateAtEnds(env: Runtime, s0: State, trace: seq<Action>)
    requires Exec(env, s0, trace).Some?
    ensures StateAt(env, s0, trace, 0) == s0
    ensures StateAt(env, s0, trace, |trace|) == Final(env, s0, trace)
  {
    assert trace[..|trace|] == trace;
  }

  // ----- What every state keeps -----

  function Answer(c: Call): Option<Response> {
    match c.progress
    case Answered(response) => Some(response)
    case Returned(response) => Some(response)
    case _ => None
  }

  ghost predicate CallOk(env: Runtime, c: Call) {
    match c.progress
    case FoundFree =>
      c.request.Register? && Compliant(env.category, c.request.password)
    case Tracked(entity) =>
      && c.request.Register? && Compliant(env.category, c.request.password)
      && entity == NewCustomer(env, NormalizeEmail(env, c.request.email), c.request.password,
                               entity.passwordHash.salt, entity.createdAt)
    case _ => true
  }

  ghost predicate StateOk(env: Runtime, s: State) {
    TableOk(env, s.table) && forall r | r in s.calls :: CallOk(env, s.calls[r])
  }

  lemma StepKeepsTableOk(env: Runtime, s: State, a: Action)
    requires LawfulText(env) && StateOk(env, s) && Step(env, s, a).Some?
    ensures TableOk(env, Step(env, s, a).value.table)
  {
    match a
    case Commit(r) =>
      var c := s.calls[r];
      assert CallOk(env, c);
      var entity := c.progress.entity;
      NewCustomerOk(env, c.request.email, c.request.password, entity.passwordHash.salt, entity.createdAt);
      if Insert(s.table, entity).Ok? {
        InsertKeepsTableOk(env, s.table, entity);
      }
    case Administer(email, enabled, now) =>
      SetEnabledKeepsTableOk(env, s.table, email, enabled, now);
    case _ =>
  }

  lemma StepKeepsCallOk(env: Runtime, s: State, a: Action, r: nat)
    requires StateOk(env, s) && Step(env, s, a).Some? && r in Step(env, s, a).value.calls
    ensures CallOk(env, Step(env, s, a).value.calls[r])
  {
    if r in s.calls {
      assert CallOk(env, s.calls[r]);
    }
  }

  lemma StepKeepsStateOk(env: Runtime, s: State, a: Action)
    requires LawfulText(env) && StateOk(env, s) && Step(env, s, a).Some?
    ensures StateOk(env, Step(env, s, a).value)
  {
    StepKeepsTableOk(env, s, a);
    forall r | r in Step(env, s, a).value.calls
      ensures CallOk(env, Step(env, s, a).value.calls[r])
    {
      StepKeepsCallOk(env, s, a, r);
    }
  }

  lemma {:induction false} EveryStateOk(env: Runtime, s0: State, trace: seq<Action>)
    requires LawfulText(env) && Run(env, s0, trace)
    ensures StateOk(env, Final(env, s0, trace))
  {
    if trace != [] {
      EveryStateOk(env, s0, Init(trace));
      StepKeepsStateOk(env, Final(env, s0, Init(trace)), Last(trace));
    }
  }

  // ----- What later states keep -----

  /** Two rows for the same account: only the enabled flag and its timestamp may differ. */
  predicate SameAccount(c: Customer, d: Customer) {
    d == c.(enabled := d.enabled, updatedAt := d.updatedAt)
  }

  /** Answers, requests and accounts of `s` are still there in `later`. */
  ghost predicate Grows(s: State, later: State) {
    && |s.table.rows| <= |later.table.rows|
    && (forall i :: 0 <= i < |s.table.rows| ==> SameAccount(s.table.rows[i], later.table.rows[i]))
    && (forall r | r in s.calls ::
          && r in later.calls && later.calls[r].request == s.calls[r].request
          && (Answer(s.calls[r]).Some? ==> Answer(later.calls[r]) == Answer(s.calls[r])))
  }

  lemma StepGrows(env: Runtime, s: State, a: Action)
    requires Step(env, s, a).Some?
    ensures Grows(s, Step(env, s, a).value)
  {
  }

  /** Nothing a run has established is ever taken back. */
  lemma {:induction false} RunGrows(env: Runtime, s0: State, trace: seq<Action>, i: nat, j: nat)
    requires Exec(env, s0, trace).Some? && i <= j <= |trace|
    ensures Grows(StateAt(env, s0, trace, i), StateAt(env, s0, trace, j))
    decreases j
  {
    if i < j {
      RunGrows(env, s0, trace, i, j - 1);
      StateAtStep(env, s0, trace, j - 1);
      StepGrows(env, StateAt(env, s0, trace, j - 1), trace[j - 1]);
    }
  }

  lemma PrefixRuns(env: Runtime, s0: State, trace: seq<Action>, k: nat)
    requires LawfulText(env) && Run(env, s0, trace) && k <= |trace|
    ensures Run(env, s0, trace[..k])
    ensures StateOk(env, StateAt(env, s0, trace, k))
  {
    PrefixExecutes(env, s0, trace, k);
    EveryStateOk(env, s0, trace[..k]);
  }

  // ----- Progress -----

  /** An action call `r` takes itself once it has been invoked. */
  predicate OwnAction(a: Action, r: nat) {
    (a.Check? || a.Build? || a.Commit? || a.Fetch? || a.Return?) && a.r == r
  }

  /** How many of its own actions a call is away from having returned, at most. */
  function Distance(p: Progress): nat {
    match p
    case Arrived => 4
    case FoundFree => 3
    case Tracked(_) => 2
    case Answered(_) => 1
    case Returned(_) => 0
  }

  function NextAction(c: Call, r: nat): Action {
    match c.progress
    case Arrived => if c.request.Register? then Check(r) else Fetch(r)
    case FoundFree => Build(r, 0, 0)
    case Tracked(_) => Commit(r)
    case _ => Return(r)
  }

  lemma OwnStep(env: Runtime, s: State, r: nat)
    requires StateOk(env, s) && r in s.calls && !s.calls[r].progress.Returned?
    ensures var s' := Step(env, s, NextAction(s.calls[r], r));
            && s'.Some? && r in s'.value.calls && OwnAction(NextAction(s.calls[r], r), r)
            && Distance(s'.value.calls[r].progress) < Distance(s.calls[r].progress)
  {
    assert CallOk(env, s.calls[r]);
  }

  /** `later` continues the run by actions of call `r` only. */
  ghost predicate OwnContinuation(env: Runtime, s0: State, trace: seq<Action>, later: seq<Action>, r: nat) {
    && trace <= later && (forall i :: |trace| <= i < |later| ==> OwnAction(later[i], r))
    && Run(env, s0, later) && r in Final(env, s0, later).calls
  }

  lemma OwnStepInRun(env: Runtime, s0: State, trace: seq<Action>, r: nat) returns (a: Action)
    requires LawfulText(env) && Run(env, s0, trace) && r in Final(env, s0, trace).calls
    requires !Final(env, s0, trace).calls[r].progress.Returned?
    ensures OwnContinuation(env, s0, trace, trace + [a], r)
    ensures Distance(Final(env, s0, trace + [a]).calls[r].progress) < Distance(Final(env, s0, trace).calls[r].progress)
  {
    EveryStateOk(env, s0, trace);
    OwnStep(env, Final(env, s0, trace), r);
    a := NextAction(Final(env, s0, trace).calls[r], r);
    assert Init(trace + [a]) == trace;
  }

  /** Whatever the others have done, a call in flight can finish by at most four actions of its own. */
  lemma {:induction false} CallsCanFinish(env: Runtime, s0: State, trace: seq<Action>, r: nat)
      returns (later: seq<Action>)
    requires LawfulText(env) && Run(env, s0, trace) && r in Final(env, s0, trace).calls
    ensures OwnContinuation(env, s0, trace, later, r)
    ensures |later| <= |trace| + Distance(Final(env, s0, trace).calls[r].progress) <= |trace| + 4
    ensures Final(env, s0, later).calls[r].progress.Returned?
    decreases Distance(Final(env, s0, trace).calls[r].progress)
  {
    if Final(env, s0, trace).calls[r].progress.Returned? {
      later := trace;
    } else {
      var a := OwnStepInRun(env, s0, trace, r);
      later := CallsCanFinish(env, s0, trace + [a], r);
      assert later[|trace|] == a;
    }
  }
}
