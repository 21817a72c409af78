/** Every run of concurrent requests agrees with a sequential run of atomic operations. */
module Linearizability {
  import opened Options
  import opened Platform
  import opened PasswordPolicy
  import opened Email
  import opened Text
  import opened Accounts
  import opened Protocol

  // ----- The sequential register -----

  datatype Op =
    | RegisterOp(email: Str, password: Str, salt: Salt, now: int)
    | LoginOp(email: Str, password: Str)
    | ViewProfileOp(id: int, token: Token)
    | AdministerOp(email: Str, enabled: bool, now: int)

  function Apply(env: Runtime, t: Table, op: Op): (Table, Option<Response>) {
    match op
    case RegisterOp(email, password, salt, now) =>
      var (t', response) := RegisterAtomically(env, t, email, password, salt, now);
      (t', Some(response))
    case LoginOp(email, password) => (t, Some(LoginAnswer(env, t, email, password)))
    case ViewProfileOp(id, token) => (t, Some(ProfileAnswer(t, id, token)))
    case AdministerOp(email, enabled, now) => (SetEnabled(t, email, enabled, now), None)
  }

  datatype Actor = Client(r: nat) | Administrator

  /** An operation taking effect at one instant: during action number `at` of the run. */
  datatype Effect = Effect(at: nat, actor: Actor, op: Op)

  /** One operation after the other: the final table, and what each operation answered. */
  function Replay(env: Runtime, t: Table, es: seq<Effect>): (result: (Table, seq<Option<Response>>))
    ensures |result.1| == |es|
  {
    if es == [] then (t, [])
    else
      var before := Replay(env, t, Init(es));
      var (t', answer) := Apply(env, before.0, Last(es).op);
      (t', before.1 + [answer])
  }

  /** The operation is the one the request asks for; salt and clock reading are the system's choice. */
  predicate Performs(q: Request, op: Op) {
    match q
    case Register(email, password) => op.RegisterOp? && op.email == email && op.password == password
    case Login(email, password) => op == LoginOp(email, password)
    case ViewProfile(id, token) => op == ViewProfileOp(id, token)
  }

  /** A registration refused by the unique index answers 500; sequentially the same refusal is a 409. */
  function AsSequential(q: Request, response: Response): Response {
    if q.Register? && response == Handle(DbUpdate) then Handle(DuplicateEmail) else response
  }

  // ----- Linearizability -----

  /** Operations take effect one at a time, in the order listed, at instants of the run. */
  ghost predicate Ordered(trace: seq<Action>, es: seq<Effect>) {
    && (forall i :: 0 <= i < |es| ==> es[i].at < |trace|)
    && (forall i, j :: 0 <= i < j < |es| ==> es[i].at < es[j].at)
  }

  /** The call was invoked before the instant and has not returned before it. */
  ghost predicate InProgress(trace: seq<Action>, at: nat, r: nat, q: Request) {
    && (exists k :: 0 <= k < at && k < |trace| && trace[k] == Invoke(r, q))
    && (forall k :: 0 <= k < |trace| && trace[k] == Return(r) ==> at < k)
  }

  ghost predicate WithinItsCall(trace: seq<Action>, calls: map<nat, Call>, e: Effect) {
    match e.actor
    case Administrator =>
      e.at < |trace| && e.op.AdministerOp? && trace[e.at] == Administer(e.op.email, e.op.enabled, e.op.now)
    case Client(r) =>
      r in calls && Performs(calls[r].request, e.op) && InProgress(trace, e.at, r, calls[r].request)
  }

  ghost predicate AtMostOnce(es: seq<Effect>) {
    forall i, j :: 0 <= i < |es| && 0 <= j < |es| && es[i].actor.Client? && es[i].actor == es[j].actor ==> i == j
  }

  /** Some listed operation is the call's, and answers what the call was answered. */
  ghost predicate Explained(calls: map<nat, Call>, r: nat, es: seq<Effect>, answers: seq<Option<Response>>)
    requires |es| == |answers| && r in calls
  {
    exists i :: 0 <= i < |es| && es[i].actor == Client(r)
             && Answer(calls[r]).Some?
             && answers[i] == Some(AsSequential(calls[r].request, Answer(calls[r]).value))
  }

  ghost predicate AllWithin(trace: seq<Action>, calls: map<nat, Call>, es: seq<Effect>) {
    forall i :: 0 <= i < |es| ==> WithinItsCall(trace, calls, es[i])
  }

  ghost predicate AllExplained(calls: map<nat, Call>, es: seq<Effect>, answers: seq<Option<Response>>)
    requires |es| == |answers|
  {
    forall r | r in calls && Answer(calls[r]).Some? :: Explained(calls, r, es, answers)
  }

  ghost predicate AdministersAll(trace: seq<Action>, es: seq<Effect>) {
    forall k :: 0 <= k < |trace| && trace[k].Administer? ==> exists i :: 0 <= i < |es| && es[i].at == k
  }

  ghost predicate Linearizes(env: Runtime, s0: State, trace: seq<Action>, es: seq<Effect>)
    requires Exec(env, s0, trace).Some?
  {
    var s := Final(env, s0, trace);
    var sequential := Replay(env, s0.table, es);
    && sequential.0 == s.table
    && Ordered(trace, es)
    && AllWithin(trace, s.calls, es)
    && AtMostOnce(es)
    && AllExplained(s.calls, es, sequential.1)
    && AdministersAll(trace, es)
  }

  /** In any linearization, a call that returned before another was invoked takes effect before it. */
  lemma RealTimeOrder(env: Runtime, s0: State, trace: seq<Action>, es: seq<Effect>, i: nat, j: nat, a: nat, b: nat)
    requires Exec(env, s0, trace).Some? && Linearizes(env, s0, trace, es)
    requires i < |es| && j < |es| && a < |trace| && b < |trace|
    requires es[i].actor.Client? && trace[a] == Return(es[i].actor.r)
    requires es[j].actor.Client? && trace[b].Invoke? && trace[b].r == es[j].actor.r
    requires a < b
    ensures i < j
  {
    assert WithinItsCall(trace, Final(env, s0, trace).calls, es[i]);
    assert WithinItsCall(trace, Final(env, s0, trace).calls, es[j]);
    var q := Final(env, s0, trace).calls[es[j].actor.r].request;
    var k :| 0 <= k < es[j].at && trace[k] == Invoke(es[j].actor.r, q);
    InvokedOnce(env, s0, trace, k, b);
  }

  /** A request number is invoked once only. */
  lemma InvokedOnce(env: Runtime, s0: State, trace: seq<Action>, k: nat, b: nat)
    requires Exec(env, s0, trace).Some? && k < |trace| && b < |trace|
    requires trace[k].Invoke? && trace[b].Invoke? && trace[k].r == trace[b].r
    ensures k == b
  {
    var first, second := if k < b then k else b, if k < b then b else k;
    if first < second {
      StateAtStep(env, s0, trace, first);
      RunGrows(env, s0, trace, first + 1, second);
      StateAtStep(env, s0, trace, second);
    }
  }

  // ----- The linearization points -----

  /** The commit for 201 and 500, the existence check for 400 and 409, the row read for the rest. */
  function EffectOf(env: Runtime, s: State, a: Action, at: nat): seq<Effect> {
    match a
    case Check(r) =>
      if !RegisterAt(s, r, Arrived) || CheckOutcome(env, s.table, s.calls[r].request).FoundFree? then []
      else [Effect(at, Client(r), RegisterOp(s.calls[r].request.email, s.calls[r].request.password, 0, 0))]
    case Commit(r) =>
      if r !in s.calls || !s.calls[r].progress.Tracked? || !s.calls[r].request.Register? then []
      else
        var entity := s.calls[r].progress.entity;
        [Effect(at, Client(r), RegisterOp(s.calls[r].request.email, s.calls[r].request.password,
                                          entity.passwordHash.salt, entity.createdAt))]
    case Fetch(r) =>
      if r !in s.calls then []
      else
        (match s.calls[r].request
         case Register(_, _) => []
         case Login(email, password) => [Effect(at, Client(r), LoginOp(email, password))]
         case ViewProfile(id, token) => [Effect(at, Client(r), ViewProfileOp(id, token))])
    case Administer(email, enabled, now) => [Effect(at, Administrator, AdministerOp(email, enabled, now))]
    case _ => []
  }

  function Effects(env: Runtime, s0: State, trace: seq<Action>): seq<Effect>
    requires Exec(env, s0, trace).Some?
  {
    if trace == [] then []
    else
      Effects(env, s0, Init(trace)) + EffectOf(env, Final(env, s0, Init(trace)), Last(trace), |trace| - 1)
  }

  /** An action `a` from `s` to `s'` changes the table and answers its call as the operation of `e` does. */
  ghost predicate Matches(env: Runtime, s: State, a: Action, s': State, at: nat, e: Effect) {
    && e.at == at
    && Apply(env, s.table, e.op).0 == s'.table
    && match e.actor
       case Administrator => a.Administer? && e.op == AdministerOp(a.email, a.enabled, a.now)
       case Client(r) =>
         && r in s.calls && Answer(s.calls[r]).None? && Performs(s.calls[r].request, e.op)
         && r in s'.calls && Answer(s'.calls[r]).Some?
         && Apply(env, s.table, e.op).1 == Some(AsSequential(s.calls[r].request, Answer(s'.calls[r]).value))
  }

  /** Inserting the entity a registration tracks, and registering atomically, come to the same. */
  lemma InsertIsRegister(env: Runtime, t: Table, q: Request, entity: Customer)
    requires q.Register? && Compliant(env.category, q.password)
    requires entity == NewCustomer(env, NormalizeEmail(env, q.email), q.password,
                                   entity.passwordHash.salt, entity.createdAt)
    ensures var atomic := Apply(env, t, RegisterOp(q.email, q.password, entity.passwordHash.salt, entity.createdAt));
            match Insert(t, entity)
            case Err(e) => atomic == (t, Some(AsSequential(q, Handle(e))))
            case Ok(t') => atomic == (t', Some(AsSequential(q, Created(ToResponse(Last(t'.rows))))))
  {
    AtomicIsInsert(env, t, q.email, q.password, entity);
    SequentialAnswers(q);
  }

  lemma AtomicIsInsert(env: Runtime, t: Table, email: Str, password: Str, entity: Customer)
    requires Compliant(env.category, password)
    requires entity == NewCustomer(env, NormalizeEmail(env, email), password,
                                   entity.passwordHash.salt, entity.createdAt)
    ensures var atomic := RegisterAtomically(env, t, email, password, entity.passwordHash.salt, entity.createdAt);
            match Insert(t, entity)
            case Err(e) => atomic == (t, Handle(DuplicateEmail)) && e == DbUpdate
            case Ok(t') => atomic == (t', Created(ToResponse(Last(t'.rows))))
  {
    var row := entity.(id := t.lastId + 1);
    assert Last(t.rows + [row]) == row;
  }

  lemma SequentialAnswers(q: Request)
    requires q.Register?
    ensures AsSequential(q, Handle(DbUpdate)) == Handle(DuplicateEmail)
    ensures forall customer :: AsSequential(q, Created(customer)) == Created(customer)
  {
  }

  lemma CommitIsItsEffect(env: Runtime, s: State, r: nat, at: nat)
    requires StateOk(env, s) && Step(env, s, Commit(r)).Some?
    ensures var es := EffectOf(env, s, Commit(r), at);
            |es| == 1 && Matches(env, s, Commit(r), Step(env, s, Commit(r)).value, at, es[0])
  {
    assert CallOk(env, s.calls[r]);
    CommitMatches(env, s, r, at);
  }

  lemma CommitMatches(env: Runtime, s: State, r: nat, at: nat)
    requires Step(env, s, Commit(r)).Some? && r in s.calls && CallOk(env, s.calls[r])
    ensures s.calls[r].progress.Tracked? && s.calls[r].request.Register?
    ensures var c := s.calls[r];
            var entity := c.progress.entity;
            Matches(env, s, Commit(r), Step(env, s, Commit(r)).value, at,
                    Effect(at, Client(r), RegisterOp(c.request.email, c.request.password,
                                                     entity.passwordHash.salt, entity.createdAt)))
  {
    var c := s.calls[r];
    InsertIsRegister(env, s.table, c.request, c.progress.entity);
    CommitStep(env, s, r);
  }

  lemma CommitStep(env: Runtime, s: State, r: nat)
    requires Step(env, s, Commit(r)).Some? && r in s.calls && s.calls[r].progress.Tracked?
    ensures var s' := Step(env, s, Commit(r)).value;
            && r in s'.calls
            && match Insert(s.table, s.calls[r].progress.entity)
               case Err(e) => s'.table == s.table && Answer(s'.calls[r]) == Some(Handle(e))
               case Ok(t) => s'.table == t && Answer(s'.calls[r]) == Some(Created(ToResponse(Last(t.rows))))
  {
  }

  lemma CheckIsItsEffect(env: Runtime, s: State, r: nat, at: nat)
    requires Step(env, s, Check(r)).Some?
    ensures var s' := Step(env, s, Check(r)).value;
            var es := EffectOf(env, s, Check(r), at);
            (es == [] && s'.table == s.table) || (|es| == 1 && Matches(env, s, Check(r), s', at, es[0]))
  {
    if !CheckOutcome(env, s.table, s.calls[r].request).FoundFree? {
      RefusalMatches(env, s, r, at);
    }
  }

  lemma RefusalMatches(env: Runtime, s: State, r: nat, at: nat)
    requires Step(env, s, Check(r)).Some? && !CheckOutcome(env, s.table, s.calls[r].request).FoundFree?
    ensures var q := s.calls[r].request;
            Matches(env, s, Check(r), Step(env, s, Check(r)).value, at,
                    Effect(at, Client(r), RegisterOp(q.email, q.password, 0, 0)))
  {
    CheckRefusesAtomically(env, s.table, s.calls[r].request);
  }

  /** What the check refuses, the atomic registration refuses alike. */
  lemma CheckRefusesAtomically(env: Runtime, t: Table, q: Request)
    requires q.Register?
    ensures var p := CheckOutcome(env, t, q);
            || p == FoundFree
            || (&& p.Answered? && AsSequential(q, p.response) == p.response
                && RegisterAtomically(env, t, q.email, q.password, 0, 0) == (t, p.response))
  {
  }

  lemma FetchIsItsEffect(env: Runtime, s: State, r: nat, at: nat)
    requires Step(env, s, Fetch(r)).Some?
    ensures var es := EffectOf(env, s, Fetch(r), at);
            |es| == 1 && Matches(env, s, Fetch(r), Step(env, s, Fetch(r)).value, at, es[0])
  {
    var q, answer := s.calls[r].request, FetchOutcome(env, s.table, s.calls[r].request);
    assert AsSequential(q, answer) == answer;
  }

  /** An action matches its atomic operation, or has no operation and no effect on the table. */
  lemma ActionMatches(env: Runtime, s: State, a: Action, at: nat)
    requires StateOk(env, s) && Step(env, s, a).Some?
    ensures var s' := Step(env, s, a).value;
            var es := EffectOf(env, s, a, at);
            (es == [] && s'.table == s.table) || (|es| == 1 && Matches(env, s, a, s', at, es[0]))
  {
    match a
    case Check(r) => CheckIsItsEffect(env, s, r, at);
    case Commit(r) => CommitIsItsEffect(env, s, r, at);
    case Fetch(r) => FetchIsItsEffect(env, s, r, at);
    case _ =>
  }

  /** Only the call whose action has an effect is newly answered. */
  lemma OnlyTheEffectAnswers(env: Runtime, s: State, a: Action, at: nat, r: nat)
    requires StateOk(env, s) && Step(env, s, a).Some?
    requires r in Step(env, s, a).value.calls && Answer(Step(env, s, a).value.calls[r]).Some?
    ensures (r in s.calls && Answer(s.calls[r]) == Answer(Step(env, s, a).value.calls[r]))
         || (EffectOf(env, s, a, at) != [] && EffectOf(env, s, a, at)[0].actor == Client(r))
  {
    if r in s.calls {
      assert CallOk(env, s.calls[r]);
    }
  }

  /** An action does what its atomic operation does, or changes no row and answers no call. */
  lemma ActionIsItsEffect(env: Runtime, s: State, a: Action, at: nat)
    requires StateOk(env, s) && Step(env, s, a).Some?
    ensures var s' := Step(env, s, a).value;
            var es := EffectOf(env, s, a, at);
            && (es == [] ==> s'.table == s.table)
            && (es != [] ==> |es| == 1 && Matches(env, s, a, s', at, es[0]))
            && forall r | r in s'.calls && Answer(s'.calls[r]).Some? && (es == [] || es[0].actor != Client(r)) ::
                 r in s.calls && Answer(s.calls[r]) == Answer(s'.calls[r])
  {
    var s', es := Step(env, s, a).value, EffectOf(env, s, a, at);
    ActionMatches(env, s, a, at);
    forall r | r in s'.calls && Answer(s'.calls[r]).Some? && (es == [] || es[0].actor != Client(r))
      ensures r in s.calls && Answer(s.calls[r]) == Answer(s'.calls[r])
    {
      OnlyTheEffectAnswers(env, s, a, at, r);
    }
  }

  // ----- Where calls stand in the trace -----

  ghost predicate InvokedIn(trace: seq<Action>, r: nat, q: Request) {
    exists k :: 0 <= k < |trace| && trace[k] == Invoke(r, q)
  }

  lemma {:induction false} CallsWereInvoked(env: Runtime, s0: State, trace: seq<Action>, r: nat)
    requires s0.calls == map[] && Exec(env, s0, trace).Some? && r in Final(env, s0, trace).calls
    ensures InvokedIn(trace, r, Final(env, s0, trace).calls[r].request)
  {
    var before := Final(env, s0, Init(trace));
    if r in before.calls {
      CallsWereInvoked(env, s0, Init(trace), r);
      StepGrows(env, before, Last(trace));
      var k :| 0 <= k < |trace| - 1 && Init(trace)[k] == Invoke(r, before.calls[r].request);
      assert trace[k] == Invoke(r, before.calls[r].request);
    } else {
      assert Last(trace) == Invoke(r, Final(env, s0, trace).calls[r].request);
      assert trace[|trace| - 1] == Last(trace);
    }
  }

  lemma {:induction false} ReturnsAreFinal(env: Runtime, s0: State, trace: seq<Action>, r: nat)
    requires Exec(env, s0, trace).Some?
    requires exists k :: 0 <= k < |trace| && trace[k] == Return(r)
    ensures r in Final(env, s0, trace).calls && Answer(Final(env, s0, trace).calls[r]).Some?
  {
    var k :| 0 <= k < |trace| && trace[k] == Return(r);
    StateAtStep(env, s0, trace, k);
    RunGrows(env, s0, trace, k + 1, |trace|);
    StateAtEnds(env, s0, trace);
  }

  lemma NotYetReturned(env: Runtime, s0: State, trace: seq<Action>, r: nat)
    requires Exec(env, s0, trace).Some?
    requires r in Final(env, s0, trace).calls && Answer(Final(env, s0, trace).calls[r]).None?
    ensures forall k :: 0 <= k < |trace| ==> trace[k] != Return(r)
  {
    if exists k :: 0 <= k < |trace| && trace[k] == Return(r) {
      ReturnsAreFinal(env, s0, trace, r);
    }
  }

  // ----- The theorem -----

  lemma ReplayExtends(env: Runtime, t: Table, es: seq<Effect>, e: Effect)
    ensures var before := Replay(env, t, es);
            Replay(env, t, es + [e]) == (Apply(env, before.0, e.op).0, before.1 + [Apply(env, before.0, e.op).1])
  {
    assert Init(es + [e]) == es;
  }

  lemma OrderExtends(trace: seq<Action>, a: Action, es: seq<Effect>, added: seq<Effect>)
    requires Ordered(trace, es) && |added| <= 1 && (added != [] ==> added[0].at == |trace|)
    ensures Ordered(trace + [a], es + added)
  {
  }

  lemma OldEffectStaysWithin(trace: seq<Action>, s: State, a: Action, s': State, e: Effect)
    requires WithinItsCall(trace, s.calls, e) && e.at < |trace| && Grows(s, s')
    ensures WithinItsCall(trace + [a], s'.calls, e)
  {
    var t := trace + [a];
    if e.actor.Client? {
      var r := e.actor.r;
      var k :| 0 <= k < e.at && k < |trace| && trace[k] == Invoke(r, s.calls[r].request);
      assert t[k] == Invoke(r, s.calls[r].request);
      forall n | 0 <= n < |t| && t[n] == Return(r)
        ensures e.at < n
      {
        assert n < |trace| ==> trace[n] == t[n];
      }
    }
  }

  lemma OldEffectsStayWithin(trace: seq<Action>, s: State, a: Action, s': State, es: seq<Effect>)
    requires Ordered(trace, es) && AllWithin(trace, s.calls, es) && Grows(s, s')
    ensures AllWithin(trace + [a], s'.calls, es)
  {
    forall i | 0 <= i < |es|
      ensures WithinItsCall(trace + [a], s'.calls, es[i])
    {
      OldEffectStaysWithin(trace, s, a, s', es[i]);
    }
  }

  /** An unanswered call is in progress at the action that comes next, unless that is its return. */
  lemma UnansweredIsInProgress(env: Runtime, s0: State, trace: seq<Action>, a: Action, r: nat)
    requires s0.calls == map[] && Exec(env, s0, trace).Some? && a != Return(r)
    requires r in Final(env, s0, trace).calls && Answer(Final(env, s0, trace).calls[r]).None?
    ensures InProgress(trace + [a], |trace|, r, Final(env, s0, trace).calls[r].request)
  {
    var t, q := trace + [a], Final(env, s0, trace).calls[r].request;
    CallsWereInvoked(env, s0, trace, r);
    NotYetReturned(env, s0, trace, r);
    var k :| 0 <= k < |trace| && trace[k] == Invoke(r, q);
    assert t[k] == Invoke(r, q);
    assert forall n :: 0 <= n < |trace| ==> t[n] == trace[n];
  }

  lemma NewEffectIsWithin(env: Runtime, s0: State, trace: seq<Action>, a: Action)
    requires s0.calls == map[] && Exec(env, s0, trace).Some? && StateOk(env, Final(env, s0, trace))
    requires Step(env, Final(env, s0, trace), a).Some?
    requires EffectOf(env, Final(env, s0, trace), a, |trace|) != []
    ensures WithinItsCall(trace + [a], Step(env, Final(env, s0, trace), a).value.calls,
                          EffectOf(env, Final(env, s0, trace), a, |trace|)[0])
  {
    var s := Final(env, s0, trace);
    var e := EffectOf(env, s, a, |trace|)[0];
    ActionMatches(env, s, a, |trace|);
    StepGrows(env, s, a);
    if e.actor.Client? {
      UnansweredIsInProgress(env, s0, trace, a, e.actor.r);
    }
  }

  lemma AllStayWithin(env: Runtime, s0: State, trace: seq<Action>, a: Action, es: seq<Effect>)
    requires s0.calls == map[] && Exec(env, s0, trace).Some? && StateOk(env, Final(env, s0, trace))
    requires Step(env, Final(env, s0, trace), a).Some?
    requires Ordered(trace, es) && AllWithin(trace, Final(env, s0, trace).calls, es)
    ensures AllWithin(trace + [a], Step(env, Final(env, s0, trace), a).value.calls,
                      es + EffectOf(env, Final(env, s0, trace), a, |trace|))
  {
    var s := Final(env, s0, trace);
    ActionMatches(env, s, a, |trace|);
    StepGrows(env, s, a);
    OldEffectsStayWithin(trace, s, a, Step(env, s, a).value, es);
    if EffectOf(env, s, a, |trace|) != [] {
      NewEffectIsWithin(env, s0, trace, a);
    }
    WithinAppends(trace + [a], Step(env, s, a).value.calls, es, EffectOf(env, s, a, |trace|));
  }

  lemma WithinAppends(trace: seq<Action>, calls: map<nat, Call>, es: seq<Effect>, added: seq<Effect>)
    requires AllWithin(trace, calls, es) && AllWithin(trace, calls, added)
    ensures AllWithin(trace, calls, es + added)
  {
  }

  /** Effects of clients belong to answered calls. */
  ghost predicate ByAnswered(calls: map<nat, Call>, es: seq<Effect>) {
    forall i :: 0 <= i < |es| && es[i].actor.Client? ==>
      es[i].actor.r in calls && Answer(calls[es[i].actor.r]).Some?
  }

  lemma OnceExtends(env: Runtime, s: State, a: Action, at: nat, es: seq<Effect>)
    requires StateOk(env, s) && Step(env, s, a).Some? && AtMostOnce(es) && ByAnswered(s.calls, es)
    ensures AtMostOnce(es + EffectOf(env, s, a, at))
    ensures ByAnswered(Step(env, s, a).value.calls, es + EffectOf(env, s, a, at))
  {
    ActionMatches(env, s, a, at);
    AnsweredExtends(env, s, a, at, es);
    if EffectOf(env, s, a, at) != [] {
      OnceAppends(s.calls, es, EffectOf(env, s, a, at)[0]);
      assert EffectOf(env, s, a, at) == [EffectOf(env, s, a, at)[0]];
    } else {
      assert es + EffectOf(env, s, a, at) == es;
    }
  }

  lemma OnceAppends(calls: map<nat, Call>, es: seq<Effect>, e: Effect)
    requires AtMostOnce(es) && ByAnswered(calls, es)
    requires e.actor.Client? ==> e.actor.r in calls && Answer(calls[e.actor.r]).None?
    ensures AtMostOnce(es + [e])
  {
  }

  lemma AnsweredExtends(env: Runtime, s: State, a: Action, at: nat, es: seq<Effect>)
    requires StateOk(env, s) && Step(env, s, a).Some? && ByAnswered(s.calls, es)
    ensures ByAnswered(Step(env, s, a).value.calls, es + EffectOf(env, s, a, at))
  {
    var s', es' := Step(env, s, a).value, es + EffectOf(env, s, a, at);
    ActionMatches(env, s, a, at);
    StepGrows(env, s, a);
    forall i | 0 <= i < |es'| && es'[i].actor.Client?
      ensures es'[i].actor.r in s'.calls && Answer(s'.calls[es'[i].actor.r]).Some?
    {
      assert i < |es| ==> es'[i] == es[i];
    }
  }

  lemma ExplainedStays(calls: map<nat, Call>, calls': map<nat, Call>, r: nat, es: seq<Effect>, es': seq<Effect>,
                       answers: seq<Option<Response>>, answers': seq<Option<Response>>)
    requires |es| == |answers| && |es'| == |answers'| && es <= es' && answers <= answers'
    requires r in calls && r in calls' && calls'[r].request == calls[r].request && Answer(calls'[r]) == Answer(calls[r])
    requires Explained(calls, r, es, answers)
    ensures Explained(calls', r, es', answers')
  {
    var i :| 0 <= i < |es| && es[i].actor == Client(r)
          && answers[i] == Some(AsSequential(calls[r].request, Answer(calls[r]).value));
    assert es'[i] == es[i] && answers'[i] == answers[i];
  }

  lemma ExplanationsExtend(
      env: Runtime, s0: State, s: State, a: Action, at: nat, es: seq<Effect>, r: nat)
    requires StateOk(env, s) && Step(env, s, a).Some?
    requires Replay(env, s0.table, es).0 == s.table
    requires AllExplained(s.calls, es, Replay(env, s0.table, es).1)
    requires var s' := Step(env, s, a).value; r in s'.calls && Answer(s'.calls[r]).Some?
    ensures var es' := es + EffectOf(env, s, a, at);
            Explained(Step(env, s, a).value.calls, r, es', Replay(env, s0.table, es').1)
  {
    var s' := Step(env, s, a).value;
    var added := EffectOf(env, s, a, at);
    var es' := es + added;
    ActionMatches(env, s, a, at);
    OnlyTheEffectAnswers(env, s, a, at, r);
    StepGrows(env, s, a);
    var before, after := Replay(env, s0.table, es).1, Replay(env, s0.table, es').1;
    if added == [] {
      assert es' == es;
    } else {
      assert added == [added[0]];
      ReplayExtends(env, s0.table, es, added[0]);
    }
    if r in s.calls && Answer(s.calls[r]) == Answer(s'.calls[r]) {
      assert Explained(s.calls, r, es, before);
      ExplainedStays(s.calls, s'.calls, r, es, es', before, after);
    } else {
      assert es'[|es|].actor == Client(r);
    }
  }

  lemma AdministeredExtends(env: Runtime, s: State, trace: seq<Action>, a: Action, es: seq<Effect>)
    requires AdministersAll(trace, es)
    ensures AdministersAll(trace + [a], es + EffectOf(env, s, a, |trace|))
  {
    var t, es' := trace + [a], es + EffectOf(env, s, a, |trace|);
    forall k | 0 <= k < |t| && t[k].Administer?
      ensures exists i :: 0 <= i < |es'| && es'[i].at == k
    {
      if k < |trace| {
        assert trace[k].Administer?;
        var i :| 0 <= i < |es| && es[i].at == k;
        assert es'[i].at == k;
      } else {
        assert es'[|es|].at == k;
      }
    }
  }

  lemma ReplayFollows(env: Runtime, s0: State, s: State, a: Action, at: nat, es: seq<Effect>)
    requires StateOk(env, s) && Step(env, s, a).Some? && Replay(env, s0.table, es).0 == s.table
    ensures Replay(env, s0.table, es + EffectOf(env, s, a, at)).0 == Step(env, s, a).value.table
  {
    var added := EffectOf(env, s, a, at);
    ActionMatches(env, s, a, at);
    if added == [] {
      assert es + added == es;
    } else {
      assert added == [added[0]];
      ReplayExtends(env, s0.table, es, added[0]);
    }
  }

  /** One more action: what linearizes the run so far, extended by the effect of the action, linearizes all. */
  lemma LinearizationExtends(env: Runtime, s0: State, trace: seq<Action>, a: Action, es: seq<Effect>)
    requires Run(env, s0, trace + [a]) && Run(env, s0, trace)
    requires Linearizes(env, s0, trace, es) && ByAnswered(Final(env, s0, trace).calls, es)
    requires Final(env, s0, trace + [a]) == Step(env, Final(env, s0, trace), a).value
    requires StateOk(env, Final(env, s0, trace)) && Step(env, Final(env, s0, trace), a).Some?
    ensures var es' := es + EffectOf(env, Final(env, s0, trace), a, |trace|);
            Linearizes(env, s0, trace + [a], es') && ByAnswered(Final(env, s0, trace + [a]).calls, es')
  {
    var s, s' := Final(env, s0, trace), Final(env, s0, trace + [a]);
    var added := EffectOf(env, s, a, |trace|);
    ActionMatches(env, s, a, |trace|);
    StepGrows(env, s, a);
    ReplayFollows(env, s0, s, a, |trace|, es);
    OrderExtends(trace, a, es, added);
    AllStayWithin(env, s0, trace, a, es);
    OnceExtends(env, s, a, |trace|, es);
    forall r | r in s'.calls && Answer(s'.calls[r]).Some?
      ensures Explained(s'.calls, r, es + added, Replay(env, s0.table, es + added).1)
    {
      ExplanationsExtend(env, s0, s, a, |trace|, es, r);
    }
    AdministeredExtends(env, s, trace, a, es);
  }

  lemma RunSplits(env: Runtime, s0: State, trace: seq<Action>)
    requires Run(env, s0, trace) && trace != []
    ensures trace == Init(trace) + [Last(trace)] && Run(env, s0, Init(trace))
    ensures Step(env, Final(env, s0, Init(trace)), Last(trace)) == Some(Final(env, s0, trace))
    ensures Effects(env, s0, trace) == Effects(env, s0, Init(trace))
                                     + EffectOf(env, Final(env, s0, Init(trace)), Last(trace), |Init(trace)|)
  {
  }

  lemma {:induction false} EffectsLinearize(env: Runtime, s0: State, trace: seq<Action>)
    requires LawfulText(env) && Run(env, s0, trace)
    ensures Linearizes(env, s0, trace, Effects(env, s0, trace))
    ensures ByAnswered(Final(env, s0, trace).calls, Effects(env, s0, trace))
  {
    if trace != [] {
      RunSplits(env, s0, trace);
      EffectsLinearize(env, s0, Init(trace));
      EveryStateOk(env, s0, Init(trace));
      LinearizationExtends(env, s0, Init(trace), Last(trace), Effects(env, s0, Init(trace)));
    }
  }

  /** Any interleaving of any number of requests is linearizable. */
  lemma EveryRunIsLinearizable(env: Runtime, s0: State, trace: seq<Action>)
    requires LawfulText(env) && Run(env, s0, trace)
    ensures exists es :: Linearizes(env, s0, trace, es)
  {
    EffectsLinearize(env, s0, trace);
  }

  // ----- Runs that need no rereading of answers -----

  /** As `Linearizes`, with every call answered in the run exactly as its operation answers. */
  ghost predicate LinearizesVerbatim(env: Runtime, s0: State, trace: seq<Action>, es: seq<Effect>)
    requires Exec(env, s0, trace).Some?
  {
    && Linearizes(env, s0, trace, es)
    && AllVerbatim(Final(env, s0, trace).calls, es, Replay(env, s0.table, es).1)
  }

  ghost predicate AllVerbatim(calls: map<nat, Call>, es: seq<Effect>, answers: seq<Option<Response>>)
    requires |es| == |answers|
  {
    forall r | r in calls && Answer(calls[r]).Some? :: Verbatim(calls, r, es, answers)
  }

  ghost predicate Verbatim(calls: map<nat, Call>, r: nat, es: seq<Effect>, answers: seq<Option<Response>>)
    requires |es| == |answers| && r in calls
  {
    exists i :: 0 <= i < |es| && es[i].actor == Client(r) && answers[i] == Answer(calls[r])
  }

  predicate IsServerError(c: Call) {
    c.request.Register? && Answer(c).Some? && StatusOf(Answer(c).value) == 500
  }

  /** In a sequential run every answer is that of an atomic operation on some table. */
  lemma {:induction false} ReplayAnswers(env: Runtime, t: Table, es: seq<Effect>, i: nat) returns (before: Table)
    requires i < |es|
    ensures Replay(env, t, es).1[i] == Apply(env, before, es[i].op).1
    decreases |es|
  {
    if i == |es| - 1 {
      before := Replay(env, t, Init(es)).0;
    } else {
      before := ReplayAnswers(env, t, Init(es), i);
    }
  }

  /** A registration answered 500 is answered so by no sequential run. */
  lemma ServerErrorIsNotVerbatim(env: Runtime, s0: State, trace: seq<Action>, es: seq<Effect>, r: nat)
    requires Exec(env, s0, trace).Some? && Linearizes(env, s0, trace, es)
    requires r in Final(env, s0, trace).calls && IsServerError(Final(env, s0, trace).calls[r])
    ensures !Verbatim(Final(env, s0, trace).calls, r, es, Replay(env, s0.table, es).1)
  {
    var calls, answers := Final(env, s0, trace).calls, Replay(env, s0.table, es).1;
    forall i | 0 <= i < |es| && es[i].actor == Client(r)
      ensures answers[i] != Answer(calls[r])
    {
      assert WithinItsCall(trace, calls, es[i]);
      var before := ReplayAnswers(env, s0.table, es, i);
      AtomicallyNeverServerError(env, before, es[i].op);
    }
  }

  lemma AtomicallyNeverServerError(env: Runtime, t: Table, op: Op)
    requires op.RegisterOp?
    ensures Apply(env, t, op).1.Some? && StatusOf(Apply(env, t, op).1.value) in {201, 400, 409}
  {
  }

  /** A run has a linearization with its own answers exactly if no registration in it was answered 500. */
  lemma LinearizableVerbatimIff(env: Runtime, s0: State, trace: seq<Action>)
    requires LawfulText(env) && Run(env, s0, trace)
    ensures (exists es :: LinearizesVerbatim(env, s0, trace, es))
       <==> forall r | r in Final(env, s0, trace).calls :: !IsServerError(Final(env, s0, trace).calls[r])
  {
    var calls := Final(env, s0, trace).calls;
    if es :| LinearizesVerbatim(env, s0, trace, es) {
      forall r | r in calls
        ensures !IsServerError(calls[r])
      {
        if IsServerError(calls[r]) {
          ServerErrorIsNotVerbatim(env, s0, trace, es, r);
        }
      }
    }
    if forall r | r in calls :: !IsServerError(calls[r]) {
      EffectsLinearize(env, s0, trace);
      EffectsAreVerbatim(calls, Effects(env, s0, trace), Replay(env, s0.table, Effects(env, s0, trace)).1);
      assert LinearizesVerbatim(env, s0, trace, Effects(env, s0, trace));
    }
  }

  lemma EffectsAreVerbatim(calls: map<nat, Call>, es: seq<Effect>, answers: seq<Option<Response>>)
    requires |es| == |answers| && AllExplained(calls, es, answers)
    requires forall r | r in calls :: !IsServerError(calls[r])
    ensures AllVerbatim(calls, es, answers)
  {
    forall r | r in calls && Answer(calls[r]).Some?
      ensures Verbatim(calls, r, es, answers)
    {
      assert Explained(calls, r, es, answers);
      assert !IsServerError(calls[r]);
    }
  }
}
