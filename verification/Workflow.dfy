/**
 Runs of the delivery workflow: verdicts move the current stage, stages write the artifacts they own, and every
 artifact records the versions of what it was made from.
 */
module Workflow {
  import opened Options
  import opened StageMap

  /** The current version of an artifact and its `inputs` block. */
  datatype Doc = Doc(version: nat, inputs: map<Artifact, nat>)

  type Store = map<Artifact, Doc>

  datatype Verdict =
    | Pass
    | ChangesRequired(key: string)
    | Blocked
    | NotApplicable
    | Approved
    | Rejected

  /** A recorded result: the verdict, and which of its outputs the stage changed. */
  datatype Event = Event(verdict: Verdict, revised: set<Artifact>)

  /** `notApplicable` holds the stages whose last recorded verdict was NOT_APPLICABLE. */
  datatype Progress = Progress(stage: Stage, store: Store, notApplicable: set<Stage>)

  const START: Progress := Progress(BACKLOG_SYNC, map[], {})

  /** A design artifact is not required while its owner's last verdict is NOT_APPLICABLE. */
  predicate Excused(notApplicable: set<Stage>, a: Artifact) {
    Conditional(a) && Owner(a) in notApplicable
  }

  /** The `inputs` block a stage writes: every input it consumed, at its current version. */
  function Consumed(s: Stage, store: Store, notApplicable: set<Stage>): map<Artifact, nat> {
    map a | a in Inputs(s) && a in store && !Excused(notApplicable, a) :: store[a].version
  }

  /** NOT_APPLICABLE is for optional stages; the design review may use it only if both designs did. */
  predicate MayBeNotApplicable(p: Progress) {
    Optional(p.stage) && (p.stage == DESIGN_REVIEW ==> {API_DESIGN, DB_DESIGN} <= p.notApplicable)
  }

  predicate IsHold(s: Stage, verdict: Verdict) {
    verdict.Blocked? || (verdict.ChangesRequired? && LoopBack(s, verdict.key).None?)
  }

  predicate IsForward(verdict: Verdict) {
    verdict.Pass? || verdict.NotApplicable? || verdict.Approved?
  }

  /** Where a verdict leads, or `None` if the stage cannot receive it; an unknown loop-back key holds the stage. */
  function Target(p: Progress, verdict: Verdict): Option<Stage> {
    match KindOf(p.stage)
    case Terminal => None
    case HumanGate =>
      (match verdict
       case Approved => Some(Next(p.stage))
       case Rejected => Some(OnReject(p.stage))
       case _ => None)
    case Automated =>
      (match verdict
       case Pass => Some(Next(p.stage))
       case NotApplicable => if MayBeNotApplicable(p) then Some(Next(p.stage)) else None
       case Blocked => Some(p.stage)
       case ChangesRequired(key) =>
         (match LoopBack(p.stage, key)
          case Some(target) => Some(target)
          case None => Some(p.stage))
       case _ => None)
  }

  /** An output left unchanged exists already and was made from what its stage would consume now. */
  predicate UpToDate(p: Progress, o: Artifact) {
    o in p.store && p.store[o].inputs == Consumed(p.stage, p.store, p.notApplicable)
  }

  /**
   What a stage may write with a verdict. Only owners write. A stage that passes has all its outputs, each either
   revised or up to date; so has a design review that is not applicable. The two design stages write nothing when
   they are not applicable.
   */
  predicate MayWrite(p: Progress, e: Event) {
    && e.revised <= Outputs(p.stage)
    && (e.verdict.Pass? || (e.verdict.NotApplicable? && p.stage == DESIGN_REVIEW) ==>
          forall o | o in Outputs(p.stage) :: o in e.revised || UpToDate(p, o))
    && (e.verdict.NotApplicable? && p.stage != DESIGN_REVIEW ==> e.revised == {})
  }

  function Revised(p: Progress, revised: set<Artifact>): Store {
    map a | a in p.store.Keys + revised ::
      if a in revised then
        Doc((if a in p.store then p.store[a].version else 0) + 1, Consumed(p.stage, p.store, p.notApplicable))
      else p.store[a]
  }

  function Step(p: Progress, e: Event): Option<Progress> {
    var target := Target(p, e.verdict);
    if target.None? || !MayWrite(p, e) then None
    else
      var flags := if e.verdict.NotApplicable? then p.notApplicable + {p.stage} else p.notApplicable - {p.stage};
      Some(Progress(target.value, Revised(p, e.revised), flags))
  }

  // ----- Runs -----

  function Exec(events: seq<Event>): Option<Progress> {
    if events == [] then Some(START)
    else
      var before := Exec(events[..|events| - 1]);
      if before.None? then None else Step(before.value, events[|events| - 1])
  }

  predicate IsRun(events: seq<Event>) {
    Exec(events).Some?
  }

  lemma {:induction false} PrefixIsRun(events: seq<Event>, n: nat)
    requires IsRun(events) && n <= |events|
    ensures IsRun(events[..n])
  {
    if n == |events| {
      assert events[..n] == events;
    } else {
      var shorter := events[..|events| - 1];
      PrefixIsRun(shorter, n);
      assert shorter[..n] == events[..n];
    }
  }

  /** The progress after the first `n` events. */
  function After(events: seq<Event>, n: nat): Progress
    requires IsRun(events) && n <= |events|
  {
    PrefixIsRun(events, n);
    Exec(events[..n]).value
  }

  function StageAt(events: seq<Event>, n: nat): Stage
    requires IsRun(events) && n <= |events|
  {
    After(events, n).stage
  }

  lemma AfterStep(events: seq<Event>, n: nat)
    requires IsRun(events) && n < |events|
    ensures Step(After(events, n), events[n]) == Some(After(events, n + 1))
  {
    PrefixIsRun(events, n + 1);
    assert events[..n + 1][..n] == events[..n];
  }

  lemma AfterOfPrefix(events: seq<Event>, k: nat, n: nat)
    requires IsRun(events) && n <= k <= |events|
    ensures IsRun(events[..k]) && After(events[..k], n) == After(events, n)
  {
    PrefixIsRun(events, k);
    assert events[..k][..n] == events[..n];
  }

  lemma StepIndex(p: Progress, e: Event)
    requires Step(p, e).Some?
    ensures p.stage != ARCHIVED
    ensures IsForward(e.verdict) ==> Index(Step(p, e).value.stage) == Index(p.stage) + 1
    ensures IsHold(p.stage, e.verdict) ==> Step(p, e).value.stage == p.stage
    ensures !IsForward(e.verdict) ==> Index(p.stage) - 16 <= Index(Step(p, e).value.stage) <= Index(p.stage)
    ensures IsForward(e.verdict) && KindOf(p.stage) == HumanGate ==> e.verdict.Approved?
  {
    ForwardIsNextInOrder(p.stage);
    match e.verdict
    case ChangesRequired(key) => BackwardNeverAdvances(p.stage, key);
    case _ => BackwardNeverAdvances(p.stage, "");
  }

  // ----- Freshness of passes and approvals -----

  /** Event `m` left stage `s` forward, and the run has stayed beyond `s` ever since. */
  ghost predicate LastPass(events: seq<Event>, s: Stage, m: nat)
    requires IsRun(events)
  {
    && m < |events| && StageAt(events, m) == s && IsForward(events[m].verdict)
    && forall n :: m < n <= |events| ==> Index(StageAt(events, n)) > Index(s)
  }

  /** Positions that move up by one on a forward step and never up otherwise. */
  ghost predicate IsPath(positions: seq<nat>, forward: seq<bool>) {
    && |positions| == |forward| + 1
    && forall n :: 0 <= n < |forward| ==>
         if forward[n] then positions[n + 1] == positions[n] + 1 else positions[n + 1] <= positions[n]
  }

  lemma {:induction false} LastForwardThrough(positions: seq<nat>, forward: seq<bool>, j: nat) returns (m: nat)
    requires IsPath(positions, forward) && positions[0] <= j < positions[|forward|]
    ensures m < |forward| && positions[m] == j && forward[m]
    ensures forall n :: m < n < |positions| ==> positions[n] > j
    decreases |forward|
  {
    var k := |forward| - 1;
    if j < positions[k] {
      m := LastForwardThrough(positions[..k + 1], forward[..k], j);
      assert forall n :: 0 <= n <= k ==> positions[..k + 1][n] == positions[n];
    } else {
      m := k;
    }
  }

  lemma RunIsPath(events: seq<Event>) returns (positions: seq<nat>, forward: seq<bool>)
    requires IsRun(events)
    ensures IsPath(positions, forward) && |forward| == |events|
    ensures forall n :: 0 <= n <= |events| ==> positions[n] == Index(StageAt(events, n))
    ensures forall n :: 0 <= n < |events| ==> forward[n] == IsForward(events[n].verdict)
  {
    positions := seq(|events| + 1, n requires 0 <= n <= |events| => Index(StageAt(events, n)));
    forward := seq(|events|, n requires 0 <= n < |events| => IsForward(events[n].verdict));
    forall n | 0 <= n < |events|
      ensures if forward[n] then positions[n + 1] == positions[n] + 1 else positions[n + 1] <= positions[n]
    {
      AfterStep(events, n);
      StepIndex(After(events, n), events[n]);
    }
  }

  lemma PassesAreFresh(events: seq<Event>, s: Stage) returns (m: nat)
    requires IsRun(events) && Index(s) < Index(StageAt(events, |events|))
    ensures LastPass(events, s, m)
  {
    StartsAtStart(events);
    var positions, forward := RunIsPath(events);
    m := LastForwardThrough(positions, forward, Index(s));
    IndexInjective(s, StageAt(events, m));
  }

  lemma StartsAtStart(events: seq<Event>)
    requires IsRun(events)
    ensures After(events, 0) == START && After(events, |events|) == Exec(events).value
  {
    assert events[..|events|] == events;
  }

  /**
   In every run, each stage before the current one was last left by a pass, an approval or a permitted
   NOT_APPLICABLE; nothing up to that stage was visited since; and these last passes happened in stage order.
   */
  lemma FreshPassesInOrder(events: seq<Event>, s: Stage, t: Stage) returns (m: nat, n: nat)
    requires IsRun(events) && Index(s) < Index(t) < Index(StageAt(events, |events|))
    ensures LastPass(events, s, m) && LastPass(events, t, n) && m < n
  {
    m := PassesAreFresh(events, s);
    n := PassesAreFresh(events, t);
  }

  /** Whenever a run has been at or before a human gate, it is beyond the gate only after a new approval. */
  lemma GatesAreApprovedAgain(events: seq<Event>, gate: Stage, n: nat) returns (m: nat)
    requires IsRun(events) && n <= |events| && KindOf(gate) == HumanGate
    requires Index(StageAt(events, n)) <= Index(gate) < Index(StageAt(events, |events|))
    ensures n <= m < |events| && StageAt(events, m) == gate && events[m].verdict.Approved?
  {
    m := PassesAreFresh(events, gate);
    AfterStep(events, m);
    StepIndex(After(events, m), events[m]);
  }

  // ----- Currency of artifacts -----

  /** The outputs of a stage are excused, or present and made from what the stage would consume now. */
  ghost predicate Settled(store: Store, notApplicable: set<Stage>, s: Stage) {
    forall o | o in Outputs(s) :: Excused(notApplicable, o)
                               || (o in store && store[o].inputs == Consumed(s, store, notApplicable))
  }

  ghost predicate SettledUpTo(p: Progress) {
    forall s: Stage :: Index(s) < Index(p.stage) ==> Settled(p.store, p.notApplicable, s)
  }

  /** Steps taken at a later stage do not touch what earlier stages own. */
  lemma StepKeepsEarlierArtifacts(p: Progress, e: Event, a: Artifact)
    requires Step(p, e).Some? && Owner(a) != p.stage
    ensures var p' := Step(p, e).value;
            && (a in p'.store <==> a in p.store)
            && (a in p.store ==> p'.store[a] == p.store[a])
            && (Excused(p'.notApplicable, a) <==> Excused(p.notApplicable, a))
  {
    OutputsAreOwned(p.stage, a);
  }

  lemma StepKeepsConsumed(p: Progress, e: Event, s: Stage)
    requires Step(p, e).Some? && Index(s) <= Index(p.stage)
    ensures var p' := Step(p, e).value;
            Consumed(s, p'.store, p'.notApplicable) == Consumed(s, p.store, p.notApplicable)
  {
    forall a | a in Inputs(s)
      ensures Owner(a) != p.stage
    {
      InputsComeFromEarlier(s, a);
    }
    forall a | a in Inputs(s)
      ensures var p' := Step(p, e).value;
              && (a in p'.store <==> a in p.store)
              && (a in p.store ==> p'.store[a] == p.store[a])
              && (Excused(p'.notApplicable, a) <==> Excused(p.notApplicable, a))
    {
      StepKeepsEarlierArtifacts(p, e, a);
    }
  }

  lemma StepKeepsSettled(p: Progress, e: Event, s: Stage)
    requires Step(p, e).Some? && Index(s) < Index(p.stage) && Settled(p.store, p.notApplicable, s)
    ensures Settled(Step(p, e).value.store, Step(p, e).value.notApplicable, s)
  {
    StepKeepsConsumed(p, e, s);
    forall o | o in Outputs(s)
      ensures Owner(o) == s
    {
      OutputsAreOwned(s, o);
    }
    var p' := Step(p, e).value;
    forall o | o in Outputs(s)
      ensures Excused(p'.notApplicable, o)
           || (o in p'.store && p'.store[o].inputs == Consumed(s, p'.store, p'.notApplicable))
    {
      StepKeepsEarlierArtifacts(p, e, o);
    }
  }

  lemma ForwardSettles(p: Progress, e: Event)
    requires Step(p, e).Some? && IsForward(e.verdict)
    ensures Settled(Step(p, e).value.store, Step(p, e).value.notApplicable, p.stage)
  {
    var p' := Step(p, e).value;
    StepKeepsConsumed(p, e, p.stage);
    forall o | o in Outputs(p.stage)
      ensures Excused(p'.notApplicable, o)
           || (o in p'.store && p'.store[o].inputs == Consumed(p.stage, p'.store, p'.notApplicable))
    {
      OutputsAreOwned(p.stage, o);
    }
  }

  lemma {:induction false} EarlierStagesSettled(events: seq<Event>)
    requires IsRun(events)
    ensures SettledUpTo(Exec(events).value)
  {
    if events != [] {
      var earlier, e := events[..|events| - 1], events[|events| - 1];
      EarlierStagesSettled(earlier);
      var p := Exec(earlier).value;
      var p' := Exec(events).value;
      StepIndex(p, e);
      forall s: Stage | Index(s) < Index(p'.stage)
        ensures Settled(p'.store, p'.notApplicable, s)
      {
        if Index(s) < Index(p.stage) {
          StepKeepsSettled(p, e, s);
        } else {
          IndexInjective(s, p.stage);
          ForwardSettles(p, e);
        }
      }
    }
  }

  /**
   The artifact exists, was made from every input its stage has (excused ones aside), each at the version that is
   still current, and the same holds of all those inputs in turn.
   */
  ghost predicate Current(store: Store, notApplicable: set<Stage>, a: Artifact)
    decreases Index(Owner(a))
  {
    && a in store
    && (forall b :: b in store[a].inputs <==> b in Inputs(Owner(a)) && !Excused(notApplicable, b))
    && (forall b | b in store[a].inputs ::
          && Index(Owner(b)) < Index(Owner(a))
          && Current(store, notApplicable, b)
          && store[a].inputs[b] == store[b].version)
  }

  lemma {:induction false} SettledIsCurrent(p: Progress, a: Artifact)
    requires SettledUpTo(p) && Index(Owner(a)) < Index(p.stage) && !Excused(p.notApplicable, a)
    ensures Current(p.store, p.notApplicable, a)
    decreases Index(Owner(a))
  {
    var s := Owner(a);
    OutputsAreOwned(s, a);
    assert Settled(p.store, p.notApplicable, s);
    forall b | b in Inputs(s) && !Excused(p.notApplicable, b)
      ensures Index(Owner(b)) < Index(s) && Current(p.store, p.notApplicable, b)
    {
      InputsComeFromEarlier(s, b);
      SettledIsCurrent(p, b);
    }
  }

  /** A recorded input has been revised since: the artifact would block its readers. */
  predicate Stale(store: Store, a: Artifact) {
    a in store && exists b | b in store[a].inputs :: b in store && store[a].inputs[b] < store[b].version
  }

  /** In every run, every input of the current stage is current or excused; the staleness rule never blocks it. */
  lemma InputsAreCurrent(events: seq<Event>)
    requires IsRun(events)
    ensures var p := Exec(events).value;
            forall a | a in Inputs(p.stage) ::
              && (Excused(p.notApplicable, a) || Current(p.store, p.notApplicable, a))
              && (Stale(p.store, a) ==> Excused(p.notApplicable, a))
  {
    var p := Exec(events).value;
    EarlierStagesSettled(events);
    forall a | a in Inputs(p.stage) && !Excused(p.notApplicable, a)
      ensures Current(p.store, p.notApplicable, a)
    {
      InputsComeFromEarlier(p.stage, a);
      SettledIsCurrent(p, a);
    }
  }

  lemma GatesHaveNoOptionalInputs(gate: Stage, a: Artifact)
    requires KindOf(gate) == HumanGate && a in Inputs(gate)
    ensures !Conditional(a)
  {
  }

  /** A human deciding at a gate has before them every artifact the gate lists, each current. */
  lemma GateInputsAreComplete(events: seq<Event>)
    requires IsRun(events) && KindOf(Exec(events).value.stage) == HumanGate
    ensures var p := Exec(events).value;
            && Consumed(p.stage, p.store, p.notApplicable).Keys == Inputs(p.stage)
            && forall a | a in Inputs(p.stage) :: Current(p.store, p.notApplicable, a)
  {
    var p := Exec(events).value;
    InputsAreCurrent(events);
    forall a | a in Inputs(p.stage)
      ensures !Excused(p.notApplicable, a) && Current(p.store, p.notApplicable, a)
    {
      GatesHaveNoOptionalInputs(p.stage, a);
    }
  }

  /** What a human approved is what is there: past a gate, everything made before it is as it was at the approval. */
  lemma {:induction false} ApprovedArtifactsUnchanged(events: seq<Event>, gate: Stage, m: nat, n: nat, a: Artifact)
    requires IsRun(events) && LastPass(events, gate, m) && m <= n <= |events|
    requires KindOf(gate) == HumanGate && Index(Owner(a)) < Index(gate)
    ensures SameDoc(After(events, m).store, After(events, n).store, a)
    decreases n
  {
    if m < n {
      ApprovedArtifactsUnchanged(events, gate, m, n - 1, a);
      AfterStep(events, n - 1);
      assert Index(StageAt(events, n - 1)) >= Index(gate);
      StepKeepsEarlierArtifacts(After(events, n - 1), events[n - 1], a);
    }
  }

  predicate SameDoc(store: Store, later: Store, a: Artifact) {
    (a in later <==> a in store) && (a in store ==> later[a] == store[a])
  }

  // ----- Accounting -----

  /** Counts of a run: forward steps, steps back (loop-backs and rejections), holds, and stages dropped. */
  datatype Tally = Tally(forward: nat, back: nat, hold: nat, dropped: nat)

  function Count(events: seq<Event>): Tally
    requires IsRun(events)
  {
    if events == [] then Tally(0, 0, 0, 0)
    else
      var before := Count(events[..|events| - 1]);
      var p := Exec(events[..|events| - 1]).value;
      var e := events[|events| - 1];
      if IsForward(e.verdict) then before.(forward := before.forward + 1)
      else if IsHold(p.stage, e.verdict) then before.(hold := before.hold + 1)
      else
        StepIndex(p, e);
        before.(back := before.back + 1,
                dropped := before.dropped + Index(p.stage) - Index(Exec(events).value.stage))
  }

  /**
   The position is the forward steps less the stages dropped, so a run with `r` steps back and no holds has at most
   21 + 17 r steps.
   */
  lemma {:induction false} StepAccounting(events: seq<Event>)
    requires IsRun(events)
    ensures var c := Count(events);
            && Index(Exec(events).value.stage) == c.forward - c.dropped
            && |events| == c.forward + c.back + c.hold
            && c.dropped <= 16 * c.back
            && |events| <= 21 + 17 * c.back + c.hold
  {
    if events != [] {
      var earlier, e := events[..|events| - 1], events[|events| - 1];
      StepAccounting(earlier);
      StepIndex(Exec(earlier).value, e);
    }
  }

  // ----- Completion -----

  /** A pass, or an approval, with every output revised. */
  function ForwardEvent(s: Stage): Event {
    Event(if KindOf(s) == HumanGate then Approved else Pass, Outputs(s))
  }

  lemma ForwardStep(p: Progress)
    requires p.stage != ARCHIVED
    ensures Step(p, ForwardEvent(p.stage)).Some?
    ensures Index(Step(p, ForwardEvent(p.stage)).value.stage) == Index(p.stage) + 1
  {
    StepIndex(p, ForwardEvent(p.stage));
  }

  /** One more event of a run: its effect and its place in the counts. */
  lemma RunExtends(events: seq<Event>, e: Event)
    requires IsRun(events) && Step(Exec(events).value, e).Some?
    ensures IsRun(events + [e]) && Exec(events + [e]) == Step(Exec(events).value, e)
    ensures IsForward(e.verdict) ==> Count(events + [e]) == Count(events).(forward := Count(events).forward + 1)
    ensures !IsForward(e.verdict) && !IsHold(Exec(events).value.stage, e.verdict) ==>
              Count(events + [e]).back == Count(events).back + 1 && Count(events + [e]).hold == Count(events).hold
  {
    assert (events + [e])[..|events|] == events;
  }

  /** `later` is `n` forward steps on from `events`. */
  ghost predicate IsAhead(events: seq<Event>, later: seq<Event>, n: nat)
    requires IsRun(events)
  {
    && events <= later && |later| == |events| + n && IsRun(later)
    && Index(Exec(later).value.stage) == Index(Exec(events).value.stage) + n
    && Count(later) == Count(events).(forward := Count(events).forward + n)
  }

  lemma GoesOneForward(events: seq<Event>) returns (later: seq<Event>)
    requires IsRun(events) && Index(Exec(events).value.stage) < 21
    ensures IsAhead(events, later, 1)
  {
    var e := ForwardEvent(Exec(events).value.stage);
    ForwardStep(Exec(events).value);
    RunExtends(events, e);
    later := events + [e];
  }

  /** From wherever a run is, `n` passes and approvals take it `n` stages on. */
  lemma {:induction false} GoesForward(events: seq<Event>, n: nat) returns (later: seq<Event>)
    requires IsRun(events) && Index(Exec(events).value.stage) + n <= 21
    ensures IsAhead(events, later, n)
  {
    if n == 0 {
      later := events;
    } else {
      var before := GoesForward(events, n - 1);
      later := GoesOneForward(before);
    }
  }

  /** No run is stuck: from wherever it is, it can still be archived; no fewer steps would do. */
  lemma EveryRunCanArchive(events: seq<Event>) returns (later: seq<Event>)
    requires IsRun(events)
    ensures events <= later && |later| == |events| + 21 - Index(Exec(events).value.stage)
    ensures IsRun(later) && Exec(later).value.stage == ARCHIVED
    ensures Count(later).back == Count(events).back && Count(later).hold == Count(events).hold
  {
    OnlyArchivedIsLast(Exec(events).value.stage);
    later := GoesForward(events, 21 - Index(Exec(events).value.stage));
    OnlyArchivedIsLast(Exec(later).value.stage);
  }

  lemma OnlyArchivedIsLast(s: Stage)
    ensures Index(s) <= 21 && (Index(s) == 21 <==> s == ARCHIVED)
  {
  }

  lemma ArchivingTakes(events: seq<Event>, later: seq<Event>)
    requires IsRun(events) && IsRun(later) && events <= later && Exec(later).value.stage == ARCHIVED
    ensures |later| >= |events| + 21 - Index(Exec(events).value.stage)
  {
    RisesByOne(events, later);
  }

  lemma {:induction false} RisesByOne(events: seq<Event>, later: seq<Event>)
    requires IsRun(events) && IsRun(later) && events <= later
    ensures Index(Exec(later).value.stage) <= Index(Exec(events).value.stage) + |later| - |events|
    decreases |later|
  {
    if later != events {
      var earlier, e := later[..|later| - 1], later[|later| - 1];
      RisesByOne(events, earlier);
      StepIndex(Exec(earlier).value, e);
    }
  }

  /** The bound on the length of a run is met: with `r` steps back and no holds, 21 + 17 r steps to the end. */
  lemma LongestRun(r: nat) returns (events: seq<Event>)
    ensures IsRun(events) && Exec(events).value.stage == ARCHIVED
    ensures Count(events).back == r && Count(events).hold == 0
    ensures |events| == 21 + 17 * r
  {
    var rounds := Rounds(r);
    events := EveryRunCanArchive(rounds);
  }

  /** `r` times from the first stage to the reconciliation and back. */
  lemma {:induction false} Rounds(r: nat) returns (events: seq<Event>)
    ensures IsRun(events) && Exec(events).value.stage == BACKLOG_SYNC
    ensures Count(events).back == r && Count(events).hold == 0
    ensures |events| == 17 * r
  {
    if r == 0 {
      events := [];
    } else {
      var earlier := Rounds(r - 1);
      events := Round(earlier);
    }
  }

  lemma Round(events: seq<Event>) returns (later: seq<Event>)
    requires IsRun(events) && Exec(events).value.stage == BACKLOG_SYNC
    ensures IsRun(later) && Exec(later).value.stage == BACKLOG_SYNC
    ensures Count(later).back == Count(events).back + 1 && Count(later).hold == Count(events).hold
    ensures |later| == |events| + 17
  {
    var ahead := GoesForward(events, 16);
    IndexInjective(Exec(ahead).value.stage, RECONCILIATION);
    later := StartsOver(ahead);
  }

  lemma StartsOver(events: seq<Event>) returns (later: seq<Event>)
    requires IsRun(events) && Exec(events).value.stage == RECONCILIATION
    ensures |later| == |events| + 1 && IsRun(later) && Exec(later).value.stage == BACKLOG_SYNC
    ensures Count(later).back == Count(events).back + 1 && Count(later).hold == Count(events).hold
  {
    SourceConflictStep(Exec(events).value);
    RunExtends(events, SOURCE_CONFLICT);
    later := events + [SOURCE_CONFLICT];
  }

  lemma SourceConflictStep(p: Progress)
    requires p.stage == RECONCILIATION
    ensures Step(p, SOURCE_CONFLICT).Some? && Step(p, SOURCE_CONFLICT).value.stage == BACKLOG_SYNC
    ensures !IsHold(p.stage, SOURCE_CONFLICT.verdict)
  {
  }

  const SOURCE_CONFLICT: Event := Event(ChangesRequired("story_source_conflict"), {})
}
