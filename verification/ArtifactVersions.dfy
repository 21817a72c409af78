/** Versions as counts of revisions, and currency of artifacts in terms of the events of a run. */
module ArtifactVersions {
  import opened Options
  import opened StageMap
  import opened Workflow

  // ----- Revisions -----

  /** How many of the first `k` events revised the artifact. */
  function Revisions(events: seq<Event>, k: nat, a: Artifact): nat
    requires k <= |events|
  {
    if k == 0 then 0 else Revisions(events, k - 1, a) + if a in events[k - 1].revised then 1 else 0
  }

  /** The version of an artifact is the number of its revisions; it exists once it has been revised. */
  lemma {:induction false} VersionsCountRevisions(events: seq<Event>, k: nat, a: Artifact)
    requires IsRun(events) && k <= |events|
    ensures var store := After(events, k).store;
            && (a in store <==> Revisions(events, k, a) > 0)
            && (a in store ==> store[a].version == Revisions(events, k, a))
  {
    if k == 0 {
      StartsAtStart(events);
    } else {
      VersionsCountRevisions(events, k - 1, a);
      AfterStep(events, k - 1);
      StepCounts(After(events, k - 1), events[k - 1], a);
    }
  }

  /** A revision raises the version by one, starting at 1. */
  lemma StepCounts(p: Progress, e: Event, a: Artifact)
    requires Step(p, e).Some?
    ensures var store, store' := p.store, Step(p, e).value.store;
            && (a in store' <==> a in store || a in e.revised)
            && (a in store && a in e.revised ==> store'[a].version == store[a].version + 1)
            && (a !in store && a in e.revised ==> store'[a].version == 1)
            && (a in store && a !in e.revised ==> store'[a] == store[a])
            && (a in e.revised ==>
                  Owner(a) == p.stage && store'[a].inputs == Consumed(p.stage, p.store, p.notApplicable))
  {
    OutputsAreOwned(p.stage, a);
  }

  /** All progress of a run, point by point. */
  ghost predicate IsCourse(ps: seq<Progress>, events: seq<Event>) {
    |ps| == |events| + 1 && forall n :: 0 <= n < |events| ==> Step(ps[n], events[n]) == Some(ps[n + 1])
  }

  lemma Course(events: seq<Event>) returns (ps: seq<Progress>)
    requires IsRun(events)
    ensures IsCourse(ps, events) && ps[0] == START
    ensures forall n :: 0 <= n <= |events| ==> ps[n] == After(events, n)
  {
    ps := seq(|events| + 1, n requires 0 <= n <= |events| => After(events, n));
    StartsAtStart(events);
    forall n | 0 <= n < |events|
      ensures Step(ps[n], events[n]) == Some(ps[n + 1])
    {
      AfterStep(events, n);
    }
  }

  /** Between two points of a run the count grows exactly if an event between them revises the artifact. */
  lemma {:induction false} RevisionsGrow(events: seq<Event>, a: Artifact, i: nat, j: nat)
    requires i <= j <= |events|
    ensures Revisions(events, i, a) <= Revisions(events, j, a)
    ensures Revisions(events, i, a) < Revisions(events, j, a) <==> exists z :: i <= z < j && a in events[z].revised
    decreases j
  {
    if i < j {
      RevisionsGrow(events, a, i, j - 1);
    }
  }

  /** Of the first `k` events, number `y` revised the artifact and no later one did. */
  ghost predicate LastRevises(events: seq<Event>, k: nat, a: Artifact, y: nat)
    requires k <= |events|
  {
    y < k && a in events[y].revised && forall z :: y < z < k ==> a !in events[z].revised
  }

  lemma {:induction false} RecordedInCourse(ps: seq<Progress>, events: seq<Event>, k: nat, a: Artifact) returns (y: nat)
    requires IsCourse(ps, events) && ps[0] == START && k <= |events| && a in ps[k].store
    ensures LastRevises(events, k, a, y) && ps[y].stage == Owner(a)
    ensures ps[k].store[a].inputs == Consumed(Owner(a), ps[y].store, ps[y].notApplicable)
    decreases k
  {
    StepCounts(ps[k - 1], events[k - 1], a);
    if a in events[k - 1].revised {
      y := k - 1;
    } else {
      y := RecordedInCourse(ps, events, k - 1, a);
    }
  }

  /** What an artifact records was read at its last revision, by the stage that owns it. */
  lemma RecordedAtRevision(events: seq<Event>, k: nat, a: Artifact) returns (y: nat)
    requires IsRun(events) && k <= |events| && a in After(events, k).store
    ensures LastRevises(events, k, a, y) && StageAt(events, y) == Owner(a)
    ensures var p := After(events, y);
            After(events, k).store[a].inputs == Consumed(Owner(a), p.store, p.notApplicable)
  {
    var ps := Course(events);
    y := RecordedInCourse(ps, events, k, a);
  }

  /** An input is recorded at the version it had then, which is not raised by the recording event itself. */
  lemma RecordedVersion(events: seq<Event>, k: nat, a: Artifact, b: Artifact) returns (y: nat)
    requires IsRun(events) && k <= |events| && a in After(events, k).store && b in After(events, k).store[a].inputs
    ensures LastRevises(events, k, a, y) && b !in events[y].revised
    ensures After(events, k).store[a].inputs[b] == Revisions(events, y, b)
    ensures b in After(events, k).store
  {
    y := RecordedAtRevision(events, k, a);
    VersionsCountRevisions(events, y, b);
    InputsComeFromEarlier(Owner(a), b);
    AfterStep(events, y);
    StepCounts(After(events, y), events[y], b);
    RevisionsGrow(events, b, y, k);
    VersionsCountRevisions(events, k, b);
  }

  // ----- Staleness -----

  /** Event `z`, one of the first `k`, revised `b`, and `a` was not revised from then on. */
  ghost predicate RevisedSince(events: seq<Event>, k: nat, a: Artifact, b: Artifact, z: nat)
    requires k <= |events|
  {
    z < k && b in events[z].revised && forall y :: z <= y < k ==> a !in events[y].revised
  }

  lemma OutdatedIff(events: seq<Event>, k: nat, a: Artifact, b: Artifact)
    requires IsRun(events) && k <= |events| && a in After(events, k).store && b in After(events, k).store[a].inputs
    ensures var store := After(events, k).store;
            b in store && (store[a].inputs[b] < store[b].version <==> exists z :: RevisedSince(events, k, a, b, z))
  {
    var y := RecordedVersion(events, k, a, b);
    VersionsCountRevisions(events, k, b);
    RevisionsGrow(events, b, y, k);
    RevisedSinceIff(events, k, a, b, y);
  }

  lemma RevisedSinceIff(events: seq<Event>, k: nat, a: Artifact, b: Artifact, y: nat)
    requires k <= |events| && LastRevises(events, k, a, y) && b !in events[y].revised
    ensures (exists z :: RevisedSince(events, k, a, b, z)) <==> exists z :: y <= z < k && b in events[z].revised
  {
    forall z: nat
      ensures RevisedSince(events, k, a, b, z) <==> y <= z < k && b in events[z].revised
    {
      RevisedSinceMeans(events, k, a, b, y, z);
    }
  }

  lemma RevisedSinceMeans(events: seq<Event>, k: nat, a: Artifact, b: Artifact, y: nat, z: nat)
    requires k <= |events| && LastRevises(events, k, a, y) && b !in events[y].revised
    ensures RevisedSince(events, k, a, b, z) <==> y <= z < k && b in events[z].revised
  {
    assert RevisedSince(events, k, a, b, z) ==> y < z;
  }

  /** At any point of a run, an artifact is stale exactly if something it was made from was revised after it. */
  lemma StaleIff(events: seq<Event>, k: nat, a: Artifact)
    requires IsRun(events) && k <= |events| && a in After(events, k).store
    ensures Stale(After(events, k).store, a) <==>
              exists b, z :: b in After(events, k).store[a].inputs && RevisedSince(events, k, a, b, z)
  {
    forall b | b in After(events, k).store[a].inputs
      ensures var store := After(events, k).store;
              b in store && (store[a].inputs[b] < store[b].version <==> exists z :: RevisedSince(events, k, a, b, z))
    {
      OutdatedIff(events, k, a, b);
    }
  }

  /** An artifact stays as it is while no event revises it. */
  lemma {:induction false} UnrevisedStays(events: seq<Event>, a: Artifact, n: nat, k: nat)
    requires IsRun(events) && n <= k <= |events| && a in After(events, n).store
    requires forall z :: n <= z < k ==> a !in events[z].revised
    ensures a in After(events, k).store && After(events, k).store[a] == After(events, n).store[a]
    decreases k
  {
    if n < k {
      UnrevisedStays(events, a, n, k - 1);
      AfterStep(events, k - 1);
      StepCounts(After(events, k - 1), events[k - 1], a);
    }
  }

  /** Once `b` is revised, every artifact that was made from it is stale until it is revised itself. */
  lemma RevisionMakesStale(events: seq<Event>, a: Artifact, b: Artifact, n: nat, k: nat)
    requires IsRun(events) && n < k <= |events|
    requires a in After(events, n).store && b in After(events, n).store[a].inputs
    requires b in events[n].revised && forall z :: n <= z < k ==> a !in events[z].revised
    ensures Stale(After(events, k).store, a)
  {
    UnrevisedStays(events, a, n, k);
    assert RevisedSince(events, k, a, b, n);
    StaleIff(events, k, a);
  }

  /** A stage passes with no stale output: what is stale it has to revise. */
  lemma PassRefreshesOutputs(events: seq<Event>, n: nat, o: Artifact)
    requires IsRun(events) && n < |events| && events[n].verdict.Pass? && o in Outputs(StageAt(events, n))
    requires Stale(After(events, n).store, o)
    ensures o in events[n].revised
  {
    AfterStep(events, n);
    PassRefreshes(After(events, n), events[n], o);
  }

  lemma PassRefreshes(p: Progress, e: Event, o: Artifact)
    requires Step(p, e).Some? && e.verdict.Pass? && o in Outputs(p.stage) && Stale(p.store, o)
    ensures o in e.revised
  {
  }

  /**
   Currency without versions: in every run, every artifact of an earlier stage that is not excused was last revised
   after everything it is made from, excused artifacts aside.
   */
  lemma RevisedAfterInputs(events: seq<Event>, a: Artifact, b: Artifact) returns (x: nat, y: nat)
    requires IsRun(events)
    requires Index(Owner(a)) < Index(Exec(events).value.stage) && !Excused(Exec(events).value.notApplicable, a)
    requires b in Inputs(Owner(a)) && !Excused(Exec(events).value.notApplicable, b)
    ensures LastRevises(events, |events|, b, x) && LastRevises(events, |events|, a, y) && x < y
  {
    var p, k := Exec(events).value, |events|;
    StartsAtStart(events);
    EarlierStagesSettled(events);
    SettledIsCurrent(p, a);
    assert b in p.store[a].inputs;
    y := RecordedVersion(events, k, a, b);
    x := RecordedAtRevision(events, k, b);
    VersionsCountRevisions(events, k, b);
    RevisionsGrow(events, b, y, k);
  }

  // ----- What NOT_APPLICABLE leaves behind -----

  /** The stages a run visits. */
  function Visits(events: seq<Event>): (stages: seq<Stage>)
    requires IsRun(events)
    ensures |stages| == |events| + 1 && forall n :: 0 <= n <= |events| ==> stages[n] == StageAt(events, n)
  {
    seq(|events| + 1, n requires 0 <= n <= |events| => StageAt(events, n))
  }

  /** Of the first `k` results, number `n` is the last one recorded at the stage, and is NOT_APPLICABLE. */
  ghost predicate LastNotApplicable(stages: seq<Stage>, events: seq<Event>, k: nat, s: Stage, n: nat)
    requires |stages| == |events| + 1 && k <= |events|
  {
    && n < k && stages[n] == s && events[n].verdict.NotApplicable?
    && forall m :: n < m < k ==> stages[m] != s
  }

  lemma {:induction false} FlagsInCourse(ps: seq<Progress>, stages: seq<Stage>, events: seq<Event>, k: nat, s: Stage)
    requires IsCourse(ps, events) && ps[0] == START && k <= |events|
    requires |stages| == |events| + 1 && forall n :: 0 <= n <= |events| ==> stages[n] == ps[n].stage
    ensures s in ps[k].notApplicable <==> exists n :: LastNotApplicable(stages, events, k, s, n)
    decreases k
  {
    if k > 0 {
      var last := k - 1;
      assert Step(ps[last], events[last]) == Some(ps[last + 1]);
      FlagsInCourse(ps, stages, events, last, s);
      FlagStep(ps[last], events[last], s);
      if stages[last] == s {
        assert events[last].verdict.NotApplicable? ==> LastNotApplicable(stages, events, k, s, last);
      } else if n: nat :| LastNotApplicable(stages, events, last, s, n) {
        assert LastNotApplicable(stages, events, k, s, n);
      } else if n: nat :| LastNotApplicable(stages, events, k, s, n) {
        assert LastNotApplicable(stages, events, last, s, n);
      }
    }
  }

  /** At any point of a run, the stages held not applicable are those whose last verdict was NOT_APPLICABLE. */
  lemma FlagsTellLastVerdict(events: seq<Event>, k: nat, s: Stage)
    requires IsRun(events) && k <= |events|
    ensures s in After(events, k).notApplicable <==> exists n :: LastNotApplicable(Visits(events), events, k, s, n)
  {
    var ps := Course(events);
    FlagsInCourse(ps, Visits(events), events, k, s);
  }

  lemma FlagStep(p: Progress, e: Event, s: Stage)
    requires Step(p, e).Some?
    ensures s in Step(p, e).value.notApplicable <==>
              if s == p.stage then e.verdict.NotApplicable? else s in p.notApplicable
  {
  }

  /** Only design stages are skipped, and the review only when both designs were. */
  lemma SkippedStages(events: seq<Event>, n: nat)
    requires IsRun(events) && n < |events| && events[n].verdict.NotApplicable?
    ensures StageAt(events, n) in {API_DESIGN, DB_DESIGN, DESIGN_REVIEW}
    ensures StageAt(events, n) != DESIGN_REVIEW ==> events[n].revised == {}
    ensures StageAt(events, n) == DESIGN_REVIEW ==> design_review in After(events, n + 1).store
    ensures StageAt(events, n) == DESIGN_REVIEW ==>
              && (exists i :: LastNotApplicable(Visits(events), events, n, API_DESIGN, i))
              && (exists i :: LastNotApplicable(Visits(events), events, n, DB_DESIGN, i))
  {
    AfterStep(events, n);
    FlagsTellLastVerdict(events, n, API_DESIGN);
    FlagsTellLastVerdict(events, n, DB_DESIGN);
  }

  // ----- Which results a stage can have, and where they lead -----

  predicate IsGate(s: Stage) {
    s in {HUMAN_SPEC_APPROVAL, HUMAN_PLAN_APPROVAL, HUMAN_PR_APPROVAL, READY_FOR_PR, COMPLETED}
  }

  /** What can be recorded: decisions at gates, stage results elsewhere, nothing at the end. */
  predicate MayReceive(p: Progress, verdict: Verdict) {
    if p.stage == ARCHIVED then false
    else if IsGate(p.stage) then verdict in {Approved, Rejected}
    else
      || verdict in {Pass, Blocked} || verdict.ChangesRequired?
      || (verdict == NotApplicable &&
            (|| p.stage in {API_DESIGN, DB_DESIGN}
             || (p.stage == DESIGN_REVIEW && {API_DESIGN, DB_DESIGN} <= p.notApplicable)))
  }

  lemma RecordableIff(p: Progress, verdict: Verdict)
    ensures (exists revised :: Step(p, Event(verdict, revised)).Some?) <==> MayReceive(p, verdict)
  {
    if MayReceive(p, verdict) {
      var writes := verdict == Pass || (verdict == NotApplicable && p.stage == DESIGN_REVIEW);
      var revised := if writes then Outputs(p.stage) else {};
      assert Step(p, Event(verdict, revised)).Some?;
    }
  }

  /** Where each recorded result leads, by its verdict. */
  lemma VerdictLeads(events: seq<Event>, n: nat)
    requires IsRun(events) && n < |events|
    ensures var s, t := StageAt(events, n), StageAt(events, n + 1);
            match events[n].verdict
            case Blocked => t == s
            case Rejected => Index(t) < Index(s)
            case ChangesRequired(key) => LeadsBackTo(t, s, key) || (t == s && forall u :: !LeadsBackTo(u, s, key))
            case _ => Index(t) == Index(s) + 1
  {
    AfterStep(events, n);
    StepLeads(After(events, n), events[n]);
  }

  /** A stage is held exactly by BLOCKED and by a loop-back key that leads nowhere from it. */
  lemma HeldIff(s: Stage, verdict: Verdict)
    ensures IsHold(s, verdict) <==>
              verdict == Blocked || (verdict.ChangesRequired? && forall t :: !LeadsBackTo(t, s, verdict.key))
  {
    if verdict.ChangesRequired? {
      forall t
        ensures LoopBack(s, verdict.key) == Some(t) <==> LeadsBackTo(t, s, verdict.key)
      {
        WaysBackAgree(s, verdict.key, t);
      }
    }
  }

  lemma StepLeads(p: Progress, e: Event)
    requires Step(p, e).Some?
    ensures var s, t := p.stage, Step(p, e).value.stage;
            match e.verdict
            case Blocked => t == s
            case Rejected => Index(t) < Index(s)
            case ChangesRequired(key) => LeadsBackTo(t, s, key) || (t == s && forall u :: !LeadsBackTo(u, s, key))
            case _ => Index(t) == Index(s) + 1
  {
    StepIndex(p, e);
    match e.verdict
    case ChangesRequired(key) =>
      forall u
        ensures LoopBack(p.stage, key) == Some(u) <==> LeadsBackTo(u, p.stage, key)
      {
        WaysBackAgree(p.stage, key, u);
      }
    case Rejected => BackwardNeverAdvances(p.stage, "");
    case _ =>
  }

  /** Every step back leads to the owner of an artifact that the stage had before it. */
  lemma StepsBackReachAnOwner(events: seq<Event>, n: nat) returns (a: Artifact)
    requires IsRun(events) && n < |events| && Index(StageAt(events, n + 1)) < Index(StageAt(events, n))
    ensures a in Inputs(StageAt(events, n)) && Owner(a) == StageAt(events, n + 1)
  {
    AfterStep(events, n);
    a := StepBackArtifact(After(events, n), events[n]);
  }

  lemma StepBackArtifact(p: Progress, e: Event) returns (a: Artifact)
    requires Step(p, e).Some? && Index(Step(p, e).value.stage) < Index(p.stage)
    ensures a in Inputs(p.stage) && Owner(a) == Step(p, e).value.stage
  {
    StepIndex(p, e);
    if e.verdict.Rejected? {
      a := RejectedArtifact(p.stage);
    } else {
      a := LoopBackArtifact(p.stage, e.verdict.key);
    }
  }
}
