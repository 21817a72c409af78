/** The orchestrator: the one writer of the workflow state file and of its append-only history. */
module Orchestration {
  import opened Options
  import opened StageMap
  import opened Workflow
  import opened ArtifactVersions

  datatype Status = InProgress | WaitingForHuman | OnHold | Finished

  /** The pending gate and the artifact versions put before the human. */
  datatype Gate = Gate(stage: Stage, required: map<Artifact, nat>)

  datatype HistoryEntry = HistoryEntry(from: Stage, to: Stage, event: Event)

  function Events(history: seq<HistoryEntry>): (events: seq<Event>)
    ensures |events| == |history|
  {
    seq(|history|, i requires 0 <= i < |history| => history[i].event)
  }

  /** Every entry records a step of the replay: its `from` stage, its event, its `to` stage. */
  ghost predicate Replays(history: seq<HistoryEntry>) {
    history == []
    || var earlier, entry := history[..|history| - 1], history[|history| - 1];
       && Replays(earlier) && IsRun(Events(earlier))
       && Records(Exec(Events(earlier)).value, entry)
  }

  ghost predicate Records(p: Progress, entry: HistoryEntry) {
    && Step(p, entry.event).Some?
    && entry.from == p.stage && entry.to == Step(p, entry.event).value.stage
  }

  lemma ReplayExtends(history: seq<HistoryEntry>, entry: HistoryEntry)
    requires Replays(history) && IsRun(Events(history)) && Records(Exec(Events(history)).value, entry)
    ensures Replays(history + [entry])
    ensures Exec(Events(history + [entry])) == Step(Exec(Events(history)).value, entry.event)
  {
    assert (history + [entry])[..|history|] == history;
    assert Events(history + [entry])[..|history|] == Events(history);
  }

  /** Entry `n` goes from the stage the replay is in after `n` events to the stage after the next. */
  lemma {:induction false} EntriesTellStages(history: seq<HistoryEntry>, n: nat)
    requires Replays(history) && IsRun(Events(history)) && n < |history|
    ensures history[n].from == StageAt(Events(history), n) && history[n].to == StageAt(Events(history), n + 1)
  {
    var k := |history| - 1;
    var earlier, events := history[..k], Events(history);
    assert events[..k] == Events(earlier);
    AfterOfPrefix(events, k, n);
    StartsAtStart(events[..k]);
    if n < k {
      AfterOfPrefix(events, k, n + 1);
      EntriesTellStages(earlier, n);
    } else {
      AfterStep(events, k);
    }
  }

  class Orchestrator {
    var currentStage: Stage
    var artifacts: Store
    var notApplicable: set<Stage>
    var status: Status
    var pendingHumanGate: Option<Gate>
    var history: seq<HistoryEntry>

    function State(): Progress
      reads this
    {
      Progress(currentStage, artifacts, notApplicable)
    }

    /** The state is the replay of the history, and a gate is pending exactly at human-gate stages. */
    ghost predicate Valid()
      reads this
    {
      && Replays(history)
      && Exec(Events(history)) == Some(State())
      && pendingHumanGate == (if KindOf(currentStage) == HumanGate
                              then Some(Gate(currentStage, Consumed(currentStage, artifacts, notApplicable)))
                              else None)
      && (status == WaitingForHuman <==> KindOf(currentStage) == HumanGate)
      && (status == Finished <==> currentStage == ARCHIVED)
    }

    constructor ()
      ensures Valid() && State() == START && history == []
    {
      currentStage := BACKLOG_SYNC;
      artifacts := map[];
      notApplicable := {};
      status := InProgress;
      pendingHumanGate := None;
      history := [];
      new;
      assert Events(history) == [];
    }

    /** Records a stage result or a human decision. A result the stage cannot have changes nothing. */
    method Record(e: Event) returns (accepted: bool)
      requires Valid()
      modifies this
      ensures Valid()
      ensures accepted <==> Step(old(State()), e).Some?
      ensures accepted ==> Some(State()) == Step(old(State()), e)
      ensures accepted ==> history == old(history) + [HistoryEntry(old(currentStage), currentStage, e)]
      ensures accepted ==> (status == OnHold <==> IsHold(old(currentStage), e.verdict))
      ensures !accepted ==> unchanged(this)
    {
      var before := State();
      var target := Target(before, e.verdict);
      if target.None? || !MayWrite(before, e) {
        return false;
      }
      StepIndex(before, e);
      artifacts := Revised(before, e.revised);
      if e.verdict.NotApplicable? {
        notApplicable := notApplicable + {currentStage};
      } else {
        notApplicable := notApplicable - {currentStage};
      }
      currentStage := target.value;
      if IsHold(before.stage, e.verdict) {
        status := OnHold;
      } else if KindOf(currentStage) == HumanGate {
        status := WaitingForHuman;
      } else if currentStage == ARCHIVED {
        status := Finished;
      } else {
        status := InProgress;
      }
      if KindOf(currentStage) == HumanGate {
        pendingHumanGate := Some(Gate(currentStage, Consumed(currentStage, artifacts, notApplicable)));
      } else {
        pendingHumanGate := None;
      }
      var entry := HistoryEntry(before.stage, currentStage, e);
      assert Step(before, e) == Some(State());
      ReplayExtends(history, entry);
      history := history + [entry];
      return true;
    }
  }

  /** The human is shown every artifact the gate requires, each current. */
  lemma PendingGateIsComplete(o: Orchestrator)
    requires o.Valid() && o.pendingHumanGate.Some?
    ensures o.pendingHumanGate.value.required.Keys == Inputs(o.currentStage)
    ensures o.pendingHumanGate.value.stage == o.currentStage
    ensures forall a | a in Inputs(o.currentStage) ::
              && Current(o.artifacts, o.notApplicable, a)
              && o.pendingHumanGate.value.required[a] == Revisions(Events(o.history), |o.history|, a)
  {
    var events := Events(o.history);
    GateInputsAreComplete(events);
    StartsAtStart(events);
    forall a | a in Inputs(o.currentStage)
      ensures Current(o.artifacts, o.notApplicable, a)
      ensures o.pendingHumanGate.value.required[a] == Revisions(events, |events|, a)
    {
      VersionsCountRevisions(events, |events|, a);
    }
  }
}
