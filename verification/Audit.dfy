/** The audit timestamps every save writes, in one pass over the tracked entries and over any sequence of saves. */
module Audit {

  datatype EntityState = Added | Modified | Unchanged

  datatype Times = Times(createdAt: int, updatedAt: int)

  /** What a save at instant `now` makes of the timestamps of an entity. */
  function Stamped(state: EntityState, t: Times, now: int): Times {
    match state
    case Added => Times(now, now)
    case Modified => t.(updatedAt := now)
    case Unchanged => t
  }

  class CustomerEntity {
    var createdAt: int
    var updatedAt: int

    function Timestamps(): Times
      reads this
    {
      Times(createdAt, updatedAt)
    }
  }

  class EntityEntry {
    const entity: CustomerEntity
    var state: EntityState

    constructor (entity: CustomerEntity, state: EntityState)
      ensures this.entity == entity && this.state == state
    {
      this.entity := entity;
      this.state := state;
    }
  }

  class ChangeTracker {
    var entries: seq<EntityEntry>

    /** The tracker holds one entry per entity. */
    ghost predicate Valid()
      reads this
    {
      forall i, j :: 0 <= i < j < |entries| ==> entries[i].entity != entries[j].entity
    }

    method ApplyAuditTimestamps(now: int)
      requires Valid()
      modifies set i | 0 <= i < |entries| :: entries[i].entity
      ensures forall i :: 0 <= i < |entries| ==>
                entries[i].entity.Timestamps() == Stamped(entries[i].state, old(entries[i].entity.Timestamps()), now)
      ensures forall i :: 0 <= i < |entries| ==>
                && (entries[i].entity.createdAt ==
                      if entries[i].state == Added then now else old(entries[i].entity.createdAt))
                && (entries[i].entity.updatedAt ==
                      if entries[i].state == Unchanged then old(entries[i].entity.updatedAt) else now)
    {
      for i := 0 to |entries|
        invariant forall j :: 0 <= j < i ==>
                    entries[j].entity.Timestamps() ==
                    Stamped(entries[j].state, old(entries[j].entity.Timestamps()), now)
        invariant forall j :: i <= j < |entries| ==>
                    entries[j].entity.Timestamps() == old(entries[j].entity.Timestamps())
      {
        var entry := entries[i];
        if entry.state == Added {
          entry.entity.createdAt := now;
          entry.entity.updatedAt := now;
        } else if entry.state == Modified {
          entry.entity.updatedAt := now;
        }
      }
    }
  }

  // ----- Any sequence of saves -----

  /** One save: the clock reading, and the tracked state of each row it writes. */
  datatype Save = Save(now: int, writes: map<nat, EntityState>)

  function StateIn(save: Save, row: nat): EntityState {
    if row in save.writes then save.writes[row] else Unchanged
  }

  type Rows = map<nat, Times>

  /** A save inserts new rows and touches existing ones. */
  predicate CanSave(rows: Rows, save: Save) {
    forall row | row in save.writes :: row in rows <==> save.writes[row] != Added
  }

  function AfterSave(rows: Rows, save: Save): Rows {
    map row | row in rows.Keys + save.writes.Keys ::
      Stamped(StateIn(save, row), if row in rows then rows[row] else Times(0, 0), save.now)
  }

  function AfterSaves(saves: seq<Save>): Rows {
    if saves == [] then map[] else AfterSave(AfterSaves(saves[..|saves| - 1]), saves[|saves| - 1])
  }

  predicate Possible(saves: seq<Save>) {
    saves == [] || (Possible(saves[..|saves| - 1]) && CanSave(AfterSaves(saves[..|saves| - 1]), saves[|saves| - 1]))
  }

  predicate ClockNeverGoesBack(saves: seq<Save>) {
    forall i, j :: 0 <= i < j < |saves| ==> saves[i].now <= saves[j].now
  }

  /** Save `i` inserted the row, and no other save did. */
  ghost predicate InsertedBy(saves: seq<Save>, row: nat, i: nat) {
    i < |saves| && forall k :: 0 <= k < |saves| ==> (StateIn(saves[k], row) == Added <==> k == i)
  }

  /** Save `j` wrote the row, and no later save did. */
  ghost predicate LastWrittenBy(saves: seq<Save>, row: nat, j: nat) {
    j < |saves| && StateIn(saves[j], row) != Unchanged
    && forall k :: j < k < |saves| ==> StateIn(saves[k], row) == Unchanged
  }

  lemma {:induction false} AbsentRowsUntouched(saves: seq<Save>, row: nat)
    requires Possible(saves) && row !in AfterSaves(saves)
    ensures forall k :: 0 <= k < |saves| ==> StateIn(saves[k], row) == Unchanged
  {
    if saves != [] {
      AbsentRowsUntouched(saves[..|saves| - 1], row);
    }
  }

  /** A row's timestamps are the instant of the save that inserted it and of the save that last wrote it. */
  lemma {:induction false} TimestampsTellWhen(saves: seq<Save>, row: nat) returns (i: nat, j: nat)
    requires Possible(saves) && row in AfterSaves(saves)
    ensures InsertedBy(saves, row, i) && LastWrittenBy(saves, row, j) && i <= j
    ensures AfterSaves(saves)[row] == Times(saves[i].now, saves[j].now)
  {
    var n := |saves| - 1;
    var earlier := saves[..n];
    var rows := AfterSaves(earlier);
    if row in rows {
      i, j := TimestampsTellWhen(earlier, row);
      if StateIn(saves[n], row) != Unchanged {
        j := n;
      }
    } else {
      AbsentRowsUntouched(earlier, row);
      i, j := n, n;
    }
  }

  /** With a clock that never goes back, no row is ever updated before it was created. */
  lemma CreatedBeforeUpdated(saves: seq<Save>, row: nat)
    requires Possible(saves) && ClockNeverGoesBack(saves) && row in AfterSaves(saves)
    ensures AfterSaves(saves)[row].createdAt <= AfterSaves(saves)[row].updatedAt
  {
    var i, j := TimestampsTellWhen(saves, row);
  }

  /** Once inserted, a row stays and keeps its creation time. */
  lemma {:induction false} CreationTimeIsFixed(saves: seq<Save>, k: nat, row: nat)
    requires Possible(saves) && k <= |saves| && row in AfterSaves(saves[..k])
    ensures row in AfterSaves(saves)
    ensures AfterSaves(saves)[row].createdAt == AfterSaves(saves[..k])[row].createdAt
  {
    if k == |saves| {
      assert saves[..k] == saves;
    } else {
      var earlier := saves[..|saves| - 1];
      assert earlier[..k] == saves[..k];
      CreationTimeIsFixed(earlier, k, row);
    }
  }
}
