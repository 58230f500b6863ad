/** The `MemoryDB` class of execution/memory_ops.py: four tables, their
    AUTOINCREMENT counters and a logical clock standing for
    CURRENT_TIMESTAMP. Each method is one committed transaction. */
module MemoryOps {
  import opened Records
  import opened Seqs
  import opened Queries

  /** WHERE clauses of the DELETE statements, as filters of the rows kept. */
  function NameIsNot(name: string): (keep: Entity -> bool) {
    (e: Entity) => e.name != name
  }

  function OwnerIsNot(id: int): (keep: Observation -> bool) {
    (o: Observation) => o.entityId != id
  }

  function ObservationIdIsNot(id: int): (keep: Observation -> bool) {
    (o: Observation) => o.id != id
  }

  /** The relations the cascade keeps: those not touching entity `id`. */
  function Avoids(id: int): (keep: Relation -> bool) {
    (r: Relation) => r.fromId != id && r.toId != id
  }

  predicate HasObservation(os: seq<Observation>, id: int) {
    exists o :: o in os && o.id == id
  }

  predicate HasRun(runs: seq<Run>, id: int) {
    exists run :: run in runs && run.id == id
  }

  predicate HasTriple(rs: seq<Relation>, fromId: int, toId: int, relationType: string) {
    exists rel :: rel in rs && RelationTriple(rel) == (fromId, toId, relationType)
  }

  /** The row `log_run_end` writes over run `run`. */
  function Ended(run: Run, at: nat, status: string, notes: Option<string>,
                 errorMessage: Option<string>, outputSummary: Option<string>): (r: Run)
  {
    run.(endedAt := Some(at), status := status, notes := notes,
         errorMessage := errorMessage, outputSummary := outputSummary)
  }

  /** The table `log_run_end`'s UPDATE leaves: every row whose id is `runId`
      is ended, every other row is kept as it was. */
  function EndRuns(runs: seq<Run>, runId: int, at: nat, status: string, notes: Option<string>,
                   errorMessage: Option<string>, outputSummary: Option<string>): (r: seq<Run>)
    ensures |r| == |runs|
    ensures forall i :: 0 <= i < |r| ==>
      && r[i].id == runs[i].id && r[i].directiveName == runs[i].directiveName
      && r[i].startedAt == runs[i].startedAt && r[i].inputSummary == runs[i].inputSummary
    ensures forall x :: x in runs && x.id != runId ==> x in r
    ensures forall x :: x in r ==> (x.id != runId ==> x in runs)
    ensures forall x :: x in r && x.id == runId ==>
      && x.status == status && x.endedAt == Some(at) && x.notes == notes
      && x.errorMessage == errorMessage && x.outputSummary == outputSummary
    ensures !HasRun(runs, runId) ==> r == runs
    ensures Distinct(runs, RunId) ==> Distinct(r, RunId)
  {
    var r := seq(|runs|, i requires 0 <= i < |runs| =>
      if runs[i].id == runId then Ended(runs[i], at, status, notes, errorMessage, outputSummary) else runs[i]);
    assert forall x :: x in runs && x.id != runId ==> x in r by {
      forall x | x in runs && x.id != runId ensures x in r {
        var i :| 0 <= i < |runs| && runs[i] == x;
        assert r[i] == x;
      }
    }
    r
  }

  /** Two `log_run_end` calls on one run: the second, stamped later by the
      clock, overwrites every column the first one set, so the table is as if
      only the second call had run. */
  lemma EndRunsLastWins(runs: seq<Run>, runId: int,
                        at1: nat, status1: string, notes1: Option<string>,
                        errorMessage1: Option<string>, outputSummary1: Option<string>,
                        at2: nat, status2: string, notes2: Option<string>,
                        errorMessage2: Option<string>, outputSummary2: Option<string>)
    ensures var once := EndRuns(runs, runId, at1, status1, notes1, errorMessage1, outputSummary1);
      EndRuns(once, runId, at2, status2, notes2, errorMessage2, outputSummary2)
      == EndRuns(runs, runId, at2, status2, notes2, errorMessage2, outputSummary2)
  {
  }

  /** A run stamped later than every stored run, and matching the filters,
      is listed by `get_runs` for every positive limit: newest first. */
  lemma NewRunIsListed(runs: seq<Run>, run: Run, directive: Option<string>, limit: int, status: Option<string>)
    requires forall x :: x in runs ==> x.startedAt < run.startedAt
    requires RunMatches(run, directive, status) && limit > 0
    ensures run in GetRuns(runs + [run], directive, limit, status)
  {
    var all := runs + [run];
    var r := GetRuns(all, directive, limit, status);
    assert run in all;
    assert run in Filter(all, RunFilter(directive, status));
    if run !in r {
      assert |r| > 0 && r[0] in all;
    }
  }

  /** `after` is `before` followed by one observation per string of
      `contents`, owned by `owner`, with consecutive ids from `firstId` and
      consecutive timestamps from `firstAt`. */
  ghost predicate ObservationsAppended(before: seq<Observation>, after: seq<Observation>, firstId: nat,
                                       owner: nat, contents: seq<string>, firstAt: nat)
  {
    && |after| == |before| + |contents|
    && after[..|before|] == before
    && forall k :: 0 <= k < |contents| ==>
         after[|before| + k] == Observation(firstId + k, owner, contents[k], firstAt + k)
  }

  /** The `for obs in observations` loop of `create_entity`: one INSERT per
      string, each taking the next id and the next timestamp. */
  method InsertObservations(os: seq<Observation>, firstId: nat, owner: nat, contents: seq<string>, firstAt: nat)
    returns (result: seq<Observation>)
    requires Distinct(os, ObservationId) && AllBelow(os, ObservationId, firstId)
    ensures ObservationsAppended(os, result, firstId, owner, contents, firstAt)
    ensures Distinct(result, ObservationId) && AllBelow(result, ObservationId, firstId + |contents|)
    ensures forall o :: o in result ==> o in os || (o.entityId == owner && firstAt <= o.createdAt < firstAt + |contents|)
  {
    result := os;
    for i := 0 to |contents|
      invariant ObservationsAppended(os, result, firstId, owner, contents[..i], firstAt)
      invariant Distinct(result, ObservationId) && AllBelow(result, ObservationId, firstId + i)
      invariant forall o :: o in result ==> o in os || (o.entityId == owner && firstAt <= o.createdAt < firstAt + i)
    {
      var o := Observation(firstId + i, owner, contents[i], firstAt + i);
      AppendKeepsDistinct(result, o, ObservationId, firstId + i);
      assert (result + [o])[..|os|] == result[..|os|];
      result := result + [o];
    }
    assert contents[..|contents|] == contents;
  }

  /** `create_entity` keeps every table constraint: the new entity takes a
      fresh id and an unused name, and its observations are owned by it. */
  lemma CreateKeepsValid(es: seq<Entity>, os: seq<Observation>, rs: seq<Relation>, e: Entity, os': seq<Observation>,
                         nextE: nat, nextO: nat, nextR: nat, clock: nat, count: nat)
    requires EntitiesValid(es, nextE, clock) && FindByName(es, e.name).None?
    requires ObservationsValid(os, es, nextO, clock) && RelationsValid(rs, es, nextR, clock)
    requires e.id == nextE && e.createdAt == clock
    requires Distinct(os', ObservationId) && AllBelow(os', ObservationId, nextO + count)
    requires forall o :: o in os' ==> o in os || (o.entityId == e.id && clock + 1 <= o.createdAt < clock + 1 + count)
    ensures EntitiesValid(es + [e], nextE + 1, clock + 1 + count)
    ensures ObservationsValid(os', es + [e], nextO + count, clock + 1 + count)
    ensures RelationsValid(rs, es + [e], nextR, clock + 1 + count)
  {
  }

  /** `entities`: id is an AUTOINCREMENT key, name is UNIQUE. */
  ghost predicate EntitiesValid(es: seq<Entity>, nextId: nat, clock: nat) {
    && Distinct(es, EntityId)
    && AllBelow(es, EntityId, nextId)
    && Distinct(es, EntityName)
    && forall e :: e in es ==> e.createdAt < clock
  }

  /** `observations`: every row is owned by a live entity. */
  ghost predicate ObservationsValid(os: seq<Observation>, es: seq<Entity>, nextId: nat, clock: nat) {
    && Distinct(os, ObservationId)
    && AllBelow(os, ObservationId, nextId)
    && forall o :: o in os ==> HasId(es, o.entityId) && o.createdAt < clock
  }

  /** `relations`: both endpoints live, (from, to, type) UNIQUE. */
  ghost predicate RelationsValid(rs: seq<Relation>, es: seq<Entity>, nextId: nat, clock: nat) {
    && Distinct(rs, RelationId)
    && AllBelow(rs, RelationId, nextId)
    && Distinct(rs, RelationTriple)
    && forall r :: r in rs ==> HasId(es, r.fromId) && HasId(es, r.toId) && r.createdAt < clock
  }

  /** `directive_runs`: the CHECK constraint on status holds. */
  ghost predicate RunsValid(runs: seq<Run>, nextId: nat, clock: nat) {
    && Distinct(runs, RunId)
    && AllBelow(runs, RunId, nextId)
    && forall r :: r in runs ==>
         IsStatus(r.status) && r.startedAt < clock && (r.endedAt.Some? ==> r.endedAt.value < clock)
  }

  /** The cascade of `delete_entity` keeps every table constraint: what
      remains refers only to entities that remain. */
  lemma CascadeKeepsValid(es: seq<Entity>, os: seq<Observation>, rs: seq<Relation>, name: string,
                          nextE: nat, nextO: nat, nextR: nat, clock: nat,
                          es': seq<Entity>, os': seq<Observation>, rs': seq<Relation>)
    requires EntitiesValid(es, nextE, clock) && FindByName(es, name).Some?
    requires ObservationsValid(os, es, nextO, clock) && RelationsValid(rs, es, nextR, clock)
    requires es' == Filter(es, NameIsNot(name))
    requires os' == Filter(os, OwnerIsNot(FindByName(es, name).value.id))
    requires rs' == Filter(rs, Avoids(FindByName(es, name).value.id))
    ensures forall e :: e in es' <==> e in es && e != FindByName(es, name).value
    ensures forall o :: o in os' <==> o in os && o.entityId != FindByName(es, name).value.id
    ensures forall r :: r in rs' ==> r.fromId != FindByName(es, name).value.id && r.toId != FindByName(es, name).value.id
    ensures EntitiesValid(es', nextE, clock)
    ensures ObservationsValid(os', es', nextO, clock)
    ensures RelationsValid(rs', es', nextR, clock)
  {
    var gone := FindByName(es, name).value;
    forall e | e in es && e.name == name ensures e == gone {
      FindByNameUnique(es, e);
    }
    forall id | HasId(es, id) && id != gone.id ensures HasId(es', id) {
      var e :| e in es && e.id == id;
      assert e in es';
    }
    FilterKeepsDistinct(es, NameIsNot(name), EntityId);
    FilterKeepsDistinct(es, NameIsNot(name), EntityName);
    FilterKeepsDistinct(os, OwnerIsNot(gone.id), ObservationId);
    FilterKeepsDistinct(rs, Avoids(gone.id), RelationId);
    FilterKeepsDistinct(rs, Avoids(gone.id), RelationTriple);
  }

  /** After `name` is deleted, `get_entity(name)` finds nothing, no edge that
      `get_entity` lists for another entity leads to it, and no row of
      `read_graph` mentions it. */
  ghost predicate NameGone(es: seq<Entity>, os: seq<Observation>, rs: seq<Relation>, runs: seq<Run>, name: string) {
    && GetEntity(es, os, rs, name).None?
    && (forall other :: GetEntity(es, os, rs, other).Some? ==>
          && (forall x :: x in GetEntity(es, os, rs, other).value.outgoing ==> x.otherName != name)
          && (forall x :: x in GetEntity(es, os, rs, other).value.incoming ==> x.otherName != name))
    && forall v :: v in ReadGraph(es, os, rs, runs).relations ==> v.fromName != name && v.toName != name
  }

  /** Whatever rows remain in the other tables, once the entities row of
      `name` is gone nothing any reader returns mentions `name`. */
  lemma NameGoneAfterDelete(es: seq<Entity>, os: seq<Observation>, rs: seq<Relation>, runs: seq<Run>, name: string)
    ensures NameGone(Filter(es, NameIsNot(name)), os, rs, runs, name)
  {
  }

  class MemoryDB {
    var entities: seq<Entity>
    var observations: seq<Observation>
    var relations: seq<Relation>
    var runs: seq<Run>
    var nextEntityId: nat
    var nextObservationId: nat
    var nextRelationId: nat
    var nextRunId: nat
    /** The next CURRENT_TIMESTAMP reading; every stored time is below it. */
    var clock: nat

    /** The constraints of the schema `init_schema` creates. */
    ghost predicate Valid()
      reads this
    {
      && EntitiesValid(entities, nextEntityId, clock)
      && ObservationsValid(observations, entities, nextObservationId, clock)
      && RelationsValid(relations, entities, nextRelationId, clock)
      && RunsValid(runs, nextRunId, clock)
    }

    /** A new store: `init_schema` on a fresh file creates four empty tables. */
    constructor ()
      ensures Valid()
      ensures entities == [] && observations == [] && relations == [] && runs == []
      ensures nextEntityId == 1 && nextObservationId == 1 && nextRelationId == 1 && nextRunId == 1
      ensures clock == 0
    {
      entities, observations, relations, runs := [], [], [], [];
      nextEntityId, nextObservationId, nextRelationId, nextRunId := 1, 1, 1, 1;
      clock := 0;
    }

    /** `create_entity(name, entity_type, observations)`. */
    method CreateEntity(name: string, entityType: string, contents: seq<string>) returns (r: Result<EntityCreated>)
      requires Valid()
      modifies this
      ensures Valid()
      ensures old(FindByName(entities, name)).Some? ==> r == Err(EntityExists(name)) && unchanged(this)
      ensures old(FindByName(entities, name)).None? ==>
        && r == Ok(EntityCreated(old(nextEntityId), name, entityType, contents))
        && entities == old(entities) + [Entity(old(nextEntityId), name, entityType, old(clock))]
        && ObservationsAppended(old(observations), observations, old(nextObservationId),
                                old(nextEntityId), contents, old(clock) + 1)
        && relations == old(relations) && runs == old(runs)
        && nextEntityId == old(nextEntityId) + 1
        && nextObservationId == old(nextObservationId) + |contents|
        && nextRelationId == old(nextRelationId) && nextRunId == old(nextRunId)
        && clock == old(clock) + 1 + |contents|
    {
      if FindByName(entities, name).Some? {
        return Err(EntityExists(name));
      }
      var id := nextEntityId;
      var e := Entity(id, name, entityType, clock);
      var es, os, at := entities, observations, clock;
      observations := InsertObservations(os, nextObservationId, id, contents, at + 1);
      entities := es + [e];
      CreateKeepsValid(es, os, relations, e, observations, id, nextObservationId, nextRelationId, at, |contents|);
      nextEntityId := nextEntityId + 1;
      nextObservationId := nextObservationId + |contents|;
      clock := clock + 1 + |contents|;
      r := Ok(EntityCreated(id, name, entityType, contents));
    }

    /** `delete_entity(name)`, with the cascade the schema declares. */
    method DeleteEntity(name: string) returns (r: Result<string>)
      requires Valid()
      modifies this
      ensures Valid()
      ensures old(FindByName(entities, name)).None? ==> r == Err(EntityNotFound(name)) && unchanged(this)
      ensures old(FindByName(entities, name)).Some? ==>
        var gone := old(FindByName(entities, name)).value;
        && r == Ok(name)
        && entities == Filter(old(entities), NameIsNot(name))
        && observations == Filter(old(observations), OwnerIsNot(gone.id))
        && relations == Filter(old(relations), Avoids(gone.id))
        && runs == old(runs)
        && nextEntityId == old(nextEntityId) && nextObservationId == old(nextObservationId)
        && nextRelationId == old(nextRelationId) && nextRunId == old(nextRunId) && clock == old(clock)
        && (forall e :: e in entities <==> e in old(entities) && e != gone)
        && (forall o :: o in observations <==> o in old(observations) && o.entityId != gone.id)
        && (forall rel :: rel in relations ==> rel.fromId != gone.id && rel.toId != gone.id)
    {
      var found := FindByName(entities, name);
      if found.None? {
        return Err(EntityNotFound(name));
      }
      var gone := found.value;
      var es, os, rs := entities, observations, relations;
      entities := Filter(es, NameIsNot(name));
      observations := Filter(os, OwnerIsNot(gone.id));
      relations := Filter(rs, Avoids(gone.id));
      CascadeKeepsValid(es, os, rs, name, nextEntityId, nextObservationId, nextRelationId, clock,
                        entities, observations, relations);
      r := Ok(name);
    }

    /** `add_observation(entity_name, content)`. */
    method AddObservation(entityName: string, content: string) returns (r: Result<ObservationAdded>)
      requires Valid()
      modifies this
      ensures Valid()
      ensures old(FindByName(entities, entityName)).None? ==>
        r == Err(EntityNotFound(entityName)) && unchanged(this)
      ensures old(FindByName(entities, entityName)).Some? ==>
        var owner := old(FindByName(entities, entityName)).value;
        && r == Ok(ObservationAdded(old(nextObservationId), entityName, content))
        && observations == old(observations) + [Observation(old(nextObservationId), owner.id, content, old(clock))]
        && entities == old(entities) && relations == old(relations) && runs == old(runs)
        && nextObservationId == old(nextObservationId) + 1 && clock == old(clock) + 1
        && nextEntityId == old(nextEntityId) && nextRelationId == old(nextRelationId) && nextRunId == old(nextRunId)
    {
      var found := FindByName(entities, entityName);
      if found.None? {
        return Err(EntityNotFound(entityName));
      }
      var o := Observation(nextObservationId, found.value.id, content, clock);
      AppendKeepsDistinct(observations, o, ObservationId, nextObservationId);
      observations := observations + [o];
      r := Ok(ObservationAdded(nextObservationId, entityName, content));
      nextObservationId := nextObservationId + 1;
      clock := clock + 1;
    }

    /** `delete_observation(obs_id)`. */
    method DeleteObservation(obsId: int) returns (r: Result<int>)
      requires Valid()
      modifies this
      ensures Valid()
      ensures !old(HasObservation(observations, obsId)) ==> r == Err(ObservationNotFound(obsId)) && unchanged(this)
      ensures old(HasObservation(observations, obsId)) ==>
        && r == Ok(obsId)
        && observations == Filter(old(observations), ObservationIdIsNot(obsId))
        && |observations| == |old(observations)| - 1
        && (forall o :: o in observations <==> o in old(observations) && o.id != obsId)
        && entities == old(entities) && relations == old(relations) && runs == old(runs)
        && nextEntityId == old(nextEntityId) && nextObservationId == old(nextObservationId)
        && nextRelationId == old(nextRelationId) && nextRunId == old(nextRunId) && clock == old(clock)
    {
      if !HasObservation(observations, obsId) {
        return Err(ObservationNotFound(obsId));
      }
      FilterKeepsDistinct(observations, ObservationIdIsNot(obsId), ObservationId);
      FilterOutOneKey(observations, ObservationIdIsNot(obsId), ObservationId, obsId);
      observations := Filter(observations, ObservationIdIsNot(obsId));
      r := Ok(obsId);
    }

    /** `create_relation(from_name, to_name, relation_type)`. */
    method CreateRelation(fromName: string, toName: string, relationType: string) returns (r: Result<RelationCreated>)
      requires Valid()
      modifies this
      ensures Valid()
      ensures old(FindByName(entities, fromName)).None? ==>
        r == Err(EntityNotFound(fromName)) && unchanged(this)
      ensures old(FindByName(entities, fromName)).Some? && old(FindByName(entities, toName)).None? ==>
        r == Err(EntityNotFound(toName)) && unchanged(this)
      ensures old(FindByName(entities, fromName)).Some? && old(FindByName(entities, toName)).Some? ==>
        var fromId := old(FindByName(entities, fromName)).value.id;
        var toId := old(FindByName(entities, toName)).value.id;
        if old(HasTriple(relations, fromId, toId, relationType)) then
          r == Err(RelationExists) && unchanged(this)
        else
          && r == Ok(RelationCreated(fromName, toName, relationType))
          && relations == old(relations) + [Relation(old(nextRelationId), fromId, toId, relationType, old(clock))]
          && entities == old(entities) && observations == old(observations) && runs == old(runs)
          && nextRelationId == old(nextRelationId) + 1 && clock == old(clock) + 1
          && nextEntityId == old(nextEntityId) && nextObservationId == old(nextObservationId)
          && nextRunId == old(nextRunId)
    {
      var from := FindByName(entities, fromName);
      if from.None? {
        return Err(EntityNotFound(fromName));
      }
      var to := FindByName(entities, toName);
      if to.None? {
        return Err(EntityNotFound(toName));
      }
      if HasTriple(relations, from.value.id, to.value.id, relationType) {
        return Err(RelationExists);
      }
      var rel := Relation(nextRelationId, from.value.id, to.value.id, relationType, clock);
      AppendKeepsDistinct(relations, rel, RelationId, nextRelationId);
      assert Distinct(relations + [rel], RelationTriple) by {
        var s := relations + [rel];
        forall i, j | 0 <= i < j < |s| ensures RelationTriple(s[i]) != RelationTriple(s[j]) {
          assert s[i] == relations[i] && s[i] in relations;
          if j < |relations| { assert s[j] == relations[j]; }
        }
      }
      relations := relations + [rel];
      nextRelationId := nextRelationId + 1;
      clock := clock + 1;
      r := Ok(RelationCreated(fromName, toName, relationType));
    }

    /** `log_run_start(directive, input_summary)`: a new run in status `started`. */
    method LogRunStart(directive: string, inputSummary: Option<string>) returns (id: nat)
      requires Valid()
      modifies this
      ensures Valid()
      ensures id == old(nextRunId)
      ensures runs == old(runs) + [Run(id, directive, old(clock), None, "started", None, None, inputSummary, None)]
      ensures entities == old(entities) && observations == old(observations) && relations == old(relations)
      ensures nextRunId == old(nextRunId) + 1 && clock == old(clock) + 1
      ensures nextEntityId == old(nextEntityId) && nextObservationId == old(nextObservationId)
      ensures nextRelationId == old(nextRelationId)
    {
      id := nextRunId;
      var run := Run(id, directive, clock, None, "started", None, None, inputSummary, None);
      AppendKeepsDistinct(runs, run, RunId, nextRunId);
      runs := runs + [run];
      nextRunId := nextRunId + 1;
      clock := clock + 1;
    }

    /** `log_run_end(run_id, status, ...)`: an UPDATE of the row with that id.
        With no such row nothing is written and the CHECK is never evaluated. */
    method LogRunEnd(runId: int, status: string, notes: Option<string>,
                     errorMessage: Option<string>, outputSummary: Option<string>) returns (r: Result<RunEnded>)
      requires Valid()
      modifies this
      ensures Valid()
      ensures !old(HasRun(runs, runId)) ==> r == Ok(RunEnded(runId, status)) && unchanged(this)
      ensures old(HasRun(runs, runId)) && !IsStatus(status) ==> r == Err(StatusRejected(status)) && unchanged(this)
      ensures old(HasRun(runs, runId)) && IsStatus(status) ==>
        && r == Ok(RunEnded(runId, status))
        && runs == EndRuns(old(runs), runId, old(clock), status, notes, errorMessage, outputSummary)
        && entities == old(entities) && observations == old(observations) && relations == old(relations)
        && clock == old(clock) + 1
        && nextEntityId == old(nextEntityId) && nextObservationId == old(nextObservationId)
        && nextRelationId == old(nextRelationId) && nextRunId == old(nextRunId)
    {
      if !HasRun(runs, runId) {
        return Ok(RunEnded(runId, status));
      }
      if !IsStatus(status) {
        return Err(StatusRejected(status));
      }
      var updated := EndRuns(runs, runId, clock, status, notes, errorMessage, outputSummary);
      forall x | x in updated
        ensures x.id < nextRunId && IsStatus(x.status) && x.startedAt < clock + 1
        ensures x.endedAt.Some? ==> x.endedAt.value < clock + 1
      {
        var i :| 0 <= i < |updated| && updated[i] == x;
        assert runs[i] in runs;
      }
      runs := updated;
      clock := clock + 1;
      r := Ok(RunEnded(runId, status));
    }

    /** `log_run(directive, status, ...)`: one new run, started and ended at the
        insert's timestamp. A status outside the CHECK values makes the engine
        reject the INSERT. */
    method LogRun(directive: string, status: string, notes: Option<string>, errorMessage: Option<string>,
                  inputSummary: Option<string>, outputSummary: Option<string>) returns (r: Result<RunLogged>)
      requires Valid()
      modifies this
      ensures Valid()
      ensures !IsStatus(status) ==> r == Err(StatusRejected(status)) && unchanged(this)
      ensures IsStatus(status) ==>
        && r == Ok(RunLogged(old(nextRunId), directive, status))
        && runs == old(runs) + [Run(old(nextRunId), directive, old(clock), Some(old(clock)), status,
                                     errorMessage, notes, inputSummary, outputSummary)]
        && entities == old(entities) && observations == old(observations) && relations == old(relations)
        && nextRunId == old(nextRunId) + 1 && clock == old(clock) + 1
        && nextEntityId == old(nextEntityId) && nextObservationId == old(nextObservationId)
        && nextRelationId == old(nextRelationId)
    {
      if !IsStatus(status) {
        return Err(StatusRejected(status));
      }
      var run := Run(nextRunId, directive, clock, Some(clock), status, errorMessage, notes, inputSummary, outputSummary);
      AppendKeepsDistinct(runs, run, RunId, nextRunId);
      runs := runs + [run];
      r := Ok(RunLogged(nextRunId, directive, status));
      nextRunId := nextRunId + 1;
      clock := clock + 1;
    }
  }
}
