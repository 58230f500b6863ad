/** Why a dangling row is mostly invisible. The schema declares ON DELETE
    CASCADE, but the connection never turns foreign keys on, so a real
    `delete_entity` may leave observations and relations pointing at a
    removed id. The readers reach those rows in one of two ways: through an
    inner join on `entities.id` (the edges of `get_entity`, the observation
    hits of `search`, the relations of `read_graph`), or by the id of an
    entity just found by name (the observation list of `get_entity`).
    AUTOINCREMENT never hands a removed id out again, so neither way meets a
    dangling row. Two statements touch the table without either: the plain
    `COUNT(*)` of `read_graph` and the `DELETE ... WHERE id = ?` of
    `delete_observation`; those are where the missing cascade shows. */
module Visibility {
  import opened Records
  import opened Seqs
  import opened Queries
  import opened MemoryOps
  import opened SqlLike

  /** A join on an id no entity holds meets nothing. */
  lemma NamesWithIdAbsent(es: seq<Entity>, id: int)
    requires !HasId(es, id)
    ensures NamesWithId(es, id) == []
  {
  }

  /** Relations touching an id no entity holds add no row to `read_graph`'s join. */
  lemma {:induction false} JoinHidesOrphans(rs: seq<Relation>, es: seq<Entity>, g: int)
    requires !HasId(es, g)
    ensures JoinRelations(Filter(rs, Avoids(g)), es) == JoinRelations(rs, es)
  {
    if rs != [] {
      var rest := Filter(rs[1..], Avoids(g));
      JoinHidesOrphans(rs[1..], es, g);
      if Avoids(g)(rs[0]) {
        var kept := [rs[0]] + rest;
        assert kept[0] == rs[0] && kept[1..] == rest;
      } else {
        NamesWithIdAbsent(es, g);
        var here := ViewsOf(rs[0], NamesWithId(es, rs[0].fromId), NamesWithId(es, rs[0].toId));
        assert |here| == 0;
      }
    }
  }

  /** ... nor to the outgoing edges of a live entity ... */
  lemma {:induction false} OutgoingHidesOrphans(rs: seq<Relation>, es: seq<Entity>, g: int, id: int)
    requires !HasId(es, g) && id != g
    ensures Outgoing(Filter(rs, Avoids(g)), es, id) == Outgoing(rs, es, id)
  {
    if rs != [] {
      var rest := Filter(rs[1..], Avoids(g));
      OutgoingHidesOrphans(rs[1..], es, g, id);
      if Avoids(g)(rs[0]) {
        var kept := [rs[0]] + rest;
        assert kept[0] == rs[0] && kept[1..] == rest;
      } else if rs[0].fromId == id {
        NamesWithIdAbsent(es, g);
        assert EdgesOf(rs[0], NamesWithId(es, rs[0].toId)) == [];
      }
    }
  }

  /** ... nor to its incoming edges ... */
  lemma {:induction false} IncomingHidesOrphans(rs: seq<Relation>, es: seq<Entity>, g: int, id: int)
    requires !HasId(es, g) && id != g
    ensures Incoming(Filter(rs, Avoids(g)), es, id) == Incoming(rs, es, id)
  {
    if rs != [] {
      var rest := Filter(rs[1..], Avoids(g));
      IncomingHidesOrphans(rs[1..], es, g, id);
      if Avoids(g)(rs[0]) {
        var kept := [rs[0]] + rest;
        assert kept[0] == rs[0] && kept[1..] == rest;
      } else if rs[0].toId == id {
        NamesWithIdAbsent(es, g);
        assert EdgesOf(rs[0], NamesWithId(es, rs[0].fromId)) == [];
      }
    }
  }

  /** ... and observations owned by such an id add no hit to `search`. */
  lemma {:induction false} HitsHideOrphans(os: seq<Observation>, es: seq<Entity>, g: int, pattern: string)
    requires !HasId(es, g)
    ensures ObservationHits(Filter(os, OwnerIsNot(g)), es, pattern) == ObservationHits(os, es, pattern)
  {
    if os != [] {
      var rest := Filter(os[1..], OwnerIsNot(g));
      HitsHideOrphans(os[1..], es, g, pattern);
      if OwnerIsNot(g)(os[0]) {
        var kept := [os[0]] + rest;
        assert kept[0] == os[0] && kept[1..] == rest;
      } else {
        NamesWithIdAbsent(es, g);
        assert HitsOf(os[0], NamesWithId(es, os[0].entityId)) == [];
      }
    }
  }

  lemma {:induction false} OwnedIgnoresOrphans(os: seq<Observation>, g: int, id: int)
    requires id != g
    ensures Filter(Filter(os, OwnerIsNot(g)), OwnedBy(id)) == Filter(os, OwnedBy(id))
  {
    if os != [] {
      var rest := Filter(os[1..], OwnerIsNot(g));
      OwnedIgnoresOrphans(os[1..], g, id);
      if OwnerIsNot(g)(os[0]) {
        var kept := [os[0]] + rest;
        assert kept[0] == os[0] && kept[1..] == rest;
      }
    }
  }

  /** Once no entity holds id `g`, dropping the rows that still point at it
      changes nothing `get_entity` returns ... */
  lemma GetEntityHidesOrphans(es: seq<Entity>, os: seq<Observation>, rs: seq<Relation>, g: int, name: string)
    requires !HasId(es, g)
    ensures GetEntity(es, Filter(os, OwnerIsNot(g)), Filter(rs, Avoids(g)), name) == GetEntity(es, os, rs, name)
  {
    var found := FindByName(es, name);
    if found.Some? {
      var e := found.value;
      OwnedIgnoresOrphans(os, g, e.id);
      OutgoingHidesOrphans(rs, es, g, e.id);
      IncomingHidesOrphans(rs, es, g, e.id);
    }
  }

  /** ... nothing `search` returns ... */
  lemma SearchHidesOrphans(es: seq<Entity>, os: seq<Observation>, runs: seq<Run>, g: int, query: string)
    requires !HasId(es, g)
    ensures Search(es, Filter(os, OwnerIsNot(g)), runs, query) == Search(es, os, runs, query)
  {
    HitsHideOrphans(os, es, g, Pattern(query));
  }

  /** ... and nothing `read_graph` returns but the plain `observation_count`. */
  lemma ReadGraphHidesOrphans(es: seq<Entity>, os: seq<Observation>, rs: seq<Relation>, runs: seq<Run>, g: int)
    requires !HasId(es, g)
    ensures var before := ReadGraph(es, os, rs, runs);
      var after := ReadGraph(es, Filter(os, OwnerIsNot(g)), Filter(rs, Avoids(g)), runs);
      && after.entities == before.entities
      && after.relations == before.relations
      && after.stats == before.stats.(observationCount := |Filter(os, OwnerIsNot(g))|)
  {
    JoinHidesOrphans(rs, es, g);
  }

  /** `delete_entity(name)` without the cascade (the entities row alone goes)
      and with it look the same to every reader: the removed id is held by no
      remaining entity, so the lemmas above apply. */
  lemma CascadeIsInvisible(es: seq<Entity>, os: seq<Observation>, rs: seq<Relation>, runs: seq<Run>,
                           name: string, other: string, query: string)
    requires Distinct(es, EntityId) && FindByName(es, name).Some?
    ensures var g := FindByName(es, name).value.id;
      var kept := Filter(es, NameIsNot(name));
      && GetEntity(kept, Filter(os, OwnerIsNot(g)), Filter(rs, Avoids(g)), other) == GetEntity(kept, os, rs, other)
      && Search(kept, Filter(os, OwnerIsNot(g)), runs, query) == Search(kept, os, runs, query)
      && ReadGraph(kept, Filter(os, OwnerIsNot(g)), Filter(rs, Avoids(g)), runs).relations
         == ReadGraph(kept, os, rs, runs).relations
  {
    var gone := FindByName(es, name).value;
    var kept := Filter(es, NameIsNot(name));
    assert !HasId(kept, gone.id) by {
      if e :| e in kept && e.id == gone.id {
        var i :| 0 <= i < |es| && es[i] == e;
        var j :| 0 <= j < |es| && es[j] == gone;
      }
    }
    GetEntityHidesOrphans(kept, os, rs, gone.id, other);
    SearchHidesOrphans(kept, os, runs, gone.id, query);
    ReadGraphHidesOrphans(kept, os, rs, runs, gone.id);
  }

  /** A join on an id other than a new entity's meets what it met before. */
  lemma {:induction false} NamesWithIdAppend(es: seq<Entity>, e: Entity, id: int)
    requires e.id != id
    ensures NamesWithId(es + [e], id) == NamesWithId(es, id)
  {
    if es == [] {
      assert ([e])[1..] == [];
    } else {
      assert (es + [e])[0] == es[0] && (es + [e])[1..] == es[1..] + [e];
      NamesWithIdAppend(es[1..], e, id);
    }
  }

  /** Ids are never reused: an entity created with a fresh id (one no
      relation and no observation refers to, as `nextEntityId` is) adopts no
      leftover row, so orphans stay invisible. */
  lemma {:induction false} FreshEntityAdoptsNoRelation(rs: seq<Relation>, es: seq<Entity>, e: Entity)
    requires forall r :: r in rs ==> r.fromId != e.id && r.toId != e.id
    ensures JoinRelations(rs, es + [e]) == JoinRelations(rs, es)
  {
    if rs != [] {
      NamesWithIdAppend(es, e, rs[0].fromId);
      NamesWithIdAppend(es, e, rs[0].toId);
      FreshEntityAdoptsNoRelation(rs[1..], es, e);
    }
  }

  lemma {:induction false} FreshEntityAdoptsNoObservation(os: seq<Observation>, es: seq<Entity>, e: Entity, pattern: string)
    requires forall o :: o in os ==> o.entityId != e.id
    ensures ObservationHits(os, es + [e], pattern) == ObservationHits(os, es, pattern)
  {
    if os != [] {
      NamesWithIdAppend(es, e, os[0].entityId);
      FreshEntityAdoptsNoObservation(os[1..], es, e, pattern);
    }
  }

  /** `delete_entity` as the connection runs it, with foreign keys off: only
      the entities row goes. Its observations stay behind, owned by no entity,
      which breaks the constraint the schema declares, and `read_graph` still
      counts them in `observation_count`. */
  lemma RowOnlyDeleteLeavesOrphans()
    ensures var es := [Entity(1, "a", "t", 0)];
      var os := [Observation(1, 1, "x", 1)];
      var kept := Filter(es, NameIsNot("a"));
      && kept == []
      && !ObservationsValid(os, kept, 2, 2)
      && ReadGraph(kept, os, [], []).stats.observationCount == 1
  {
  }

  /** ... and `delete_observation` on such a leftover observation's id still
      finds the row and reports it deleted, where after the cascade the same
      call reports `ObservationNotFound`. */
  lemma RowOnlyDeleteKeepsObservationDeletable()
    ensures var es := [Entity(1, "a", "t", 0)];
      var os := [Observation(1, 1, "x", 1)];
      var kept := Filter(es, NameIsNot("a"));
      && kept == []
      && HasObservation(os, 1)
      && !HasObservation(Filter(os, OwnerIsNot(1)), 1)
  {
    var os := [Observation(1, 1, "x", 1)];
    assert os[0] in os;
  }
}
