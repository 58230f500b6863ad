/** The store's read-only operations (`get_entity`, `get_runs`, `search`,
    `read_graph` in execution/memory_ops.py) as functions of the tables.
    Being functions, each is read-only and returns the same result on an
    unchanged store. Joins follow SQL: a row joins with every matching row
    of the other table; orders the SQL leaves open are table order here and
    no contract depends on them. */
module Queries {
  import opened Records
  import opened Seqs
  import opened SqlLike

  // ---------------------------------------------------------------- lookups

  /** `SELECT ... FROM entities WHERE name = ?`, first row. */
  function FindByName(es: seq<Entity>, name: string): (r: Option<Entity>)
    ensures r.Some? ==> r.value in es && r.value.name == name
    ensures r.None? ==> forall e :: e in es ==> e.name != name
  {
    if es == [] then None
    else if es[0].name == name then Some(es[0])
    else FindByName(es[1..], name)
  }

  /** With `name` UNIQUE, the lookup finds the one entity of that name. */
  lemma FindByNameUnique(es: seq<Entity>, e: Entity)
    requires Distinct(es, EntityName) && e in es
    ensures FindByName(es, e.name) == Some(e)
  {
  }

  predicate HasId(es: seq<Entity>, id: int) {
    exists e :: e in es && e.id == id
  }

  /** Some entity with id `id` is named `name`: one row of a join on entities.id. */
  ghost predicate NamedBy(es: seq<Entity>, id: int, name: string) {
    exists e :: e in es && e.id == id && e.name == name
  }

  /** The names of the entities a join on `entities.id = id` meets. */
  function NamesWithId(es: seq<Entity>, id: int): (r: seq<string>)
    ensures forall n :: n in r <==> NamedBy(es, id, n)
    ensures |r| <= |es|
  {
    if es == [] then []
    else
      assert es == [es[0]] + es[1..];
      (if es[0].id == id then [es[0].name] else []) + NamesWithId(es[1..], id)
  }

  /** With `id` a PRIMARY KEY, a join on it meets at most one row. */
  lemma {:induction false} NamesWithIdUnique(es: seq<Entity>, id: int)
    requires Distinct(es, EntityId)
    ensures |NamesWithId(es, id)| == if HasId(es, id) then 1 else 0
  {
    if es != [] {
      assert Distinct(es[1..], EntityId);
      NamesWithIdUnique(es[1..], id);
      assert es == [es[0]] + es[1..];
      if es[0].id != id {
        if HasId(es, id) {
          var e :| e in es && e.id == id;
          assert e in es[1..];
        }
      }
    }
  }

  // ------------------------------------------------------------- get_entity

  /** One row of the relations-with-entities join, seen from one end. */
  datatype Edge = Edge(relationId: nat, relationType: string, otherName: string)

  datatype EntityDetail = EntityDetail(
    entity: Entity,
    observations: seq<Observation>,
    outgoing: seq<Edge>,
    incoming: seq<Edge>)

  /** `x` is a row of `relations r JOIN entities e ON r.to_entity_id = e.id
      WHERE r.from_entity_id = id`. */
  ghost predicate IsOutgoing(rs: seq<Relation>, es: seq<Entity>, id: int, x: Edge) {
    exists rel :: rel in rs && rel.fromId == id && rel.id == x.relationId
      && rel.relationType == x.relationType && NamedBy(es, rel.toId, x.otherName)
  }

  /** `x` is a row of `relations r JOIN entities e ON r.from_entity_id = e.id
      WHERE r.to_entity_id = id`. */
  ghost predicate IsIncoming(rs: seq<Relation>, es: seq<Entity>, id: int, x: Edge) {
    exists rel :: rel in rs && rel.toId == id && rel.id == x.relationId
      && rel.relationType == x.relationType && NamedBy(es, rel.fromId, x.otherName)
  }

  function EdgesOf(rel: Relation, names: seq<string>): (r: seq<Edge>)
    ensures forall x :: x in r <==> x.relationId == rel.id && x.relationType == rel.relationType && x.otherName in names
  {
    if names == [] then []
    else
      assert names == [names[0]] + names[1..];
      [Edge(rel.id, rel.relationType, names[0])] + EdgesOf(rel, names[1..])
  }

  function Outgoing(rs: seq<Relation>, es: seq<Entity>, id: int): (r: seq<Edge>)
    ensures forall x :: x in r <==> IsOutgoing(rs, es, id, x)
  {
    if rs == [] then []
    else
      var here := if rs[0].fromId == id then EdgesOf(rs[0], NamesWithId(es, rs[0].toId)) else [];
      var rest := Outgoing(rs[1..], es, id);
      assert rs == [rs[0]] + rs[1..];
      assert forall x :: IsOutgoing(rs, es, id, x) ==> x in here || IsOutgoing(rs[1..], es, id, x);
      here + rest
  }

  function Incoming(rs: seq<Relation>, es: seq<Entity>, id: int): (r: seq<Edge>)
    ensures forall x :: x in r <==> IsIncoming(rs, es, id, x)
  {
    if rs == [] then []
    else
      var here := if rs[0].toId == id then EdgesOf(rs[0], NamesWithId(es, rs[0].fromId)) else [];
      var rest := Incoming(rs[1..], es, id);
      assert rs == [rs[0]] + rs[1..];
      assert forall x :: IsIncoming(rs, es, id, x) ==> x in here || IsIncoming(rs[1..], es, id, x);
      here + rest
  }

  function OwnedBy(id: int): (keep: Observation -> bool) {
    (o: Observation) => o.entityId == id
  }

  /** `get_entity(name)`: None when no entity has that name; otherwise the
      entity, its observations and its outgoing and incoming edges. */
  function GetEntity(es: seq<Entity>, os: seq<Observation>, rs: seq<Relation>, name: string): (r: Option<EntityDetail>)
    ensures r.None? <==> forall e :: e in es ==> e.name != name
    ensures r.Some? ==> r.value.entity in es && r.value.entity.name == name
    ensures r.Some? ==> forall o :: o in r.value.observations <==> o in os && o.entityId == r.value.entity.id
    ensures r.Some? ==> forall x :: x in r.value.outgoing <==> IsOutgoing(rs, es, r.value.entity.id, x)
    ensures r.Some? ==> forall x :: x in r.value.incoming <==> IsIncoming(rs, es, r.value.entity.id, x)
  {
    match FindByName(es, name)
    case None => None
    case Some(e) =>
      Some(EntityDetail(e, Filter(os, OwnedBy(e.id)), Outgoing(rs, es, e.id), Incoming(rs, es, e.id)))
  }

  // --------------------------------------------------------------- get_runs

  /** `if directive:` and `if status:` skip a filter that is None or empty. */
  predicate RunMatches(run: Run, directive: Option<string>, status: Option<string>) {
    && (directive.None? || directive.value == "" || run.directiveName == directive.value)
    && (status.None? || status.value == "" || run.status == status.value)
  }

  function RunFilter(directive: Option<string>, status: Option<string>): (keep: Run -> bool) {
    (run: Run) => RunMatches(run, directive, status)
  }

  /** `... WHERE <keep> ORDER BY started_at DESC LIMIT n`. */
  function Recent(runs: seq<Run>, keep: Run -> bool, n: nat): (r: seq<Run>)
    ensures |r| == Min(n, |Filter(runs, keep)|)
    ensures forall x :: x in r ==> x in runs && keep(x)
    ensures multiset(r) <= multiset(Filter(runs, keep))
    ensures n >= |Filter(runs, keep)| ==> multiset(r) == multiset(Filter(runs, keep))
    ensures NonIncreasing(r, RunStartedAt)
    ensures forall x, y :: x in runs && keep(x) && x !in r && y in r ==> x.startedAt <= y.startedAt
  {
    var matching := Filter(runs, keep);
    var sorted := SortDesc(matching, RunStartedAt);
    var m := Min(n, |sorted|);
    PrefixDominates(sorted, m, RunStartedAt);
    PrefixFacts(sorted, m);
    SameElements(sorted, matching);
    sorted[..m]
  }

  /** `get_runs(directive, limit, status)`. */
  function GetRuns(runs: seq<Run>, directive: Option<string>, limit: int, status: Option<string>): (r: seq<Run>)
    requires limit >= 0
    ensures |r| <= limit
    ensures |r| == Min(limit, |Filter(runs, RunFilter(directive, status))|)
    ensures forall x :: x in r ==> x in runs && RunMatches(x, directive, status)
    ensures multiset(r) <= multiset(runs)
    ensures NonIncreasing(r, RunStartedAt)
    ensures forall x, y :: x in runs && RunMatches(x, directive, status) && x !in r && y in r ==> x.startedAt <= y.startedAt
  {
    var keep := RunFilter(directive, status);
    var r := Recent(runs, keep, limit);
    FilterMultiset(runs, keep);
    assert multiset(Filter(runs, keep)) <= multiset(runs);
    r
  }

  // ----------------------------------------------------------------- search

  datatype ObservationHit = ObservationHit(observation: Observation, entityName: string)

  datatype SearchResult = SearchResult(entities: seq<Entity>, observations: seq<ObservationHit>, runs: seq<Run>)

  /** The LIMIT on the runs a search returns. */
  const SearchRunLimit: nat := 20

  predicate EntityMatches(e: Entity, pattern: string) {
    Like(pattern, e.name) || Like(pattern, e.entityType)
  }

  /** A NULL column never matches LIKE. */
  predicate RunMentions(run: Run, pattern: string) {
    || Like(pattern, run.directiveName)
    || (run.notes.Some? && Like(pattern, run.notes.value))
    || (run.errorMessage.Some? && Like(pattern, run.errorMessage.value))
  }

  function EntityFilter(pattern: string): (keep: Entity -> bool) {
    (e: Entity) => EntityMatches(e, pattern)
  }

  function RunSearchFilter(pattern: string): (keep: Run -> bool) {
    (run: Run) => RunMentions(run, pattern)
  }

  function HitsOf(o: Observation, names: seq<string>): (r: seq<ObservationHit>)
    ensures forall h :: h in r <==> h.observation == o && h.entityName in names
  {
    if names == [] then []
    else
      assert names == [names[0]] + names[1..];
      [ObservationHit(o, names[0])] + HitsOf(o, names[1..])
  }

  /** `observations o JOIN entities e ON o.entity_id = e.id WHERE o.content LIKE pattern`. */
  function ObservationHits(os: seq<Observation>, es: seq<Entity>, pattern: string): (r: seq<ObservationHit>)
    ensures forall h :: h in r <==>
      h.observation in os && Like(pattern, h.observation.content) && NamedBy(es, h.observation.entityId, h.entityName)
  {
    if os == [] then []
    else
      assert os == [os[0]] + os[1..];
      (if Like(pattern, os[0].content) then HitsOf(os[0], NamesWithId(es, os[0].entityId)) else [])
        + ObservationHits(os[1..], es, pattern)
  }

  /** `search(query)`: matching entities, observations of live entities, and
      the most recent matching runs. */
  function Search(es: seq<Entity>, os: seq<Observation>, runs: seq<Run>, query: string): (r: SearchResult)
    ensures forall e :: e in r.entities <==> e in es && EntityMatches(e, Pattern(query))
    ensures forall h :: h in r.observations <==>
      h.observation in os && Like(Pattern(query), h.observation.content) && NamedBy(es, h.observation.entityId, h.entityName)
    ensures |r.runs| <= SearchRunLimit
    ensures |r.runs| == Min(SearchRunLimit, |Filter(runs, RunSearchFilter(Pattern(query)))|)
    ensures forall x :: x in r.runs ==> x in runs && RunMentions(x, Pattern(query))
    ensures NonIncreasing(r.runs, RunStartedAt)
    ensures forall x, y :: x in runs && RunMentions(x, Pattern(query)) && x !in r.runs && y in r.runs ==> x.startedAt <= y.startedAt
  {
    var pattern := Pattern(query);
    SearchResult(
      Filter(es, EntityFilter(pattern)),
      ObservationHits(os, es, pattern),
      Recent(runs, RunSearchFilter(pattern), SearchRunLimit))
  }

  /** A run's directive, notes or error message holds `query` as an ASCII
      case-insensitive substring; a NULL column holds nothing. */
  predicate RunContainsFolded(run: Run, query: string) {
    || ContainsFolded(run.directiveName, query)
    || (run.notes.Some? && ContainsFolded(run.notes.value, query))
    || (run.errorMessage.Some? && ContainsFolded(run.errorMessage.value, query))
  }

  /** Read with a query free of LIKE wildcards, search is an ASCII
      case-insensitive substring search over the same columns. */
  lemma SearchIsSubstringSearch(es: seq<Entity>, os: seq<Observation>, runs: seq<Run>, query: string)
    requires NoWildcards(query)
    ensures forall e :: e in Search(es, os, runs, query).entities <==>
      e in es && (ContainsFolded(e.name, query) || ContainsFolded(e.entityType, query))
    ensures forall h :: h in Search(es, os, runs, query).observations <==>
      h.observation in os && ContainsFolded(h.observation.content, query) && NamedBy(es, h.observation.entityId, h.entityName)
    ensures forall x :: x in Search(es, os, runs, query).runs ==> x in runs && RunContainsFolded(x, query)
    ensures forall x, y ::
      x in runs && RunContainsFolded(x, query) && x !in Search(es, os, runs, query).runs && y in Search(es, os, runs, query).runs
      ==> x.startedAt <= y.startedAt
  {
    forall t: string ensures Like(Pattern(query), t) <==> ContainsFolded(t, query) {
      PatternIsContains(query, t);
    }
  }

  // ------------------------------------------------------------- read_graph

  datatype RelationView = RelationView(relation: Relation, fromName: string, toName: string)

  datatype GraphStats = GraphStats(entityCount: nat, relationCount: nat, observationCount: nat, runCount: nat)

  datatype Graph = Graph(entities: seq<Entity>, relations: seq<RelationView>, stats: GraphStats)

  /** A row of `relations r JOIN entities e1 ON r.from_entity_id = e1.id
      JOIN entities e2 ON r.to_entity_id = e2.id`. */
  ghost predicate IsRelationView(rs: seq<Relation>, es: seq<Entity>, v: RelationView) {
    v.relation in rs && NamedBy(es, v.relation.fromId, v.fromName) && NamedBy(es, v.relation.toId, v.toName)
  }

  function ViewsTo(rel: Relation, fromName: string, toNames: seq<string>): (r: seq<RelationView>)
    ensures |r| == |toNames|
    ensures forall v :: v in r <==> v.relation == rel && v.fromName == fromName && v.toName in toNames
  {
    if toNames == [] then []
    else
      assert toNames == [toNames[0]] + toNames[1..];
      [RelationView(rel, fromName, toNames[0])] + ViewsTo(rel, fromName, toNames[1..])
  }

  function ViewsOf(rel: Relation, fromNames: seq<string>, toNames: seq<string>): (r: seq<RelationView>)
    ensures |r| == |fromNames| * |toNames|
    ensures forall v :: v in r <==> v.relation == rel && v.fromName in fromNames && v.toName in toNames
  {
    if fromNames == [] then []
    else
      assert fromNames == [fromNames[0]] + fromNames[1..];
      assert |fromNames| * |toNames| == |toNames| + |fromNames[1..]| * |toNames|;
      ViewsTo(rel, fromNames[0], toNames) + ViewsOf(rel, fromNames[1..], toNames)
  }

  function JoinRelations(rs: seq<Relation>, es: seq<Entity>): (r: seq<RelationView>)
    ensures forall v :: v in r <==> IsRelationView(rs, es, v)
  {
    if rs == [] then []
    else
      assert rs == [rs[0]] + rs[1..];
      ViewsOf(rs[0], NamesWithId(es, rs[0].fromId), NamesWithId(es, rs[0].toId)) + JoinRelations(rs[1..], es)
  }

  function BothEndsLive(es: seq<Entity>): (keep: Relation -> bool) {
    (rel: Relation) => HasId(es, rel.fromId) && HasId(es, rel.toId)
  }

  /** With entity ids unique, the join yields one row per relation whose two
      endpoints exist, so `relation_count` is the number of such relations. */
  lemma {:induction false} JoinRelationsCount(rs: seq<Relation>, es: seq<Entity>)
    requires Distinct(es, EntityId)
    ensures |JoinRelations(rs, es)| == |Filter(rs, BothEndsLive(es))|
  {
    if rs != [] {
      JoinRelationsCount(rs[1..], es);
      NamesWithIdUnique(es, rs[0].fromId);
      NamesWithIdUnique(es, rs[0].toId);
    }
  }

  /** `read_graph()`: every entity, newest first; the relations whose two
      endpoints exist, with their names; and the table counts. */
  function ReadGraph(es: seq<Entity>, os: seq<Observation>, rs: seq<Relation>, runs: seq<Run>): (g: Graph)
    ensures multiset(g.entities) == multiset(es)
    ensures NonIncreasing(g.entities, EntityCreatedAt)
    ensures forall v :: v in g.relations <==> IsRelationView(rs, es, v)
    ensures g.stats.entityCount == |es|
    ensures g.stats.relationCount == |g.relations|
    ensures g.stats.observationCount == |os| && g.stats.runCount == |runs|
  {
    var entities := SortDesc(es, EntityCreatedAt);
    var relations := JoinRelations(rs, es);
    Graph(entities, relations, GraphStats(|entities|, |relations|, |os|, |runs|))
  }

  /** `relation_count` is the number of relations whose two endpoints exist. */
  lemma ReadGraphRelationCount(es: seq<Entity>, os: seq<Observation>, rs: seq<Relation>, runs: seq<Run>)
    requires Distinct(es, EntityId)
    ensures ReadGraph(es, os, rs, runs).stats.relationCount == |Filter(rs, BothEndsLive(es))|
  {
    JoinRelationsCount(rs, es);
  }
}
