/** Two end-to-end uses of the store, each on a fresh store: an entity's
    life from creation to deletion, and two runs of one directive read back
    newest first. */
module Scenarios {
  import opened Records
  import opened Seqs
  import opened Queries
  import opened MemoryOps

  /** Create `api_x` with one observation, read it, delete it, read again. */
  method EntityLifecycle() returns (created: Result<EntityCreated>, before: Option<EntityDetail>,
                                    deleted: Result<string>, after: Option<EntityDetail>)
    ensures created == Ok(EntityCreated(1, "api_x", "api", ["rate limit 60/min"]))
    ensures before.Some? && before.value.entity.name == "api_x" && before.value.entity.entityType == "api"
    ensures before.Some? && before.value.observations == [Observation(1, 1, "rate limit 60/min", 1)]
    ensures deleted == Ok("api_x")
    ensures after.None?
  {
    var db := new MemoryDB();
    var contents := ["rate limit 60/min"];
    created := db.CreateEntity("api_x", "api", contents);
    var o := Observation(1, 1, "rate limit 60/min", 1);
    assert db.observations == [o] by {
      assert contents[0] == o.content;
    }
    assert db.entities == [Entity(1, "api_x", "api", 0)];
    before := GetEntity(db.entities, db.observations, db.relations, "api_x");
    assert Filter([o], OwnedBy(1)) == [o] by {
      FilterKeepsAll([o], OwnedBy(1));
    }
    deleted := db.DeleteEntity("api_x");
    after := GetEntity(db.entities, db.observations, db.relations, "api_x");
  }

  /** `log_run("scrape", "success", notes="50 items")`, then
      `log_run("scrape", "failed", error_message="timeout")`: `get_runs`
      for `scrape` with limit 5 returns both, the failed one first because the
      logical clock stamps it later. With real one-second timestamps the two
      can tie, and the order between them is then left open. */
  method RunHistory() returns (runs: seq<Run>)
    ensures |runs| == 2
    ensures runs[0].status == "failed" && runs[0].errorMessage == Some("timeout")
    ensures runs[1].status == "success" && runs[1].notes == Some("50 items")
  {
    var db := new MemoryDB();
    var first := db.LogRun("scrape", "success", Some("50 items"), None, None, None);
    var second := db.LogRun("scrape", "failed", None, Some("timeout"), None, None);
    var success := Run(1, "scrape", 0, Some(0), "success", None, Some("50 items"), None, None);
    var failed := Run(2, "scrape", 1, Some(1), "failed", Some("timeout"), None, None, None);
    assert db.runs == [success, failed];
    FilterKeepsAll(db.runs, RunFilter(Some("scrape"), None));
    runs := GetRuns(db.runs, Some("scrape"), 5, None);
    assert runs[0] in db.runs && runs[1] in db.runs;
  }
}
