/** Runs in which a log edit parts an entry of the change stack, or a memoised view, from the log. */
module TreestatusExamples {

  import opened Options
  import opened Treestatus
  import opened TreestatusLaws

  const TREE := Name("tree")
  const CLOSED := TreeState(Closed, "broken", ["tag"])
  const BODY := TreeUpdate([TREE], Some(Closed), Some("broken"), None, Some(["tag"]), true)
  const ROW := TreeRow(Open, "", "", "")

  /** A tree was created. */
  const CREATED := Database(map[TREE := ROW], [], map[], 0, map[])

  /** Then it was closed, and the change remembered. */
  const REMEMBERED := Database(
    map[TREE := TreeRow(Closed, "broken", "", "")],
    [Log(TREE, CLOSED)],
    map[0 := Change(Closed, "broken", [Entry(TREE, TreeState(Open, "", []), None, CLOSED, Some(0))])],
    1,
    map[])

  /** Then it was read. */
  const MEMOISED := REMEMBERED.(memo := map[TREE := CombinedTree(TREE, CLOSED, "", "", Some(0))])

  ghost predicate Reachable(db: Database) {
    exists run, ops :: IsRun(run, ops) && run[0] == EMPTY_DATABASE && run[|ops|] == db
  }

  lemma ReachNext(db: Database, op: Operation)
    requires Reachable(db) && Enabled(db, op)
    ensures Reachable(Step(db, op))
  {
    hide Enabled, Step;
    var run, ops :| IsRun(run, ops) && run[0] == EMPTY_DATABASE && run[|ops|] == db;
    var run', ops' := run + [Step(db, op)], ops + [op];
    forall i | 0 <= i < |ops'|
      ensures Enabled(run'[i], ops'[i]) && run'[i + 1] == Step(run'[i], ops'[i])
    {
      if i < |ops| {
        RunStep(run, ops, i);
      }
    }
    assert IsRun(run', ops');
  }

  lemma CreatedReachable()
    ensures Reachable(CREATED)
  {
    var run, ops: seq<Operation> := [EMPTY_DATABASE], [];
    assert IsRun(run, ops) && run[|ops|] == EMPTY_DATABASE;
    assert Step(EMPTY_DATABASE, Create(TREE, ROW)) == CREATED;
    ReachNext(EMPTY_DATABASE, Create(TREE, ROW));
  }

  lemma ClosingStep()
    ensures Enabled(CREATED, Update(BODY, [TREE])) && Step(CREATED, Update(BODY, [TREE])) == REMEMBERED
  {
    assert [TREE][..0] == [];
    assert IsFetch(CREATED, BODY.trees, [TREE]);
    var mid := UpdateEach(CREATED, [TREE], Some(Closed), Some("broken"), None, ["tag"]);
    assert UpdateEach(CREATED, [], Some(Closed), Some("broken"), None, ["tag"]) == CREATED;
    assert mid == REMEMBERED.(changes := map[], nextChange := 0);
    assert RememberTrees(CREATED, mid, [TREE]) == REMEMBERED.changes[0].entries;
  }

  lemma RememberedReachable()
    ensures Reachable(REMEMBERED)
  {
    hide Reachable;
    CreatedReachable();
    ClosingStep();
    hide Step, Enabled;
    ReachNext(CREATED, Update(BODY, [TREE]));
  }

  lemma MemoisedReachable()
    ensures Reachable(MEMOISED)
  {
    hide Reachable;
    RememberedReachable();
    assert Step(REMEMBERED, Read(TREE)) == MEMOISED;
    ReachNext(REMEMBERED, Read(TREE));
  }

  /** Editing the log of the change to have no tags leaves its entry with the old ones. */
  lemma EmptyEditParts()
    ensures Reachable(REMEMBERED) && Inv(REMEMBERED) && EntriesFollowLogs(REMEMBERED)
    ensures var r := UpdateLog(REMEMBERED, 0, Some([]), None).0;
      Reachable(r) && Inv(r) && !EntriesFollowLogs(r)
  {
    RememberedReachable();
    RememberedIsSound();
    var edit := EditLog(0, Some([]), None);
    assert Step(REMEMBERED, edit) == UpdateLog(REMEMBERED, 0, Some([]), None).0;
    ReachNext(REMEMBERED, edit);
    hide Reachable, EntriesFollowLogs, Inv;
    UpdateLogExact(REMEMBERED, 0, Some([]), None);
    assert IsEntry(REMEMBERED, 0, 0) && !FollowsEdit(REMEMBERED.changes[0].entries[0], 0, Some([]), None);
  }

  lemma RememberedIsSound()
    ensures Inv(REMEMBERED) && EntriesFollowLogs(REMEMBERED)
  {
    assert LastLog(REMEMBERED.logs, TREE) == Some(0);
    assert forall c, i :: IsEntry(REMEMBERED, c, i) ==> c == 0 && i == 0;
  }

  /** After a read, editing the log of a tree goes unnoticed by the next read. */
  lemma EditUnnoticed()
    ensures Reachable(MEMOISED) && MemoFresh(MEMOISED)
    ensures var r := UpdateLog(MEMOISED, 0, None, Some("repaired")).0;
      && Reachable(r) && !MemoFresh(r)
      && GetTreeByName(r, TREE).0.Some? && GetTreeByName(r, TREE).0.value.state.reason == "broken"
      && FreshQuery(r, TREE).Some? && FreshQuery(r, TREE).value.state.reason == "repaired"
  {
    MemoisedReachable();
    var edit := EditLog(0, None, Some("repaired"));
    assert Step(MEMOISED, edit) == UpdateLog(MEMOISED, 0, None, Some("repaired")).0;
    ReachNext(MEMOISED, edit);
    hide Reachable;
    var r := UpdateLog(MEMOISED, 0, None, Some("repaired")).0;
    assert LastLog(r.logs, TREE) == Some(0) && LastLog(MEMOISED.logs, TREE) == Some(0);
    assert "broken"[0] != "repaired"[0];
    assert r.logs[0].state.reason == "repaired" && r.memo[TREE].state.reason == "broken";
    assert TREE in r.memo && Some(r.memo[TREE]) != FreshQuery(r, TREE);
    assert TREE in MEMOISED.trees && Some(MEMOISED.memo[TREE]) == FreshQuery(MEMOISED, TREE);
  }
}
