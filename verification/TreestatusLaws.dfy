/** What every operation on the tree status database keeps, and what a revert undoes. */
module TreestatusLaws {

  import opened Options
  import opened Treestatus

  // ---------------------------------------------------------------------------
  // Invariants
  // ---------------------------------------------------------------------------

  ghost predicate LogsHaveTrees(db: Database) {
    forall i | 0 <= i < |db.logs| :: db.logs[i].tree in db.trees
  }

  /** A tree's row and its newest log agree on the status. */
  ghost predicate RowsAgree(db: Database) {
    forall t | t in db.trees :: StateOf(db, t).status == db.trees[t].status
  }

  /** A memoised tree exists, and has the status that a fresh query would report. */
  ghost predicate MemoAgrees(db: Database) {
    forall t | t in db.memo ::
      t in db.trees && db.memo[t].tree == t && db.memo[t].state.status == StateOf(db, t).status
  }

  /** The entry names a log of its own tree and has that log's status. */
  ghost predicate EntryGrounded(db: Database, e: Entry) {
    && e.tree in db.trees
    && HasLog(db.logs, e)
    && db.logs[e.currentLog.value].tree == e.tree
    && db.logs[e.currentLog.value].state.status == e.current.status
  }

  ghost predicate IsEntry(db: Database, c: int, i: int) {
    0 <= c && c in db.changes && 0 <= i < |db.changes[c].entries|
  }

  ghost predicate EntriesGrounded(db: Database) {
    && (forall c, i | IsEntry(db, c, i) :: EntryGrounded(db, db.changes[c].entries[i]))
    && (forall c | c in db.changes :: c < db.nextChange)
  }

  /** No two entries, of the same change or of different ones, name the same log. */
  ghost predicate LogsNotShared(db: Database) {
    forall c, i, d, j | IsEntry(db, c, i) && IsEntry(db, d, j) && (c, i) != (d, j) ::
      db.changes[c].entries[i].currentLog != db.changes[d].entries[j].currentLog
  }

  /** The trees of one change are distinct. */
  ghost predicate TreesDistinct(db: Database) {
    forall c, i, j | IsEntry(db, c, i) && IsEntry(db, c, j) && i != j ::
      db.changes[c].entries[i].tree != db.changes[c].entries[j].tree
  }

  ghost predicate Inv(db: Database) {
    LogsHaveTrees(db) && RowsAgree(db) && MemoAgrees(db) && EntriesGrounded(db) && LogsNotShared(db) && TreesDistinct(db)
  }

  /** Each entry has exactly the state of the log it names. */
  ghost predicate EntriesFollowLogs(db: Database)
    requires EntriesGrounded(db)
  {
    forall c, i | IsEntry(db, c, i) ::
      EntryGrounded(db, db.changes[c].entries[i]) &&
      db.changes[c].entries[i].current == db.logs[db.changes[c].entries[i].currentLog.value].state
  }

  // ---------------------------------------------------------------------------
  // Updating trees
  // ---------------------------------------------------------------------------

  lemma LastLogAppend(logs: seq<Log>, log: Log, t: Name)
    ensures LastLog(logs + [log], t) == if log.tree == t then Some(|logs|) else LastLog(logs, t)
  {
    assert (logs + [log])[..|logs|] == logs;
  }

  lemma UpdateOneEffect(db: Database, u: Name, status: Option<TreeStatus>, reason: Option<string>,
                        motd: Option<string>, tags: seq<string>, t: Name)
    requires u in db.trees && t in db.trees && !Raises(status, reason)
    ensures var r := UpdateTreeStatus(db, u, status, reason, motd, tags);
      && (t != u ==> Combine(t, r.trees[t], r.logs) == Combine(t, db.trees[t], db.logs) && r.trees[t] == db.trees[t])
      && (t == u && status.Some? ==>
        StateOf(r, t) == TreeState(status.value, OrElse(reason, NO_CHANGE), tags) && LastLog(r.logs, t) == Some(|db.logs|))
      && (t == u ==> r.trees[t].status == OrElse(status, db.trees[t].status))
      && (status.None? ==> LastLog(r.logs, t) == LastLog(db.logs, t) && StateOf(r, t).status == StateOf(db, t).status)
  {
    if status.Some? {
      LastLogAppend(db.logs, Log(u, TreeState(status.value, OrElse(reason, NO_CHANGE), tags)), t);
    }
  }

  ghost predicate FrameOfUpdate(db: Database, r: Database, names: seq<Name>) {
    && r.trees.Keys == db.trees.Keys && r.changes == db.changes && r.nextChange == db.nextChange
    && db.logs <= r.logs
    && (forall i | |db.logs| <= i < |r.logs| :: r.logs[i].tree in names)
    && (forall t | t in r.memo :: t in db.memo && t !in names && r.memo[t] == db.memo[t])
  }

  lemma {:induction false} UpdateEachFrame(db: Database, names: seq<Name>, status: Option<TreeStatus>, reason: Option<string>,
                                           motd: Option<string>, tags: seq<string>)
    requires (forall i | 0 <= i < |names| :: names[i] in db.trees) && (names == [] || !Raises(status, reason))
    ensures FrameOfUpdate(db, UpdateEach(db, names, status, reason, motd, tags), names)
    decreases |names|
  {
    if names != [] {
      UpdateEachFrame(db, names[..|names| - 1], status, reason, motd, tags);
      assert names == names[..|names| - 1] + [names[|names| - 1]];
    }
  }

  /** What an update of several trees does to the view of one tree. */
  ghost predicate EffectOn(db: Database, r: Database, t: Name, updated: bool, status: Option<TreeStatus>,
                           reason: Option<string>, tags: seq<string>)
    requires t in db.trees && t in r.trees
  {
    if !updated then
      r.trees[t] == db.trees[t] && Combine(t, r.trees[t], r.logs) == Combine(t, db.trees[t], db.logs)
    else
      && r.trees[t].status == OrElse(status, db.trees[t].status)
      && (status.None? ==> StateOf(r, t).status == StateOf(db, t).status)
      && (status.Some? ==>
        && StateOf(r, t) == TreeState(status.value, OrElse(reason, NO_CHANGE), tags)
        && LastLog(r.logs, t).Some? && |db.logs| <= LastLog(r.logs, t).value)
  }

  lemma {:induction false} UpdateEachEffect(db: Database, names: seq<Name>, status: Option<TreeStatus>, reason: Option<string>,
                                            motd: Option<string>, tags: seq<string>, t: Name)
    requires (forall i | 0 <= i < |names| :: names[i] in db.trees) && (names == [] || !Raises(status, reason))
    requires t in db.trees
    ensures EffectOn(db, UpdateEach(db, names, status, reason, motd, tags), t, t in names, status, reason, tags)
    decreases |names|
  {
    hide LastLog, UpdateTreeStatus;
    if names != [] {
      var init, u := names[..|names| - 1], names[|names| - 1];
      var mid := UpdateEach(db, init, status, reason, motd, tags);
      UpdateEachEffect(db, init, status, reason, motd, tags, t);
      UpdateEachFrame(db, init, status, reason, motd, tags);
      UpdateOneEffect(mid, u, status, reason, motd, tags, t);
      assert names == init + [u];
    }
  }

  lemma OneIsEach(db: Database, t: Name, status: Option<TreeStatus>, reason: Option<string>,
                  motd: Option<string>, tags: seq<string>)
    requires t in db.trees && !Raises(status, reason)
    ensures UpdateTreeStatus(db, t, status, reason, motd, tags) == UpdateEach(db, [t], status, reason, motd, tags)
  {
    assert [t][..0] == [];
    assert UpdateEach(db, [], status, reason, motd, tags) == db;
  }

  lemma UpdateKeepsInv(db: Database, names: seq<Name>, status: Option<TreeStatus>, reason: Option<string>,
                       motd: Option<string>, tags: seq<string>)
    requires Inv(db) && (forall i | 0 <= i < |names| :: names[i] in db.trees) && (names == [] || !Raises(status, reason))
    ensures Inv(UpdateEach(db, names, status, reason, motd, tags))
  {
    hide UpdateEach, LastLog, Combine;
    var r := UpdateEach(db, names, status, reason, motd, tags);
    UpdateEachFrame(db, names, status, reason, motd, tags);
    forall t | t in db.trees
      ensures EffectOn(db, r, t, t in names, status, reason, tags)
    {
      UpdateEachEffect(db, names, status, reason, motd, tags, t);
    }
    forall t | t in db.trees
      ensures StateOf(r, t).status == r.trees[t].status
      ensures t in r.memo ==> r.memo[t].tree == t && r.memo[t].state.status == StateOf(r, t).status
    {
      assert EffectOn(db, r, t, t in names, status, reason, tags);
    }
    assert LogsHaveTrees(r);
    assert EntriesGrounded(r) by {
      forall c, i | IsEntry(r, c, i)
        ensures EntryGrounded(r, r.changes[c].entries[i])
      {
        assert IsEntry(db, c, i);
        assert EntryGrounded(db, db.changes[c].entries[i]);
      }
    }
    assert LogsNotShared(r) by {
      assert forall c, i :: IsEntry(r, c, i) <==> IsEntry(db, c, i);
    }
    assert TreesDistinct(r) by {
      assert forall c, i :: IsEntry(r, c, i) <==> IsEntry(db, c, i);
    }
  }

  /** What a remembered update puts on the change stack. */
  lemma RememberedEntry(db: Database, body: TreeUpdate, fetched: seq<Name>, i: nat)
    requires Inv(db) && IsFetch(db, body.trees, fetched) && i < |fetched|
    requires body.status.Some? && body.reason.Some?
    ensures var r := UpdateEach(db, fetched, body.status, body.reason, body.motd, OrElse(body.tags, []));
      && fetched[i] in db.trees && fetched[i] in r.trees
      && var e := RememberTree(db, r, fetched[i]);
      && EntryGrounded(r, e) && |db.logs| <= e.currentLog.value
      && e.before == StateOf(db, fetched[i])
      && e.current == TreeState(body.status.value, body.reason.value, OrElse(body.tags, []))
      && r.logs[e.currentLog.value].state == e.current
  {
    hide UpdateEach, LastLog;
    var r := UpdateEach(db, fetched, body.status, body.reason, body.motd, OrElse(body.tags, []));
    UpdateEachEffect(db, fetched, body.status, body.reason, body.motd, OrElse(body.tags, []), fetched[i]);
  }

  /** A change whose entries name logs newer than those of all earlier entries. */
  ghost predicate Pushable(db: Database, change: Change, since: nat) {
    && since <= |db.logs|
    && (forall c, i | IsEntry(db, c, i) :: HasLog(db.logs[..since], db.changes[c].entries[i]))
    && (forall i | 0 <= i < |change.entries| :: EntryGrounded(db, change.entries[i]) && since <= change.entries[i].currentLog.value)
    && (forall i, j | 0 <= i < j < |change.entries| :: change.entries[i].tree != change.entries[j].tree)
  }

  lemma PushKeepsInv(db: Database, change: Change, since: nat)
    requires Inv(db) && Pushable(db, change, since)
    ensures Inv(db.(changes := db.changes[db.nextChange := change], nextChange := db.nextChange + 1))
  {
    hide LastLog;
    var id := db.nextChange;
    var r := db.(changes := db.changes[id := change], nextChange := id + 1);
    forall c, i | IsEntry(r, c, i)
      ensures EntryGrounded(r, r.changes[c].entries[i])
      ensures c == id || (IsEntry(db, c, i) && r.changes[c] == db.changes[c])
    {
      if c != id {
        assert IsEntry(db, c, i) && EntryGrounded(db, db.changes[c].entries[i]);
      } else {
        assert EntryGrounded(db, change.entries[i]);
      }
    }
    assert LogsNotShared(r) by {
      forall c, i, d, j | IsEntry(r, c, i) && IsEntry(r, d, j) && (c, i) != (d, j)
        ensures r.changes[c].entries[i].currentLog != r.changes[d].entries[j].currentLog
      {
        assert EntryGrounded(r, r.changes[c].entries[i]) && EntryGrounded(r, r.changes[d].entries[j]);
      }
    }
    assert forall t | t in r.trees :: StateOf(r, t) == StateOf(db, t);
  }

  lemma RememberKeepsInv(db: Database, body: TreeUpdate, fetched: seq<Name>)
    requires Inv(db) && IsFetch(db, body.trees, fetched)
    requires body.status.Some? && body.reason.Some?
    ensures var r := UpdateEach(db, fetched, body.status, body.reason, body.motd, OrElse(body.tags, []));
      && (forall i | 0 <= i < |fetched| :: fetched[i] in db.trees && fetched[i] in r.trees)
      && Inv(Remember(db, r, body.status.value, body.reason.value, fetched))
  {
    hide UpdateEach, LastLog, Combine, RowsAgree, MemoAgrees, LogsNotShared, TreesDistinct;
    var mid := UpdateEach(db, fetched, body.status, body.reason, body.motd, OrElse(body.tags, []));
    UpdateKeepsInv(db, fetched, body.status, body.reason, body.motd, OrElse(body.tags, []));
    UpdateEachFrame(db, fetched, body.status, body.reason, body.motd, OrElse(body.tags, []));
    var change := Change(body.status.value, body.reason.value, RememberTrees(db, mid, fetched));
    forall c, i | IsEntry(mid, c, i)
      ensures HasLog(mid.logs[..|db.logs|], mid.changes[c].entries[i])
    {
      assert IsEntry(db, c, i) && EntryGrounded(db, db.changes[c].entries[i]);
    }
    forall i | 0 <= i < |change.entries|
      ensures EntryGrounded(mid, change.entries[i]) && |db.logs| <= change.entries[i].currentLog.value
      ensures change.entries[i].tree == fetched[i]
    {
      RememberedEntry(db, body, fetched, i);
    }
    PushKeepsInv(mid, change, |db.logs|);
  }

  lemma UpdateTreesKeepsInv(db: Database, body: TreeUpdate, fetched: seq<Name>)
    requires Inv(db) && IsFetch(db, body.trees, fetched)
    ensures Inv(UpdateTrees(db, body, fetched).0)
  {
    hide UpdateEach, Inv;
    if fetched == [] || !Raises(body.status, body.reason) {
      UpdateKeepsInv(db, fetched, body.status, body.reason, body.motd, OrElse(body.tags, []));
      if body.status.Some? && body.reason.Some? {
        RememberKeepsInv(db, body, fetched);
      }
    }
  }

  // ---------------------------------------------------------------------------
  // Reading and reverting
  // ---------------------------------------------------------------------------

  lemma ReadKeepsInv(db: Database, t: Name)
    requires Inv(db)
    ensures Inv(GetTreeByName(db, t).1)
  {
    hide LastLog;
    var r := GetTreeByName(db, t).1;
    assert r == db.(memo := r.memo);
    assert forall u | u in r.trees :: StateOf(r, u) == StateOf(db, u);
    assert MemoAgrees(r);
    assert EntriesGrounded(r) by {
      forall c, i | IsEntry(r, c, i)
        ensures EntryGrounded(r, r.changes[c].entries[i])
      {
        assert IsEntry(db, c, i) && EntryGrounded(db, db.changes[c].entries[i]);
      }
    }
    assert forall c, i :: IsEntry(r, c, i) <==> IsEntry(db, c, i);
  }

  /** The memoised read agrees with a fresh query on which trees exist and on their status. */
  lemma ReadAgreesWithQuery(db: Database, t: Name)
    requires Inv(db)
    ensures var served, fresh' := GetTreeByName(db, t).0, FreshQuery(db, t);
      && (served.Some? <==> fresh'.Some?)
      && (served.Some? ==> served.value.tree == t && served.value.state.status == fresh'.value.state.status)
  {
    hide LastLog;
  }

  ghost predicate TreesOf(entries: seq<Entry>, t: Name) {
    exists i :: 0 <= i < |entries| && entries[i].tree == t
  }

  lemma RevertOne(db: Database, e: Entry)
    requires Inv(db) && e.tree in db.trees
    ensures var r := RevertEntry(db, e);
      && Inv(r) && r.trees.Keys == db.trees.Keys && r.changes == db.changes && r.nextChange == db.nextChange
      && StateOf(r, e.tree) == e.before
      && (forall t | t in db.trees && t != e.tree :: Combine(t, r.trees[t], r.logs) == Combine(t, db.trees[t], db.logs))
  {
    hide LastLog, UpdateEach, Inv;
    var db' := GetTreeByName(db, e.tree).1;
    ReadKeepsInv(db, e.tree);
    ReadAgreesWithQuery(db, e.tree);
    var status, reason := Some(e.before.status), Some(e.before.reason);
    OneIsEach(db', e.tree, status, reason, None, e.before.tags);
    UpdateKeepsInv(db', [e.tree], status, reason, None, e.before.tags);
    UpdateEachFrame(db', [e.tree], status, reason, None, e.before.tags);
    forall t | t in db.trees
      ensures EffectOn(db', RevertEntry(db, e), t, t == e.tree, status, reason, e.before.tags)
    {
      UpdateEachEffect(db', [e.tree], status, reason, None, e.before.tags, t);
    }
  }

  /** Reverting sets each named tree to its remembered state and leaves every other tree alone. */
  lemma {:induction false} RevertAll(db: Database, entries: seq<Entry>, t: Name)
    requires Inv(db) && t in db.trees
    requires forall i | 0 <= i < |entries| :: entries[i].tree in db.trees
    requires forall i, j | 0 <= i < j < |entries| :: entries[i].tree != entries[j].tree
    ensures var r := RevertEntries(db, entries);
      && Inv(r) && r.trees.Keys == db.trees.Keys && r.changes == db.changes && r.nextChange == db.nextChange
      && (forall i | 0 <= i < |entries| && entries[i].tree == t :: StateOf(r, t) == entries[i].before)
      && (!TreesOf(entries, t) ==> Combine(t, r.trees[t], r.logs) == Combine(t, db.trees[t], db.logs))
    decreases |entries|
  {
    hide Inv, RevertEntry, LastLog;
    if entries != [] {
      var n := |entries| - 1;
      RevertAll(db, entries[..n], t);
      RevertOne(RevertEntries(db, entries[..n]), entries[n]);
      if !TreesOf(entries, t) {
        assert !TreesOf(entries[..n], t) && entries[n].tree != t;
      }
      forall i | 0 <= i < |entries| && entries[i].tree == t
        ensures StateOf(RevertEntries(db, entries), t) == entries[i].before
      {
        if i < n {
          assert entries[..n][i].tree == t;
        }
      }
    }
  }

  lemma DropChangeKeepsInv(db: Database, id: nat)
    requires Inv(db)
    ensures Inv(db.(changes := db.changes - {id}))
    ensures EntriesFollowLogs(db) ==> EntriesFollowLogs(db.(changes := db.changes - {id}))
  {
    hide LastLog;
    var r := db.(changes := db.changes - {id});
    assert forall t | t in r.trees :: StateOf(r, t) == StateOf(db, t);
    forall c, i | IsEntry(r, c, i)
      ensures IsEntry(db, c, i) && EntryGrounded(r, r.changes[c].entries[i])
    {
      assert IsEntry(db, c, i) && EntryGrounded(db, db.changes[c].entries[i]);
    }
  }

  lemma ChangeIsRevertible(db: Database, id: nat)
    requires Inv(db) && id in db.changes
    ensures var entries := db.changes[id].entries;
      && (forall i | 0 <= i < |entries| :: entries[i].tree in db.trees)
      && (forall i, j | 0 <= i < j < |entries| :: entries[i].tree != entries[j].tree)
  {
    var entries := db.changes[id].entries;
    forall i | 0 <= i < |entries|
      ensures entries[i].tree in db.trees
    {
      assert IsEntry(db, id, i) && EntryGrounded(db, entries[i]);
    }
    forall i, j | 0 <= i < j < |entries|
      ensures entries[i].tree != entries[j].tree
    {
      assert IsEntry(db, id, i) && IsEntry(db, id, j);
    }
  }

  lemma RevertKeepsInv(db: Database, id: nat, revert: bool)
    requires Inv(db)
    ensures Inv(RevertChange(db, id, revert).0)
  {
    hide Inv;
    if id in db.changes {
      if revert {
        ChangeIsRevertible(db, id);
        RevertedChange(db, id);
        DropChangeKeepsInv(RevertEntries(db, db.changes[id].entries), id);
      } else {
        DropChangeKeepsInv(db, id);
      }
    }
  }

  lemma RevertedChange(db: Database, id: nat)
    requires Inv(db) && id in db.changes
    ensures var r := RevertEntries(db, db.changes[id].entries);
      Inv(r) && r.trees.Keys == db.trees.Keys && r.changes == db.changes
  {
    hide Inv, RevertEntry;
    ChangeIsRevertible(db, id);
    if db.changes[id].entries != [] {
      RevertAll(db, db.changes[id].entries, db.changes[id].entries[0].tree);
    } else {
      assert RevertEntries(db, db.changes[id].entries) == db;
    }
  }

  // ---------------------------------------------------------------------------
  // Editing the stack and the logs
  // ---------------------------------------------------------------------------

  /** The same logs, up to their reasons and tags. */
  ghost predicate SameButText(a: seq<Log>, b: seq<Log>) {
    |a| == |b| && forall i | 0 <= i < |a| :: a[i].tree == b[i].tree && a[i].state.status == b[i].state.status
  }

  lemma {:induction false} SameButTextLastLog(a: seq<Log>, b: seq<Log>, t: Name)
    requires SameButText(a, b)
    ensures LastLog(a, t) == LastLog(b, t)
    decreases |a|
  {
    if a != [] {
      SameButTextLastLog(a[..|a| - 1], b[..|b| - 1], t);
    }
  }

  lemma {:induction false} WriteLogsEffect(logs: seq<Log>, entries: seq<Entry>, k: nat)
    requires forall i | 0 <= i < |entries| :: HasLog(logs, entries[i])
    requires forall i, j | 0 <= i < j < |entries| :: entries[i].currentLog != entries[j].currentLog
    requires k < |logs|
    ensures var r := WriteLogs(logs, entries);
      && SameButText(logs, r)
      && (forall i | 0 <= i < |entries| && entries[i].currentLog == Some(k) ::
        r[k].state == TreeState(logs[k].state.status, entries[i].current.reason, entries[i].current.tags))
      && ((forall i | 0 <= i < |entries| :: entries[i].currentLog != Some(k)) ==> r[k] == logs[k])
    decreases |entries|
  {
    if entries != [] {
      assert HasLog(logs, entries[|entries| - 1]);
      WriteLogsEffect(logs, entries[..|entries| - 1], k);
    }
  }

  /** Changing only the text of logs, and of entries, keeps the invariant. */
  lemma TextEditKeepsInv(db: Database, logs: seq<Log>, changes: map<nat, Change>)
    requires Inv(db) && SameButText(db.logs, logs) && changes.Keys == db.changes.Keys
    requires forall c | c in changes :: |changes[c].entries| == |db.changes[c].entries|
    requires forall c, i | IsEntry(db, c, i) ::
      && changes[c].entries[i].tree == db.changes[c].entries[i].tree
      && changes[c].entries[i].currentLog == db.changes[c].entries[i].currentLog
      && changes[c].entries[i].current.status == db.changes[c].entries[i].current.status
    ensures Inv(db.(logs := logs, changes := changes))
  {
    hide LastLog;
    var r := db.(logs := logs, changes := changes);
    forall t | t in db.trees
      ensures StateOf(r, t).status == StateOf(db, t).status
    {
      SameButTextLastLog(db.logs, logs, t);
    }
    forall c, i | IsEntry(r, c, i)
      ensures IsEntry(db, c, i) && EntryGrounded(r, r.changes[c].entries[i])
    {
      assert IsEntry(db, c, i) && EntryGrounded(db, db.changes[c].entries[i]);
    }
    assert LogsNotShared(r);
    assert TreesDistinct(r);
  }

  lemma EditedEntriesHaveLogs(db: Database, id: nat, tags: Option<seq<string>>, reason: Option<string>)
    requires Inv(db) && id in db.changes
    ensures var entries := EditEntries(db.changes[id].entries, tags, reason);
      && (forall i | 0 <= i < |entries| :: HasLog(db.logs, entries[i]))
      && (forall i, j | 0 <= i < j < |entries| :: entries[i].currentLog != entries[j].currentLog)
  {
    var entries := EditEntries(db.changes[id].entries, tags, reason);
    forall i | 0 <= i < |entries|
      ensures HasLog(db.logs, entries[i])
    {
      assert IsEntry(db, id, i) && EntryGrounded(db, db.changes[id].entries[i]);
    }
    forall i, j | 0 <= i < j < |entries|
      ensures entries[i].currentLog != entries[j].currentLog
    {
      assert IsEntry(db, id, i) && IsEntry(db, id, j);
    }
  }

  /** The edited change, its entries written to the logs they name. */
  lemma EditedEntry(db: Database, id: nat, tags: Option<seq<string>>, reason: Option<string>, c: nat, i: nat)
    requires Inv(db) && id in db.changes && IsEntry(db, c, i)
    ensures var entries := EditEntries(db.changes[id].entries, tags, reason);
      && (forall j | 0 <= j < |entries| :: HasLog(db.logs, entries[j]))
      && SameButText(db.logs, WriteLogs(db.logs, entries))
      && var e, k := if c == id then entries[i] else db.changes[c].entries[i], db.changes[c].entries[i].currentLog.value;
      && k < |db.logs|
      && (db.changes[c].entries[i].current == db.logs[k].state ==> e.current == WriteLogs(db.logs, entries)[k].state)
  {
    hide LogsHaveTrees, RowsAgree, MemoAgrees, TreesDistinct;
    var entries := EditEntries(db.changes[id].entries, tags, reason);
    var e := db.changes[c].entries[i];
    EditedEntriesHaveLogs(db, id, tags, reason);
    assert EntryGrounded(db, e);
    var k := e.currentLog.value;
    WriteLogsEffect(db.logs, entries, k);
    if c != id {
      forall j | 0 <= j < |entries|
        ensures entries[j].currentLog != Some(k)
      {
        assert IsEntry(db, id, j);
      }
    }
  }

  lemma UpdateStackKeepsInv(db: Database, id: nat, tags: Option<seq<string>>, reason: Option<string>)
    requires Inv(db)
    ensures Inv(UpdateStack(db, id, tags, reason).0)
    ensures id in db.changes ==> UpdateStack(db, id, tags, reason).1 == Done
  {
    hide LastLog, WriteLogs, LogsHaveTrees, RowsAgree, MemoAgrees, EntriesGrounded, LogsNotShared, TreesDistinct;
    if id in db.changes {
      EditedEntriesHaveLogs(db, id, tags, reason);
      var entries := EditEntries(db.changes[id].entries, tags, reason);
      var r := UpdateStack(db, id, tags, reason).0;
      assert SameButText(db.logs, r.logs) by {
        if db.logs != [] {
          WriteLogsEffect(db.logs, entries, 0);
        }
      }
      TextEditKeepsInv(db, r.logs, r.changes);
    }
  }

  lemma UpdateStackKeepsAgreement(db: Database, id: nat, tags: Option<seq<string>>, reason: Option<string>)
    requires Inv(db) && EntriesFollowLogs(db)
    ensures Inv(UpdateStack(db, id, tags, reason).0) && EntriesFollowLogs(UpdateStack(db, id, tags, reason).0)
  {
    UpdateStackKeepsInv(db, id, tags, reason);
    hide UpdateStack, LogsHaveTrees, RowsAgree, MemoAgrees, LogsNotShared, TreesDistinct;
    var r := UpdateStack(db, id, tags, reason).0;
    forall c, i | IsEntry(r, c, i)
      ensures EntryGrounded(r, r.changes[c].entries[i])
      ensures r.changes[c].entries[i].current == r.logs[r.changes[c].entries[i].currentLog.value].state
    {
      assert EntryGrounded(r, r.changes[c].entries[i]);
      UpdateStackAt(db, id, tags, reason, c, i);
    }
  }

  lemma UpdateStackAt(db: Database, id: nat, tags: Option<seq<string>>, reason: Option<string>, c: int, i: int)
    requires Inv(db) && EntriesFollowLogs(db)
    ensures var r := UpdateStack(db, id, tags, reason).0;
      IsEntry(r, c, i) && HasLog(r.logs, r.changes[c].entries[i]) ==>
        r.changes[c].entries[i].current == r.logs[r.changes[c].entries[i].currentLog.value].state
  {
    hide WriteLogs, LogsHaveTrees, RowsAgree, MemoAgrees, LogsNotShared, TreesDistinct;
    if IsEntry(db, c, i) {
      assert EntryGrounded(db, db.changes[c].entries[i]);
      if id in db.changes {
        EditedEntry(db, id, tags, reason, c, i);
      }
    }
  }

  /** Every memoised tree is served exactly as a fresh query would report it. */
  ghost predicate MemoFresh(db: Database) {
    forall t | t in db.memo :: Some(db.memo[t]) == FreshQuery(db, t)
  }

  /** The newest log of each memoised tree is what it was. */
  ghost predicate NewestLogsKept(db: Database, logs: seq<Log>)
    requires |logs| == |db.logs|
  {
    forall t | t in db.memo && LastLog(db.logs, t).Some? ::
      logs[LastLog(db.logs, t).value].state == db.logs[LastLog(db.logs, t).value].state
  }

  /** Rewriting the text of logs does not reach the memo: memoised trees stay fresh exactly when the
      newest log of each of them stays as it was. */
  lemma MemoFreshAfterTextEdit(db: Database, logs: seq<Log>, changes: map<nat, Change>)
    requires MemoFresh(db) && SameButText(db.logs, logs)
    ensures MemoFresh(db.(logs := logs, changes := changes)) <==> NewestLogsKept(db, logs)
  {
    hide LastLog;
    var r := db.(logs := logs, changes := changes);
    forall t | t in db.memo
      ensures LastLog(logs, t) == LastLog(db.logs, t)
      ensures Some(db.memo[t]) == FreshQuery(db, t)
    {
      SameButTextLastLog(db.logs, logs, t);
    }
  }

  /** After the edit of one log, memoised trees are fresh exactly when none of them has the edited log
      as its newest one, unless the edit changes nothing. */
  lemma MemoFreshAfterLogEdit(db: Database, id: nat, tags: Option<seq<string>>, reason: Option<string>)
    requires MemoFresh(db) && id < |db.logs|
    ensures MemoFresh(UpdateLog(db, id, tags, reason).0) <==>
      (forall t | t in db.memo && LastLog(db.logs, t) == Some(id) ::
        OrElse(tags, db.logs[id].state.tags) == db.logs[id].state.tags &&
        OrElse(reason, db.logs[id].state.reason) == db.logs[id].state.reason)
  {
    hide LastLog;
    var r := UpdateLog(db, id, tags, reason).0;
    MemoFreshAfterTextEdit(db, r.logs, r.changes);
  }

  /** The edited entry has the reason and tags that this state already has. */
  predicate EditedTo(e: Entry, tags: Option<seq<string>>, reason: Option<string>, state: TreeState) {
    var edited := EditEntry(e, tags, reason).current;
    edited.tags == state.tags && edited.reason == state.reason
  }

  /** Editing these entries puts no other text into the newest log of the tree. */
  ghost predicate NewestLogSpared(db: Database, entries: seq<Entry>, tags: Option<seq<string>>, reason: Option<string>, t: Name) {
    var k := LastLog(db.logs, t);
    k.Some? ==> forall i | 0 <= i < |entries| && entries[i].currentLog == k :: EditedTo(entries[i], tags, reason, db.logs[k.value].state)
  }

  lemma LogKeptIff(logs: seq<Log>, entries: seq<Entry>, tags: Option<seq<string>>, reason: Option<string>, k: nat)
    requires forall i | 0 <= i < |entries| :: HasLog(logs, EditEntries(entries, tags, reason)[i])
    requires forall i, j | 0 <= i < j < |entries| :: entries[i].currentLog != entries[j].currentLog
    requires k < |logs|
    ensures WriteLogs(logs, EditEntries(entries, tags, reason))[k].state == logs[k].state <==>
      forall i | 0 <= i < |entries| && entries[i].currentLog == Some(k) :: EditedTo(entries[i], tags, reason, logs[k].state)
  {
    hide WriteLogs;
    var edited := EditEntries(entries, tags, reason);
    assert forall i | 0 <= i < |entries| :: edited[i].currentLog == entries[i].currentLog;
    WriteLogsEffect(logs, edited, k);
    if i :| 0 <= i < |entries| && entries[i].currentLog == Some(k) {
      assert edited[i].currentLog == Some(k);
      assert forall j | 0 <= j < |entries| && entries[j].currentLog == Some(k) :: j == i;
    }
  }

  lemma NewestAfterStackEdit(db: Database, id: nat, tags: Option<seq<string>>, reason: Option<string>, t: Name)
    requires Inv(db) && id in db.changes && LastLog(db.logs, t).Some?
    ensures var k, logs := LastLog(db.logs, t).value, UpdateStack(db, id, tags, reason).0.logs;
      |logs| == |db.logs| && (logs[k].state == db.logs[k].state <==> NewestLogSpared(db, db.changes[id].entries, tags, reason, t))
  {
    EditedEntriesHaveLogs(db, id, tags, reason);
    hide Inv, LastLog, WriteLogs, EditEntries;
    var entries, edited := db.changes[id].entries, EditEntries(db.changes[id].entries, tags, reason);
    forall i, j | 0 <= i < j < |entries|
      ensures entries[i].currentLog != entries[j].currentLog
    {
      assert edited[i].currentLog != edited[j].currentLog;
    }
    hide EditedTo, EditEntry, HasLog;
    LogKeptIff(db.logs, entries, tags, reason, LastLog(db.logs, t).value);
  }

  /** After the edit of a change, memoised trees are fresh exactly when it puts no other text into the
      newest log of any of them. */
  lemma MemoFreshAfterStackEdit(db: Database, id: nat, tags: Option<seq<string>>, reason: Option<string>)
    requires Inv(db) && MemoFresh(db) && id in db.changes
    ensures MemoFresh(UpdateStack(db, id, tags, reason).0) <==>
      forall t | t in db.memo :: NewestLogSpared(db, db.changes[id].entries, tags, reason, t)
  {
    var r := UpdateStack(db, id, tags, reason).0;
    EditedEntriesHaveLogs(db, id, tags, reason);
    assert r == db.(logs := r.logs, changes := r.changes);
    assert SameButText(db.logs, r.logs) by {
      if db.logs != [] {
        WriteLogsEffect(db.logs, EditEntries(db.changes[id].entries, tags, reason), 0);
      }
    }
    hide LastLog, UpdateStack, Inv, MemoFresh;
    MemoFreshAfterTextEdit(db, r.logs, r.changes);
    forall t | t in db.memo && LastLog(db.logs, t).Some?
      ensures r.logs[LastLog(db.logs, t).value].state == db.logs[LastLog(db.logs, t).value].state
        <==> NewestLogSpared(db, db.changes[id].entries, tags, reason, t)
    {
      NewestAfterStackEdit(db, id, tags, reason, t);
    }
    assert forall t | t in db.memo && LastLog(db.logs, t).None? :: NewestLogSpared(db, db.changes[id].entries, tags, reason, t);
  }

  /** Whether the entry, if it names the edited log, ends up with what the edit writes there:
      an empty list of tags or an empty reason is not copied to the entry. */
  predicate FollowsEdit(e: Entry, id: nat, tags: Option<seq<string>>, reason: Option<string>) {
    e.currentLog == Some(id) ==>
      && (tags == Some([]) ==> e.current.tags == [])
      && (reason == Some("") ==> e.current.reason == "")
  }

  lemma UpdateLogKeepsInv(db: Database, id: nat, tags: Option<seq<string>>, reason: Option<string>)
    requires Inv(db)
    ensures Inv(UpdateLog(db, id, tags, reason).0)
  {
    var r := UpdateLog(db, id, tags, reason).0;
    if (tags.Some? || reason.Some?) && id < |db.logs| {
      TextEditKeepsInv(db, r.logs, r.changes);
    }
  }

  /** Editing an existing log keeps entries and logs together exactly when no entry that names the
      log has text that the edit replaces by nothing. */
  lemma UpdateLogExact(db: Database, id: nat, tags: Option<seq<string>>, reason: Option<string>)
    requires Inv(db) && EntriesFollowLogs(db) && id < |db.logs|
    ensures Inv(UpdateLog(db, id, tags, reason).0)
    ensures EntriesFollowLogs(UpdateLog(db, id, tags, reason).0) <==>
      forall c, i | IsEntry(db, c, i) :: FollowsEdit(db.changes[c].entries[i], id, tags, reason)
  {
    UpdateLogKeepsInv(db, id, tags, reason);
    hide LastLog, UpdateLog, LogsHaveTrees, RowsAgree, MemoAgrees, LogsNotShared, TreesDistinct;
    var r := UpdateLog(db, id, tags, reason).0;
    forall c, i
      ensures IsEntry(r, c, i) <==> IsEntry(db, c, i)
      ensures IsEntry(r, c, i) ==> EntryGrounded(r, r.changes[c].entries[i])
      ensures IsEntry(r, c, i) ==>
        (r.changes[c].entries[i].current == r.logs[r.changes[c].entries[i].currentLog.value].state <==>
         FollowsEdit(db.changes[c].entries[i], id, tags, reason))
    {
      UpdateLogAt(db, id, tags, reason, c, i);
    }
  }

  lemma UpdateLogAt(db: Database, id: nat, tags: Option<seq<string>>, reason: Option<string>, c: int, i: int)
    requires Inv(db) && EntriesFollowLogs(db) && id < |db.logs|
    ensures var r := UpdateLog(db, id, tags, reason).0;
      && |r.logs| == |db.logs|
      && (IsEntry(r, c, i) <==> IsEntry(db, c, i))
      && (IsEntry(r, c, i) ==>
        && HasLog(r.logs, r.changes[c].entries[i])
        && (r.changes[c].entries[i].current == r.logs[r.changes[c].entries[i].currentLog.value].state <==>
            FollowsEdit(db.changes[c].entries[i], id, tags, reason)))
  {
    hide LogsHaveTrees, RowsAgree, MemoAgrees, LogsNotShared, TreesDistinct;
    if IsEntry(db, c, i) {
      assert EntryGrounded(db, db.changes[c].entries[i]);
    }
  }

  // ---------------------------------------------------------------------------
  // Creating and deleting trees
  // ---------------------------------------------------------------------------

  lemma MakeTreeKeepsInv(db: Database, t: Name, row: TreeRow)
    requires Inv(db)
    ensures Inv(MakeTree(db, t, row).0)
    ensures EntriesFollowLogs(db) ==> EntriesFollowLogs(MakeTree(db, t, row).0)
  {
    if t !in db.trees {
      var r := MakeTree(db, t, row).0;
      forall c, i | IsEntry(r, c, i)
        ensures IsEntry(db, c, i) && EntryGrounded(r, r.changes[c].entries[i])
      {
        assert IsEntry(db, c, i) && EntryGrounded(db, db.changes[c].entries[i]);
      }
      assert LogsNotShared(r) && TreesDistinct(r);
    }
  }

  lemma UnreferencedEntry(db: Database, t: Name, c: int, i: int)
    requires EntriesGrounded(db) && !Referenced(db, t) && IsEntry(db, c, i)
    ensures EntryGrounded(db, db.changes[c].entries[i]) && db.changes[c].entries[i].tree != t
  {
    assert EntryGrounded(db, db.changes[c].entries[i]);
  }

  lemma DeleteTreeKeepsInv(db: Database, t: Name)
    requires Inv(db)
    ensures Inv(DeleteTree(db, t).0)
    ensures EntriesFollowLogs(db) ==> EntriesFollowLogs(DeleteTree(db, t).0)
  {
    hide LastLog;
    if t in db.trees && !Referenced(db, t) {
      var r := DeleteTree(db, t).0;
      assert LogsHaveTrees(r);
      hide Referenced, LogsHaveTrees;
      assert forall u | u in r.trees :: StateOf(r, u) == StateOf(db, u);
      assert RowsAgree(r) && MemoAgrees(r);
      hide RowsAgree, MemoAgrees, Combine;
      forall c, i | IsEntry(r, c, i)
        ensures IsEntry(db, c, i) && EntryGrounded(r, r.changes[c].entries[i])
      {
        UnreferencedEntry(db, t, c, i);
      }
      assert LogsNotShared(r) && TreesDistinct(r);
    }
  }

  // ---------------------------------------------------------------------------
  // Whole runs
  // ---------------------------------------------------------------------------

  lemma StepKeepsInv(db: Database, op: Operation)
    requires Inv(db) && Enabled(db, op)
    ensures Inv(Step(db, op))
  {
    hide Inv;
    match op
    case Create(t, row) => MakeTreeKeepsInv(db, t, row);
    case Update(body, fetched) => UpdateTreesKeepsInv(db, body, fetched);
    case Revert(id, revert) => RevertKeepsInv(db, id, revert);
    case EditStack(id, tags, reason) => UpdateStackKeepsInv(db, id, tags, reason);
    case EditLog(id, tags, reason) => UpdateLogKeepsInv(db, id, tags, reason);
    case Delete(t) => DeleteTreeKeepsInv(db, t);
    case Read(t) => ReadKeepsInv(db, t);
  }

  lemma RunStep(run: seq<Database>, ops: seq<Operation>, n: nat)
    requires IsRun(run, ops) && n + 1 < |run|
    ensures n < |ops| && Enabled(run[n], ops[n]) && run[n + 1] == Step(run[n], ops[n])
  {
    hide Enabled, Step;
  }

  /** In every run from the empty database, at every point: the memoised read agrees with a fresh
      query on existence and status, and rows agree with their newest logs on the status. */
  lemma {:induction false} RunKeepsInv(run: seq<Database>, ops: seq<Operation>, n: nat)
    requires IsRun(run, ops) && run[0] == EMPTY_DATABASE && n < |run|
    ensures Inv(run[n])
    decreases n
  {
    if n > 0 {
      hide *;
      RunKeepsInv(run, ops, n - 1);
      RunStep(run, ops, n - 1);
      StepKeepsInv(run[n - 1], ops[n - 1]);
    }
  }

  /** Log edits with empty values are the one operation that can part entries from their logs. */
  predicate EditsNonEmpty(op: Operation) {
    op.EditLog? ==> op.tags != Some([]) && op.reason != Some("")
  }

  lemma UpdateKeepsAgreement(db: Database, body: TreeUpdate, fetched: seq<Name>)
    requires Inv(db) && EntriesFollowLogs(db) && IsFetch(db, body.trees, fetched)
    ensures Inv(UpdateTrees(db, body, fetched).0) && EntriesFollowLogs(UpdateTrees(db, body, fetched).0)
  {
    hide UpdateEach, LastLog, Combine;
    UpdateTreesKeepsInv(db, body, fetched);
    var tags := OrElse(body.tags, []);
    if fetched == [] || !Raises(body.status, body.reason) {
      var mid := UpdateEach(db, fetched, body.status, body.reason, body.motd, tags);
      UpdateEachFrame(db, fetched, body.status, body.reason, body.motd, tags);
      var r := UpdateTrees(db, body, fetched).0;
      forall c, i | IsEntry(r, c, i)
        ensures EntryGrounded(r, r.changes[c].entries[i])
        ensures r.changes[c].entries[i].current == r.logs[r.changes[c].entries[i].currentLog.value].state
      {
        assert EntryGrounded(r, r.changes[c].entries[i]);
        if IsEntry(db, c, i) && c != db.nextChange {
          assert EntryGrounded(db, db.changes[c].entries[i]);
        } else {
          RememberedEntry(db, body, fetched, i);
        }
      }
    }
  }

  ghost predicate LogsExtend(db: Database, r: Database) {
    db.logs <= r.logs
  }

  lemma RevertOneExtends(db: Database, e: Entry)
    ensures LogsExtend(db, RevertEntry(db, e))
  {
  }

  lemma {:induction false} RevertExtends(db: Database, entries: seq<Entry>)
    ensures LogsExtend(db, RevertEntries(db, entries))
    decreases |entries|
  {
    if entries != [] {
      RevertExtends(db, entries[..|entries| - 1]);
      RevertOneExtends(RevertEntries(db, entries[..|entries| - 1]), entries[|entries| - 1]);
    }
  }

  lemma RevertKeepsAgreement(db: Database, id: nat, revert: bool)
    requires Inv(db) && EntriesFollowLogs(db)
    ensures Inv(RevertChange(db, id, revert).0) && EntriesFollowLogs(RevertChange(db, id, revert).0)
  {
    RevertKeepsInv(db, id, revert);
    if id in db.changes {
      RevertedChange(db, id);
      RevertExtends(db, db.changes[id].entries);
      hide RevertEntries;
      var r := RevertChange(db, id, revert).0;
      forall c, i | IsEntry(r, c, i)
        ensures EntryGrounded(r, r.changes[c].entries[i])
        ensures r.changes[c].entries[i].current == r.logs[r.changes[c].entries[i].currentLog.value].state
      {
        assert IsEntry(db, c, i) && EntryGrounded(db, db.changes[c].entries[i]);
        assert EntryGrounded(r, r.changes[c].entries[i]);
      }
    }
  }

  lemma StepKeepsAgreement(db: Database, op: Operation)
    requires Inv(db) && EntriesFollowLogs(db) && Enabled(db, op) && EditsNonEmpty(op)
    ensures Inv(Step(db, op)) && EntriesFollowLogs(Step(db, op))
  {
    StepKeepsInv(db, op);
    hide Inv, EntriesFollowLogs;
    match op
    case Create(t, row) => MakeTreeKeepsInv(db, t, row);
    case Update(body, fetched) => UpdateKeepsAgreement(db, body, fetched);
    case Revert(id, revert) => RevertKeepsAgreement(db, id, revert);
    case EditStack(id, tags, reason) => UpdateStackKeepsAgreement(db, id, tags, reason);
    case EditLog(id, tags, reason) =>
      if (tags.Some? || reason.Some?) && id < |db.logs| {
        UpdateLogExact(db, id, tags, reason);
      }
    case Delete(t) => DeleteTreeKeepsInv(db, t);
    case Read(t) => ReadKeepsAgreement(db, t);
  }

  lemma ReadKeepsAgreement(db: Database, t: Name)
    requires Inv(db) && EntriesFollowLogs(db)
    ensures Inv(GetTreeByName(db, t).1) && EntriesFollowLogs(GetTreeByName(db, t).1)
  {
    hide LastLog;
    ReadKeepsInv(db, t);
    var r := GetTreeByName(db, t).1;
    forall c, i | IsEntry(r, c, i)
      ensures IsEntry(db, c, i) && EntryGrounded(r, r.changes[c].entries[i])
    {
      assert IsEntry(db, c, i) && EntryGrounded(db, db.changes[c].entries[i]);
    }
  }

  /** In every run whose log edits are not empty, every live entry of the change stack has exactly
      the status, reason and tags of the log it names, and no two entries name the same log. */
  lemma {:induction false} RunKeepsAgreement(run: seq<Database>, ops: seq<Operation>, n: nat)
    requires IsRun(run, ops) && run[0] == EMPTY_DATABASE && n < |run|
    requires forall i | 0 <= i < |ops| :: EditsNonEmpty(ops[i])
    ensures Inv(run[n]) && EntriesFollowLogs(run[n]) && LogsNotShared(run[n])
    decreases n
  {
    if n > 0 {
      hide Step, Enabled, IsRun, LogsHaveTrees, RowsAgree, MemoAgrees, EntriesGrounded, EntriesFollowLogs, LogsNotShared, TreesDistinct;
      RunKeepsAgreement(run, ops, n - 1);
      RunStep(run, ops, n - 1);
      StepKeepsAgreement(run[n - 1], ops[n - 1]);
    }
  }

  // ---------------------------------------------------------------------------
  // Fresh reads
  // ---------------------------------------------------------------------------

  lemma UpdateOneKeepsMemoFresh(db: Database, u: Name, status: Option<TreeStatus>, reason: Option<string>, tags: seq<string>)
    requires MemoFresh(db) && u in db.trees && !Raises(status, reason)
    ensures MemoFresh(UpdateTreeStatus(db, u, status, reason, None, tags))
  {
    hide LastLog, Combine;
    var r := UpdateTreeStatus(db, u, status, reason, None, tags);
    forall t | t in r.memo
      ensures Some(r.memo[t]) == FreshQuery(r, t)
    {
      assert t != u && Some(db.memo[t]) == FreshQuery(db, t);
      UpdateOneEffect(db, u, status, reason, None, tags, t);
    }
  }

  lemma ReadKeepsMemoFresh(db: Database, t: Name)
    requires MemoFresh(db)
    ensures MemoFresh(GetTreeByName(db, t).1) && GetTreeByName(db, t).0 == FreshQuery(db, t)
  {
    hide LastLog, Combine;
    var r := GetTreeByName(db, t).1;
    forall u | u in r.memo
      ensures Some(r.memo[u]) == FreshQuery(r, u)
    {
      assert u in db.memo ==> Some(db.memo[u]) == FreshQuery(db, u);
    }
    assert t in db.memo ==> Some(db.memo[t]) == FreshQuery(db, t);
  }

  lemma {:induction false} RevertKeepsMemoFresh(db: Database, entries: seq<Entry>)
    requires MemoFresh(db)
    ensures MemoFresh(RevertEntries(db, entries))
    decreases |entries|
  {
    if entries != [] {
      hide LastLog, Combine, MemoFresh, UpdateTreeStatus, GetTreeByName;
      var e := entries[|entries| - 1];
      RevertKeepsMemoFresh(db, entries[..|entries| - 1]);
      var mid := RevertEntries(db, entries[..|entries| - 1]);
      ReadKeepsMemoFresh(mid, e.tree);
      var read := GetTreeByName(mid, e.tree).1;
      if e.tree in read.trees {
        UpdateOneKeepsMemoFresh(read, e.tree, Some(e.before.status), Some(e.before.reason), e.before.tags);
      }
    }
  }

  lemma UpdateKeepsMemoFresh(db: Database, names: seq<Name>, status: Option<TreeStatus>, reason: Option<string>,
                             motd: Option<string>, tags: seq<string>)
    requires MemoFresh(db) && (forall i | 0 <= i < |names| :: names[i] in db.trees) && (names == [] || !Raises(status, reason))
    ensures MemoFresh(UpdateEach(db, names, status, reason, motd, tags))
  {
    hide LastLog, Combine, UpdateEach;
    var r := UpdateEach(db, names, status, reason, motd, tags);
    UpdateEachFrame(db, names, status, reason, motd, tags);
    forall t | t in r.memo
      ensures Some(r.memo[t]) == FreshQuery(r, t)
    {
      assert Some(db.memo[t]) == FreshQuery(db, t);
      UpdateEachEffect(db, names, status, reason, motd, tags, t);
    }
  }

  lemma ChangesDoNotMatter(db: Database, changes: map<nat, Change>, nextChange: nat)
    requires MemoFresh(db)
    ensures MemoFresh(db.(changes := changes)) && MemoFresh(db.(changes := changes, nextChange := nextChange))
  {
    hide LastLog, Combine;
    assert forall t | t in db.memo :: Some(db.memo[t]) == FreshQuery(db, t);
  }

  lemma TreesKeepMemoFresh(db: Database, t: Name, row: TreeRow)
    requires MemoFresh(db)
    ensures MemoFresh(MakeTree(db, t, row).0) && MemoFresh(DeleteTree(db, t).0)
  {
    hide LastLog, Combine, Referenced;
    assert forall u | u in db.memo :: Some(db.memo[u]) == FreshQuery(db, u);
  }

  /** Whether the operation, if it edits logs, leaves the newest log of each memoised tree alone. */
  ghost predicate SparesMemo(db: Database, op: Operation)
    requires Enabled(db, op)
  {
    op.EditStack? || op.EditLog? ==> |Step(db, op).logs| == |db.logs| && NewestLogsKept(db, Step(db, op).logs)
  }

  lemma StepKeepsMemoFresh(db: Database, op: Operation)
    requires Inv(db) && MemoFresh(db) && Enabled(db, op) && SparesMemo(db, op)
    ensures MemoFresh(Step(db, op))
  {
    hide Inv, MemoFresh, UpdateEach, RevertEntries, WriteLogs, NewestLogsKept, RememberTrees, GetTreeByName, MakeTree, DeleteTree;
    match op
    case Create(t, row) => TreesKeepMemoFresh(db, t, row);
    case Delete(t) => TreesKeepMemoFresh(db, t, TreeRow(Open, "", "", ""));
    case Read(t) => ReadKeepsMemoFresh(db, t);
    case Update(body, fetched) =>
      if fetched == [] || !Raises(body.status, body.reason) {
        var r := UpdateEach(db, fetched, body.status, body.reason, body.motd, OrElse(body.tags, []));
        UpdateKeepsMemoFresh(db, fetched, body.status, body.reason, body.motd, OrElse(body.tags, []));
        var r' := UpdateTrees(db, body, fetched).0;
        ChangesDoNotMatter(r, r'.changes, r'.nextChange);
      }
    case Revert(id, revert) =>
      if id in db.changes {
        RevertKeepsMemoFresh(db, db.changes[id].entries);
        var r := if revert then RevertEntries(db, db.changes[id].entries) else db;
        ChangesDoNotMatter(r, r.changes - {id}, r.nextChange);
      }
    case EditStack(id, tags, reason) => EditsKeepMemoFresh(db, op);
    case EditLog(id, tags, reason) => EditsKeepMemoFresh(db, op);
  }

  lemma EditsKeepMemoFresh(db: Database, op: Operation)
    requires Inv(db) && MemoFresh(db) && (op.EditStack? || op.EditLog?) && Enabled(db, op) && SparesMemo(db, op)
    ensures MemoFresh(Step(db, op))
  {
    hide LastLog, WriteLogs, MemoFresh, NewestLogsKept, Inv, FollowEntries, EditEntries;
    var r := Step(db, op);
    assert SameButText(db.logs, r.logs) by {
      if op.EditStack? && op.id in db.changes && db.logs != [] {
        EditedEntriesHaveLogs(db, op.id, op.tags, op.reason);
        WriteLogsEffect(db.logs, EditEntries(db.changes[op.id].entries, op.tags, op.reason), 0);
      }
    }
    assert r == db.(logs := r.logs, changes := r.changes);
    MemoFreshAfterTextEdit(db, r.logs, r.changes);
  }

  /** In every run from the empty database in which edits leave the newest log of each memoised tree
      alone, at every point: the memoised read serves exactly what a fresh query would, reason, tags
      and all. */
  lemma {:induction false} RunKeepsMemoFresh(run: seq<Database>, ops: seq<Operation>, n: nat)
    requires IsRun(run, ops) && run[0] == EMPTY_DATABASE && n < |run|
    requires forall i | 0 <= i < |ops| :: Enabled(run[i], ops[i]) && SparesMemo(run[i], ops[i])
    ensures MemoFresh(run[n])
    ensures forall t :: GetTreeByName(run[n], t).0 == FreshQuery(run[n], t)
    decreases n
  {
    if n > 0 {
      hide Inv, MemoFresh, Step, IsRun, SparesMemo;
      RunKeepsMemoFresh(run, ops, n - 1);
      RunKeepsInv(run, ops, n - 1);
      RunStep(run, ops, n - 1);
      StepKeepsMemoFresh(run[n - 1], ops[n - 1]);
    }
    FreshReads(run[n]);
  }

  lemma FreshReads(db: Database)
    requires MemoFresh(db)
    ensures forall t :: GetTreeByName(db, t).0 == FreshQuery(db, t)
  {
    hide MemoFresh;
    forall t
      ensures GetTreeByName(db, t).0 == FreshQuery(db, t)
    {
      ReadKeepsMemoFresh(db, t);
    }
  }

  // ---------------------------------------------------------------------------
  // Reverting
  // ---------------------------------------------------------------------------

  /** The same trees with the same remembered states. */
  ghost predicate SameMemories(a: seq<Entry>, b: seq<Entry>) {
    |a| == |b| && forall i | 0 <= i < |a| :: a[i].tree == b[i].tree && a[i].before == b[i].before
  }

  lemma StepKeepsMemories(db: Database, op: Operation, id: nat)
    requires Inv(db) && Enabled(db, op)
    ensures id < db.nextChange && id in Step(db, op).changes ==>
      id in db.changes && SameMemories(db.changes[id].entries, Step(db, op).changes[id].entries)
    ensures db.nextChange <= Step(db, op).nextChange
  {
    hide Inv, UpdateEach, RevertEntries, WriteLogs, LastLog, Combine, RememberTrees;
    match op
    case Update(body, fetched) =>
      if fetched == [] || !Raises(body.status, body.reason) {
        UpdateEachFrame(db, fetched, body.status, body.reason, body.motd, OrElse(body.tags, []));
      }
    case Revert(i, revert) =>
      if i in db.changes && revert {
        RevertKeepsNextChange(db, db.changes[i].entries);
      }
    case _ =>
  }

  lemma {:induction false} RevertKeepsNextChange(db: Database, entries: seq<Entry>)
    ensures var r := RevertEntries(db, entries); r.changes == db.changes && r.nextChange == db.nextChange
    decreases |entries|
  {
    if entries != [] {
      RevertKeepsNextChange(db, entries[..|entries| - 1]);
    }
  }

  /** Whatever operations run in between, a live change remembers what it remembered at first. */
  lemma {:induction false} RunKeepsMemories(run: seq<Database>, ops: seq<Operation>, id: nat, n: nat)
    requires IsRun(run, ops) && Inv(run[0]) && n < |run|
    requires id < run[0].nextChange && id in run[n].changes
    ensures Inv(run[n]) && run[0].nextChange <= run[n].nextChange
    ensures id in run[0].changes && SameMemories(run[0].changes[id].entries, run[n].changes[id].entries)
    decreases n
  {
    RunKeeps(run, ops, n);
    if n > 0 {
      hide Inv, Step, Enabled, IsRun;
      RunKeeps(run, ops, n - 1);
      RunStep(run, ops, n - 1);
      StepKeepsMemories(run[n - 1], ops[n - 1], id);
      RunKeepsMemories(run, ops, id, n - 1);
    }
  }

  lemma {:induction false} RunKeeps(run: seq<Database>, ops: seq<Operation>, n: nat)
    requires IsRun(run, ops) && Inv(run[0]) && n < |run|
    ensures Inv(run[n]) && run[0].nextChange <= run[n].nextChange
    decreases n
  {
    if n > 0 {
      hide *;
      RunKeeps(run, ops, n - 1);
      RunStep(run, ops, n - 1);
      StepKeepsInv(run[n - 1], ops[n - 1]);
      StepKeepsMemories(run[n - 1], ops[n - 1], 0);
    }
  }

  /** A remembered update that succeeds puts one change on the stack, which remembers the state
      of each of its trees just before. */
  lemma RememberedChange(db: Database, body: TreeUpdate, fetched: seq<Name>)
    requires Inv(db) && IsFetch(db, body.trees, fetched) && body.remember && UpdateTrees(db, body, fetched).1 == Done
    ensures var r := UpdateTrees(db, body, fetched).0;
      && body.status.Some? && body.reason.Some?
      && r.trees.Keys == db.trees.Keys && r.nextChange == db.nextChange + 1
      && r.changes.Keys == db.changes.Keys + {db.nextChange}
      && (forall c | c in db.changes :: c != db.nextChange && r.changes[c] == db.changes[c])
      && |r.changes[db.nextChange].entries| == |fetched|
      && (forall i | 0 <= i < |fetched| ::
        && fetched[i] in db.trees
        && r.changes[db.nextChange].entries[i].tree == fetched[i]
        && r.changes[db.nextChange].entries[i].before == StateOf(db, fetched[i]))
  {
    hide UpdateEach, LastLog;
    UpdateEachFrame(db, fetched, body.status, body.reason, body.motd, OrElse(body.tags, []));
    forall i | 0 <= i < |fetched|
      ensures fetched[i] in db.trees && UpdateTrees(db, body, fetched).0.changes[db.nextChange].entries[i].before == StateOf(db, fetched[i])
    {
      RememberedEntry(db, body, fetched, i);
    }
  }

  /** Reverting a live change sets each of its trees to its remembered state. */
  lemma RevertSetsRemembered(db: Database, id: nat, t: Name)
    requires Inv(db) && id in db.changes && t in db.trees
    ensures var r := RevertChange(db, id, true).0;
      && Inv(r) && r.trees.Keys == db.trees.Keys && r.changes == db.changes - {id} && r.nextChange == db.nextChange
      && (forall i | 0 <= i < |db.changes[id].entries| && db.changes[id].entries[i].tree == t ::
        StateOf(r, t) == db.changes[id].entries[i].before)
      && (!TreesOf(db.changes[id].entries, t) ==> Combine(t, r.trees[t], r.logs) == Combine(t, db.trees[t], db.logs))
  {
    RevertKeepsInv(db, id, true);
    ChangeIsRevertible(db, id);
    hide Inv, RevertEntries, LastLog;
    RevertAll(db, db.changes[id].entries, t);
  }

  /** A remembered update, then any operations at all, then the revert of that change: every tree
      of the change still exists and has exactly the status, reason and tags it had just before
      the update; the view of every other tree is what it was just before the revert. */
  lemma RevertRestores(run: seq<Database>, ops: seq<Operation>, t: Name)
    requires IsRun(run, ops) && Inv(run[0]) && |ops| > 0
    requires ops[0].Update? && ops[0].body.remember
    requires UpdateTrees(run[0], ops[0].body, ops[0].fetched).1 == Done
    requires run[0].nextChange in run[|ops|].changes
    ensures var id, last := run[0].nextChange, run[|ops|];
      var r := RevertChange(last, id, true).0;
      && RevertChange(last, id, true).1 == Done
      && (t in ops[0].fetched ==> t in run[0].trees && t in last.trees && t in r.trees && StateOf(r, t) == StateOf(run[0], t))
      && (t !in ops[0].fetched && t in last.trees ==>
        t in r.trees && Combine(t, r.trees[t], r.logs) == Combine(t, last.trees[t], last.logs))
  {
    var id, last, fetched := run[0].nextChange, run[|ops|], ops[0].fetched;
    assert run[1] == Step(run[0], ops[0]);
    RememberedChange(run[0], ops[0].body, fetched);
    StepKeepsInv(run[0], ops[0]);
    var tail, rest := run[1..], ops[1..];
    TailIsRun(run, ops);
    hide Inv, Step, UpdateTrees, RevertChange, LastLog;
    RunKeepsMemories(tail, rest, id, |rest|);
    RevertedTree(run[1], last, id, fetched, t);
    if t in fetched {
      var i :| 0 <= i < |fetched| && fetched[i] == t;
      assert last.changes[id].entries[i].tree == t;
      ChangeIsRevertible(last, id);
      RevertSetsRemembered(last, id, t);
    } else if t in last.trees {
      RevertSetsRemembered(last, id, t);
    }
    assert RevertChange(last, id, true).1 == Done;
  }

  lemma TailIsRun(run: seq<Database>, ops: seq<Operation>)
    requires IsRun(run, ops) && |ops| > 0
    ensures IsRun(run[1..], ops[1..])
  {
    hide Step, Enabled;
    var tail, rest := run[1..], ops[1..];
    forall i | 0 <= i < |rest|
      ensures Enabled(tail[i], rest[i]) && tail[i + 1] == Step(tail[i], rest[i])
    {
      assert Enabled(run[i + 1], ops[i + 1]) && run[i + 1 + 1] == Step(run[i + 1], ops[i + 1]);
    }
  }

  lemma RevertedTree(first: Database, last: Database, id: nat, fetched: seq<Name>, t: Name)
    requires id in first.changes && id in last.changes && |first.changes[id].entries| == |fetched|
    requires SameMemories(first.changes[id].entries, last.changes[id].entries)
    requires forall i | 0 <= i < |fetched| :: first.changes[id].entries[i].tree == fetched[i]
    ensures TreesOf(last.changes[id].entries, t) <==> t in fetched
    ensures RevertChange(last, id, true).1 == Done
  {
    if t in fetched {
      var i :| 0 <= i < |fetched| && fetched[i] == t;
      assert last.changes[id].entries[i].tree == t;
    }
  }

  /** Reverts the newest `n` changes of the stack, newest first. */
  function RevertNewest(db: Database, next: nat, n: nat): Database
    requires n <= next
    decreases n
  {
    if n == 0 then db else RevertNewest(RevertChange(db, next - 1, true).0, next - 1, n - 1)
  }

  /** Every step of the run is an update that is remembered and succeeds. */
  ghost predicate AllRemembered(run: seq<Database>, ops: seq<Operation>) {
    IsRun(run, ops) && forall i | 0 <= i < |ops| ::
      ops[i].Update? && ops[i].body.remember && UpdateTrees(run[i], ops[i].body, ops[i].fetched).1 == Done
  }

  /** What a tree looks like and which changes are live, as far as reverts are concerned. */
  ghost predicate SameView(a: Database, b: Database) {
    && a.trees.Keys == b.trees.Keys && a.changes == b.changes
    && (forall t | t in a.trees :: StateOf(a, t) == StateOf(b, t))
  }

  lemma RevertLast(db: Database, reached: Database, body: TreeUpdate, fetched: seq<Name>)
    requires Inv(db) && IsFetch(db, body.trees, fetched) && body.remember
    requires UpdateTrees(db, body, fetched).1 == Done
    requires Inv(reached) && SameView(reached, UpdateTrees(db, body, fetched).0)
    ensures Inv(RevertChange(reached, db.nextChange, true).0)
    ensures SameView(RevertChange(reached, db.nextChange, true).0, db)
  {
    hide Inv, UpdateEach, RevertChange, LastLog;
    var id, after := db.nextChange, UpdateTrees(db, body, fetched).0;
    RememberedChange(db, body, fetched);
    RevertKeepsInv(reached, id, true);
    var r := RevertChange(reached, id, true).0;
    forall t | t in db.trees
      ensures t in r.trees && StateOf(r, t) == StateOf(db, t)
    {
      RevertLastAt(db, reached, body, fetched, t);
    }
    RevertedFrame(reached, id);
    assert r.changes == db.changes;
  }

  lemma RevertedFrame(db: Database, id: nat)
    requires Inv(db) && id in db.changes
    ensures var r := RevertChange(db, id, true).0; r.trees.Keys == db.trees.Keys && r.changes == db.changes - {id}
  {
    hide Inv, RevertEntries;
    RevertedChange(db, id);
  }

  lemma RevertLastAt(db: Database, reached: Database, body: TreeUpdate, fetched: seq<Name>, t: Name)
    requires Inv(db) && IsFetch(db, body.trees, fetched) && body.remember
    requires UpdateTrees(db, body, fetched).1 == Done
    requires Inv(reached) && SameView(reached, UpdateTrees(db, body, fetched).0) && t in db.trees
    ensures var r := RevertChange(reached, db.nextChange, true).0; t in r.trees && StateOf(r, t) == StateOf(db, t)
  {
    hide Inv, UpdateEach, RevertChange, LastLog, Remember;
    var id, after := db.nextChange, UpdateTrees(db, body, fetched).0;
    RememberedChange(db, body, fetched);
    RevertSetsRemembered(reached, id, t);
    RevertedTree(after, reached, id, fetched, t);
    if t in fetched {
      var i :| 0 <= i < |fetched| && fetched[i] == t;
      assert reached.changes[id].entries[i].tree == t;
    } else {
      UntouchedByUpdate(db, body, fetched, t);
    }
  }

  lemma UntouchedByUpdate(db: Database, body: TreeUpdate, fetched: seq<Name>, t: Name)
    requires IsFetch(db, body.trees, fetched) && t in db.trees && t !in fetched
    ensures var r := UpdateTrees(db, body, fetched).0; t in r.trees && StateOf(r, t) == StateOf(db, t)
  {
    hide UpdateEach, LastLog;
    if fetched == [] || !Raises(body.status, body.reason) {
      UpdateEachEffect(db, fetched, body.status, body.reason, body.motd, OrElse(body.tags, []), t);
    }
  }

  /** Any number of remembered updates, reverted newest-first, return every tree to the status,
      reason and tags it had at the start, and leave the change stack as it was. */
  lemma {:induction false} RevertingAllRestores(run: seq<Database>, ops: seq<Operation>, k: nat, reached: Database)
    requires AllRemembered(run, ops) && Inv(run[0]) && k <= |ops|
    requires Inv(reached) && SameView(reached, run[k])
    ensures k < |run| && run[k].nextChange == run[0].nextChange + k
    ensures SameView(RevertNewest(reached, run[k].nextChange, k), run[0])
    decreases k
  {
    hide *;
    NextChangeCounts(run, ops, k);
    if k == 0 {
      SameViewAsFirst(reached, run[0]);
    } else {
      RevertOneUpdate(run, ops, k, reached);
      RevertOneOfNewest(reached, run[k].nextChange, k);
      RevertingAllRestores(run, ops, k - 1, RevertChange(reached, run[k].nextChange - 1, true).0);
    }
  }

  lemma RevertOneUpdate(run: seq<Database>, ops: seq<Operation>, k: nat, reached: Database)
    requires AllRemembered(run, ops) && Inv(run[0]) && 0 < k <= |ops|
    requires Inv(reached) && SameView(reached, run[k])
    ensures run[k].nextChange == run[k - 1].nextChange + 1
    ensures var back := RevertChange(reached, run[k].nextChange - 1, true).0; Inv(back) && SameView(back, run[k - 1])
  {
    AllRememberedStep(run, ops, k - 1);
    hide *;
    var earlier, op := run[k - 1], ops[k - 1];
    RememberedChange(earlier, op.body, op.fetched);
    RevertLast(earlier, reached, op.body, op.fetched);
  }

  lemma SameViewAsFirst(reached: Database, first: Database)
    requires SameView(reached, first)
    ensures SameView(RevertNewest(reached, first.nextChange, 0), first)
  {
    hide SameView;
  }

  lemma RevertOneOfNewest(db: Database, next: nat, n: nat)
    requires 0 < n <= next
    ensures RevertNewest(db, next, n) == RevertNewest(RevertChange(db, next - 1, true).0, next - 1, n - 1)
  {
    hide RevertChange;
  }

  lemma AllRememberedStep(run: seq<Database>, ops: seq<Operation>, k: nat)
    requires AllRemembered(run, ops) && Inv(run[0]) && k < |ops|
    ensures k + 1 < |run| && Inv(run[k]) && ops[k].Update? && ops[k].body.remember && IsFetch(run[k], ops[k].body.trees, ops[k].fetched)
    ensures (run[k + 1], Done) == UpdateTrees(run[k], ops[k].body, ops[k].fetched)
  {
    RunKeeps(run, ops, k);
    hide Inv, IsFetch, UpdateTrees;
    assert Enabled(run[k], ops[k]) && run[k + 1] == Step(run[k], ops[k]);
  }

  lemma {:induction false} NextChangeCounts(run: seq<Database>, ops: seq<Operation>, k: nat)
    requires AllRemembered(run, ops) && Inv(run[0]) && k <= |ops|
    ensures k < |run| && run[k].nextChange == run[0].nextChange + k
    decreases k
  {
    assert |run| == |ops| + 1;
    hide *;
    if k > 0 {
      NextChangeCounts(run, ops, k - 1);
      AllRememberedStep(run, ops, k - 1);
      RememberedChange(run[k - 1], ops[k - 1].body, ops[k - 1].fetched);
    }
  }

  /** The whole round: update `n` times, revert `n` times. */
  lemma UpdatesThenReverts(run: seq<Database>, ops: seq<Operation>)
    requires AllRemembered(run, ops) && Inv(run[0])
    ensures |ops| <= run[|ops|].nextChange
    ensures SameView(RevertNewest(run[|ops|], run[|ops|].nextChange, |ops|), run[0])
  {
    RunKeeps(run, ops, |ops|);
    RevertingAllRestores(run, ops, |ops|, run[|ops|]);
  }
}
