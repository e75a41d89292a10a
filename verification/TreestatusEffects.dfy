/** What each operation on the tree status database does to its tables, field by field. */
module TreestatusEffects {

  import opened Options
  import opened Sequences
  import opened Treestatus
  import opened TreestatusLaws

  // ---------------------------------------------------------------------------
  // The view of a tree
  // ---------------------------------------------------------------------------

  /** A view has the row's message and category, and the state of the tree's newest log if the
      tree has a log, or else that of the row. */
  lemma ViewIs(db: Database, t: Name)
    requires t in db.trees
    ensures FreshQuery(db, t).Some?
    ensures var c, row := FreshQuery(db, t).value, db.trees[t];
      && c.tree == t && c.motd == row.motd && c.category == row.category && c.state == StateOf(db, t)
      && (c.logId.None? <==> forall i | 0 <= i < |db.logs| :: db.logs[i].tree != t)
      && (c.logId.None? ==> c.state == TreeState(row.status, row.reason, []))
      && (c.logId.Some? ==>
        && c.logId.value < |db.logs| && db.logs[c.logId.value].tree == t && db.logs[c.logId.value].state == c.state
        && forall i | c.logId.value < i < |db.logs| :: db.logs[i].tree != t)
  {
  }

  /** A read serves the remembered view if there is one, and else the fresh one, which it
      remembers; it changes nothing else. */
  lemma ReadEffect(db: Database, t: Name)
    ensures var (served, r) := GetTreeByName(db, t);
      && r == db.(memo := r.memo) && (forall u | u in db.memo :: u in r.memo && r.memo[u] == db.memo[u])
      && (forall u | u in r.memo :: u in db.memo || u == t)
      && (served == if t in db.memo then Some(db.memo[t]) else FreshQuery(db, t))
      && (t in r.memo <==> served.Some?) && (t in r.memo ==> served == Some(r.memo[t]))
  {
    hide LastLog;
  }

  // ---------------------------------------------------------------------------
  // Updating trees
  // ---------------------------------------------------------------------------

  /** `r` is `db` with the given parts of each named row, one more log per name if a status is
      given, and no remembered view of a named tree. */
  ghost predicate Updated(db: Database, r: Database, names: seq<Name>, status: Option<TreeStatus>, reason: Option<string>,
                          motd: Option<string>, tags: seq<string>) {
    && r.changes == db.changes && r.nextChange == db.nextChange && r.trees.Keys == db.trees.Keys
    && (forall t | t in db.trees && t !in names :: r.trees[t] == db.trees[t])
    && (forall t | t in db.trees && t in names :: RowUpdated(db.trees[t], r.trees[t], status, reason, motd))
    && LogsAdded(db.logs, r.logs, names, status, reason, tags)
    && r.memo.Keys == (set t | t in db.memo && t !in names) && (forall t | t in r.memo :: r.memo[t] == db.memo[t])
  }

  /** Each given part is stored, and each other part and the category stay. */
  predicate RowUpdated(row: TreeRow, updated: TreeRow, status: Option<TreeStatus>, reason: Option<string>, motd: Option<string>) {
    && (if status.Some? then updated.status == status.value else updated.status == row.status)
    && (if reason.Some? then updated.reason == reason.value else updated.reason == row.reason)
    && (if motd.Some? then updated.motd == motd.value else updated.motd == row.motd)
    && updated.category == row.category
  }

  predicate LogsAdded(logs: seq<Log>, later: seq<Log>, names: seq<Name>, status: Option<TreeStatus>, reason: Option<string>, tags: seq<string>) {
    && logs <= later
    && |later| == |logs| + (if status.Some? then |names| else 0)
    && (status.Some? ==> forall i | 0 <= i < |names| :: IsLogOf(later[|logs| + i], names[i], status.value, reason, tags))
  }

  predicate IsLogOf(log: Log, t: Name, status: TreeStatus, reason: Option<string>, tags: seq<string>) {
    && log.tree == t && log.state.status == status && log.state.tags == tags
    && if reason.Some? then log.state.reason == reason.value else log.state.reason == "no change"
  }

  lemma UpdateStatusEffect(db: Database, t: Name, status: Option<TreeStatus>, reason: Option<string>, motd: Option<string>, tags: seq<string>)
    requires t in db.trees && !Raises(status, reason)
    ensures Updated(db, UpdateTreeStatus(db, t, status, reason, motd, tags), [t], status, reason, motd, tags)
  {
  }

  lemma {:induction false} UpdateEachIs(db: Database, names: seq<Name>, status: Option<TreeStatus>, reason: Option<string>,
                                        motd: Option<string>, tags: seq<string>)
    requires (forall i | 0 <= i < |names| :: names[i] in db.trees) && (names == [] || !Raises(status, reason))
    ensures Updated(db, UpdateEach(db, names, status, reason, motd, tags), names, status, reason, motd, tags)
    decreases |names|
  {
    if names != [] {
      var init, t := names[..|names| - 1], names[|names| - 1];
      var mid := UpdateEach(db, init, status, reason, motd, tags);
      var r := UpdateTreeStatus(mid, t, status, reason, motd, tags);
      assert r == UpdateEach(db, names, status, reason, motd, tags);
      assert names == init + [t];
      UpdateEachIs(db, init, status, reason, motd, tags);
      UpdateStatusEffect(mid, t, status, reason, motd, tags);
      hide UpdateEach, UpdateTreeStatus;
      UpdatedTwice(db, mid, r, init, t, status, reason, motd, tags);
    }
  }

  lemma UpdatedTwice(db: Database, mid: Database, r: Database, init: seq<Name>, t: Name, status: Option<TreeStatus>,
                     reason: Option<string>, motd: Option<string>, tags: seq<string>)
    requires Updated(db, mid, init, status, reason, motd, tags) && Updated(mid, r, [t], status, reason, motd, tags)
    ensures Updated(db, r, init + [t], status, reason, motd, tags)
  {
    var names := init + [t];
    assert forall u :: u in names <==> u in init || u == t;
    assert LogsAdded(db.logs, r.logs, names, status, reason, tags) by {
      if status.Some? {
        forall i | 0 <= i < |names|
          ensures IsLogOf(r.logs[|db.logs| + i], names[i], status.value, reason, tags)
        {
          if i < |init| {
            assert r.logs[|db.logs| + i] == mid.logs[|db.logs| + i];
          } else {
            assert IsLogOf(r.logs[|mid.logs| + 0], [t][0], status.value, reason, tags);
          }
        }
      }
    }
    assert r.memo.Keys == set u | u in db.memo && u !in names;
  }

  /** The query for named trees finds as many as were named exactly if the names are distinct
      and all of them exist. */
  lemma FoundAllIff(db: Database, names: seq<Name>, fetched: seq<Name>)
    requires IsFetch(db, names, fetched) && names != []
    ensures |fetched| == |names| <==> Distinct(names) && forall i | 0 <= i < |names| :: names[i] in db.trees
  {
    DistinctSize(fetched);
    assert Elements(fetched) <= Elements(names);
    SizeOfElements(names);
    SubsetSize(Elements(fetched), Elements(names));
    if |fetched| == |names| {
      EqualSize(Elements(fetched), Elements(names));
      forall i | 0 <= i < |names|
        ensures names[i] in db.trees
      {
        assert names[i] in Elements(names);
      }
    } else if Distinct(names) && forall i | 0 <= i < |names| :: names[i] in db.trees {
      assert Elements(fetched) == Elements(names);
      DistinctSize(names);
    }
  }

  lemma EqualSize<T>(small: set<T>, big: set<T>)
    requires small <= big && |small| == |big|
    ensures small == big
  {
    assert big == small + (big - small);
  }

  lemma {:induction false} SizeOfElements<T>(s: seq<T>)
    ensures |Elements(s)| <= |s|
    ensures |Elements(s)| == |s| ==> Distinct(s)
    decreases |s|
  {
    if s != [] {
      var init, x := s[..|s| - 1], s[|s| - 1];
      SizeOfElements(init);
      assert s == init + [x];
      assert Elements(s) == Elements(init) + {x};
      if x in init {
        assert Elements(s) == Elements(init);
      }
    }
  }

  /** What a remembered update puts on the change stack for a tree. */
  ghost predicate Remembered(db: Database, body: TreeUpdate, t: Name, log: nat, e: Entry)
    requires t in db.trees && body.status.Some? && body.reason.Some? && body.tags.Some?
  {
    && e.tree == t && e.before == StateOf(db, t) && e.beforeLog == LastLog(db.logs, t)
    && e.current.status == body.status.value && e.current.reason == body.reason.value && e.current.tags == body.tags.value
    && e.currentLog == Some(log)
  }

  lemma {:induction false} NewestAdded(logs: seq<Log>, later: seq<Log>, names: seq<Name>, i: nat)
    requires logs <= later && |later| == |logs| + |names| && Distinct(names) && i < |names|
    requires forall j | 0 <= j < |names| :: later[|logs| + j].tree == names[j]
    ensures LastLog(later, names[i]) == Some(|logs| + i)
  {
    var last := LastLog(later, names[i]);
    assert later[|logs| + i].tree == names[i];
    assert last.Some? && last.value >= |logs| + i;
    assert later[|logs| + (last.value - |logs|)].tree == names[last.value - |logs|];
  }

  ghost predicate Applied(db: Database, r: Database, body: TreeUpdate, fetched: seq<Name>)
    requires forall i | 0 <= i < |fetched| :: fetched[i] in db.trees
  {
    && Updated(db, r.(changes := db.changes, nextChange := db.nextChange), fetched, body.status, body.reason, body.motd,
               if body.tags.Some? then body.tags.value else [])
    && if !body.remember then r.changes == db.changes && r.nextChange == db.nextChange
      else
        && r.nextChange == db.nextChange + 1 && db.nextChange in r.changes
        && r.changes == db.changes[db.nextChange := r.changes[db.nextChange]]
        && body.status.Some? && body.reason.Some? && body.tags.Some?
        && var change := r.changes[db.nextChange];
        && change.status == body.status.value && change.reason == body.reason.value
        && |change.entries| == |fetched|
        && forall i | 0 <= i < |fetched| :: Remembered(db, body, fetched[i], |db.logs| + i, change.entries[i])
  }

  /** When an update of trees is refused and why, and what it does when it is not. */
  lemma UpdateTreesEffect(db: Database, body: TreeUpdate, fetched: seq<Name>)
    requires IsFetch(db, body.trees, fetched)
    ensures var (r, outcome) := UpdateTrees(db, body, fetched);
      var incomplete := body.remember && (body.status.None? || body.reason.None? || body.tags.None?);
      var closedUntagged := body.status == Some(Closed) && body.tags.None?;
      && (outcome == NotFound <==> |fetched| != |body.trees|)
      && (outcome == TagsRequired <==> |fetched| == |body.trees| && closedUntagged)
      && (outcome == RememberIncomplete <==> |fetched| == |body.trees| && !closedUntagged && incomplete)
      && (outcome in {Aborted, FailedAfterCommit} <==>
        |fetched| == |body.trees| && !closedUntagged && !incomplete && fetched != [] && body.status.None?)
      && (outcome == Aborted ==> body.reason.Some? && body.reason != Some(""))
      && (outcome == FailedAfterCommit ==> body.reason in {None, Some("")})
      && (outcome in {NotFound, TagsRequired, RememberIncomplete, Aborted, FailedAfterCommit, Done})
      && (if outcome in {FailedAfterCommit, Done} then Applied(db, r, body, fetched) else r == db)
  {
    hide UpdateEach, LastLog, Combine, StateOf;
    if fetched == [] || !Raises(body.status, body.reason) {
      var tags := OrElse(body.tags, []);
      var mid := UpdateEach(db, fetched, body.status, body.reason, body.motd, tags);
      UpdateEachIs(db, fetched, body.status, body.reason, body.motd, tags);
      if body.remember && body.status.Some? && body.reason.Some? && body.tags.Some? {
        RememberEffect(db, mid, body, fetched);
      }
    }
  }

  lemma RememberEffect(db: Database, mid: Database, body: TreeUpdate, fetched: seq<Name>)
    requires IsFetch(db, body.trees, fetched) && body.remember && body.status.Some? && body.reason.Some? && body.tags.Some?
    requires Updated(db, mid, fetched, body.status, body.reason, body.motd, body.tags.value)
    ensures (forall i | 0 <= i < |fetched| :: fetched[i] in mid.trees)
      && Applied(db, Remember(db, mid, body.status.value, body.reason.value, fetched), body, fetched)
  {
    hide LastLog;
    forall i | 0 <= i < |fetched|
      ensures fetched[i] in mid.trees && Remembered(db, body, fetched[i], |db.logs| + i, RememberTree(db, mid, fetched[i]))
    {
      NewestAdded(db.logs, mid.logs, fetched, i);
    }
    var r := Remember(db, mid, body.status.value, body.reason.value, fetched);
    assert r.(changes := db.changes, nextChange := db.nextChange) == mid;
  }

  // ---------------------------------------------------------------------------
  // The change stack
  // ---------------------------------------------------------------------------

  /** `later` is `entry` with the given reason and tags, and its own where none are given. */
  predicate EntryEdited(entry: Entry, later: Entry, tags: Option<seq<string>>, reason: Option<string>) {
    && later.tree == entry.tree && later.before == entry.before && later.beforeLog == entry.beforeLog
    && later.currentLog == entry.currentLog && later.current.status == entry.current.status
    && (if reason.Some? then later.current.reason == reason.value else later.current.reason == entry.current.reason)
    && (if tags.Some? then later.current.tags == tags.value else later.current.tags == entry.current.tags)
  }

  /** Every log keeps its tree and status; a log that the entries name has the reason and tags
      of the last entry that names it, and every other log stays. */
  ghost predicate LogsWritten(logs: seq<Log>, later: seq<Log>, entries: seq<Entry>) {
    && |later| == |logs|
    && (forall k | 0 <= k < |logs| :: later[k].tree == logs[k].tree && later[k].state.status == logs[k].state.status)
    && (forall k | 0 <= k < |logs| :: !Names(entries, k) ==> later[k] == logs[k])
    && (forall i | 0 <= i < |entries| && LastToName(entries, i) :: WrittenTo(later, entries[i]))
  }

  predicate Names(entries: seq<Entry>, k: int) {
    exists i :: 0 <= i < |entries| && entries[i].currentLog.Some? && entries[i].currentLog.value == k
  }

  predicate LastToName(entries: seq<Entry>, i: nat)
    requires i < |entries|
  {
    forall j | i < j < |entries| :: entries[j].currentLog != entries[i].currentLog
  }

  /** The log that the entry names exists and has the entry's reason and tags. */
  predicate WrittenTo(logs: seq<Log>, e: Entry) {
    && e.currentLog.Some? && e.currentLog.value < |logs|
    && logs[e.currentLog.value].state.reason == e.current.reason
    && logs[e.currentLog.value].state.tags == e.current.tags
  }

  lemma {:induction false} WriteLogsIs(logs: seq<Log>, entries: seq<Entry>)
    requires forall i | 0 <= i < |entries| :: HasLog(logs, entries[i])
    ensures LogsWritten(logs, WriteLogs(logs, entries), entries)
    decreases |entries|
  {
    if entries != [] {
      var init, e := entries[..|entries| - 1], entries[|entries| - 1];
      WriteLogsIs(logs, init);
      assert HasLog(logs, e) && entries == init + [e];
      var mid, r := WriteLogs(logs, init), WriteLogs(logs, entries);
      forall k | 0 <= k < |logs|
        ensures !Names(entries, k) ==> r[k] == logs[k]
      {
        if Names(init, k) {
          var i :| 0 <= i < |init| && init[i].currentLog == Some(k);
          assert entries[i].currentLog == Some(k);
        } else if e.currentLog == Some(k) {
          assert entries[|init|].currentLog == Some(k);
        }
      }
      forall i | 0 <= i < |entries| && LastToName(entries, i)
        ensures WrittenTo(r, entries[i])
      {
        if i < |init| {
          assert forall j | i < j < |init| :: entries[j] == init[j];
          assert entries[|init|].currentLog != entries[i].currentLog;
          assert LastToName(init, i) && WrittenTo(mid, init[i]);
        }
      }
    }
  }

  /** `r` is `db` with the change edited, in its entries and in the logs they name. */
  ghost predicate StackEdited(db: Database, r: Database, id: nat, tags: Option<seq<string>>, reason: Option<string>)
    requires id in db.changes
  {
    && r.trees == db.trees && r.memo == db.memo && r.nextChange == db.nextChange
    && id in r.changes && r.changes == db.changes[id := r.changes[id]]
    && var earlier, later := db.changes[id], r.changes[id];
    && later.status == earlier.status
    && (if reason.Some? then later.reason == reason.value else later.reason == earlier.reason)
    && |later.entries| == |earlier.entries|
    && (forall i | 0 <= i < |later.entries| :: EntryEdited(earlier.entries[i], later.entries[i], tags, reason))
    && LogsWritten(db.logs, r.logs, later.entries)
  }

  predicate AllLogsExist(db: Database, entries: seq<Entry>) {
    forall i | 0 <= i < |entries| :: entries[i].currentLog.Some? && entries[i].currentLog.value < |db.logs|
  }

  /** A change is edited if it exists and so does every log that its entries name; otherwise
      nothing changes. */
  lemma UpdateStackEffect(db: Database, id: nat, tags: Option<seq<string>>, reason: Option<string>)
    ensures var (r, outcome) := UpdateStack(db, id, tags, reason);
      if id in db.changes && AllLogsExist(db, db.changes[id].entries) then outcome == Done && StackEdited(db, r, id, tags, reason)
      else outcome == NotFound && r == db
  {
    if id in db.changes {
      var entries := EditEntries(db.changes[id].entries, tags, reason);
      if AllLogsExist(db, db.changes[id].entries) {
        forall i | 0 <= i < |entries|
          ensures HasLog(db.logs, entries[i])
        {
          assert entries[i] == EditEntry(db.changes[id].entries[i], tags, reason);
        }
        WriteLogsIs(db.logs, entries);
        hide WriteLogs, LogsWritten;
      } else {
        var i :| 0 <= i < |entries| && !(db.changes[id].entries[i].currentLog.Some? && db.changes[id].entries[i].currentLog.value < |db.logs|);
        assert entries[i] == EditEntry(db.changes[id].entries[i], tags, reason);
        assert !HasLog(db.logs, entries[i]);
      }
    }
  }

  /** In every reachable database a change that exists can be edited, and then each of its
      entries agrees with the log it names on the reason and tags given. */
  lemma EditReachesLogs(db: Database, id: nat, tags: Option<seq<string>>, reason: Option<string>)
    requires Inv(db) && id in db.changes
    ensures var (r, outcome) := UpdateStack(db, id, tags, reason);
      && outcome == Done && id in r.changes
      && forall i | 0 <= i < |r.changes[id].entries| ::
        && WrittenTo(r.logs, r.changes[id].entries[i])
        && (reason.Some? ==> r.changes[id].entries[i].current.reason == reason.value)
        && (tags.Some? ==> r.changes[id].entries[i].current.tags == tags.value)
  {
    var entries := db.changes[id].entries;
    hide LastLog;
    forall i | 0 <= i < |entries|
      ensures HasLog(db.logs, entries[i])
    {
      assert IsEntry(db, id, i) && EntryGrounded(db, entries[i]);
    }
    UpdateStackEffect(db, id, tags, reason);
    hide UpdateStack, EntryGrounded;
    var r := UpdateStack(db, id, tags, reason).0;
    forall i | 0 <= i < |entries|
      ensures WrittenTo(r.logs, r.changes[id].entries[i])
      ensures EntryEdited(entries[i], r.changes[id].entries[i], tags, reason)
    {
      NamedOnce(db, id, r.changes[id].entries, tags, reason, i);
    }
  }

  lemma NamedOnce(db: Database, id: nat, edited: seq<Entry>, tags: Option<seq<string>>, reason: Option<string>, i: nat)
    requires Inv(db) && id in db.changes && |edited| == |db.changes[id].entries| && i < |edited|
    requires forall j | 0 <= j < |edited| :: EntryEdited(db.changes[id].entries[j], edited[j], tags, reason)
    ensures LastToName(edited, i)
  {
    forall j | i < j < |edited|
      ensures edited[j].currentLog != edited[i].currentLog
    {
      assert IsEntry(db, id, i) && IsEntry(db, id, j);
    }
  }

  /** `r` is `db` with one more log per entry, which has the state before the change, and with
      that state's status and reason in the row; messages and categories stay. */
  ghost predicate EntriesReverted(db: Database, r: Database, entries: seq<Entry>) {
    && r.changes == db.changes && r.nextChange == db.nextChange
    && RowsReverted(db.trees, r.trees, entries) && LogsReverted(db.logs, r.logs, entries) && MemoReverted(db.memo, r.memo, entries)
  }

  ghost predicate RowsReverted(trees: map<Name, TreeRow>, later: map<Name, TreeRow>, entries: seq<Entry>) {
    && later.Keys == trees.Keys
    && (forall t | t in trees :: later[t].motd == trees[t].motd && later[t].category == trees[t].category)
    && (forall t | t in trees && !TreesOf(entries, t) :: later[t] == trees[t])
    && (forall i | 0 <= i < |entries| && LastOfTree(entries, i) :: RowRestored(later, entries[i]))
  }

  predicate LogsReverted(logs: seq<Log>, later: seq<Log>, entries: seq<Entry>) {
    && |later| == |logs| + |entries| && logs <= later
    && forall i | 0 <= i < |entries| :: later[|logs| + i] == Log(entries[i].tree, entries[i].before)
  }

  ghost predicate MemoReverted(memo: map<Name, CombinedTree>, later: map<Name, CombinedTree>, entries: seq<Entry>) {
    && (forall t :: t in later <==> t in memo && !TreesOf(entries, t))
    && (forall t | t in later :: later[t] == memo[t])
  }

  predicate LastOfTree(entries: seq<Entry>, i: nat)
    requires i < |entries|
  {
    forall j | i < j < |entries| :: entries[j].tree != entries[i].tree
  }

  predicate RowRestored(trees: map<Name, TreeRow>, e: Entry) {
    e.tree in trees && trees[e.tree].status == e.before.status && trees[e.tree].reason == e.before.reason
  }

  lemma TreesOfOne(e: Entry, t: Name)
    ensures TreesOf([e], t) <==> t == e.tree
  {
    assert [e][0].tree == e.tree;
  }

  lemma TreesOfSnoc(init: seq<Entry>, e: Entry, t: Name)
    ensures TreesOf(init + [e], t) <==> TreesOf(init, t) || t == e.tree
  {
    var entries := init + [e];
    assert entries[|init|] == e;
    if TreesOf(init, t) {
      var i :| 0 <= i < |init| && init[i].tree == t;
      assert entries[i].tree == t;
    }
  }

  lemma RevertEntryEffect(db: Database, e: Entry)
    requires e.tree in db.trees
    ensures EntriesReverted(db, RevertEntry(db, e), [e])
  {
    var db' := GetTreeByName(db, e.tree).1;
    var r := UpdateTreeStatus(db', e.tree, Some(e.before.status), Some(e.before.reason), None, e.before.tags);
    ReadEffect(db, e.tree);
    UpdateStatusEffect(db', e.tree, Some(e.before.status), Some(e.before.reason), None, e.before.tags);
    hide UpdateTreeStatus, Combine, Updated, EntriesReverted;
    assert RevertEntry(db, e) == r;
    UpdatedIsReverted(db, db', r, e);
  }

  lemma UpdatedIsReverted(db: Database, read: Database, r: Database, e: Entry)
    requires e.tree in db.trees && read == db.(memo := read.memo)
    requires (forall u | u in db.memo :: u in read.memo && read.memo[u] == db.memo[u]) && (forall u | u in read.memo :: u in db.memo || u == e.tree)
    requires Updated(read, r, [e.tree], Some(e.before.status), Some(e.before.reason), None, e.before.tags)
    ensures EntriesReverted(db, r, [e])
  {
    forall t
      ensures TreesOf([e], t) <==> t == e.tree
    {
      TreesOfOne(e, t);
    }
    hide TreesOf;
  }

  lemma {:induction false} RevertEntriesEffect(db: Database, entries: seq<Entry>)
    requires forall i | 0 <= i < |entries| :: entries[i].tree in db.trees
    ensures EntriesReverted(db, RevertEntries(db, entries), entries)
    decreases |entries|
  {
    if entries == [] {
      return;
    }
    var init, e := entries[..|entries| - 1], entries[|entries| - 1];
    var mid := RevertEntries(db, init);
    assert RevertEntries(db, entries) == RevertEntry(mid, e);
    hide *;
    assert entries == init + [e];
    RevertEntriesEffect(db, init);
    KeysKept(db, mid, init);
    RevertEntryEffect(mid, e);
    RevertedTwice(db, mid, RevertEntry(mid, e), init, e);
  }

  lemma KeysKept(db: Database, r: Database, entries: seq<Entry>)
    requires EntriesReverted(db, r, entries)
    ensures r.trees.Keys == db.trees.Keys
  {
  }

  lemma RevertedTwice(db: Database, mid: Database, r: Database, init: seq<Entry>, e: Entry)
    requires EntriesReverted(db, mid, init) && EntriesReverted(mid, r, [e])
    ensures EntriesReverted(db, r, init + [e])
  {
    hide RowsReverted, MemoReverted, TreesOf;
    RowsRevertedTwice(db.trees, mid.trees, r.trees, init, e);
    MemoRevertedTwice(db.memo, mid.memo, r.memo, init, e);
    var entries := init + [e];
    forall i | 0 <= i < |entries|
      ensures r.logs[|db.logs| + i] == Log(entries[i].tree, entries[i].before)
    {
      if i < |init| {
        assert r.logs[|db.logs| + i] == mid.logs[|db.logs| + i];
      } else {
        assert r.logs[|mid.logs| + 0] == Log([e][0].tree, [e][0].before);
      }
    }
  }

  lemma RowsRevertedTwice(trees: map<Name, TreeRow>, mid: map<Name, TreeRow>, later: map<Name, TreeRow>, init: seq<Entry>, e: Entry)
    requires RowsReverted(trees, mid, init) && RowsReverted(mid, later, [e])
    ensures RowsReverted(trees, later, init + [e])
  {
    var entries := init + [e];
    hide TreesOf;
    forall t
      ensures TreesOf(entries, t) <==> TreesOf(init, t) || t == e.tree
      ensures TreesOf([e], t) <==> t == e.tree
    {
      TreesOfSnoc(init, e, t);
      TreesOfOne(e, t);
    }
    forall i | 0 <= i < |entries| && LastOfTree(entries, i)
      ensures RowRestored(later, entries[i])
    {
      if i < |init| {
        assert forall j | i < j < |init| :: entries[j] == init[j];
        assert entries[|init|].tree != entries[i].tree;
        assert LastOfTree(init, i) && RowRestored(mid, init[i]);
      } else {
        assert LastOfTree([e], 0) && RowRestored(later, [e][0]);
      }
    }
  }

  lemma MemoRevertedTwice(memo: map<Name, CombinedTree>, mid: map<Name, CombinedTree>, later: map<Name, CombinedTree>,
                          init: seq<Entry>, e: Entry)
    requires MemoReverted(memo, mid, init) && MemoReverted(mid, later, [e])
    ensures MemoReverted(memo, later, init + [e])
  {
    hide TreesOf;
    forall t
      ensures TreesOf(init + [e], t) <==> TreesOf(init, t) || t == e.tree
      ensures TreesOf([e], t) <==> t == e.tree
    {
      TreesOfSnoc(init, e, t);
      TreesOfOne(e, t);
    }
  }

  /** Taking a change off the stack restores what it remembers if that is asked for, and
      changes nothing else; there has to be such a change. */
  lemma RevertChangeEffect(db: Database, id: nat, revert: bool)
    requires Inv(db)
    ensures var (r, outcome) := RevertChange(db, id, revert);
      if id !in db.changes then outcome == NotFound && r == db
      else
        && outcome == Done && r.changes == db.changes - {id}
        && if revert then EntriesReverted(db, r.(changes := db.changes), db.changes[id].entries)
          else r.(changes := db.changes) == db
  {
    if id in db.changes {
      var entries := db.changes[id].entries;
      forall i | 0 <= i < |entries|
        ensures entries[i].tree in db.trees
      {
        assert IsEntry(db, id, i) && EntryGrounded(db, entries[i]);
      }
      RevertEntriesEffect(db, entries);
      hide RevertEntries;
      var r := RevertEntries(db, entries);
      assert RevertChange(db, id, true).0.(changes := db.changes) == r;
    }
  }

  // ---------------------------------------------------------------------------
  // Logs and trees
  // ---------------------------------------------------------------------------

  /** An entry that names the log takes the values given that are not empty. */
  predicate EntryFollowed(entry: Entry, later: Entry, id: nat, tags: Option<seq<string>>, reason: Option<string>) {
    && later.tree == entry.tree && later.before == entry.before && later.beforeLog == entry.beforeLog
    && later.currentLog == entry.currentLog && later.current.status == entry.current.status
    && (entry.currentLog == Some(id) && reason.Some? && reason.value != "" ==> later.current.reason == reason.value)
    && (entry.currentLog == Some(id) && tags.Some? && tags.value != [] ==> later.current.tags == tags.value)
    && (entry.currentLog != Some(id) || reason in {None, Some("")} ==> later.current.reason == entry.current.reason)
    && (entry.currentLog != Some(id) || tags in {None, Some([])} ==> later.current.tags == entry.current.tags)
  }

  predicate ChangeFollowed(change: Change, later: Change, id: nat, tags: Option<seq<string>>, reason: Option<string>) {
    && later.status == change.status && later.reason == change.reason && |later.entries| == |change.entries|
    && forall i | 0 <= i < |later.entries| :: EntryFollowed(change.entries[i], later.entries[i], id, tags, reason)
  }

  /** Editing a log gives it the reason and tags given, and edits the entries that name it. */
  lemma UpdateLogEffect(db: Database, id: nat, tags: Option<seq<string>>, reason: Option<string>)
    ensures var (r, outcome) := UpdateLog(db, id, tags, reason);
      && (outcome == NotFound <==> id >= |db.logs| && (tags.Some? || reason.Some?)) && (outcome != NotFound ==> outcome == Done)
      && (outcome == NotFound || (tags.None? && reason.None?) ==> r == db)
      && r.trees == db.trees && r.memo == db.memo && r.nextChange == db.nextChange && r.changes.Keys == db.changes.Keys
      && |r.logs| == |db.logs| && (forall k | 0 <= k < |db.logs| && k != id :: r.logs[k] == db.logs[k])
      && (id < |db.logs| ==>
        && r.logs[id].tree == db.logs[id].tree && r.logs[id].state.status == db.logs[id].state.status
        && (if reason.Some? then r.logs[id].state.reason == reason.value else r.logs[id].state.reason == db.logs[id].state.reason)
        && (if tags.Some? then r.logs[id].state.tags == tags.value else r.logs[id].state.tags == db.logs[id].state.tags)
        && forall c | c in db.changes :: ChangeFollowed(db.changes[c], r.changes[c], id, tags, reason))
  {
  }

  /** A new tree has the given row and nothing else changes; the tree must not exist yet. */
  lemma MakeTreeEffect(db: Database, t: Name, row: TreeRow)
    ensures var (r, outcome) := MakeTree(db, t, row);
      && (outcome == AlreadyExists <==> t in db.trees) && (outcome == Done <==> t !in db.trees)
      && (t in db.trees ==> r == db)
      && (t !in db.trees ==> r == db.(trees := r.trees) && r.trees.Keys == db.trees.Keys + {t} && r.trees[t] == row)
      && forall u | u in db.trees :: u in r.trees && r.trees[u] == db.trees[u]
  {
  }

  /** A tree is deleted exactly if it exists and neither a log nor an entry is about it. */
  lemma DeleteTreeEffect(db: Database, t: Name)
    ensures var (r, outcome) := DeleteTree(db, t);
      && (outcome == Done <==>
        && t in db.trees && (forall i | 0 <= i < |db.logs| :: db.logs[i].tree != t)
        && (forall c | c in db.changes :: forall i | 0 <= i < |db.changes[c].entries| :: db.changes[c].entries[i].tree != t))
      && (outcome == NotFound <==> t !in db.trees) && outcome in {Done, NotFound, Aborted}
      && (outcome != Done ==> r == db)
      && (outcome == Done ==>
        && r == db.(trees := r.trees, memo := r.memo)
        && r.trees.Keys == db.trees.Keys - {t} && r.memo.Keys == db.memo.Keys - {t}
        && (forall u | u in r.trees :: r.trees[u] == db.trees[u]) && forall u | u in r.memo :: r.memo[u] == db.memo[u])
  {
  }
}
