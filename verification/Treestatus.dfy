/** The tree status database: tree rows, their logs, the change stack, the memoised reads,
    and what each operation does to them. */
module Treestatus {

  import opened Options
  import opened Sequences

  datatype TreeStatus = Open | Closed | ApprovalRequired {
    /** Whether Lando may land to a tree with this status. */
    predicate IsOpen() {
      this in {Open, ApprovalRequired}
    }
  }

  datatype Name = Name(raw: string)

  /** The part of a tree's view that changes and reverts are about. */
  datatype TreeState = TreeState(status: TreeStatus, reason: string, tags: seq<string>)

  datatype TreeRow = TreeRow(status: TreeStatus, reason: string, motd: string, category: string)

  /** A log is identified by its position: later operations have later positions. */
  datatype Log = Log(tree: Name, state: TreeState)

  /** What a change remembers of one tree: its state before, and the state the change gave it. */
  datatype Entry = Entry(tree: Name, before: TreeState, beforeLog: Option<nat>, current: TreeState, currentLog: Option<nat>)

  datatype Change = Change(status: TreeStatus, reason: string, entries: seq<Entry>)

  datatype CombinedTree = CombinedTree(tree: Name, state: TreeState, motd: string, category: string, logId: Option<nat>)

  datatype Database = Database(
    trees: map<Name, TreeRow>,
    logs: seq<Log>,
    changes: map<nat, Change>,
    nextChange: nat,
    memo: map<Name, CombinedTree>
  )

  datatype Outcome =
    | Done
    | NotFound
    | AlreadyExists
    | TagsRequired
    | RememberIncomplete
    | Aborted          // an exception before the commit: the transaction is rolled back
    | FailedAfterCommit // an exception while building the response: the effect stays

  const NO_CHANGE := "no change"

  function OrElse<T>(o: Option<T>, default: T): T {
    if o.Some? then o.value else default
  }

  // ---------------------------------------------------------------------------
  // Reading
  // ---------------------------------------------------------------------------

  /** The newest log of a tree. */
  function LastLog(logs: seq<Log>, t: Name): (r: Option<nat>)
    ensures r.Some? ==> r.value < |logs| && logs[r.value].tree == t
    ensures r.Some? ==> forall i | r.value < i < |logs| :: logs[i].tree != t
    ensures r.None? ==> forall i | 0 <= i < |logs| :: logs[i].tree != t
    decreases |logs|
  {
    if logs == [] then None
    else if logs[|logs| - 1].tree == t then Some(|logs| - 1)
    else LastLog(logs[..|logs| - 1], t)
  }

  /** The row of a tree joined with its newest log, which takes precedence. */
  function Combine(t: Name, row: TreeRow, logs: seq<Log>): CombinedTree {
    var last := LastLog(logs, t);
    var state := if last.Some? then logs[last.value].state else TreeState(row.status, row.reason, []);
    CombinedTree(t, state, row.motd, row.category, last)
  }

  /** A fresh query for one tree. */
  function FreshQuery(db: Database, t: Name): Option<CombinedTree> {
    if t in db.trees then Some(Combine(t, db.trees[t], db.logs)) else None
  }

  function StateOf(db: Database, t: Name): TreeState
    requires t in db.trees
  {
    Combine(t, db.trees[t], db.logs).state
  }

  /** The memoised read: it serves a remembered value, and remembers what it has to query. */
  function GetTreeByName(db: Database, t: Name): (Option<CombinedTree>, Database) {
    if t in db.memo then
      (Some(db.memo[t]), db)
    else if t in db.trees then
      var c := Combine(t, db.trees[t], db.logs);
      (Some(c), db.(memo := db.memo[t := c]))
    else
      (None, db)
  }

  // ---------------------------------------------------------------------------
  // Updating the status of trees
  // ---------------------------------------------------------------------------

  /** A reason without a status makes the code look up a status called "no change". */
  predicate Raises(status: Option<TreeStatus>, reason: Option<string>) {
    status.None? && reason.Some? && reason.value != ""
  }

  function UpdateTreeStatus(db: Database, t: Name, status: Option<TreeStatus>, reason: Option<string>,
                            motd: Option<string>, tags: seq<string>): Database
    requires t in db.trees && !Raises(status, reason)
  {
    var row := db.trees[t];
    var row' := row.(status := OrElse(status, row.status), reason := OrElse(reason, row.reason), motd := OrElse(motd, row.motd));
    var logs' := if status.Some? then db.logs + [Log(t, TreeState(status.value, OrElse(reason, NO_CHANGE), tags))] else db.logs;
    db.(trees := db.trees[t := row'], logs := logs', memo := db.memo - {t})
  }

  function UpdateEach(db: Database, names: seq<Name>, status: Option<TreeStatus>, reason: Option<string>,
                      motd: Option<string>, tags: seq<string>): (r: Database)
    requires (forall i | 0 <= i < |names| :: names[i] in db.trees) && (names == [] || !Raises(status, reason))
    ensures r.trees.Keys == db.trees.Keys
    decreases |names|
  {
    if names == [] then
      db
    else
      UpdateTreeStatus(UpdateEach(db, names[..|names| - 1], status, reason, motd, tags), names[|names| - 1], status, reason, motd, tags)
  }

  /** A request to update trees; absent fields are `None`. */
  datatype TreeUpdate = TreeUpdate(
    trees: seq<Name>,
    status: Option<TreeStatus>,
    reason: Option<string>,
    motd: Option<string>,
    tags: Option<seq<string>>,
    remember: bool
  )

  /** `fetched` lists, in some order, the trees that a query for `names` finds; asking for no
      name at all finds every tree. */
  predicate IsFetch(db: Database, names: seq<Name>, fetched: seq<Name>) {
    && Distinct(fetched)
    && (forall i | 0 <= i < |fetched| :: fetched[i] in db.trees && (names == [] || fetched[i] in names))
    && (forall t | t in db.trees && (names == [] || t in names) :: t in fetched)
  }

  function RememberTree(earlier: Database, later: Database, t: Name): Entry
    requires t in earlier.trees && t in later.trees
  {
    var before, after := Combine(t, earlier.trees[t], earlier.logs), Combine(t, later.trees[t], later.logs);
    Entry(t, before.state, before.logId, after.state, after.logId)
  }

  function RememberTrees(earlier: Database, later: Database, fetched: seq<Name>): (entries: seq<Entry>)
    requires forall i | 0 <= i < |fetched| :: fetched[i] in earlier.trees && fetched[i] in later.trees
    ensures |entries| == |fetched|
    ensures forall i | 0 <= i < |entries| :: entries[i] == RememberTree(earlier, later, fetched[i])
  {
    seq(|fetched|, i requires 0 <= i < |fetched| => RememberTree(earlier, later, fetched[i]))
  }

  /** Puts an entry for the change from `earlier` to `later` on the change stack. */
  function Remember(earlier: Database, later: Database, status: TreeStatus, reason: string, fetched: seq<Name>): Database
    requires forall i | 0 <= i < |fetched| :: fetched[i] in earlier.trees && fetched[i] in later.trees
  {
    later.(changes := later.changes[later.nextChange := Change(status, reason, RememberTrees(earlier, later, fetched))],
           nextChange := later.nextChange + 1)
  }

  function UpdateTrees(db: Database, body: TreeUpdate, fetched: seq<Name>): (Database, Outcome)
    requires IsFetch(db, body.trees, fetched)
  {
    if |fetched| != |body.trees| then
      (db, NotFound)
    else if body.tags.None? && body.status == Some(Closed) then
      (db, TagsRequired)
    else if body.remember && (body.status.None? || body.reason.None? || body.tags.None?) then
      (db, RememberIncomplete)
    else if fetched != [] && Raises(body.status, body.reason) then
      (db, Aborted)
    else
      var updated := UpdateEach(db, fetched, body.status, body.reason, body.motd, OrElse(body.tags, []));
      var remembered := if body.remember then Remember(db, updated, body.status.value, body.reason.value, fetched) else updated;
      (remembered, if fetched != [] && body.status.None? then FailedAfterCommit else Done)
  }

  // ---------------------------------------------------------------------------
  // The change stack
  // ---------------------------------------------------------------------------

  function RevertEntry(db: Database, e: Entry): Database {
    var (found, db') := GetTreeByName(db, e.tree);
    if found.None? || e.tree !in db'.trees then db'
    else UpdateTreeStatus(db', e.tree, Some(e.before.status), Some(e.before.reason), None, e.before.tags)
  }

  function RevertEntries(db: Database, entries: seq<Entry>): Database
    decreases |entries|
  {
    if entries == [] then db
    else RevertEntry(RevertEntries(db, entries[..|entries| - 1]), entries[|entries| - 1])
  }

  function RevertChange(db: Database, id: nat, revert: bool): (Database, Outcome) {
    if id !in db.changes then
      (db, NotFound)
    else
      var db' := if revert then RevertEntries(db, db.changes[id].entries) else db;
      (db'.(changes := db'.changes - {id}), Done)
  }

  function EditEntry(e: Entry, tags: Option<seq<string>>, reason: Option<string>): Entry {
    e.(current := e.current.(tags := OrElse(tags, e.current.tags), reason := OrElse(reason, e.current.reason)))
  }

  function EditEntries(entries: seq<Entry>, tags: Option<seq<string>>, reason: Option<string>): (r: seq<Entry>)
    ensures |r| == |entries|
    ensures forall i | 0 <= i < |r| :: r[i] == EditEntry(entries[i], tags, reason)
  {
    seq(|entries|, i requires 0 <= i < |entries| => EditEntry(entries[i], tags, reason))
  }

  predicate HasLog(logs: seq<Log>, e: Entry) {
    e.currentLog.Some? && e.currentLog.value < |logs|
  }

  /** Writes the current reason and tags of each entry into the log it names. */
  function WriteLogs(logs: seq<Log>, entries: seq<Entry>): (r: seq<Log>)
    requires forall i | 0 <= i < |entries| :: HasLog(logs, entries[i])
    ensures |r| == |logs|
    decreases |entries|
  {
    if entries == [] then
      logs
    else
      var e := entries[|entries| - 1];
      assert HasLog(logs, e);
      var logs' := WriteLogs(logs, entries[..|entries| - 1]);
      var k := e.currentLog.value;
      logs'[k := logs'[k].(state := logs'[k].state.(tags := e.current.tags, reason := e.current.reason))]
  }

  function UpdateStack(db: Database, id: nat, tags: Option<seq<string>>, reason: Option<string>): (Database, Outcome) {
    if id !in db.changes then
      (db, NotFound)
    else
      var c := db.changes[id];
      var entries := EditEntries(c.entries, tags, reason);
      if !(forall i | 0 <= i < |entries| :: HasLog(db.logs, entries[i])) then
        (db, NotFound)
      else
        (db.(logs := WriteLogs(db.logs, entries),
             changes := db.changes[id := Change(c.status, OrElse(reason, c.reason), entries)]), Done)
  }

  // ---------------------------------------------------------------------------
  // Editing a log
  // ---------------------------------------------------------------------------

  /** Entries that name the edited log follow it, but only to values that are not empty. */
  function FollowLog(e: Entry, id: nat, tags: Option<seq<string>>, reason: Option<string>): Entry {
    if e.currentLog != Some(id) then e
    else
      e.(current := e.current.(
        reason := if reason.Some? && reason.value != "" then reason.value else e.current.reason,
        tags := if tags.Some? && tags.value != [] then tags.value else e.current.tags))
  }

  function FollowEntries(entries: seq<Entry>, id: nat, tags: Option<seq<string>>, reason: Option<string>): (r: seq<Entry>)
    ensures |r| == |entries|
    ensures forall i | 0 <= i < |r| :: r[i] == FollowLog(entries[i], id, tags, reason)
  {
    seq(|entries|, i requires 0 <= i < |entries| => FollowLog(entries[i], id, tags, reason))
  }

  function UpdateLog(db: Database, id: nat, tags: Option<seq<string>>, reason: Option<string>): (Database, Outcome) {
    if tags.None? && reason.None? then
      (db, Done)
    else if id >= |db.logs| then
      (db, NotFound)
    else
      var state := db.logs[id].state;
      var log := db.logs[id].(state := state.(tags := OrElse(tags, state.tags), reason := OrElse(reason, state.reason)));
      (db.(logs := db.logs[id := log],
           changes := map c | c in db.changes :: db.changes[c].(entries := FollowEntries(db.changes[c].entries, id, tags, reason))), Done)
  }

  // ---------------------------------------------------------------------------
  // Creating and deleting trees
  // ---------------------------------------------------------------------------

  function MakeTree(db: Database, t: Name, row: TreeRow): (Database, Outcome) {
    if t in db.trees then (db, AlreadyExists) else (db.(trees := db.trees[t := row]), Done)
  }

  /** The foreign keys of logs and of change entries refuse the deletion of their tree. */
  predicate Referenced(db: Database, t: Name) {
    || (exists i | 0 <= i < |db.logs| :: db.logs[i].tree == t)
    || (exists c | c in db.changes :: exists i | 0 <= i < |db.changes[c].entries| :: db.changes[c].entries[i].tree == t)
  }

  function DeleteTree(db: Database, t: Name): (Database, Outcome) {
    if t !in db.trees then (db, NotFound)
    else if Referenced(db, t) then (db, Aborted)
    else (db.(trees := db.trees - {t}, memo := db.memo - {t}), Done)
  }

  // ---------------------------------------------------------------------------
  // Runs
  // ---------------------------------------------------------------------------

  datatype Operation =
    | Create(t: Name, row: TreeRow)
    | Update(body: TreeUpdate, fetched: seq<Name>)
    | Revert(id: nat, revert: bool)
    | EditStack(id: nat, tags: Option<seq<string>>, reason: Option<string>)
    | EditLog(id: nat, tags: Option<seq<string>>, reason: Option<string>)
    | Delete(t: Name)
    | Read(t: Name)

  /** An update runs over what its query finds; every other operation is always possible. */
  predicate Enabled(db: Database, op: Operation) {
    op.Update? ==> IsFetch(db, op.body.trees, op.fetched)
  }

  function Step(db: Database, op: Operation): Database
    requires Enabled(db, op)
  {
    match op
    case Create(t, row) => MakeTree(db, t, row).0
    case Update(body, fetched) => UpdateTrees(db, body, fetched).0
    case Revert(id, revert) => RevertChange(db, id, revert).0
    case EditStack(id, tags, reason) => UpdateStack(db, id, tags, reason).0
    case EditLog(id, tags, reason) => UpdateLog(db, id, tags, reason).0
    case Delete(t) => DeleteTree(db, t).0
    case Read(t) => GetTreeByName(db, t).1
  }

  /** `run` is a sequence of databases, each the result of an operation on the one before. */
  ghost predicate IsRun(run: seq<Database>, ops: seq<Operation>) {
    && |run| == |ops| + 1
    && (forall i | 0 <= i < |ops| :: Enabled(run[i], ops[i]) && run[i + 1] == Step(run[i], ops[i]))
  }

  const EMPTY_DATABASE := Database(map[], [], map[], 0, map[])
}
