/** The tree status operations as the program runs them, on tables that they change in place. */
module TreestatusApi {

  import opened Options
  import opened Sequences
  import opened Treestatus
  import opened TreestatusEffects

  class Store {
    var trees: map<Name, TreeRow>
    var logs: seq<Log>
    var changes: map<nat, Change>
    var nextChange: nat
    var memo: map<Name, CombinedTree>

    ghost function View(): Database
      reads this
    {
      Database(trees, logs, changes, nextChange, memo)
    }

    constructor ()
      ensures View() == EMPTY_DATABASE
    {
      trees, logs, changes, nextChange, memo := map[], [], map[], 0, map[];
    }

    /** Serves a memoised tree if there is one, and memoises what it has to query. */
    method GetTreeByName(t: Name) returns (c: Option<CombinedTree>)
      modifies this`memo
      ensures (c, View()) == Treestatus.GetTreeByName(old(View()), t)
    {
      if t in memo {
        return Some(memo[t]);
      }
      if t in trees {
        c := Some(Combine(t, trees[t], logs));
        memo := memo[t := c.value];
      } else {
        c := None;
      }
    }

    /** Lists the trees that a query for `names` finds. */
    method GetCombinedTrees(names: seq<Name>) returns (fetched: seq<Name>)
      ensures IsFetch(View(), names, fetched)
    {
      fetched := [];
      var todo := set t | t in trees && (names == [] || t in names);
      while todo != {}
        invariant forall t | t in todo :: t in trees && (names == [] || t in names) && t !in fetched
        invariant forall t | t in trees && (names == [] || t in names) :: t in todo || t in fetched
        invariant forall i | 0 <= i < |fetched| :: fetched[i] in trees && (names == [] || fetched[i] in names)
        invariant Distinct(fetched)
        decreases todo
      {
        var t :| t in todo;
        todo := todo - {t};
        fetched := fetched + [t];
      }
    }

    /** Changes the row, then adds a log. When the log cannot be built the row stays changed,
        and it is up to the caller to roll back. */
    method UpdateTreeStatus(t: Name, status: Option<TreeStatus>, reason: Option<string>, motd: Option<string>, tags: seq<string>)
      returns (ok: bool)
      requires t in trees
      modifies this`trees, this`logs, this`memo
      ensures ok <==> !Raises(status, reason)
      ensures ok ==> View() == Treestatus.UpdateTreeStatus(old(View()), t, status, reason, motd, tags)
      ensures ok <==> status.Some? || reason in {None, Some("")}
      ensures ok ==> Updated(old(View()), View(), [t], status, reason, motd, tags)
      ensures !ok ==> logs == old(logs) && memo == old(memo)
    {
      ghost var before := View();
      if status.Some? {
        trees := trees[t := trees[t].(status := status.value)];
      }
      if reason.Some? {
        trees := trees[t := trees[t].(reason := reason.value)];
      }
      if motd.Some? {
        trees := trees[t := trees[t].(motd := motd.value)];
      }
      assert trees == old(trees)[t := old(trees)[t].(status := OrElse(status, old(trees)[t].status),
        reason := OrElse(reason, old(trees)[t].reason), motd := OrElse(motd, old(trees)[t].motd))];
      if status.Some? || (reason.Some? && reason.value != "") {
        if status.None? {
          return false;
        }
        logs := logs + [Log(t, TreeState(status.value, if reason.Some? then reason.value else NO_CHANGE, tags))];
      }
      memo := memo - {t};
      UpdateStatusEffect(before, t, status, reason, motd, tags);
      return true;
    }

    /** Applies one update to each fetched tree. Only the first tree can fail. */
    method UpdateFetched(fetched: seq<Name>, status: Option<TreeStatus>, reason: Option<string>, motd: Option<string>, tags: seq<string>)
      returns (ok: bool)
      requires forall i | 0 <= i < |fetched| :: fetched[i] in trees
      modifies this`trees, this`logs, this`memo
      ensures ok <==> fetched == [] || !Raises(status, reason)
      ensures ok ==> View() == UpdateEach(old(View()), fetched, status, reason, motd, tags)
      ensures !ok ==> logs == old(logs) && memo == old(memo)
    {
      ghost var before := View();
      for i := 0 to |fetched|
        invariant i > 0 ==> !Raises(status, reason)
        invariant View() == UpdateEach(before, fetched[..i], status, reason, motd, tags)
        invariant i == 0 ==> View() == before
        invariant changes == before.changes && nextChange == before.nextChange
      {
        ok := UpdateTreeStatus(fetched[i], status, reason, motd, tags);
        if !ok {
          return false;
        }
        assert fetched[..i + 1][..i] == fetched[..i];
      }
      assert fetched[..|fetched|] == fetched;
      return true;
    }

    /** What to remember of each fetched tree: its view before the update, and its view now. */
    method RememberFetched(earlierTrees: map<Name, TreeRow>, earlierLogs: seq<Log>, fetched: seq<Name>, ghost earlier: Database)
      returns (entries: seq<Entry>)
      requires earlierTrees == earlier.trees && earlierLogs == earlier.logs
      requires forall i | 0 <= i < |fetched| :: fetched[i] in earlierTrees && fetched[i] in trees
      ensures entries == RememberTrees(earlier, View(), fetched)
    {
      hide Combine;
      entries := [];
      for i := 0 to |fetched|
        invariant |entries| == i
        invariant forall j | 0 <= j < i :: entries[j] == RememberTree(earlier, View(), fetched[j])
      {
        var t := fetched[i];
        var before, after := Combine(t, earlierTrees[t], earlierLogs), Combine(t, trees[t], logs);
        entries := entries + [Entry(t, before.state, before.logId, after.state, after.logId)];
      }
    }

    /** Updates trees, all or none of them, and remembers the change if asked to. */
    method UpdateTrees(body: TreeUpdate) returns (fetched: seq<Name>, outcome: Outcome)
      modifies this
      ensures IsFetch(old(View()), body.trees, fetched)
      ensures (View(), outcome) == Treestatus.UpdateTrees(old(View()), body, fetched)
      ensures outcome in {NotFound, TagsRequired, RememberIncomplete, Aborted, FailedAfterCommit, Done}
      ensures outcome == NotFound <==> |fetched| != |body.trees|
      ensures outcome == TagsRequired <==> |fetched| == |body.trees| && body.status == Some(Closed) && body.tags.None?
      ensures outcome in {FailedAfterCommit, Done} ==> Applied(old(View()), View(), body, fetched)
      ensures outcome in {NotFound, TagsRequired, RememberIncomplete, Aborted} ==> View() == old(View())
    {
      hide UpdateEach, RememberTrees, Applied;
      fetched := GetCombinedTrees(body.trees);
      UpdateTreesEffect(View(), body, fetched);
      if |fetched| != |body.trees| {
        return fetched, NotFound;
      }
      if body.tags.None? && body.status == Some(Closed) {
        return fetched, TagsRequired;
      }
      if body.remember && (body.status.None? || body.reason.None? || body.tags.None?) {
        return fetched, RememberIncomplete;
      }
      var earlierTrees, earlierLogs := trees, logs;
      var ok := UpdateFetched(fetched, body.status, body.reason, body.motd, if body.tags.Some? then body.tags.value else []);
      if !ok {
        trees := earlierTrees; // the transaction is rolled back
        return fetched, Aborted;
      }
      if body.remember {
        var entries := RememberFetched(earlierTrees, earlierLogs, fetched, old(View()));
        changes := changes[nextChange := Change(body.status.value, body.reason.value, entries)];
        nextChange := nextChange + 1;
      }
      return fetched, if fetched != [] && body.status.None? then FailedAfterCommit else Done;
    }

    /** Takes a change off the stack and, if asked to, restores what it remembers. */
    method RevertChange(id: nat, revert: bool) returns (outcome: Outcome)
      modifies this
      ensures (View(), outcome) == Treestatus.RevertChange(old(View()), id, revert)
    {
      if id !in changes {
        return NotFound;
      }
      if revert {
        var entries := changes[id].entries;
        ghost var before := View();
        for i := 0 to |entries|
          invariant View() == RevertEntries(before, entries[..i])
          invariant changes == before.changes
        {
          assert entries[..i + 1][..i] == entries[..i];
          var e := entries[i];
          var c := GetTreeByName(e.tree);
          if c.None? || e.tree !in trees {
            continue;
          }
          var _ := UpdateTreeStatus(e.tree, Some(e.before.status), Some(e.before.reason), None, e.before.tags);
        }
        assert entries[..|entries|] == entries;
      }
      changes := changes - {id};
      return Done;
    }

    /** Edits entries and the logs they name, until an entry turns out to name no log. */
    method EditLogged(entries: seq<Entry>, tags: Option<seq<string>>, reason: Option<string>) returns (edited: seq<Entry>, ok: bool)
      modifies this`logs
      ensures ok <==> forall i | 0 <= i < |entries| :: HasLog(old(logs), entries[i])
      ensures ok ==> edited == EditEntries(entries, tags, reason)
      ensures ok ==> (forall i | 0 <= i < |edited| :: HasLog(old(logs), edited[i])) && logs == WriteLogs(old(logs), edited)
      ensures ok ==> |edited| == |entries| && forall i | 0 <= i < |edited| :: EntryEdited(entries[i], edited[i], tags, reason)
      ensures ok ==> LogsWritten(old(logs), logs, edited)
    {
      hide WriteLogs, LogsWritten, LastToName, Names;
      NoEntryWritten(logs);
      edited := [];
      for n := 0 to |entries|
        invariant |edited| == n && forall i | 0 <= i < n :: edited[i] == EditEntry(entries[i], tags, reason)
        invariant forall i | 0 <= i < n :: HasLog(old(logs), edited[i])
        invariant logs == WriteLogs(old(logs), edited)
      {
        var e := entries[n];
        var tags', reason' := if tags.Some? then tags.value else e.current.tags, if reason.Some? then reason.value else e.current.reason;
        e := e.(current := e.current.(tags := tags', reason := reason'));
        if !(e.currentLog.Some? && e.currentLog.value < |logs|) {
          assert !HasLog(old(logs), entries[n]);
          return edited, false;
        }
        OneEntryWritten(old(logs), edited, e);
        var log := logs[e.currentLog.value];
        logs := logs[e.currentLog.value := log.(state := log.state.(tags := tags', reason := reason'))];
        edited := edited + [e];
      }
      WriteLogsIs(old(logs), edited);
      return edited, true;
    }

    /** Edits the reason and tags of a change, in its entries and in the logs they name. */
    method UpdateStack(id: nat, tags: Option<seq<string>>, reason: Option<string>) returns (outcome: Outcome)
      modifies this`logs, this`changes
      ensures (View(), outcome) == Treestatus.UpdateStack(old(View()), id, tags, reason)
      ensures outcome == Done <==> id in old(changes) && AllLogsExist(old(View()), old(changes)[id].entries)
      ensures outcome == Done ==> StackEdited(old(View()), View(), id, tags, reason)
      ensures outcome != Done ==> outcome == NotFound && View() == old(View())
    {
      UpdateStackEffect(View(), id, tags, reason);
      if id !in changes {
        return NotFound;
      }
      hide WriteLogs;
      var change, earlierLogs := changes[id], logs;
      var entries, ok := EditLogged(change.entries, tags, reason);
      assert forall i | 0 <= i < |change.entries| ::
        HasLog(earlierLogs, EditEntries(change.entries, tags, reason)[i]) <==> HasLog(earlierLogs, change.entries[i]);
      if !ok {
        logs := earlierLogs; // the transaction is rolled back
        return NotFound;
      }
      changes := changes[id := Change(change.status, if reason.Some? then reason.value else change.reason, entries)];
      return Done;
    }

    /** Edits one log, and the entries of the change stack that name it. */
    method UpdateLog(id: nat, tags: Option<seq<string>>, reason: Option<string>) returns (outcome: Outcome)
      modifies this`logs, this`changes
      ensures (View(), outcome) == Treestatus.UpdateLog(old(View()), id, tags, reason)
      ensures outcome == Done || (outcome == NotFound && id >= |old(logs)|)
      ensures outcome == Done && (tags.Some? || reason.Some?) ==>
        && forall c | c in old(changes) :: c in changes && ChangeFollowed(old(changes)[c], changes[c], id, tags, reason)
    {
      hide ChangeFollowed;
      UpdateLogEffect(View(), id, tags, reason);
      if tags.None? && reason.None? {
        return Done;
      }
      if id >= |logs| {
        return NotFound;
      }
      if tags.Some? {
        logs := logs[id := logs[id].(state := logs[id].state.(tags := tags.value))];
      }
      if reason.Some? {
        logs := logs[id := logs[id].(state := logs[id].state.(reason := reason.value))];
      }
      var todo, earlier := changes.Keys, changes;
      ghost var edited := Treestatus.UpdateLog(old(View()), id, tags, reason).0.logs;
      assert logs == edited;
      while todo != {}
        invariant logs == edited
        invariant todo <= earlier.Keys && changes.Keys == earlier.Keys
        invariant forall c | c in todo :: changes[c] == earlier[c]
        invariant forall c | c in earlier && c !in todo ::
          changes[c] == earlier[c].(entries := FollowEntries(earlier[c].entries, id, tags, reason))
        decreases todo
      {
        var c :| c in todo;
        var entries := FollowEdit(changes[c].entries, id, tags, reason);
        changes := changes[c := changes[c].(entries := entries)];
        todo := todo - {c};
      }
      assert changes == Treestatus.UpdateLog(old(View()), id, tags, reason).0.changes;
      return Done;
    }

    static method FollowEdit(entries: seq<Entry>, id: nat, tags: Option<seq<string>>, reason: Option<string>) returns (r: seq<Entry>)
      ensures r == FollowEntries(entries, id, tags, reason)
    {
      r := entries;
      for i := 0 to |entries|
        invariant |r| == |entries|
        invariant forall j | 0 <= j < i :: r[j] == FollowLog(entries[j], id, tags, reason)
        invariant forall j | i <= j < |entries| :: r[j] == entries[j]
      {
        var e := r[i];
        if e.currentLog != Some(id) {
          continue;
        }
        if reason.Some? && reason.value != "" {
          e := e.(current := e.current.(reason := reason.value));
        }
        if tags.Some? && tags.value != [] {
          e := e.(current := e.current.(tags := tags.value));
        }
        r := r[i := e];
      }
    }

    method MakeTree(t: Name, row: TreeRow) returns (outcome: Outcome)
      modifies this`trees
      ensures (View(), outcome) == Treestatus.MakeTree(old(View()), t, row)
    {
      if t in trees {
        return AlreadyExists;
      }
      trees := trees[t := row];
      return Done;
    }

    /** The database refuses to delete a tree that a log or a change entry refers to. */
    method RemoveTreeByName(t: Name) returns (outcome: Outcome)
      modifies this`trees, this`memo
      ensures (View(), outcome) == Treestatus.DeleteTree(old(View()), t)
    {
      if t !in trees {
        return NotFound;
      }
      if Referenced(Database(trees, logs, changes, nextChange, memo), t) {
        return Aborted;
      }
      trees := trees - {t};
      memo := memo - {t};
      return Done;
    }
  }

  lemma NoEntryWritten(logs: seq<Log>)
    ensures WriteLogs(logs, []) == logs
  {
  }

  lemma OneEntryWritten(logs: seq<Log>, entries: seq<Entry>, e: Entry)
    requires HasLog(logs, e) && forall i | 0 <= i < |entries| :: HasLog(logs, entries[i])
    ensures var earlier, k := WriteLogs(logs, entries), e.currentLog.value;
      WriteLogs(logs, entries + [e])
        == earlier[k := earlier[k].(state := earlier[k].state.(tags := e.current.tags, reason := e.current.reason))]
  {
    assert (entries + [e])[..|entries|] == entries;
  }

  /** Whether Lando may land to a tree: an unknown tree counts as open. */
  method IsOpen(store: Store, t: Name) returns (open: bool)
    modifies store`memo
    ensures open <==>
      var served := Treestatus.GetTreeByName(old(store.View()), t).0;
      served.None? || served.value.state.status != Closed
  {
    var c := store.GetTreeByName(t);
    if c.None? {
      return true;
    }
    return c.value.state.status.IsOpen();
  }
}
