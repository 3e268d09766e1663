/** What a process that starts after any history of saves, failures and crashes
    gets to see: nothing, or an output path exactly as it was saved. */
module Recovery {
  import opened Wrappers
  import opened ByteStrings
  import opened Messages
  import opened FileReader
  import opened OutputPathState
  import opened Reloading
  import opened Store

  /** The state file of an output path that can be reloaded in full. */
  predicate IsStateFileOf(policy: Policy, limit: Int64, t: Tree, creationTime: Timestamp, data: Bytes) {
    && Reloadable(policy, t, true)
    && StateFile(t, creationTime) == Some(data)
    && |data| <= limit
    && LargestMessage(t, creationTime) < TWO_31
  }

  /** Opening `data` yields the saved creation time, and restoring it brings back
      precisely what of the saved output path survives. */
  predicate Reloads(policy: Policy, limit: Int64, t: Tree, creationTime: Timestamp, data: RawFile) {
    var loaded := NewFileReader(data, limit);
    && loaded.Success?
    && loaded.value.1.initialCreationTime == Some(creationTime)
    && loaded.value.1.contents.Some?
    && var restored := RestoreDirectory(policy, loaded.value.0, loaded.value.1.contents.value, EMPTY_DIR);
       restored.ok && Mirrors(t, restored.dir, true)
  }

  /** If every session that completes writes the state file of some output path,
      then at any point of any run a visible state file reloads as an output
      path that an earlier session of the same output base has saved. */
  lemma ReloadsWhatWasSaved(ids: set<Name>, run: seq<World>, k: nat, id: Name, policy: Policy, limit: Int64)
    requires Separated(ids) && IsRun(ids, run) && k < |run| && id in ids
    requires forall image :: Written(ids, run, k, id, image) ==>
               exists t, time :: IsStateFileOf(policy, limit, t, time, image)
    ensures Visible(run[k], id) == None ||
            exists t, time ::
              && IsStateFileOf(policy, limit, t, time, Visible(run[k], id).value)
              && Written(ids, run, k, id, Visible(run[k], id).value)
              && Reloads(policy, limit, t, time, Visible(run[k], id).value)
  {
    OldOrNew(ids, run, k, id);
    if Visible(run[k], id).Some? {
      var image := Visible(run[k], id).value;
      var t, time :| IsStateFileOf(policy, limit, t, time, image);
      ReloadedPathMirrors(policy, t, time, limit, image);
      assert Reloads(policy, limit, t, time, image);
    }
  }
}
