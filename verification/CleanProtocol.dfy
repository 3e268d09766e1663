/** Cleaning an output path while builds of the same output base go on. Clean holds
    the lock only to look up the output path and, later on, to deregister it. What
    it does in between interleaves with anything, one step at a time. */
module CleanProtocol {
  import opened Wrappers
  import opened ByteStrings

  /** The files inside an output path. */
  type Contents = set<Bytes>

  /** An output path object. Once sealed, nothing can be added to it. It is filled
      if files were restored into it or written to it since it was last emptied,
      and that carries over to what is saved of it. */
  datatype Object = Object(contents: Contents, sealed: bool, filled: bool)

  /** A save in progress, which holds the lock of the registry, and all that the
      output path contained at some point since it began. */
  datatype Save = Save(root: nat, seen: Contents, filled: bool)

  datatype File = File(contents: Contents, filled: bool)

  datatype Phase = LookedUp | Cleared | StateRemoved | TemporaryRemoved

  /** A call to Clean: the object that it looked up, if there was one, how many
      objects there had been by then, whether a save began since, and whether the
      state file came back after it was removed. */
  datatype Session = Session(root: Option<nat>, phase: Phase, since: nat, saveBegan: bool, reappeared: bool)

  /** Everything that concerns one output base: all objects ever created for it,
      the one that is registered, its files in the store, and calls in progress. */
  datatype State = State(
    objects: seq<Object>,
    current: Option<nat>,
    stateFile: Option<File>,
    temporary: bool,
    save: Option<Save>,
    cleans: map<nat, Session>)

  const INITIAL := State([], None, None, false, None, map[])

  datatype Action =
    | StartBuild(restored: Contents)
    | Modify(root: nat, contents: Contents)
    | BeginSave
    | Rename(image: Contents)
    | EndSave
    | Lookup(call: nat)
    | Clear(call: nat)
    | FailToClear(call: nat, left: Contents)
    | RemoveState(call: nat)
    | RemoveTemporary(call: nat)
    | Finish(call: nat)
    | Fail(call: nat)
    | Restart

  predicate InPhase(s: State, call: nat, phase: Phase) {
    call in s.cleans && s.cleans[call].phase == phase
  }

  /** What is in the state file of an output base. */
  function Saved(s: State): Contents {
    if s.stateFile == None then {} else s.stateFile.value.contents
  }

  predicate Enabled(a: Action, s: State) {
    match a
    case StartBuild(restored) => s.save == None && restored <= Saved(s)
    case Modify(root, _) => root < |s.objects| && !s.objects[root].sealed
    case BeginSave => s.save == None && s.current.Some? && s.current.value < |s.objects|
    case Rename(image) => s.save.Some? && s.temporary && image <= s.save.value.seen
    case EndSave => s.save.Some?
    case Lookup(call) => s.save == None && call !in s.cleans
    case Clear(call) => InPhase(s, call, LookedUp) && s.cleans[call].root.Some? && s.cleans[call].root.value < |s.objects|
    case FailToClear(call, left) =>
      && InPhase(s, call, LookedUp) && s.cleans[call].root.Some? && s.cleans[call].root.value < |s.objects|
      && left <= s.objects[s.cleans[call].root.value].contents
    case RemoveState(call) => InPhase(s, call, if call in s.cleans && s.cleans[call].root.Some? then Cleared else LookedUp)
    case RemoveTemporary(call) => InPhase(s, call, StateRemoved)
    case Finish(call) => InPhase(s, call, TemporaryRemoved) && (s.cleans[call].root.Some? ==> s.save == None)
    case Fail(call) => InPhase(s, call, LookedUp) || InPhase(s, call, Cleared) || InPhase(s, call, StateRemoved)
    case Restart => true
  }

  function SetContents(s: State, root: nat, o: Object): State
    requires root < |s.objects|
  {
    s.(objects := s.objects[root := o],
       save := if s.save.Some? && s.save.value.root == root
               then Some(Save(root, s.save.value.seen + o.contents, s.save.value.filled || o.filled)) else s.save)
  }

  function Advance(s: State, call: nat, phase: Phase): State
    requires call in s.cleans
  {
    s.(cleans := s.cleans[call := s.cleans[call].(phase := phase)])
  }

  function Ended(s: State, call: nat): State {
    s.(cleans := s.cleans - {call})
  }

  function SaveBegins(cleans: map<nat, Session>): map<nat, Session> {
    map c | c in cleans :: cleans[c].(saveBegan := true)
  }

  function Reappears(cleans: map<nat, Session>, present: bool): map<nat, Session> {
    map c | c in cleans :: cleans[c].(reappeared := present)
  }

  function Apply(a: Action, s: State): State
    requires Enabled(a, s)
  {
    match a
    case StartBuild(restored) =>
      if s.current.Some? then s
      else s.(objects := s.objects + [Object(restored, false, s.stateFile.Some? && s.stateFile.value.filled)],
              current := Some(|s.objects|))
    case Modify(root, contents) => SetContents(s, root, Object(contents, false, true))
    case BeginSave =>
      s.(temporary := true, save := Some(Save(s.current.value, s.objects[s.current.value].contents, s.objects[s.current.value].filled)),
         cleans := SaveBegins(s.cleans))
    case Rename(image) =>
      s.(stateFile := Some(File(image, s.save.value.filled)), temporary := false, cleans := Reappears(s.cleans, true))
    case EndSave => s.(save := None)
    case Lookup(call) =>
      s.(cleans := s.cleans[call := Session(s.current, LookedUp, |s.objects|, false, false)])
    case Clear(call) => Advance(SetContents(s, s.cleans[call].root.value, Object({}, true, false)), call, Cleared)
    case FailToClear(call, left) =>
      var root := s.cleans[call].root.value;
      Ended(SetContents(s, root, Object(left, true, s.objects[root].filled)), call)
    case RemoveState(call) =>
      Advance(s.(stateFile := None, cleans := Reappears(s.cleans, false)), call, StateRemoved)
    case RemoveTemporary(call) => Advance(s.(temporary := false), call, TemporaryRemoved)
    case Finish(call) =>
      Ended(s.(current := if s.current.Some? && s.current == s.cleans[call].root then None else s.current), call)
    case Fail(call) => Ended(s, call)
    case Restart => s.(current := None, save := None, cleans := map[])
  }

  // The invariant.

  predicate SaveOk(s: State) {
    && (s.current.Some? ==> s.current.value < |s.objects|)
    && (s.save.Some? ==>
          && s.current == Some(s.save.value.root)
          && s.objects[s.save.value.root].contents <= s.save.value.seen)
  }

  /** Whatever is not filled is empty. */
  predicate FilledOk(s: State) {
    && (forall i :: 0 <= i < |s.objects| && !s.objects[i].filled ==> s.objects[i].contents == {})
    && (s.save.Some? && !s.save.value.filled ==> s.save.value.seen == {})
    && (s.stateFile.Some? && !s.stateFile.value.filled ==> s.stateFile.value.contents == {})
  }

  predicate SessionOk(s: State, call: nat)
    requires call in s.cleans
  {
    var x := s.cleans[call];
    && x.since <= |s.objects|
    && (x.root.Some? ==> x.root.value < x.since)
    && (s.current.Some? ==> s.current == x.root || x.since <= s.current.value)
    && (s.save.Some? ==> x.saveBegan)
    && (x.reappeared ==> x.saveBegan)
    && (x.root.Some? && x.phase != LookedUp ==> s.objects[x.root.value] == Object({}, true, false))
    && (x.phase.StateRemoved? || x.phase.TemporaryRemoved? ==> (s.stateFile.Some? <==> x.reappeared))
    && (x.phase.TemporaryRemoved? && !x.saveBegan ==> !s.temporary)
  }

  ghost predicate Invariant(s: State) {
    SaveOk(s) && FilledOk(s) && forall c :: c in s.cleans ==> SessionOk(s, c)
  }

  lemma StepKeepsSave(a: Action, s: State)
    requires SaveOk(s) && Enabled(a, s)
    ensures SaveOk(Apply(a, s))
  {
  }

  lemma StepKeepsFilled(a: Action, s: State)
    requires SaveOk(s) && FilledOk(s) && Enabled(a, s)
    ensures FilledOk(Apply(a, s))
  {
  }

  lemma StepKeepsSession(a: Action, s: State, c: nat)
    requires SaveOk(s) && Enabled(a, s) && (c in s.cleans ==> SessionOk(s, c))
    requires c in Apply(a, s).cleans
    ensures SessionOk(Apply(a, s), c)
  {
  }

  lemma StepKeepsInvariant(a: Action, s: State)
    requires Invariant(s) && Enabled(a, s)
    ensures Invariant(Apply(a, s))
  {
    StepKeepsSave(a, s);
    StepKeepsFilled(a, s);
    forall c | c in Apply(a, s).cleans ensures SessionOk(Apply(a, s), c) {
      StepKeepsSession(a, s, c);
    }
  }

  // What a successful Clean leaves behind.

  /** Nothing registered, nothing stored, and nothing about to be. */
  predicate Quiet(s: State) {
    s.current == None && s.stateFile == None && s.save == None
  }

  /** At the moment that a Clean succeeds, only an object that was registered while
      it ran can still be registered, and there is a state file exactly if a save
      put it back after it was removed, which takes a save that began meanwhile. */
  lemma FinishOutcome(s: State, call: nat)
    requires Invariant(s) && Enabled(Finish(call), s)
    ensures var x, s' := s.cleans[call], Apply(Finish(call), s);
            && (s'.current.Some? ==> x.since <= s'.current.value)
            && (s'.stateFile.Some? <==> x.reappeared)
            && (x.reappeared || s'.temporary || s'.save.Some? ==> x.saveBegan)
            && (x.root.Some? ==> s'.objects[x.root.value] == Object({}, true, false))
            && (s'.current != s.current ==> s.current == x.root)
  {
    assert SessionOk(s, call);
  }

  /** No other object took the place of the one that was looked up, no save is
      going on, and none has put a state file back. */
  predicate Undisturbed(s: State, call: nat)
    requires call in s.cleans
  {
    && (s.current.Some? ==> s.current == s.cleans[call].root)
    && s.save == None
    && !s.cleans[call].reappeared
  }

  lemma UndisturbedCleanIsQuiet(s: State, call: nat)
    requires Invariant(s) && Enabled(Finish(call), s)
    ensures Undisturbed(s, call) <==> Quiet(Apply(Finish(call), s))
    ensures !s.cleans[call].saveBegan && |s.objects| == s.cleans[call].since ==> Undisturbed(s, call)
  {
    assert SessionOk(s, call);
  }

  lemma QuietLasts(a: Action, s: State)
    requires Quiet(s) && Enabled(a, s)
    ensures |Apply(a, s).objects| >= |s.objects|
    ensures |Apply(a, s).objects| == |s.objects| ==> Quiet(Apply(a, s))
  {
  }

  // Runs.

  /** Perform a number of actions in a row, if all of them are possible. */
  function Execute(s: State, actions: seq<Action>): Option<State> {
    if actions == [] then Some(s)
    else
      var t :- Execute(s, actions[..|actions| - 1]);
      if Enabled(actions[|actions| - 1], t) then Some(Apply(actions[|actions| - 1], t)) else None
  }

  /** The invariant holds throughout every run, with any number of saves, builds,
      restarts and concurrent calls to Clean. */
  lemma {:induction false} RunKeepsInvariant(s: State, actions: seq<Action>)
    requires Invariant(s)
    ensures Execute(s, actions).Some? ==> Invariant(Execute(s, actions).value)
  {
    if actions != [] {
      var n := |actions| - 1;
      RunKeepsInvariant(s, actions[..n]);
      if Execute(s, actions).Some? {
        StepKeepsInvariant(actions[n], Execute(s, actions[..n]).value);
      }
    }
  }

  lemma {:induction false} QuietPersists(s: State, actions: seq<Action>)
    requires Quiet(s) && Execute(s, actions).Some?
    ensures |Execute(s, actions).value.objects| >= |s.objects|
    ensures |Execute(s, actions).value.objects| == |s.objects| ==> Quiet(Execute(s, actions).value)
    decreases |actions|
  {
    if actions != [] {
      var n := |actions| - 1;
      QuietPersists(s, actions[..n]);
      var t := Execute(s, actions[..n]).value;
      if |Execute(s, actions).value.objects| == |s.objects| {
        ObjectsGrow(actions[n], t);
        QuietLasts(actions[n], t);
      } else {
        ObjectsGrow(actions[n], t);
      }
    }
  }

  lemma ObjectsGrow(a: Action, s: State)
    requires Enabled(a, s)
    ensures |Apply(a, s).objects| >= |s.objects|
  {
  }

  /** In every run, a Clean that was not disturbed makes the next build start with
      an empty output path, whether or not the output path was loaded and whatever
      else happens until that build starts. */
  lemma CleanedBuildStartsEmpty(before: seq<Action>, call: nat, between: seq<Action>, restored: Contents)
    requires Execute(INITIAL, before).Some?
    requires var s := Execute(INITIAL, before).value;
             && Enabled(Finish(call), s) && Undisturbed(s, call)
             && var end := Execute(Apply(Finish(call), s), between);
             && end.Some? && |end.value.objects| == |s.objects|
             && Enabled(StartBuild(restored), end.value)
    ensures var s := Execute(INITIAL, before).value;
            var t := Execute(Apply(Finish(call), s), between).value;
            var t' := Apply(StartBuild(restored), t);
            t'.current == Some(|t.objects|) && t'.objects == t.objects + [Object({}, false, false)]
  {
    var s := Execute(INITIAL, before).value;
    RunKeepsInvariant(INITIAL, before);
    UndisturbedCleanIsQuiet(s, call);
    QuietPersists(Apply(Finish(call), s), between);
    assert restored == {};
  }

  // What a schedule alone says about the next build.

  /** An action without the contents that it involves. */
  function Outline(a: Action): Action {
    match a
    case StartBuild(_) => StartBuild({})
    case Modify(root, _) => Modify(root, {})
    case Rename(_) => Rename({})
    case FailToClear(call, _) => FailToClear(call, {})
    case _ => a
  }

  /** Sequences of actions that differ in nothing but contents. */
  predicate SameSchedule(actions: seq<Action>, others: seq<Action>) {
    |actions| == |others| && forall i :: 0 <= i < |actions| ==> Outline(actions[i]) == Outline(others[i])
  }

  predicate SameShape(s: State, t: State) {
    && |s.objects| == |t.objects|
    && (forall i :: 0 <= i < |s.objects| ==> s.objects[i].sealed == t.objects[i].sealed && s.objects[i].filled == t.objects[i].filled)
    && (s.stateFile.Some? <==> t.stateFile.Some?)
    && (s.stateFile.Some? ==> s.stateFile.value.filled == t.stateFile.value.filled)
    && (s.save.Some? <==> t.save.Some?)
    && (s.save.Some? ==> s.save.value.root == t.save.value.root && s.save.value.filled == t.save.value.filled)
    && s.current == t.current && s.temporary == t.temporary && s.cleans == t.cleans
  }

  lemma StepKeepsShape(a: Action, b: Action, s: State, t: State)
    requires SameShape(s, t) && Outline(a) == Outline(b) && Enabled(a, s) && Enabled(b, t)
    ensures SameShape(Apply(a, s), Apply(b, t))
  {
  }

  /** Runs of the same schedule reach states of the same shape. */
  lemma {:induction false} ScheduleDeterminesShape(s: State, t: State, actions: seq<Action>, others: seq<Action>)
    requires SameShape(s, t) && SameSchedule(actions, others)
    requires Execute(s, actions).Some? && Execute(t, others).Some?
    ensures SameShape(Execute(s, actions).value, Execute(t, others).value)
    decreases |actions|
  {
    if actions != [] {
      var n := |actions| - 1;
      ScheduleDeterminesShape(s, t, actions[..n], others[..n]);
      StepKeepsShape(actions[n], others[n], Execute(s, actions[..n]).value, Execute(t, others[..n]).value);
    }
  }

  // The run of a schedule in which one file is wherever it can be.

  function Fill(filled: bool, file: Bytes): Contents {
    if filled then {file} else {}
  }

  predicate Full(s: State, file: Bytes) {
    && (forall i :: 0 <= i < |s.objects| ==> s.objects[i].contents == Fill(s.objects[i].filled, file))
    && (s.save.Some? ==> s.save.value.seen == Fill(s.save.value.filled, file))
    && (s.stateFile.Some? ==> s.stateFile.value.contents == Fill(s.stateFile.value.filled, file))
  }

  function Filled(a: Action, s: State, file: Bytes): Action {
    match a
    case StartBuild(_) => StartBuild(Saved(s))
    case Modify(root, _) => Modify(root, {file})
    case Rename(_) => Rename(if s.save.Some? then s.save.value.seen else {})
    case FailToClear(call, _) =>
      FailToClear(call, if call in s.cleans && s.cleans[call].root.Some? && s.cleans[call].root.value < |s.objects|
                        then s.objects[s.cleans[call].root.value].contents else {})
    case _ => a
  }

  lemma FilledIsEnabled(a: Action, s: State, t: State, file: Bytes)
    requires SameShape(s, t) && Enabled(a, s)
    ensures Enabled(Filled(a, t, file), t) && Outline(Filled(a, t, file)) == Outline(a)
  {
  }

  lemma FilledKeepsFull(a: Action, s: State, file: Bytes)
    requires Full(s, file) && Enabled(Filled(a, s, file), s)
    ensures Full(Apply(Filled(a, s, file), s), file)
  {
  }

  lemma {:induction false} FullestRun(s: State, actions: seq<Action>, file: Bytes) returns (others: seq<Action>)
    requires Full(s, file) && Execute(s, actions).Some?
    ensures SameSchedule(actions, others) && Execute(s, others).Some?
    ensures SameShape(Execute(s, actions).value, Execute(s, others).value)
    ensures Full(Execute(s, others).value, file)
    decreases |actions|
  {
    hide Enabled, Apply, Full, SameShape, Filled, Outline;
    if actions == [] {
      others := [];
      ShapeIsReflexive(s);
    } else {
      var n := |actions| - 1;
      var first := FullestRun(s, actions[..n], file);
      var t, u := Execute(s, actions[..n]).value, Execute(s, first).value;
      var b := Filled(actions[n], u, file);
      FilledIsEnabled(actions[n], t, u, file);
      FilledKeepsFull(actions[n], u, file);
      StepKeepsShape(actions[n], b, t, u);
      others := first + [b];
      assert others[..n] == first;
    }
  }

  lemma ShapeIsReflexive(s: State)
    ensures SameShape(s, s)
  {
  }

  /** What the next build gets to see, if whatever there is can be restored. */
  function NextBuild(s: State): Contents {
    if s.current.Some? && s.current.value < |s.objects| then s.objects[s.current.value].contents else Saved(s)
  }

  lemma NextBuildIsStarted(s: State)
    requires SaveOk(s) && s.save == None
    ensures Enabled(StartBuild(Saved(s)), s)
    ensures var s' := Apply(StartBuild(Saved(s)), s);
            s'.current.Some? && s'.current.value < |s'.objects| && s'.objects[s'.current.value].contents == NextBuild(s)
  {
  }

  /** Every run of a schedule makes the next build start empty. */
  ghost predicate AlwaysStartsEmpty(actions: seq<Action>) {
    forall others :: SameSchedule(actions, others) && Execute(INITIAL, others).Some? ==>
      NextBuild(Execute(INITIAL, others).value) == {}
  }

  predicate NextBuildMayHaveFiles(s: State) {
    if s.current.Some? && s.current.value < |s.objects| then s.objects[s.current.value].filled
    else s.stateFile.Some? && s.stateFile.value.filled
  }

  /** A schedule makes the next build start empty, whatever the contents involved,
      exactly if neither the registered object is filled nor, without one, the
      state file. */
  lemma StartsEmptyExactly(actions: seq<Action>)
    requires Execute(INITIAL, actions).Some?
    ensures AlwaysStartsEmpty(actions) <==> !NextBuildMayHaveFiles(Execute(INITIAL, actions).value)
  {
    hide Execute, Apply, Enabled, SameSchedule;
    var s := Execute(INITIAL, actions).value;
    var others := FullestRun(INITIAL, actions, []);
    if !NextBuildMayHaveFiles(s) {
      forall o | SameSchedule(actions, o) && Execute(INITIAL, o).Some? ensures NextBuild(Execute(INITIAL, o).value) == {} {
        ScheduleDeterminesShape(INITIAL, INITIAL, actions, o);
        RunKeepsInvariant(INITIAL, o);
      }
    } else {
      assert NextBuild(Execute(INITIAL, others).value) == {[]};
      assert [] in NextBuild(Execute(INITIAL, others).value);
    }
  }

  /** A Clean that is about to succeed in vain: another object was registered since
      it began and was filled, or a save that saw files put the state file back
      after it was removed. */
  predicate Exposed(s: State, call: nat)
    requires call in s.cleans
  {
    var x := s.cleans[call];
    if s.current.Some? && s.current != x.root then
      s.current.value < |s.objects| && x.since <= s.current.value && s.objects[s.current.value].filled
    else x.saveBegan && x.reappeared && s.stateFile.Some? && s.stateFile.value.filled
  }

  /** The schedules by which a successful Clean makes the next build start empty,
      whatever the contents involved, are exactly those that do not expose it. */
  lemma NextBuildIsEmptyExactly(before: seq<Action>, call: nat)
    requires Execute(INITIAL, before).Some? && Enabled(Finish(call), Execute(INITIAL, before).value)
    ensures AlwaysStartsEmpty(before + [Finish(call)]) <==> !Exposed(Execute(INITIAL, before).value, call)
  {
    var s := Execute(INITIAL, before).value;
    RunKeepsInvariant(INITIAL, before);
    assert SessionOk(s, call);
    var actions, s' := Perform(INITIAL, before, s, Finish(call));
    StartsEmptyExactly(actions);
  }

  // Both conditions are needed.

  lemma Perform(start: State, actions: seq<Action>, s: State, a: Action) returns (actions': seq<Action>, s': State)
    requires Execute(start, actions) == Some(s) && Enabled(a, s)
    ensures actions' == actions + [a]
    ensures s' == Apply(a, s) && Execute(start, actions') == Some(s')
  {
    actions', s' := actions + [a], Apply(a, s);
    assert actions'[..|actions|] == actions;
  }

  lemma Begin(start: State) returns (actions: seq<Action>)
    ensures Execute(start, actions) == Some(start)
  {
    actions := [];
  }

  // A loaded output path with one file.
  lemma Loaded(file: Bytes) returns (actions: seq<Action>, s: State)
    ensures Execute(INITIAL, actions) == Some(s)
    ensures s == State([Object({file}, false, true)], Some(0), None, false, None, map[])
  {
    hide Execute;
    s := INITIAL;
    actions := Begin(s);
    actions, s := Perform(INITIAL, actions, s, StartBuild({}));
    actions, s := Perform(INITIAL, actions, s, Modify(0, {file}));
  }

  // A Clean that has emptied the output path while it was being saved.
  lemma ClearedDuringSave(file: Bytes) returns (actions: seq<Action>, s: State)
    ensures Execute(INITIAL, actions) == Some(s)
    ensures s == State([Object({}, true, false)], Some(0), None, true, Some(Save(0, {file}, true)),
                       map[0 := Session(Some(0), Cleared, 1, true, false)])
  {
    hide Execute;
    actions, s := Loaded(file);
    actions, s := Perform(INITIAL, actions, s, Lookup(0));
    actions, s := Perform(INITIAL, actions, s, BeginSave);
    assert s.cleans == map[0 := Session(Some(0), LookedUp, 1, true, false)];
    actions, s := Perform(INITIAL, actions, s, Clear(0));
    assert s.save.value.seen == {file};
  }

  // What a save that publishes its file between the two removals leads to.
  lemma RemovedAroundRename(file: Bytes) returns (actions: seq<Action>, s: State)
    ensures Execute(INITIAL, actions) == Some(s)
    ensures s == State([Object({}, true, false)], Some(0), Some(File({file}, true)), false, None,
                       map[0 := Session(Some(0), TemporaryRemoved, 1, true, true)])
  {
    hide Execute;
    actions, s := ClearedDuringSave(file);
    actions, s := Perform(INITIAL, actions, s, RemoveState(0));
    assert s.cleans == map[0 := Session(Some(0), StateRemoved, 1, true, false)];
    actions, s := Perform(INITIAL, actions, s, Rename({file}));
    assert s.cleans == map[0 := Session(Some(0), StateRemoved, 1, true, true)];
    actions, s := Perform(INITIAL, actions, s, EndSave);
    actions, s := Perform(INITIAL, actions, s, RemoveTemporary(0));
  }

  /** A save that publishes its file between the two removals undoes a Clean. */
  lemma OverlappingSaveUndoesClean(file: Bytes) returns (actions: seq<Action>)
    ensures Execute(INITIAL, actions).Some?
    ensures var s := Execute(INITIAL, actions).value;
            && Enabled(Finish(0), s) && |s.objects| == s.cleans[0].since
            && var s' := Apply(Finish(0), s);
               s'.save == None && NextBuild(s') == {file}
  {
    hide Execute;
    var s;
    actions, s := RemovedAroundRename(file);
  }

  // A saved output path that is not loaded, and a Clean that found that.
  lemma FoundUnloaded(file: Bytes) returns (actions: seq<Action>, s: State)
    ensures Execute(INITIAL, actions) == Some(s)
    ensures s == State([Object({file}, false, true)], None, Some(File({file}, true)), false, None,
                       map[0 := Session(None, LookedUp, 1, false, false)])
  {
    hide Execute;
    actions, s := Loaded(file);
    actions, s := Perform(INITIAL, actions, s, BeginSave);
    actions, s := Perform(INITIAL, actions, s, Rename({file}));
    actions, s := Perform(INITIAL, actions, s, Restart);
    actions, s := Perform(INITIAL, actions, s, Lookup(0));
  }

  /** So does a build that starts in between, and that loads the output path only
      after Clean found that it was not loaded. */
  lemma OverlappingStartUndoesClean(file: Bytes) returns (actions: seq<Action>)
    ensures Execute(INITIAL, actions).Some?
    ensures var s := Execute(INITIAL, actions).value;
            && Enabled(Finish(0), s) && !s.cleans[0].saveBegan
            && var s' := Apply(Finish(0), s);
               s'.save == None && NextBuild(s') == {file}
  {
    hide Execute;
    var s;
    actions, s := FoundUnloaded(file);
    actions, s := Perform(INITIAL, actions, s, StartBuild({file}));
    actions, s := Perform(INITIAL, actions, s, RemoveState(0));
    assert s.cleans == map[0 := Session(None, StateRemoved, 1, false, false)];
    actions, s := Perform(INITIAL, actions, s, RemoveTemporary(0));
  }
}
