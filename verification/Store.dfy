/** The store of state files: a temporary file is written, synchronized, closed
    and renamed. Every call into the file system is one step of a state machine,
    any of them may fail, and the machine may crash between any two of them. */
module Store {
  import opened Wrappers
  import opened ByteStrings
  import opened OutputPathState

  type Name = Bytes

  function TemporaryName(outputBaseID: Name): Name {
    outputBaseID + Ascii(".tmp")
  }

  /** A file: its data, whether the data is known to be on disk, the output base
      ID it was created for, how often it was closed, and whether the process
      that opened it crashed. */
  datatype Inode = Inode(data: Bytes, synced: bool, owner: Name, closes: nat, lost: bool)

  /** How far a write session has come. Up to and including Aborting its file is
      still open. */
  datatype Phase = Opened | Finalized | Synced | Aborting | Closed | Removing

  datatype Session = Session(phase: Phase, inode: nat)

  /** The directory, the files it refers to, the sessions in progress, and the
      images that were completely written for each output base ID. */
  datatype World = World(
    files: map<Name, nat>,
    inodes: seq<Inode>,
    sessions: map<Name, Session>,
    images: set<(Name, Bytes)>)

  const EMPTY_WORLD := World(map[], [], map[], {})

  predicate IsOpen(p: Phase) {
    p.Opened? || p.Finalized? || p.Synced? || p.Aborting?
  }

  datatype Action =
    | RemoveStale(id: Name)
    | Create(id: Name)
    | Draft(id: Name, data: Bytes)
    | WriteAll(id: Name, data: Bytes)
    | FailWrite(id: Name, data: Bytes)
    | Abandon(id: Name)
    | Sync(id: Name)
    | FailSync(id: Name)
    | Close(id: Name)
    | FailClose(id: Name)
    | CloseAborted(id: Name)
    | Rename(id: Name)
    | FailRename(id: Name)
    | RemoveOwn(id: Name)
    | FailRemoveOwn(id: Name)
    | CleanState(id: Name)
    | CleanTemporary(id: Name)
    | Crash(garbage: seq<Bytes>)

  predicate InPhase(w: World, id: Name, phase: Phase) {
    id in w.sessions && w.sessions[id].phase == phase && w.sessions[id].inode < |w.inodes|
  }

  /** What the code and the file system require of a step. A temporary file is
      created exclusively, and a session is created only if there is none. */
  predicate Enabled(a: Action, w: World) {
    match a
    case RemoveStale(id) => id !in w.sessions
    case Create(id) => id !in w.sessions && TemporaryName(id) !in w.files
    case Draft(id, _) => InPhase(w, id, Opened)
    case WriteAll(id, _) => InPhase(w, id, Opened)
    case FailWrite(id, _) => InPhase(w, id, Opened)
    case Abandon(id) => InPhase(w, id, Opened)
    case Sync(id) => InPhase(w, id, Finalized)
    case FailSync(id) => InPhase(w, id, Finalized)
    case Close(id) => InPhase(w, id, Synced)
    case FailClose(id) => InPhase(w, id, Synced)
    case CloseAborted(id) => InPhase(w, id, Aborting)
    case Rename(id) => InPhase(w, id, Closed) && TemporaryName(id) in w.files
    case FailRename(id) => InPhase(w, id, Closed)
    case RemoveOwn(id) => InPhase(w, id, Removing)
    case FailRemoveOwn(id) => InPhase(w, id, Removing)
    case CleanState(_) => true
    case CleanTemporary(_) => true
    case Crash(garbage) => |garbage| == |w.inodes|
  }

  function Advance(w: World, id: Name, phase: Phase): World
    requires id in w.sessions
  {
    w.(sessions := w.sessions[id := w.sessions[id].(phase := phase)])
  }

  function SessionInode(w: World, id: Name): Inode
    requires id in w.sessions && w.sessions[id].inode < |w.inodes|
  {
    w.inodes[w.sessions[id].inode]
  }

  function Put(w: World, id: Name, inode: Inode): World
    requires id in w.sessions && w.sessions[id].inode < |w.inodes|
  {
    w.(inodes := w.inodes[w.sessions[id].inode := inode])
  }

  function PutData(w: World, id: Name, data: Bytes): World
    requires id in w.sessions && w.sessions[id].inode < |w.inodes|
  {
    Put(w, id, SessionInode(w, id).(data := data, synced := false))
  }

  function CountClose(w: World, id: Name): World
    requires id in w.sessions && w.sessions[id].inode < |w.inodes|
  {
    Put(w, id, SessionInode(w, id).(closes := SessionInode(w, id).closes + 1))
  }

  function Unlink(w: World, name: Name): World {
    w.(files := w.files - {name})
  }

  function End(w: World, id: Name): World {
    w.(sessions := w.sessions - {id})
  }

  function Apply(a: Action, w: World): World
    requires Enabled(a, w)
  {
    match a
    case RemoveStale(id) => Unlink(w, TemporaryName(id))
    case Create(id) =>
      w.(files := w.files[TemporaryName(id) := |w.inodes|],
         inodes := w.inodes + [Inode([], false, id, 0, false)],
         sessions := w.sessions[id := Session(Opened, |w.inodes|)])
    case Draft(id, data) => PutData(w, id, data)
    case WriteAll(id, data) =>
      Advance(PutData(w, id, data), id, Finalized).(images := w.images + {(id, data)})
    case FailWrite(id, data) => Advance(PutData(w, id, data), id, Aborting)
    case Abandon(id) => Advance(w, id, Aborting)
    case Sync(id) => Advance(Put(w, id, SessionInode(w, id).(synced := true)), id, Synced)
    case FailSync(id) => Advance(w, id, Aborting)
    case Close(id) => Advance(CountClose(w, id), id, Closed)
    case FailClose(id) => Advance(CountClose(w, id), id, Removing)
    case CloseAborted(id) => Advance(CountClose(w, id), id, Removing)
    case Rename(id) =>
      End(w.(files := (w.files - {TemporaryName(id)})[id := w.files[TemporaryName(id)]]), id)
    case FailRename(id) => Advance(w, id, Removing)
    case RemoveOwn(id) => End(Unlink(w, TemporaryName(id)), id)
    case FailRemoveOwn(id) => End(w, id)
    case CleanState(id) => Unlink(w, id)
    case CleanTemporary(id) => Unlink(w, TemporaryName(id))
    case Crash(garbage) =>
      // Whatever was not synchronized may read as anything afterwards.
      w.(sessions := map[],
         inodes := seq(|w.inodes|, i requires 0 <= i < |w.inodes| => AfterCrash(w.inodes[i], garbage[i])))
  }

  function AfterCrash(inode: Inode, garbage: Bytes): Inode {
    if inode.synced then inode.(lost := true) else inode.(data := garbage, lost := true)
  }

  /** What a reader finds under an output base ID. */
  function Visible(w: World, id: Name): Option<Bytes> {
    if id in w.files && w.files[id] < |w.inodes| then Some(w.inodes[w.files[id]].data) else None
  }

  /** No output base ID is the temporary name of another one. */
  predicate Separated(ids: set<Name>) {
    forall a, b :: a in ids && b in ids ==> a != TemporaryName(b)
  }

  predicate Concerns(a: Action, ids: set<Name>) {
    a.Crash? || a.id in ids
  }

  ghost predicate Step(ids: set<Name>, a: Action, w: World, w': World) {
    Concerns(a, ids) && Enabled(a, w) && w' == Apply(a, w)
  }

  // The invariant, per output base ID and per file.

  predicate SessionOk(w: World, id: Name) {
    id in w.sessions ==>
      var s := w.sessions[id];
      && s.inode < |w.inodes|
      && w.inodes[s.inode].owner == id && !w.inodes[s.inode].lost
      && (TemporaryName(id) in w.files ==> w.files[TemporaryName(id)] == s.inode)
      && (s.phase in {Finalized, Synced, Closed} ==> (id, w.inodes[s.inode].data) in w.images)
      && (s.phase in {Synced, Closed} ==> w.inodes[s.inode].synced)
  }

  /** A visible state file is on disk, complete, and not being written to. */
  predicate FileOk(w: World, id: Name) {
    id in w.files ==>
      && w.files[id] < |w.inodes|
      && w.inodes[w.files[id]].owner == id
      && w.inodes[w.files[id]].synced
      && (id, w.inodes[w.files[id]].data) in w.images
      && (id in w.sessions ==> w.sessions[id].inode != w.files[id])
  }

  /** The session that has file `i` open. */
  predicate HeldOpen(w: World, i: nat)
    requires i < |w.inodes|
  {
    var owner := w.inodes[i].owner;
    owner in w.sessions && w.sessions[owner].inode == i && IsOpen(w.sessions[owner].phase)
  }

  /** A file is closed exactly once, unless its session still has it open. */
  predicate ClosesOk(w: World, i: nat)
    requires i < |w.inodes|
  {
    !w.inodes[i].lost ==> w.inodes[i].closes == if HeldOpen(w, i) then 0 else 1
  }

  predicate Invariant(ids: set<Name>, w: World) {
    && (forall id :: id in w.sessions ==> id in ids)
    && (forall id :: id in ids ==> SessionOk(w, id))
    && (forall id :: id in ids ==> FileOk(w, id))
    && (forall i :: 0 <= i < |w.inodes| ==> ClosesOk(w, i))
  }

  lemma TemporaryNameInjective(a: Name, b: Name)
    ensures TemporaryName(a) == TemporaryName(b) ==> a == b
  {
    assert a == TemporaryName(a)[..|TemporaryName(a)| - 4];
    assert b == TemporaryName(b)[..|TemporaryName(b)| - 4];
  }

  predicate SameEntry(w: World, w': World, name: Name) {
    (name in w.files <==> name in w'.files) && (name in w.files ==> w.files[name] == w'.files[name])
  }

  // A step of one output base does not touch what belongs to another one.
  lemma OthersAreUnaffected(ids: set<Name>, a: Action, w: World, w': World, id: Name)
    requires Separated(ids) && Step(ids, a, w, w') && id in ids && !a.Crash? && a.id != id && SessionOk(w, a.id)
    ensures SameEntry(w, w', id) && SameEntry(w, w', TemporaryName(id))
    ensures id in w.sessions <==> id in w'.sessions
    ensures id in w.sessions ==> w.sessions[id] == w'.sessions[id]
    ensures |w.inodes| <= |w'.inodes| && w.images <= w'.images
    ensures forall i :: 0 <= i < |w.inodes| && w.inodes[i].owner == id ==> w'.inodes[i] == w.inodes[i]
  {
    TemporaryNameInjective(a.id, id);
    assert a.id != TemporaryName(id) && id != TemporaryName(a.id);
  }

  lemma OwnStepKeepsSession(a: Action, w: World, id: Name)
    requires SessionOk(w, id) && Enabled(a, w) && !a.Crash? && a.id == id
    requires id in w.files ==> FileOk(w, id)
    ensures SessionOk(Apply(a, w), id)
  {
    assert |TemporaryName(id)| == |id| + 4;
  }

  lemma StepKeepsSession(ids: set<Name>, a: Action, w: World, w': World, id: Name)
    requires Separated(ids) && Invariant(ids, w) && Step(ids, a, w, w') && id in ids
    ensures SessionOk(w', id)
  {
    assert SessionOk(w, id);
    if a.Crash? {
    } else if a.id != id {
      assert SessionOk(w, a.id);
      OthersAreUnaffected(ids, a, w, w', id);
    } else {
      hide Apply, SessionOk, Enabled;
      assert FileOk(w, id);
      OwnStepKeepsSession(a, w, id);
    }
  }

  lemma OwnStepKeepsFile(a: Action, w: World, id: Name)
    requires SessionOk(w, id) && FileOk(w, id) && Enabled(a, w) && !a.Crash? && a.id == id
    ensures FileOk(Apply(a, w), id)
  {
    assert |TemporaryName(id)| == |id| + 4;
  }

  lemma StepKeepsFile(ids: set<Name>, a: Action, w: World, w': World, id: Name)
    requires Separated(ids) && Invariant(ids, w) && Step(ids, a, w, w') && id in ids
    ensures FileOk(w', id)
  {
    assert FileOk(w, id) && SessionOk(w, id);
    if a.Crash? {
    } else if a.id != id {
      assert SessionOk(w, a.id);
      OthersAreUnaffected(ids, a, w, w', id);
    } else {
      hide Apply, SessionOk, FileOk, Enabled;
      OwnStepKeepsFile(a, w, id);
    }
  }

  // A step only ever touches the file of its own session.
  lemma StepTouchesOwnInode(a: Action, w: World, i: nat)
    requires Enabled(a, w) && !a.Crash? && i < |w.inodes|
    requires a.id in w.sessions ==> w.sessions[a.id].inode != i
    ensures |w.inodes| <= |Apply(a, w).inodes| && Apply(a, w).inodes[i] == w.inodes[i]
    ensures HeldOpen(Apply(a, w), i) == HeldOpen(w, i)
  {
  }

  lemma OwnStepKeepsCloses(a: Action, w: World, i: nat)
    requires !a.Crash? && SessionOk(w, a.id) && Enabled(a, w)
    requires i < |w.inodes| && ClosesOk(w, i) && a.id in w.sessions && w.sessions[a.id].inode == i
    ensures |w.inodes| <= |Apply(a, w).inodes| && ClosesOk(Apply(a, w), i)
  {
  }

  lemma StepKeepsCloses(ids: set<Name>, a: Action, w: World, w': World, i: nat)
    requires Invariant(ids, w) && Step(ids, a, w, w') && i < |w'.inodes|
    ensures ClosesOk(w', i)
  {
    if !a.Crash? && i < |w.inodes| {
      assert SessionOk(w, a.id) && ClosesOk(w, i);
      hide Apply, SessionOk, Enabled;
      if a.id in w.sessions && w.sessions[a.id].inode == i {
        OwnStepKeepsCloses(a, w, i);
      } else {
        StepTouchesOwnInode(a, w, i);
      }
    }
  }

  /** Every step keeps the invariant, whatever fails and wherever it crashes. */
  lemma StepKeepsInvariant(ids: set<Name>, a: Action, w: World, w': World)
    requires Separated(ids) && Invariant(ids, w) && Step(ids, a, w, w')
    ensures Invariant(ids, w')
  {
    forall id | id in ids ensures SessionOk(w', id) && FileOk(w', id) {
      StepKeepsSession(ids, a, w, w', id);
      StepKeepsFile(ids, a, w, w', id);
    }
    forall i | 0 <= i < |w'.inodes| ensures ClosesOk(w', i) {
      StepKeepsCloses(ids, a, w, w', i);
    }
  }

  // What steps can do to the state file that a reader sees.

  lemma OwnStepIsVisible(a: Action, w: World, id: Name)
    requires SessionOk(w, id) && FileOk(w, id) && Enabled(a, w) && !a.Crash? && a.id == id
    ensures Visible(Apply(a, w), id) ==
            if a.Rename? then Some(SessionInode(w, id).data)
            else if a.CleanState? then None
            else Visible(w, id)
  {
    assert |TemporaryName(id)| == |id| + 4;
  }

  /** Only a rename of its own temporary file, or cleaning it, changes what is
      visible under an output base ID. A rename shows the complete new image. */
  lemma OnlyRenameAndCleanAreVisible(ids: set<Name>, a: Action, w: World, w': World, id: Name)
    requires Separated(ids) && Invariant(ids, w) && Step(ids, a, w, w') && id in ids
    ensures Visible(w', id) ==
            if a == Rename(id) then Some(SessionInode(w, id).data)
            else if a == CleanState(id) then None
            else Visible(w, id)
  {
    assert FileOk(w, id) && SessionOk(w, id);
    if a.Crash? {
    } else if a.id != id {
      assert SessionOk(w, a.id);
      hide Apply;
      OthersAreUnaffected(ids, a, w, w', id);
    } else {
      hide Apply;
      OwnStepIsVisible(a, w, id);
    }
  }

  // Whole runs, from an empty directory, with any number of crashes.

  ghost predicate Next(ids: set<Name>, w: World, w': World) {
    exists a :: Step(ids, a, w, w')
  }

  ghost predicate IsRun(ids: set<Name>, run: seq<World>) {
    && run != [] && run[0] == EMPTY_WORLD
    && forall k :: 0 <= k < |run| - 1 ==> Next(ids, run[k], run[k + 1])
  }

  lemma {:induction false} RunKeepsInvariant(ids: set<Name>, run: seq<World>, k: nat)
    requires Separated(ids) && IsRun(ids, run) && k < |run|
    ensures Invariant(ids, run[k])
  {
    if k > 0 {
      RunKeepsInvariant(ids, run, k - 1);
      assert Next(ids, run[k - 1], run[k - 1 + 1]);
      var a :| Step(ids, a, run[k - 1], run[k]);
      StepKeepsInvariant(ids, a, run[k - 1], run[k]);
    }
  }

  /** An image was written completely at some earlier point of the run. */
  ghost predicate Written(ids: set<Name>, run: seq<World>, k: nat, id: Name, image: Bytes) {
    exists j :: 0 <= j < k < |run| && Step(ids, WriteAll(id, image), run[j], run[j + 1])
  }

  lemma OnlyWritingAddsImages(a: Action, w: World, id: Name, image: Bytes)
    requires Enabled(a, w) && (id, image) in Apply(a, w).images && (id, image) !in w.images
    ensures a == WriteAll(id, image)
  {
  }

  lemma WrittenEarlier(ids: set<Name>, run: seq<World>, k: nat, id: Name, image: Bytes)
    requires 0 < k < |run| && Written(ids, run, k - 1, id, image)
    ensures Written(ids, run, k, id, image)
  {
    hide Step;
    var j :| 0 <= j < k - 1 < |run| && Step(ids, WriteAll(id, image), run[j], run[j + 1]);
    assert 0 <= j < k < |run| && Step(ids, WriteAll(id, image), run[j], run[j + 1]);
  }

  lemma {:induction false} ImagesWereWritten(ids: set<Name>, run: seq<World>, k: nat, id: Name, image: Bytes)
    requires IsRun(ids, run) && k < |run| && (id, image) in run[k].images
    ensures Written(ids, run, k, id, image)
  {
    hide Apply, Enabled;
    assert Next(ids, run[k - 1], run[k - 1 + 1]);
    var a :| Step(ids, a, run[k - 1], run[k]);
    if (id, image) in run[k - 1].images {
      ImagesWereWritten(ids, run, k - 1, id, image);
      WrittenEarlier(ids, run, k, id, image);
    } else {
      OnlyWritingAddsImages(a, run[k - 1], id, image);
      assert Step(ids, WriteAll(id, image), run[k - 1], run[k - 1 + 1]);
    }
  }

  /** At every point of every run, the file named by an output base ID is absent
      or the complete image written by an earlier session of that ID. */
  lemma OldOrNew(ids: set<Name>, run: seq<World>, k: nat, id: Name)
    requires Separated(ids) && IsRun(ids, run) && k < |run| && id in ids
    ensures Visible(run[k], id) == None || Written(ids, run, k, id, Visible(run[k], id).value)
  {
    RunKeepsInvariant(ids, run, k);
    assert FileOk(run[k], id);
    if Visible(run[k], id).Some? {
      ImagesWereWritten(ids, run, k, id, Visible(run[k], id).value);
    }
  }

  /** At every point of every run, a temporary file whose session has ended was
      closed exactly once, and one whose session has it open was not closed. */
  lemma ClosedExactlyOnce(ids: set<Name>, run: seq<World>, k: nat, i: nat)
    requires Separated(ids) && IsRun(ids, run) && k < |run| && i < |run[k].inodes| && !run[k].inodes[i].lost
    ensures run[k].inodes[i].closes == if HeldOpen(run[k], i) then 0 else 1
  {
    RunKeepsInvariant(ids, run, k);
    assert ClosesOk(run[k], i);
  }

  /** The assumption on names is exactly what is needed: without it, the temporary
      file of one output base becomes the state file of another. */
  lemma SeparationIsExact(ids: set<Name>)
    ensures Separated(ids) <==>
            forall w, w', id | Invariant(ids, w) && Next(ids, w, w') && id in ids :: FileOk(w', id)
  {
    if Separated(ids) {
      forall w, w', id | Invariant(ids, w) && Next(ids, w, w') && id in ids ensures FileOk(w', id) {
        var a :| Step(ids, a, w, w');
        StepKeepsFile(ids, a, w, w', id);
      }
    } else {
      var y, x :| y in ids && x in ids && y == TemporaryName(x);
      NamesMustBeSeparated(ids, x);
    }
  }

  lemma NamesMustBeSeparated(ids: set<Name>, x: Name)
    requires x in ids && TemporaryName(x) in ids
    ensures exists w, w' :: Next(ids, w, w') && Invariant(ids, w) && !FileOk(w', TemporaryName(x))
  {
    var y := TemporaryName(x);
    assert |y| == |x| + 4;
    var w := EMPTY_WORLD;
    var w' := Apply(Create(x), w);
    assert Step(ids, Create(x), w, w');
    assert !w'.inodes[w'.files[y]].synced;
    assert Next(ids, w, w') && Invariant(ids, w) && !FileOk(w', y);
  }

  // The operations, as sequences of steps.

  /** A run that ends in `w`, with the guarantees that come with that. */
  ghost predicate Reached(ids: set<Name>, run: seq<World>, w: World) {
    Separated(ids) && IsRun(ids, run) && run[|run| - 1] == w && Invariant(ids, w)
  }

  lemma ReachesFurther(ids: set<Name>, run: seq<World>, w: World, a: Action)
    requires Reached(ids, run, w) && !a.Crash? && a.id in ids && Enabled(a, w)
    ensures Reached(ids, run + [Apply(a, w)], Apply(a, w))
    ensures Visible(Apply(a, w), a.id) ==
            if a.Rename? then Some(SessionInode(w, a.id).data)
            else if a.CleanState? then None
            else Visible(w, a.id)
  {
    var w' := Apply(a, w);
    assert Step(ids, a, w, w');
    StepKeepsInvariant(ids, a, w, w');
    OnlyRenameAndCleanAreVisible(ids, a, w, w', a.id);
    RunExtends(ids, run, w');
  }

  lemma RunExtends(ids: set<Name>, run: seq<World>, w: World)
    requires IsRun(ids, run) && Next(ids, run[|run| - 1], w)
    ensures IsRun(ids, run + [w])
  {
    var run' := run + [w];
    forall k | 0 <= k < |run'| - 1 ensures Next(ids, run'[k], run'[k + 1]) {
      if k < |run| - 1 {
        assert Next(ids, run[k], run[k + 1]);
      }
    }
  }

  // What a session in a given phase looks like, and that its file is not closed yet.
  lemma SessionIsSound(ids: set<Name>, run: seq<World>, w: World, id: Name)
    requires Reached(ids, run, w) && id in w.sessions
    ensures w.sessions[id].inode < |w.inodes|
    ensures SessionInode(w, id).closes == if IsOpen(w.sessions[id].phase) then 0 else 1
    ensures TemporaryName(id) in w.files ==> w.files[TemporaryName(id)] == w.sessions[id].inode
  {
    assert SessionOk(w, id);
    assert ClosesOk(w, w.sessions[id].inode);
  }

  /** The store, over a directory whose every operation may fail, unless it is
      reliable. A directory that removes reliably may fail at anything else. */
  class DirectoryBackedStore {
    const reliable: bool
    const removesReliably: bool
    ghost const ids: set<Name>
    var world: World
    ghost var run: seq<World>

    ghost predicate Valid()
      reads this
    {
      Reached(ids, run, world)
    }

    /** Readers saw the same under `id` in the worlds from one index up to another. */
    ghost predicate Steady(from: nat, to: nat, id: Name, seen: Option<Bytes>)
      reads this
    {
      to <= |run| && forall k :: from <= k < to ==> Visible(run[k], id) == seen
    }

    /** Since a given moment, readers saw under `id` nothing but `before` up to one
        point, and nothing but `after` from that point on. */
    ghost predicate Switched(since: nat, point: nat, id: Name, before: Option<Bytes>, after: Option<Bytes>)
      reads this
    {
      since <= point <= |run| && Steady(since, point, id, before) && Steady(point, |run|, id, after)
    }

    constructor (ghost ids: set<Name>, reliable: bool, removesReliably: bool)
      requires Separated(ids)
      ensures Valid() && this.ids == ids && world == EMPTY_WORLD
      ensures this.reliable == reliable && this.removesReliably == removesReliably
    {
      this.ids, this.reliable, this.removesReliably := ids, reliable, removesReliably;
      world := EMPTY_WORLD;
      run := [EMPTY_WORLD];
    }

    /** Whether an operation of the directory succeeds. */
    method Attempt() returns (ok: bool)
      ensures reliable ==> ok
    {
      ok := *;
      ok := ok || reliable;
    }

    method AttemptRemoval() returns (ok: bool)
      ensures reliable || removesReliably ==> ok
    {
      ok := *;
      ok := ok || reliable || removesReliably;
    }

    /** Perform one step. */
    method Do(a: Action)
      requires Valid() && !a.Crash? && a.id in ids && Enabled(a, world)
      modifies this
      ensures Valid() && world == Apply(a, old(world)) && run == old(run) + [world]
      ensures Visible(world, a.id) ==
              if a.Rename? then Some(SessionInode(old(world), a.id).data)
              else if a.CleanState? then None
              else Visible(old(world), a.id)
    {
      ReachesFurther(ids, run, world, a);
      world := Apply(a, world);
      run := run + [world];
    }

    /** Remove what an earlier session left behind, then create the temporary file. */
    method Write(id: Name) returns (ok: bool)
      requires Valid() && id in ids && id !in world.sessions
      modifies this
      ensures Valid() && old(run) <= run
      ensures if ok then InPhase(world, id, Opened) && TemporaryName(id) in world.files else id !in world.sessions
      ensures reliable ==> ok
      ensures Steady(|old(run)|, |run|, id, Visible(old(world), id))
      ensures Visible(world, id) == Visible(old(world), id)
    {
      hide Reached;
      ok := AttemptRemoval();
      if ok {
        Do(RemoveStale(id));
        ok := Attempt();
        if ok {
          Do(Create(id));
        }
      }
    }

    /** Close and remove the temporary file of a session that cannot go on. */
    method Discard(id: Name)
      requires Valid() && id in ids && InPhase(world, id, Aborting)
      modifies this
      ensures Valid() && old(run) <= run && id !in world.sessions
      ensures Steady(|old(run)|, |run|, id, Visible(old(world), id))
      ensures Visible(world, id) == Visible(old(world), id)
      ensures reliable || removesReliably ==> TemporaryName(id) !in world.files
      ensures Closed(old(world), id)
    {
      hide Reached;
      SessionIsSound(ids, run, world, id);
      Do(CloseAborted(id));
      RemoveTemporary(id);
    }

    /** The file of the session that `id` had in `before` was closed once. */
    ghost predicate Closed(before: World, id: Name)
      requires id in before.sessions
      reads this
    {
      var i := before.sessions[id].inode;
      i < |world.inodes| && world.inodes[i].closes == 1
    }

    method RemoveTemporary(id: Name)
      requires Valid() && id in ids && InPhase(world, id, Removing)
      modifies this
      ensures Valid() && old(run) <= run && id !in world.sessions
      ensures world.inodes == old(world.inodes)
      ensures Steady(|old(run)|, |run|, id, Visible(old(world), id))
      ensures Visible(world, id) == Visible(old(world), id)
      ensures reliable || removesReliably ==> TemporaryName(id) !in world.files
    {
      hide Reached;
      var removed := AttemptRemoval();
      if removed {
        Do(RemoveOwn(id));
      } else {
        Do(FailRemoveOwn(id));
      }
    }

    /** Abandon a session. */
    method Close(id: Name)
      requires Valid() && id in ids && InPhase(world, id, Opened)
      modifies this
      ensures Valid() && old(run) <= run && id !in world.sessions
      ensures Steady(|old(run)|, |run|, id, Visible(old(world), id))
      ensures Visible(world, id) == Visible(old(world), id)
      ensures reliable || removesReliably ==> TemporaryName(id) !in world.files
      ensures Closed(old(world), id)
    {
      hide Reached;
      Do(Abandon(id));
      Discard(id);
    }

    /** Write the complete image and make it the visible state file. Readers see
        the previous file until the rename and the new one from then on, and a
        failure leaves the previous file in place. The session always ends. */
    method Finalize(id: Name, image: Bytes) returns (ok: bool)
      requires Valid() && id in ids && InPhase(world, id, Opened)
      modifies this
      ensures Valid() && old(run) <= run && id !in world.sessions
      ensures Switched(|old(run)|, if ok then |run| - 1 else |run|, id, Visible(old(world), id), Some(image))
      ensures Visible(world, id) == if ok then Some(image) else Visible(old(world), id)
      ensures reliable ==> (ok <==> TemporaryName(id) in old(world.files))
      ensures ok || reliable || removesReliably ==> TemporaryName(id) !in world.files
      ensures Closed(old(world), id)
    {
      hide Reached;
      ok := Attempt();
      if !ok {
        var garbage: Bytes := *;
        Do(FailWrite(id, garbage));
        Discard(id);
        return;
      }
      Do(WriteAll(id, image));
      ok := Synchronize(id, image);
    }

    method Synchronize(id: Name, image: Bytes) returns (ok: bool)
      requires Valid() && id in ids && InPhase(world, id, Finalized) && SessionInode(world, id).data == image
      modifies this
      ensures Valid() && old(run) <= run && id !in world.sessions
      ensures Switched(|old(run)|, if ok then |run| - 1 else |run|, id, Visible(old(world), id), Some(image))
      ensures Visible(world, id) == if ok then Some(image) else Visible(old(world), id)
      ensures reliable ==> (ok <==> TemporaryName(id) in old(world.files))
      ensures ok || reliable || removesReliably ==> TemporaryName(id) !in world.files
      ensures Closed(old(world), id)
    {
      hide Reached;
      ok := Attempt();
      if !ok {
        Do(FailSync(id));
        Discard(id);
        return;
      }
      Do(Sync(id));
      ok := Publish(id, image);
    }

    method Publish(id: Name, image: Bytes) returns (ok: bool)
      requires Valid() && id in ids && InPhase(world, id, Synced) && SessionInode(world, id).data == image
      modifies this
      ensures Valid() && old(run) <= run && id !in world.sessions
      ensures Switched(|old(run)|, if ok then |run| - 1 else |run|, id, Visible(old(world), id), Some(image))
      ensures Visible(world, id) == if ok then Some(image) else Visible(old(world), id)
      ensures reliable ==> (ok <==> TemporaryName(id) in old(world.files))
      ensures ok || reliable || removesReliably ==> TemporaryName(id) !in world.files
      ensures Closed(old(world), id)
    {
      hide Reached;
      SessionIsSound(ids, run, world, id);
      ok := Attempt();
      if !ok {
        Do(FailClose(id));
        RemoveTemporary(id);
        return;
      }
      Do(Action.Close(id));
      ok := RenameIntoPlace(id, image);
    }

    method RenameIntoPlace(id: Name, image: Bytes) returns (ok: bool)
      requires Valid() && id in ids && InPhase(world, id, Phase.Closed) && SessionInode(world, id).data == image
      modifies this
      ensures Valid() && old(run) <= run && id !in world.sessions
      ensures world.inodes == old(world.inodes)
      ensures Switched(|old(run)|, if ok then |run| - 1 else |run|, id, Visible(old(world), id), Some(image))
      ensures Visible(world, id) == if ok then Some(image) else Visible(old(world), id)
      ensures reliable ==> (ok <==> TemporaryName(id) in old(world.files))
      ensures ok || reliable || removesReliably ==> TemporaryName(id) !in world.files
    {
      hide Reached;
      ok := Attempt();
      if ok && TemporaryName(id) in world.files {
        Do(Rename(id));
      } else {
        ok := false;
        Do(FailRename(id));
        RemoveTemporary(id);
      }
    }

    /** Remove the state file, then the temporary file. From the first step on,
        readers find nothing. */
    method Clean(id: Name) returns (ok: bool)
      requires Valid() && id in ids
      modifies this
      ensures Valid() && old(run) <= run && world.sessions == old(world.sessions)
      ensures Steady(|old(run)|, |run|, id, None)
      ensures ok ==> Visible(world, id) == None && TemporaryName(id) !in world.files
      ensures reliable || removesReliably ==> ok
    {
      hide Reached;
      ok := AttemptRemoval();
      if ok {
        Do(CleanState(id));
        ok := AttemptRemoval();
        if ok {
          Do(CleanTemporary(id));
        }
      }
    }
  }
}
