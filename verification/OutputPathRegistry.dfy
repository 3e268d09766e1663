/** The registry of output paths as it lives on the heap: two maps and a circular
    doubly linked list that change together. Every method is one lock-held
    section, proved to act on the registry's value as OutputPathViews says. */
module OutputPathRegistry {
  import opened Wrappers
  import opened ByteStrings
  import opened OutputPathViews

  class OutputPathState {
    var buildState: Option<BuildState>
    var previous: OutputPathState
    var next: OutputPathState
    const cookie: nat
    const outputBaseID: Name

    /** The element that closes the circle. */
    constructor Sentinel()
      ensures previous == this && next == this && buildState == None
    {
      buildState, previous, next, cookie, outputBaseID := None, this, this, 0, [];
    }

    constructor (previous: OutputPathState, next: OutputPathState, cookie: nat, outputBaseID: Name)
      ensures this.previous == previous && this.next == next && buildState == None
      ensures this.cookie == cookie && this.outputBaseID == outputBaseID
    {
      this.previous, this.next, this.cookie, this.outputBaseID := previous, next, cookie, outputBaseID;
      buildState := None;
    }
  }

  /** What the fields of an element hold. */
  datatype Fields = Fields(previous: OutputPathState, next: OutputPathState, buildState: Option<BuildState>)

  type Heap = map<OutputPathState, Fields>

  /** All of the registry at one moment: the elements behind the sentinel with
      their positions, the fields of all elements, every element ever listed by
      its cookie, and the fields of the registry itself. */
  datatype Snapshot = Snapshot(
    sentinel: OutputPathState,
    list: seq<OutputPathState>,
    position: map<OutputPathState, nat>,
    heap: Heap,
    known: map<nat, OutputPathState>,
    changeID: nat,
    bases: map<Name, OutputPathState>,
    builds: map<Bytes, OutputPathState>)

  type Positions = map<OutputPathState, nat>

  predicate Indexed(list: seq<OutputPathState>, position: Positions) {
    && (forall i :: 0 <= i < |list| ==> list[i] in position && position[list[i]] == i)
    && (forall s :: s in position ==> position[s] < |list| && list[position[s]] == s)
  }

  /** The element at an index of the circle that is closed by the sentinel. */
  function At(sentinel: OutputPathState, list: seq<OutputPathState>, i: int): OutputPathState {
    if 0 <= i < |list| then list[i] else sentinel
  }

  /** The links between the element at an index and the one before it. */
  predicate JoinedAt(sentinel: OutputPathState, list: seq<OutputPathState>, heap: Heap, i: int) {
    var a, b := At(sentinel, list, i - 1), At(sentinel, list, i);
    a in heap && b in heap && heap[a].next == b && heap[b].previous == a
  }

  predicate Circular(sentinel: OutputPathState, list: seq<OutputPathState>, heap: Heap) {
    forall i :: 0 <= i <= |list| ==> JoinedAt(sentinel, list, heap, i)
  }

  /** Cookies tell all elements apart that were ever listed. */
  predicate CookiesAgree(position: Positions, known: map<nat, OutputPathState>, changeID: nat) {
    && (forall s :: s in position ==> s.cookie in known && known[s.cookie] == s)
    && (forall c :: c in known ==> c < changeID)
  }

  /** The map of output bases holds exactly the elements of the list. */
  predicate BasesAgree(position: Positions, bases: map<Name, OutputPathState>) {
    && (forall s :: s in position ==> s.outputBaseID in bases && bases[s.outputBaseID] == s)
    && (forall id :: id in bases ==> bases[id] in position && bases[id].outputBaseID == id)
  }

  predicate Executes(heap: Heap, s: OutputPathState, buildID: Bytes) {
    s in heap && heap[s].buildState.Some? && heap[s].buildState.value.id == buildID
  }

  /** The map of builds holds exactly the elements that run a build. */
  predicate BuildsAgree(position: Positions, heap: Heap, builds: map<Bytes, OutputPathState>) {
    && (forall s :: s in position ==> s in heap)
    && (forall s :: s in position && heap[s].buildState.Some? ==>
          heap[s].buildState.value.id in builds && builds[heap[s].buildState.value.id] == s)
    && (forall b :: b in builds ==> builds[b] in position && Executes(heap, builds[b], b))
  }

  predicate Consistent(m: Snapshot) {
    && m.sentinel !in m.position
    && Indexed(m.list, m.position)
    && Circular(m.sentinel, m.list, m.heap)
    && CookiesAgree(m.position, m.known, m.changeID)
    && BasesAgree(m.position, m.bases)
    && BuildsAgree(m.position, m.heap, m.builds)
  }

  /** The entries that a sequence of elements stands for. */
  function Entries(list: seq<OutputPathState>, heap: Heap): (es: seq<Entry>)
    ensures |es| == |list|
    ensures forall i :: 0 <= i < |list| ==> es[i].cookie == list[i].cookie && es[i].outputBaseID == list[i].outputBaseID
    ensures forall i :: 0 <= i < |list| && list[i] in heap ==> es[i].buildState == heap[list[i]].buildState
  {
    seq(|list|, i requires 0 <= i < |list| =>
      Entry(list[i].cookie, list[i].outputBaseID, if list[i] in heap then heap[list[i]].buildState else None))
  }

  /** The value of the registry. */
  function Value(m: Snapshot): View {
    View(m.changeID, Entries(m.list, m.heap))
  }

  // The maps find exactly what a search of the list finds.

  lemma BaseLookup(m: Snapshot, id: Name)
    requires Consistent(m)
    ensures var i := FindBase(Value(m).entries, id);
            && (id in m.bases <==> i < |m.list|)
            && (i < |m.list| ==> m.list[i] == m.bases[id])
  {
    var es := Value(m).entries;
    if id in m.bases {
      assert es[m.position[m.bases[id]]].outputBaseID == id;
    }
  }

  lemma BuildLookup(m: Snapshot, id: Bytes)
    requires Consistent(m)
    ensures var i := FindBuild(Value(m).entries, id);
            && (id in m.builds <==> i < |m.list|)
            && (i < |m.list| ==> m.list[i] == m.builds[id] && Executes(m.heap, m.list[i], id))
  {
    var es := Value(m).entries;
    if id in m.builds {
      assert Runs(es[m.position[m.builds[id]]], id);
    }
  }

  // Updates that keep all parts in agreement.

  function WithBuild(h: Heap, s: OutputPathState, b: Option<BuildState>): Heap {
    if s in h then h[s := h[s].(buildState := b)] else h
  }

  function WithNext(h: Heap, s: OutputPathState, next: OutputPathState): Heap {
    if s in h then h[s := h[s].(next := next)] else h
  }

  function WithPrevious(h: Heap, s: OutputPathState, previous: OutputPathState): Heap {
    if s in h then h[s := h[s].(previous := previous)] else h
  }

  lemma BuildsDoNotMatterToLinks(sentinel: OutputPathState, list: seq<OutputPathState>, heap: Heap,
                                 s: OutputPathState, b: Option<BuildState>)
    requires Circular(sentinel, list, heap)
    ensures Circular(sentinel, list, WithBuild(heap, s, b))
  {
    forall k | 0 <= k <= |list| ensures JoinedAt(sentinel, list, WithBuild(heap, s, b), k) {
      assert JoinedAt(sentinel, list, heap, k);
    }
  }

  /** No build runs in an element any longer. */
  function Cleared(m: Snapshot, s: OutputPathState): Snapshot {
    m.(heap := WithBuild(m.heap, s, None),
       builds := if s in m.heap && m.heap[s].buildState.Some? then m.builds - {m.heap[s].buildState.value.id} else m.builds)
  }

  lemma ClearIsConsistent(m: Snapshot, i: nat)
    requires Consistent(m) && i < |m.list|
    ensures Consistent(Cleared(m, m.list[i]))
    ensures Value(Cleared(m, m.list[i])) == SetBuild(Value(m), i, None)
  {
    assert m.list[i] in m.position;
    BuildsDoNotMatterToLinks(m.sentinel, m.list, m.heap, m.list[i], None);
    assert BuildsAgree(m.position, Cleared(m, m.list[i]).heap, Cleared(m, m.list[i]).builds);
    SetsOneEntry(m.list, m.position, m.heap, i, None);
  }

  lemma SetsOneEntry(list: seq<OutputPathState>, position: Positions, heap: Heap, i: nat, b: Option<BuildState>)
    requires Indexed(list, position) && i < |list| && list[i] in heap
    ensures var es := Entries(list, heap);
            Entries(list, WithBuild(heap, list[i], b)) == es[i := es[i].(buildState := b)]
  {
    assert forall k :: 0 <= k < |list| ==> position[list[k]] == k;
  }

  /** A build that was not running runs in an element. */
  function Bound(m: Snapshot, s: OutputPathState, build: BuildState): Snapshot {
    m.(heap := WithBuild(m.heap, s, Some(build)), builds := m.builds[build.id := s])
  }

  lemma BindIsConsistent(m: Snapshot, i: nat, build: BuildState)
    requires Consistent(m) && i < |m.list| && build.id !in m.builds
    requires m.list[i] in m.heap && m.heap[m.list[i]].buildState == None
    ensures Consistent(Bound(m, m.list[i], build))
    ensures Value(Bound(m, m.list[i], build)) == SetBuild(Value(m), i, Some(build))
  {
    assert m.list[i] in m.position;
    BuildsDoNotMatterToLinks(m.sentinel, m.list, m.heap, m.list[i], Some(build));
    assert BuildsAgree(m.position, Bound(m, m.list[i], build).heap, Bound(m, m.list[i], build).builds);
    SetsOneEntry(m.list, m.position, m.heap, i, Some(build));
  }

  /** The fields once `s` is linked between the last element and the sentinel. */
  function LinkedLast(sentinel: OutputPathState, heap: Heap, s: OutputPathState): Heap
    requires sentinel in heap
  {
    var last := heap[sentinel].previous;
    WithPrevious(WithNext(heap[s := Fields(last, sentinel, None)], last, s), sentinel, s)
  }

  lemma LinkLastIsCircular(sentinel: OutputPathState, list: seq<OutputPathState>, heap: Heap, s: OutputPathState)
    requires Circular(sentinel, list, heap) && sentinel in heap && s !in heap && sentinel !in list
    requires forall i :: 0 <= i < |list| ==> list[i] in heap
    ensures heap[sentinel].previous in heap
    ensures Circular(sentinel, list + [s], LinkedLast(sentinel, heap, s))
  {
    assert JoinedAt(sentinel, list, heap, |list|);
    forall i | 0 <= i <= |list| + 1 ensures JoinedAt(sentinel, list + [s], LinkedLast(sentinel, heap, s), i) {
      if i < |list| {
        assert JoinedAt(sentinel, list, heap, i);
      }
    }
  }

  lemma LinkLastKeepsBuilds(sentinel: OutputPathState, heap: Heap, s: OutputPathState)
    requires sentinel in heap && s !in heap
    ensures var heap' := LinkedLast(sentinel, heap, s);
            && heap'.Keys == heap.Keys + {s}
            && heap'[s].buildState == None
            && forall o :: o in heap ==> heap'[o].buildState == heap[o].buildState
  {
  }

  /** A new element at the end of the list. */
  function Inserted(m: Snapshot, s: OutputPathState): Snapshot
    requires m.sentinel in m.heap
  {
    Snapshot(m.sentinel, m.list + [s], m.position[s := |m.list|], LinkedLast(m.sentinel, m.heap, s),
             m.known[m.changeID := s], m.changeID + 1, m.bases[s.outputBaseID := s], m.builds)
  }

  lemma InsertIsConsistent(m: Snapshot, s: OutputPathState)
    requires Consistent(m) && m.sentinel in m.heap
    requires s !in m.heap && s.cookie == m.changeID && s.outputBaseID !in m.bases
    ensures Consistent(Inserted(m, s))
    ensures Value(Inserted(m, s)) ==
            View(m.changeID + 1, Value(m).entries + [Entry(m.changeID, s.outputBaseID, None)])
  {
    ListedAreOnHeap(m);
    LinkLastIsCircular(m.sentinel, m.list, m.heap, s);
    LinkLastKeepsBuilds(m.sentinel, m.heap, s);
    InsertAgrees(m.position, m.heap, m.builds, Inserted(m, s).heap, s, |m.list|);
    InsertIsIndexed(m.list, m.position, m.known, m.changeID, m.bases, s);
    InsertedValue(m.list, m.heap, Inserted(m, s).heap, s);
  }

  lemma InsertIsIndexed(list: seq<OutputPathState>, position: Positions, known: map<nat, OutputPathState>, changeID: nat,
                        bases: map<Name, OutputPathState>, s: OutputPathState)
    requires Indexed(list, position) && CookiesAgree(position, known, changeID) && BasesAgree(position, bases)
    requires s !in position && s.cookie == changeID && s.outputBaseID !in bases
    ensures Indexed(list + [s], position[s := |list|])
    ensures CookiesAgree(position[s := |list|], known[changeID := s], changeID + 1)
    ensures BasesAgree(position[s := |list|], bases[s.outputBaseID := s])
  {
  }

  lemma ListedAreOnHeap(m: Snapshot)
    requires Consistent(m)
    ensures forall i :: 0 <= i < |m.list| ==> m.list[i] in m.heap && m.list[i] != m.sentinel
  {
  }

  lemma InsertedValue(list: seq<OutputPathState>, heap: Heap, heap': Heap, s: OutputPathState)
    requires forall i :: 0 <= i < |list| ==> list[i] in heap
    requires s in heap' && heap'[s].buildState == None
    requires forall o :: o in heap ==> o in heap' && heap'[o].buildState == heap[o].buildState
    ensures Entries(list + [s], heap') == Entries(list, heap) + [Entry(s.cookie, s.outputBaseID, None)]
  {
  }

  lemma InsertAgrees(position: Positions, heap: Heap, builds: map<Bytes, OutputPathState>, heap': Heap, s: OutputPathState, n: nat)
    requires BuildsAgree(position, heap, builds) && s !in heap
    requires heap'.Keys == heap.Keys + {s} && heap'[s].buildState == None
    requires forall o :: o in heap ==> heap'[o].buildState == heap[o].buildState
    ensures BuildsAgree(position[s := n], heap', builds)
  {
  }

  function Without(position: Positions, i: nat): Positions {
    map s | s in position && position[s] != i :: if position[s] < i then position[s] else position[s] - 1
  }

  /** The fields once the links around `s` skip it. */
  function Unlinked(heap: Heap, s: OutputPathState): Heap
    requires s in heap
  {
    var f := heap[s];
    WithPrevious(WithNext(heap, f.previous, f.next), f.next, f.previous)
  }

  /** The element at an index is taken out of the list. */
  function Removed(m: Snapshot, i: nat): Snapshot
    requires i < |m.list| && m.list[i] in m.heap
  {
    m.(list := m.list[..i] + m.list[i + 1..], position := Without(m.position, i), heap := Unlinked(m.heap, m.list[i]),
       bases := m.bases - {m.list[i].outputBaseID}, changeID := m.changeID + 1)
  }

  lemma UnlinkIsCircular(sentinel: OutputPathState, list: seq<OutputPathState>, position: Positions, heap: Heap, i: nat)
    requires Circular(sentinel, list, heap) && Indexed(list, position) && sentinel !in position
    requires i < |list| && list[i] in heap
    ensures heap[list[i]].previous == At(sentinel, list, i - 1) && heap[list[i]].next == At(sentinel, list, i + 1)
    ensures At(sentinel, list, i - 1) in heap && At(sentinel, list, i + 1) in heap
    ensures Circular(sentinel, list[..i] + list[i + 1..], Unlinked(heap, list[i]))
  {
    assert JoinedAt(sentinel, list, heap, i) && JoinedAt(sentinel, list, heap, i + 1);
    var list', heap' := list[..i] + list[i + 1..], Unlinked(heap, list[i]);
    forall k | 0 <= k <= |list'| ensures JoinedAt(sentinel, list', heap', k) {
      if k < i {
        assert JoinedAt(sentinel, list, heap, k);
        UnlinkAffects(sentinel, list, position, heap, i, k);
      } else if k > i {
        assert JoinedAt(sentinel, list, heap, k + 1);
        UnlinkAffects(sentinel, list, position, heap, i, k + 1);
      }
    }
  }

  // Links away from the removed element stay as they are.
  lemma UnlinkAffects(sentinel: OutputPathState, list: seq<OutputPathState>, position: Positions, heap: Heap, i: nat, k: nat)
    requires Indexed(list, position) && sentinel !in position && i < |list| && k <= |list| && k != i && k != i + 1
    requires JoinedAt(sentinel, list, heap, i) && JoinedAt(sentinel, list, heap, i + 1) && JoinedAt(sentinel, list, heap, k)
    ensures JoinedAt(sentinel, list, Unlinked(heap, list[i]), k)
  {
    assert list[i] in position;
    assert k < |list| ==> list[k] in position;
    assert 0 < k ==> list[k - 1] in position;
    assert 0 < i ==> list[i - 1] in position;
    assert i + 1 < |list| ==> list[i + 1] in position;
  }

  lemma UnlinkKeepsBuilds(heap: Heap, s: OutputPathState)
    requires s in heap
    ensures Unlinked(heap, s).Keys == heap.Keys
    ensures forall o :: o in heap ==> Unlinked(heap, s)[o].buildState == heap[o].buildState
  {
  }

  lemma RemoveAgrees(list: seq<OutputPathState>, position: Positions, heap: Heap, heap': Heap,
                     bases: map<Name, OutputPathState>, builds: map<Bytes, OutputPathState>, i: nat)
    requires Indexed(list, position) && BasesAgree(position, bases) && BuildsAgree(position, heap, builds)
    requires i < |list| && list[i] in heap && heap[list[i]].buildState == None
    requires heap'.Keys == heap.Keys && forall o :: o in heap ==> heap'[o].buildState == heap[o].buildState
    ensures Indexed(list[..i] + list[i + 1..], Without(position, i))
    ensures BasesAgree(Without(position, i), bases - {list[i].outputBaseID})
    ensures BuildsAgree(Without(position, i), heap', builds)
  {
    assert list[i] in position;
  }

  lemma RemovedValue(list: seq<OutputPathState>, heap: Heap, heap': Heap, i: nat)
    requires i < |list| && forall k :: 0 <= k < |list| ==> list[k] in heap
    requires forall o :: o in heap ==> o in heap' && heap'[o].buildState == heap[o].buildState
    ensures Entries(list[..i] + list[i + 1..], heap') == Entries(list, heap)[..i] + Entries(list, heap)[i + 1..]
  {
  }

  lemma RemoveIsConsistent(m: Snapshot, i: nat)
    requires Consistent(m) && i < |m.list| && m.list[i] in m.heap && m.heap[m.list[i]].buildState == None
    ensures Consistent(Removed(m, i))
    ensures Value(Removed(m, i)) == View(m.changeID + 1, Value(m).entries[..i] + Value(m).entries[i + 1..])
  {
    ListedAreOnHeap(m);
    UnlinkIsCircular(m.sentinel, m.list, m.position, m.heap, i);
    UnlinkKeepsBuilds(m.heap, m.list[i]);
    RemoveAgrees(m.list, m.position, m.heap, Unlinked(m.heap, m.list[i]), m.bases, m.builds, i);
    RemovedValue(m.list, m.heap, Unlinked(m.heap, m.list[i]), i);
  }

  class BazelOutputServiceDirectory {
    var changeID: nat
    var outputBaseIDs: map<Name, OutputPathState>
    var buildIDs: map<Bytes, OutputPathState>
    const outputPaths: OutputPathState

    ghost var list: seq<OutputPathState>
    ghost var position: Positions
    ghost var heap: Heap
    ghost var known: map<nat, OutputPathState>

    ghost function Now(): Snapshot
      reads this
    {
      Snapshot(outputPaths, list, position, heap, known, changeID, outputBaseIDs, buildIDs)
    }

    /** Every element holds what is recorded for it. */
    ghost predicate Tied()
      reads this`heap, heap.Keys
    {
      && outputPaths in heap
      && forall s :: s in heap ==> Fields(s.previous, s.next, s.buildState) == heap[s]
    }

    /** All parts of the registry agree with one another. */
    ghost predicate Sound()
      reads this, heap.Keys
    {
      Tied() && Consistent(Now())
    }

    /** And its value is well-formed, which includes the order of the list. */
    ghost predicate Valid()
      reads this, heap.Keys
    {
      Sound() && WellFormed(Contents())
    }

    ghost function Contents(): View
      reads this
    {
      Value(Now())
    }

    constructor ()
      ensures Valid() && Contents() == EMPTY_VIEW && fresh(heap.Keys)
    {
      changeID := 0;
      outputBaseIDs, buildIDs := map[], map[];
      outputPaths := new OutputPathState.Sentinel();
      list, position, known := [], map[], map[];
      heap := map[outputPaths := Fields(outputPaths, outputPaths, None)];
    }

    // Writing a field of an element.

    method SetNext(s: OutputPathState, next: OutputPathState)
      requires Tied() && s in heap
      modifies this`heap, s`next
      ensures Tied() && heap == WithNext(old(heap), s, next) && heap.Keys == old(heap.Keys)
    {
      s.next := next;
      heap := WithNext(heap, s, next);
    }

    method SetPrevious(s: OutputPathState, previous: OutputPathState)
      requires Tied() && s in heap
      modifies this`heap, s`previous
      ensures Tied() && heap == WithPrevious(old(heap), s, previous) && heap.Keys == old(heap.Keys)
    {
      s.previous := previous;
      heap := WithPrevious(heap, s, previous);
    }

    method SetBuildState(s: OutputPathState, b: Option<BuildState>)
      requires Tied() && s in heap
      modifies this`heap, s`buildState
      ensures Tied() && heap == WithBuild(old(heap), s, b) && heap.Keys == old(heap.Keys)
    {
      s.buildState := b;
      heap := WithBuild(heap, s, b);
    }

    method NewElement(outputBaseID: Name) returns (s: OutputPathState)
      requires Tied()
      modifies this`heap
      ensures Tied() && fresh(s) && s !in old(heap)
      ensures heap == old(heap)[s := Fields(old(heap)[outputPaths].previous, outputPaths, None)]
      ensures s.cookie == changeID && s.outputBaseID == outputBaseID
    {
      s := new OutputPathState(outputPaths.previous, outputPaths, changeID, outputBaseID);
      heap := heap[s := Fields(s.previous, s.next, s.buildState)];
    }

    /** Make the neighbours of an element point to it. */
    method LinkNeighbours(s: OutputPathState)
      requires Tied() && s in heap && heap[s].previous in heap && heap[s].next in heap && heap[s].previous != s
      modifies this`heap, s.previous`next, s.next`previous
      ensures Tied() && heap.Keys == old(heap.Keys)
      ensures heap == WithPrevious(WithNext(old(heap), old(heap)[s].previous, s), old(heap)[s].next, s)
    {
      SetNext(s.previous, s);
      SetPrevious(s.next, s);
    }

    /** Make the neighbours of an element skip it. */
    method SkipElement(s: OutputPathState)
      requires Tied() && s in heap && heap[s].previous in heap && heap[s].next in heap && heap[s].previous != s
      modifies this`heap, s.previous`next, s.next`previous
      ensures Tied() && heap == Unlinked(old(heap), s) && heap.Keys == old(heap.Keys)
    {
      SetNext(s.previous, s.next);
      SetPrevious(s.next, s.previous);
    }

    /** Create an element between the last one and the sentinel. */
    method LinkNewElement(outputBaseID: Name) returns (s: OutputPathState)
      requires Tied() && heap[outputPaths].previous in heap
      modifies this`heap, outputPaths`previous, outputPaths.previous`next
      ensures Tied() && fresh(s) && s !in old(heap)
      ensures s.cookie == changeID && s.outputBaseID == outputBaseID
      ensures heap == LinkedLast(outputPaths, old(heap), s)
    {
      s := NewElement(outputBaseID);
      LinkNeighbours(s);
    }

    // Writing the fields that belong together.

    method ClearBuild(state: OutputPathState)
      requires Tied() && state in heap
      modifies this`heap, this`buildIDs, state`buildState
      ensures Tied() && heap.Keys == old(heap.Keys) && Now() == Cleared(old(Now()), state)
    {
      if state.buildState.Some? {
        buildIDs := buildIDs - {state.buildState.value.id};
      }
      SetBuildState(state, None);
    }

    method BindBuild(state: OutputPathState, build: BuildState)
      requires Tied() && state in heap
      modifies this`heap, this`buildIDs, state`buildState
      ensures Tied() && heap.Keys == old(heap.Keys) && Now() == Bound(old(Now()), state, build)
    {
      SetBuildState(state, Some(build));
      buildIDs := buildIDs[build.id := state];
    }

    /** Record an element that was linked at the end. */
    method Enlist(state: OutputPathState)
      requires Tied()
      modifies this`list, this`position, this`known, this`changeID, this`outputBaseIDs
      ensures Tied() && heap == old(heap)
      ensures Now() == old(Now()).(list := old(list) + [state], position := old(position)[state := |old(list)|],
                                   known := old(known)[old(changeID) := state], changeID := old(changeID) + 1,
                                   bases := old(outputBaseIDs)[state.outputBaseID := state])
    {
      outputBaseIDs := outputBaseIDs[state.outputBaseID := state];
      list, position, known := list + [state], position[state := |list|], known[changeID := state];
      changeID := changeID + 1;
    }

    method LinkLast(outputBaseID: Name) returns (state: OutputPathState)
      requires Tied() && heap[outputPaths].previous in heap
      modifies this`list, this`position, this`heap, this`known, this`changeID, this`outputBaseIDs, outputPaths`previous, outputPaths.previous`next
      ensures Tied() && fresh(state) && state !in old(heap)
      ensures state.cookie == old(changeID) && state.outputBaseID == outputBaseID
      ensures Now() == Inserted(old(Now()), state)
    {
      hide LinkedLast;
      state := LinkNewElement(outputBaseID);
      Enlist(state);
    }

    method Unlink(state: OutputPathState, ghost i: nat)
      requires Tied() && i < |list| && list[i] == state && state in heap
      requires heap[state].previous in heap && heap[state].next in heap && heap[state].previous != state
      modifies this`list, this`position, this`heap, this`changeID, this`outputBaseIDs, state.previous`next, state.next`previous
      ensures Tied() && heap.Keys == old(heap.Keys) && Now() == Removed(old(Now()), i)
    {
      outputBaseIDs := outputBaseIDs - {state.outputBaseID};
      SkipElement(state);
      list, position := list[..i] + list[i + 1..], Without(position, i);
      changeID := changeID + 1;
    }

    // The updates that sections are made of.

    /** End the build that an output path runs, if any. */
    method EndBuild(state: OutputPathState, ghost i: nat)
      requires Sound() && i < |list| && list[i] == state
      modifies this`heap, this`buildIDs, state`buildState
      ensures Sound() && heap.Keys == old(heap.Keys) && state in heap && heap[state].buildState == None
      ensures Contents() == SetBuild(old(Contents()), i, None)
      ensures buildIDs.Keys <= old(buildIDs.Keys)
    {
      ListedAreOnHeap(Now());
      ClearIsConsistent(Now(), i);
      ClearBuild(state);
    }

    method BeginBuild(state: OutputPathState, build: BuildState, ghost i: nat)
      requires Sound() && i < |list| && list[i] == state && build.id !in buildIDs
      requires state in heap && heap[state].buildState == None
      modifies this`heap, this`buildIDs, state`buildState
      ensures Sound() && heap.Keys == old(heap.Keys)
      ensures Contents() == SetBuild(old(Contents()), i, Some(build))
    {
      BindIsConsistent(Now(), i, build);
      BindBuild(state, build);
    }

    /** Add a new output path at the end of the list. */
    method Register(outputBaseID: Name) returns (state: OutputPathState)
      requires Sound() && outputBaseID !in outputBaseIDs
      modifies this`list, this`position, this`heap, this`known, this`changeID, this`outputBaseIDs, outputPaths`previous, outputPaths.previous`next
      ensures buildIDs == old(buildIDs)
      ensures Sound() && fresh(state) && heap.Keys == old(heap.Keys) + {state} && heap[state].buildState == None
      ensures list == old(list) + [state] && Remembers(old(known), known)
      ensures Contents() == View(old(changeID) + 1,
                                 old(Contents()).entries + [Entry(old(changeID), outputBaseID, None)])
    {
      ghost var before := Now();
      LastIsOnHeap(before);
      KnownGrows(before);
      state := LinkLast(outputBaseID);
      InsertIsConsistent(before, state);
      LinkLastKeepsBuilds(outputPaths, before.heap, state);
    }

    /** Take an output path that runs no build out of the list. */
    method Deregister(state: OutputPathState, ghost i: nat)
      requires Sound() && i < |list| && list[i] == state
      requires state in heap && heap[state].buildState == None
      modifies this`list, this`position, this`heap, this`changeID, this`outputBaseIDs, state.previous`next, state.next`previous
      ensures Sound() && heap.Keys == old(heap.Keys)
      ensures Contents() == View(old(changeID) + 1, old(Contents()).entries[..i] + old(Contents()).entries[i + 1..])
    {
      ghost var before := Now();
      RemoveIsConsistent(before, i);
      NeighboursAreOnHeap(before, i);
      Unlink(state, i);
    }

    // The sections.

    /** The section of StartBuild: use the output path that runs the build, or
        that of the output base after ending its previous build, or a new one. */
    method StartBuild(outputBaseID: Name, build: BuildState) returns (state: OutputPathState)
      requires Valid()
      modifies this, heap.Keys`next, heap.Keys`previous, heap.Keys`buildState
      ensures Valid() && fresh(heap.Keys - old(heap.Keys))
      ensures Remembers(old(known), known)
      ensures Contents() == Apply(Section.StartBuild(outputBaseID, build), old(Contents()))
      ensures var i := Served(outputBaseID, build.id, old(Contents()));
              i < |list| && state == list[i]
    {
      hide Consistent, Entries, WellFormed, Apply, Remembers, Circular;
      SectionKeepsWellFormed(Section.StartBuild(outputBaseID, build), Contents());
      state := SelectOutputPath(outputBaseID, build);
    }

    method SelectOutputPath(outputBaseID: Name, build: BuildState) returns (state: OutputPathState)
      requires Sound()
      modifies this, heap.Keys`next, heap.Keys`previous, heap.Keys`buildState
      ensures Sound() && fresh(heap.Keys - old(heap.Keys))
      ensures Remembers(old(known), known)
      ensures Contents() == Apply(Section.StartBuild(outputBaseID, build), old(Contents()))
      ensures var i := Served(outputBaseID, build.id, old(Contents()));
              i < |list| && state == list[i]
    {
      hide Consistent, Entries, SetBuild, Remembers;
      ListedAreOnHeap(Now());
      LastIsOnHeap(Now());
      assert outputPaths.previous == heap[outputPaths].previous;
      BuildLookup(Now(), build.id);
      BaseLookup(Now(), outputBaseID);
      if build.id in buildIDs {
        RemembersItself(known);
        return buildIDs[build.id];
      }
      ghost var i := FindBase(Contents().entries, outputBaseID);
      if outputBaseID in outputBaseIDs {
        state := outputBaseIDs[outputBaseID];
        ResumeOutputPath(state, build, i);
      } else {
        state := CreateOutputPath(outputBaseID, build);
      }
    }

    method ResumeOutputPath(state: OutputPathState, build: BuildState, ghost i: nat)
      requires Sound() && i < |list| && list[i] == state && build.id !in buildIDs
      modifies this`heap, this`buildIDs, state`buildState
      ensures Sound() && heap.Keys == old(heap.Keys) && Remembers(old(known), known)
      ensures Contents() == SetBuild(old(Contents()), i, Some(build))
    {
      hide Consistent;
      // A previous build may not have been finalized properly.
      EndBuild(state, i);
      BeginBuild(state, build, i);
    }

    method CreateOutputPath(outputBaseID: Name, build: BuildState) returns (state: OutputPathState)
      requires Sound() && outputBaseID !in outputBaseIDs && build.id !in buildIDs
      modifies this, outputPaths`previous, outputPaths.previous`next
      ensures Sound() && fresh(state) && heap.Keys == old(heap.Keys) + {state}
      ensures list == old(list) + [state] && Remembers(old(known), known)
      ensures Contents() == View(old(changeID) + 1,
                                 old(Contents()).entries + [Entry(old(changeID), outputBaseID, Some(build))])
    {
      hide Consistent, Remembers;
      ghost var n := |list|;
      state := Register(outputBaseID);
      BeginBuild(state, build, n);
    }

    /** The first section of Clean. */
    method CleanLookup(outputBaseID: Name) returns (state: OutputPathState?)
      requires Valid()
      ensures var i := FindBase(Contents().entries, outputBaseID);
              if i < |list| then state == list[i] && state.cookie in known && known[state.cookie] == state
              else state == null
    {
      BaseLookup(Now(), outputBaseID);
      if outputBaseID in outputBaseIDs {
        state := outputBaseIDs[outputBaseID];
      } else {
        state := null;
      }
    }

    /** The second section of Clean, for an output path object that was looked up
        at any earlier time and may have been removed or replaced since. */
    method CleanRemove(outputBaseID: Name, state: OutputPathState)
      requires Valid() && state.cookie in known && known[state.cookie] == state
      modifies this, state`buildState, state.previous`next, state.next`previous
      ensures Valid() && known == old(known) && heap.Keys == old(heap.Keys)
      ensures Contents() == Apply(Section.CleanRemove(outputBaseID, state.cookie), old(Contents()))
    {
      hide Consistent, Entries, WellFormed, Apply, Circular;
      SectionKeepsWellFormed(Section.CleanRemove(outputBaseID, state.cookie), Contents());
      RemoveIfRegistered(outputBaseID, state);
    }

    method RemoveIfRegistered(outputBaseID: Name, state: OutputPathState)
      requires Sound() && state.cookie in known && known[state.cookie] == state
      modifies this, state`buildState, state.previous`next, state.next`previous
      ensures Sound() && known == old(known) && heap.Keys == old(heap.Keys)
      ensures Contents() == Apply(Section.CleanRemove(outputBaseID, state.cookie), old(Contents()))
    {
      hide Consistent, Entries, Unlinked;
      BaseLookup(Now(), outputBaseID);
      ghost var i := FindBase(Contents().entries, outputBaseID);
      KnownByCookie(Now(), i);
      if outputBaseID in outputBaseIDs && outputBaseIDs[outputBaseID] == state {
        RemoveEntry(state, i);
      }
    }

    method RemoveEntry(state: OutputPathState, ghost i: nat)
      requires Sound() && i < |list| && list[i] == state
      modifies this, state`buildState, state.previous`next, state.next`previous
      ensures Sound() && known == old(known) && heap.Keys == old(heap.Keys)
      ensures Contents() == View(old(changeID) + 1, old(Contents()).entries[..i] + old(Contents()).entries[i + 1..])
    {
      hide Consistent;
      ghost var es := Contents().entries;
      EndBuild(state, i);
      Deregister(state, i);
      ghost var e := es[i].(buildState := None);
      assert es[i := e][..i] + es[i := e][i + 1..] == es[..i] + es[i + 1..];
    }

    /** The section of FinalizeBuild. Unknown builds are ignored. */
    method FinalizeBuild(buildID: Bytes)
      requires Valid()
      modifies this`heap, this`buildIDs, heap.Keys`buildState
      ensures Valid() && heap.Keys == old(heap.Keys)
      ensures Contents() == Apply(Section.FinalizeBuild(buildID), old(Contents()))
    {
      SectionKeepsWellFormed(Section.FinalizeBuild(buildID), Contents());
      ListedAreOnHeap(Now());
      hide Consistent, WellFormed;
      BuildLookup(Now(), buildID);
      if buildID in buildIDs {
        EndBuild(buildIDs[buildID], FindBuild(Contents().entries, buildID));
      }
    }

    /** Calls that belong to a build get the output path that runs it, along with
        a build state that is never absent. */
    method GetOutputPathAndBuildState(buildID: Bytes) returns (r: Option<(OutputPathState, BuildState)>)
      requires Valid()
      ensures var es := Contents().entries;
              var i := FindBuild(es, buildID);
              if i < |es| then r.Some? && r.value.0 == list[i] && es[i].buildState == Some(r.value.1)
              else r == None
    {
      BuildLookup(Now(), buildID);
      if buildID in buildIDs {
        var state := buildIDs[buildID];
        assert heap[state].buildState == state.buildState;
        r := Some((state, state.buildState.value));
      } else {
        r := None;
      }
    }

    /** Attributes of the directory: its change ID and its number of children. */
    method VirtualGetAttributes() returns (changeID: nat, linkCount: nat)
      requires Valid()
      ensures changeID == Contents().changeID
      ensures linkCount == EMPTY_DIRECTORY_LINK_COUNT + |Contents().entries|
    {
      changeID := this.changeID;
      linkCount := EMPTY_DIRECTORY_LINK_COUNT + |outputBaseIDs|;
      CountsBases(list, position, outputBaseIDs);
    }

    /** List the output paths from a cookie onwards, until the reporter refuses an
        entry after accepting `capacity` of them. Each entry comes with the cookie
        at which the next page has to start. The first `skipped` entries of the list
        are those with smaller cookies. */
    method VirtualReadDir(firstCookie: nat, capacity: nat) returns (reported: seq<(nat, Name)>, ghost skipped: nat)
      requires Valid()
      ensures var es := Contents().entries;
              && skipped <= |es|
              && (forall i :: 0 <= i < |es| ==> (skipped <= i <==> firstCookie <= es[i].cookie))
              && |reported| == (if capacity < |es| - skipped then capacity else |es| - skipped)
              && forall k :: 0 <= k < |reported| ==> reported[k] == (es[skipped + k].cookie + 1, es[skipped + k].outputBaseID)
      ensures forall p: Progress :: p.v == Contents() && p.cursor == firstCookie ==>
                var p' := React(p, Page(capacity));
                && p'.v == p.v && p'.steady == p.steady
                && |p'.reported| == |p.reported| + |reported| && p'.reported[..|p.reported|] == p.reported
                && (forall k :: 0 <= k < |reported| ==> p'.reported[|p.reported| + k] == Listed(reported[k].0 - 1, reported[k].1))
                && p'.cursor == if reported == [] then p.cursor else reported[|reported| - 1].0
    {
      hide Consistent, WellFormed, Entries, React;
      var state;
      state, skipped := SkipTo(firstCookie);
      reported := Report(state, capacity, skipped);
      PagesAreReported(Contents(), firstCookie, capacity, skipped, reported);
    }

    /** Skip what earlier pages have covered. */
    method SkipTo(firstCookie: nat) returns (state: OutputPathState, ghost n: nat)
      requires Valid()
      ensures n <= |list| && state == At(outputPaths, list, n)
      ensures forall i :: 0 <= i < |list| ==> (n <= i <==> firstCookie <= Contents().entries[i].cookie)
    {
      ghost var es := Contents().entries;
      n := 0;
      assert JoinedAt(outputPaths, list, heap, 0);
      state := outputPaths.next;
      while state != outputPaths && state.cookie < firstCookie
        invariant n <= |list| && state == At(outputPaths, list, n)
        invariant forall i :: 0 <= i < n ==> es[i].cookie < firstCookie
        decreases |list| - n
      {
        assert JoinedAt(outputPaths, list, heap, n + 1);
        state := state.next;
        n := n + 1;
      }
    }

    /** Report elements up to the end of the circle, or until one is refused. */
    method Report(first: OutputPathState, capacity: nat, ghost start: nat) returns (reported: seq<(nat, Name)>)
      requires Sound() && start <= |list| && first == At(outputPaths, list, start)
      ensures |reported| == if capacity < |list| - start then capacity else |list| - start
      ensures forall k :: 0 <= k < |reported| ==>
                reported[k] == (Contents().entries[start + k].cookie + 1, Contents().entries[start + k].outputBaseID)
    {
      ghost var i := start;
      var state := first;
      reported := [];
      while state != outputPaths && |reported| < capacity
        invariant start <= i <= |list| && state == At(outputPaths, list, i)
        invariant |reported| == i - start <= capacity
        invariant forall k :: 0 <= k < |reported| ==>
                    reported[k] == (Contents().entries[start + k].cookie + 1, Contents().entries[start + k].outputBaseID)
        decreases |list| - i
      {
        assert JoinedAt(outputPaths, list, heap, i + 1);
        reported := reported + [(state.cookie + 1, state.outputBaseID)];
        state := state.next;
        i := i + 1;
      }
    }
  }

  const EMPTY_DIRECTORY_LINK_COUNT := 2

  /** What is reported to the caller of a page is what the page adds to a listing in
      progress, and the last cookie reported is where that goes on. */
  lemma PageIsReported(p: Progress, capacity: nat, n: nat, reported: seq<(nat, Name)>)
    requires n <= |p.v.entries|
    requires forall i :: 0 <= i < |p.v.entries| ==> (n <= i <==> p.cursor <= p.v.entries[i].cookie)
    requires |reported| == if capacity < |p.v.entries| - n then capacity else |p.v.entries| - n
    requires forall k :: 0 <= k < |reported| ==>
               reported[k] == (p.v.entries[n + k].cookie + 1, p.v.entries[n + k].outputBaseID)
    ensures var p' := React(p, Page(capacity));
            && p'.v == p.v && p'.steady == p.steady
            && |p'.reported| == |p.reported| + |reported| && p'.reported[..|p.reported|] == p.reported
            && (forall k :: 0 <= k < |reported| ==> p'.reported[|p.reported| + k] == Listed(reported[k].0 - 1, reported[k].1))
            && p'.cursor == if reported == [] then p.cursor else reported[|reported| - 1].0
  {
    FromStartsAt(p.v.entries, p.cursor, n);
  }

  lemma PagesAreReported(v: View, firstCookie: nat, capacity: nat, n: nat, reported: seq<(nat, Name)>)
    requires n <= |v.entries|
    requires forall i :: 0 <= i < |v.entries| ==> (n <= i <==> firstCookie <= v.entries[i].cookie)
    requires |reported| == if capacity < |v.entries| - n then capacity else |v.entries| - n
    requires forall k :: 0 <= k < |reported| ==>
               reported[k] == (v.entries[n + k].cookie + 1, v.entries[n + k].outputBaseID)
    ensures forall p: Progress :: p.v == v && p.cursor == firstCookie ==>
              var p' := React(p, Page(capacity));
              && p'.v == p.v && p'.steady == p.steady
              && |p'.reported| == |p.reported| + |reported| && p'.reported[..|p.reported|] == p.reported
              && (forall k :: 0 <= k < |reported| ==> p'.reported[|p.reported| + k] == Listed(reported[k].0 - 1, reported[k].1))
              && p'.cursor == if reported == [] then p.cursor else reported[|reported| - 1].0
  {
    hide React;
    forall p: Progress | p.v == v && p.cursor == firstCookie
      ensures var p' := React(p, Page(capacity));
              && p'.v == p.v && p'.steady == p.steady
              && |p'.reported| == |p.reported| + |reported| && p'.reported[..|p.reported|] == p.reported
              && (forall k :: 0 <= k < |reported| ==> p'.reported[|p.reported| + k] == Listed(reported[k].0 - 1, reported[k].1))
              && p'.cursor == if reported == [] then p.cursor else reported[|reported| - 1].0
    {
      PageIsReported(p, capacity, n, reported);
    }
  }

  lemma {:induction false} FromStartsAt(es: seq<Entry>, cookie: nat, n: nat)
    requires n <= |es| && forall i :: 0 <= i < |es| ==> (n <= i <==> cookie <= es[i].cookie)
    ensures From(es, cookie) == es[n..]
  {
    if n > 0 {
      FromStartsAt(es[1..], cookie, n - 1);
    }
  }

  /** Whatever was listed once is still told apart by its cookie. */
  predicate Remembers(before: map<nat, OutputPathState>, after: map<nat, OutputPathState>) {
    forall c :: c in before ==> c in after && after[c] == before[c]
  }

  lemma RemembersItself(known: map<nat, OutputPathState>)
    ensures Remembers(known, known)
  {
  }

  lemma KnownGrows(m: Snapshot)
    requires Consistent(m)
    ensures m.changeID !in m.known
  {
  }

  lemma KnownByCookie(m: Snapshot, i: nat)
    requires Consistent(m)
    ensures i < |m.list| ==> m.list[i].cookie in m.known && m.known[m.list[i].cookie] == m.list[i]
  {
  }

  lemma CountsBases(list: seq<OutputPathState>, position: Positions, bases: map<Name, OutputPathState>)
    requires Indexed(list, position) && BasesAgree(position, bases)
    ensures |bases| == |list|
  {
    var names := seq(|list|, i requires 0 <= i < |list| => list[i].outputBaseID);
    forall i, j | 0 <= i < j < |names| ensures names[i] != names[j] {
      assert list[i] in position && list[j] in position;
    }
    assert bases.Keys == set n | n in names by {
      forall id | id in bases ensures id in names {
        assert names[position[bases[id]]] == id;
      }
      forall n | n in names ensures n in bases {
        var k :| 0 <= k < |names| && names[k] == n;
        assert list[k] in position;
      }
    }
    DistinctCount(names);
  }

  lemma {:induction false} DistinctCount(names: seq<Name>)
    requires forall i, j :: 0 <= i < j < |names| ==> names[i] != names[j]
    ensures |set n | n in names| == |names|
  {
    if names != [] {
      var rest := names[..|names| - 1];
      DistinctCount(rest);
      assert (set n | n in names) == (set n | n in rest) + {names[|names| - 1]};
    }
  }

  lemma LastIsOnHeap(m: Snapshot)
    requires Consistent(m)
    ensures m.sentinel in m.heap && m.heap[m.sentinel].previous in m.heap
  {
    assert JoinedAt(m.sentinel, m.list, m.heap, |m.list|);
  }

  lemma NeighboursAreOnHeap(m: Snapshot, i: nat)
    requires Consistent(m) && i < |m.list| && m.list[i] in m.heap
    ensures var f := m.heap[m.list[i]];
            f.previous in m.heap && f.next in m.heap && f.previous != m.list[i]
  {
    UnlinkIsCircular(m.sentinel, m.list, m.position, m.heap, i);
    assert m.list[i] in m.position;
    assert 0 < i ==> m.list[i - 1] in m.position;
  }
}
