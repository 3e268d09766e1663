/** Filtering of an output path at the start of a build: every child that the
    Content Addressable Storage can no longer back in full is removed. Digests
    are looked up in batches, and a child may be spread over several of them. */
module FilterMissing {
  import opened Wrappers
  import opened ByteStrings

  /** A digest, with the instance name and hash function it belongs to. */
  datatype Digest = Digest(digestFunction: Bytes, hash: Bytes)

  /** What a child has to say about the digests that it is made of. */
  datatype Dependencies =
    | Independent
    | Unresolvable(notFound: bool)
    | On(digests: seq<Digest>)

  /** The children that a build can rely on. */
  predicate Usable(c: Dependencies, digestFunction: Bytes, missing: set<Digest>) {
    match c
    case Independent => true
    case Unresolvable(_) => false
    case On(digests) => forall d :: d in digests ==> d.digestFunction == digestFunction && d !in missing
  }

  predicate Foreign(c: Dependencies, digestFunction: Bytes) {
    c.On? && exists d :: d in c.digests && d.digestFunction != digestFunction
  }

  /** The digests of which the presence has to be established. */
  function Required(c: Dependencies, digestFunction: Bytes): set<Digest> {
    if c.On? && !Foreign(c, digestFunction) then set d | d in c.digests else {}
  }

  function AllRequired(cs: seq<Dependencies>, digestFunction: Bytes): set<Digest> {
    if cs == [] then {}
    else AllRequired(cs[..|cs| - 1], digestFunction) + Required(cs[|cs| - 1], digestFunction)
  }

  /** The children that filtering removes. One whose digests could not be
      determined for another reason than absence makes it fail instead. */
  predicate Dropped(c: Dependencies, digestFunction: Bytes, missing: set<Digest>) {
    !Usable(c, digestFunction, missing) && c != Unresolvable(false)
  }

  function AllDropped(cs: seq<Dependencies>, digestFunction: Bytes, missing: set<Digest>): set<nat> {
    set i | 0 <= i < |cs| && Dropped(cs[i], digestFunction, missing)
  }

  function Union(requests: seq<set<Digest>>): set<Digest> {
    if requests == [] then {} else Union(requests[..|requests| - 1]) + requests[|requests| - 1]
  }

  /** Storage that keeps a record of what it was asked for. */
  class ContentAddressableStorage {
    const missing: set<Digest>
    const reliable: bool
    ghost var requests: seq<set<Digest>>

    constructor (missing: set<Digest>, reliable: bool)
      ensures this.missing == missing && this.reliable == reliable && requests == []
    {
      this.missing, this.reliable := missing, reliable;
      requests := [];
    }

    method FindMissing(digests: set<Digest>) returns (r: Option<set<Digest>>)
      modifies this`requests
      ensures requests == old(requests) + [digests]
      ensures r.Some? ==> r.value == digests * missing
      ensures reliable ==> r.Some?
    {
      requests := requests + [digests];
      var ok := *;
      r := if ok || reliable then Some(digests * missing) else None;
    }
  }

  /** An output path, of which children may be removed any number of times. */
  class PrepopulatedDirectory {
    const children: seq<Dependencies>
    const reliable: bool
    var removed: set<nat>

    constructor (children: seq<Dependencies>, reliable: bool)
      ensures this.children == children && this.reliable == reliable && removed == {}
    {
      this.children, this.reliable, removed := children, reliable, {};
    }

    method Remove(i: nat) returns (ok: bool)
      modifies this`removed
      ensures removed == if ok then old(removed) + {i} else old(removed)
      ensures reliable ==> ok
    {
      ok := *;
      ok := ok || reliable;
      if ok {
        removed := removed + {i};
      }
    }

    /** Whether the directory can go on to its next child. */
    method Advance() returns (ok: bool)
      ensures reliable ==> ok
    {
      ok := *;
      ok := ok || reliable;
    }
  }

  /** The children to remove if a digest turns out to be missing. */
  type Queue = map<Digest, seq<nat>>

  function Waiting(queue: Queue, missing: set<Digest>): set<nat> {
    set d, i | d in queue && d in missing && i in queue[d] :: i
  }

  function Enqueue(queue: Queue, d: Digest, i: nat): Queue {
    queue[d := (if d in queue then queue[d] else []) + [i]]
  }

  lemma EnqueueWaits(queue: Queue, d: Digest, i: nat, missing: set<Digest>)
    ensures Waiting(Enqueue(queue, d, i), missing) == Waiting(queue, missing) + Hit(i, {d}, missing)
  {
    var queue' := Enqueue(queue, d, i);
    forall j | j in Waiting(queue, missing) + Hit(i, {d}, missing)
      ensures j in Waiting(queue', missing)
    {
      if j in Waiting(queue, missing) {
        var e :| e in queue && e in missing && j in queue[e];
        assert j in queue'[e];
      } else {
        assert i in queue'[d];
      }
    }
  }

  /** Look up one batch, and remove all children that wait for a missing digest. */
  method FindMissingAndRemove(cas: ContentAddressableStorage, root: PrepopulatedDirectory, queue: Queue)
    returns (ok: bool)
    modifies cas`requests, root`removed
    ensures cas.requests == old(cas.requests) + [queue.Keys]
    ensures old(root.removed) <= root.removed <= old(root.removed) + Waiting(queue, cas.missing)
    ensures ok ==> root.removed == old(root.removed) + Waiting(queue, cas.missing)
    ensures cas.reliable && root.reliable ==> ok
  {
    var missing := cas.FindMissing(queue.Keys);
    if missing == None {
      return false;
    }
    var rest := missing.value;
    while rest != {}
      invariant rest <= queue.Keys * cas.missing
      invariant cas.requests == old(cas.requests) + [queue.Keys]
      invariant root.removed == old(root.removed) + Waiting(queue, cas.missing - rest)
    {
      var d :| d in rest;
      WaitingSplits(queue, cas.missing, rest, d);
      for k := 0 to |queue[d]|
        invariant cas.requests == old(cas.requests) + [queue.Keys]
        invariant root.removed == old(root.removed) + Waiting(queue, cas.missing - rest) + (set i | i in queue[d][..k])
      {
        var removed := root.Remove(queue[d][k]);
        if !removed {
          return false;
        }
        assert queue[d][..k + 1] == queue[d][..k] + [queue[d][k]];
      }
      assert queue[d][..|queue[d]|] == queue[d];
      rest := rest - {d};
    }
    assert cas.missing - rest == cas.missing;
    ok := true;
  }

  lemma WaitingSplits(queue: Queue, missing: set<Digest>, rest: set<Digest>, d: Digest)
    requires rest <= missing && d in rest && d in queue
    ensures Waiting(queue, missing - (rest - {d})) == Waiting(queue, missing - rest) + (set i | i in queue[d])
    ensures Waiting(queue, missing - (rest - {d})) <= Waiting(queue, missing)
  {
    forall i | i in Waiting(queue, missing - rest) + (set i | i in queue[d])
      ensures i in Waiting(queue, missing - (rest - {d}))
    {
      if i !in queue[d] {
        var e :| e in queue && e in missing - rest && i in queue[e];
        assert e in missing - (rest - {d});
      } else {
        assert d in missing - (rest - {d});
      }
    }
  }

  /** What is known while digests are being queued: the children that are gone
      or waiting, the digests that were asked for or are about to be, and that
      only full batches have been sent so far. */
  predicate Balanced(requests: seq<set<Digest>>, removed: set<nat>, queue: Queue, missing: set<Digest>, limit: nat,
                     gone: set<nat>, asked: set<Digest>)
  {
    && |queue| <= limit
    && FullBatches(requests, limit)
    && removed + Waiting(queue, missing) == gone
    && Union(requests) + queue.Keys == asked
  }

  predicate FullBatches(requests: seq<set<Digest>>, limit: nat) {
    forall k :: 0 <= k < |requests| ==> |requests[k]| == limit
  }

  lemma FlushBalances(requests: seq<set<Digest>>, removed: set<nat>, queue: Queue, missing: set<Digest>, limit: nat,
                      gone: set<nat>, asked: set<Digest>)
    requires Balanced(requests, removed, queue, missing, limit, gone, asked) && |queue| >= limit
    ensures Balanced(requests + [queue.Keys], removed + Waiting(queue, missing), map[], missing, limit, gone, asked)
  {
    assert |queue.Keys| == |queue|;
    assert (requests + [queue.Keys])[..|requests|] == requests;
  }

  lemma EnqueueBalances(requests: seq<set<Digest>>, removed: set<nat>, queue: Queue, missing: set<Digest>, limit: nat,
                        gone: set<nat>, asked: set<Digest>, d: Digest, i: nat)
    requires Balanced(requests, removed, queue, missing, limit, gone, asked) && |queue| < limit
    ensures Balanced(requests, removed, Enqueue(queue, d, i), missing, limit, gone + Hit(i, {d}, missing), asked + {d})
  {
    EnqueueWaits(queue, d, i, missing);
    EnqueueGrows(queue, d, i);
    hide Enqueue, FullBatches, Waiting;
    assert gone + Hit(i, {d}, missing) == removed + (Waiting(queue, missing) + Hit(i, {d}, missing));
  }

  lemma EnqueueGrows(queue: Queue, d: Digest, i: nat)
    ensures Enqueue(queue, d, i).Keys == queue.Keys + {d}
    ensures |Enqueue(queue, d, i)| <= |queue| + 1
  {
    assert |Enqueue(queue, d, i)| == |Enqueue(queue, d, i).Keys|;
    assert Enqueue(queue, d, i).Keys == queue.Keys + {d};
    assert |queue.Keys + {d}| <= |queue.Keys| + 1;
  }

  /** Child `i`, if it needs a digest that is missing. */
  function Hit(i: nat, digests: set<Digest>, missing: set<Digest>): set<nat> {
    if digests !! missing then {} else {i}
  }

  /** Queue one digest of child `i`, sending off the batch before it if it is full. */
  method QueueDigest(cas: ContentAddressableStorage, root: PrepopulatedDirectory, limit: nat, i: nat,
                     d: Digest, q: Queue, ghost gone: set<nat>, ghost asked: set<Digest>)
    returns (queue: Queue, ok: bool)
    requires 1 <= limit && Balanced(cas.requests, root.removed, q, cas.missing, limit, gone, asked)
    modifies cas`requests, root`removed
    ensures ok ==> Balanced(cas.requests, root.removed, queue, cas.missing, limit,
                            gone + Hit(i, {d}, cas.missing), asked + {d})
    ensures !ok ==> root.removed <= gone && FullBatches(cas.requests, limit)
    ensures old(root.removed) <= root.removed
    ensures cas.reliable && root.reliable ==> ok
  {
    queue, ok := q, true;
    if |queue| >= limit {
      FlushBalances(cas.requests, root.removed, queue, cas.missing, limit, gone, asked);
      ok := FindMissingAndRemove(cas, root, queue);
      if !ok {
        return;
      }
      queue := map[];
    }
    hide Balanced;
    EnqueueBalances(cas.requests, root.removed, queue, cas.missing, limit, gone, asked, d, i);
    queue := Enqueue(queue, d, i);
  }

  function Elements(digests: seq<Digest>): set<Digest> {
    set d | d in digests
  }

  /** Queue all digests of child `i`. */
  method QueueDigests(cas: ContentAddressableStorage, root: PrepopulatedDirectory, limit: nat, i: nat,
                      digests: seq<Digest>, q: Queue, ghost gone: set<nat>, ghost asked: set<Digest>)
    returns (queue: Queue, ok: bool)
    requires 1 <= limit && Balanced(cas.requests, root.removed, q, cas.missing, limit, gone, asked)
    modifies cas`requests, root`removed
    ensures ok ==> Balanced(cas.requests, root.removed, queue, cas.missing, limit,
                            gone + Hit(i, Elements(digests), cas.missing), asked + Elements(digests))
    ensures !ok ==> root.removed <= gone + Hit(i, Elements(digests), cas.missing) && FullBatches(cas.requests, limit)
    ensures old(root.removed) <= root.removed
    ensures cas.reliable && root.reliable ==> ok
  {
    hide Balanced, FullBatches;
    queue, ok := q, true;
    assert Elements(digests[..0]) == {} && gone + Hit(i, {}, cas.missing) == gone && asked + {} == asked;
    for k := 0 to |digests|
      invariant Balanced(cas.requests, root.removed, queue, cas.missing, limit,
                         gone + Hit(i, Elements(digests[..k]), cas.missing), asked + Elements(digests[..k]))
      invariant old(root.removed) <= root.removed
    {
      ghost var done := Elements(digests[..k]);
      queue, ok := QueueDigest(cas, root, limit, i, digests[k], queue, gone + Hit(i, done, cas.missing), asked + done);
      assert Elements(digests[..k + 1]) == done + {digests[k]} <= Elements(digests);
      if !ok {
        return;
      }
      HitAdds(i, done, digests[k], cas.missing, gone, asked);
    }
    assert digests[..|digests|] == digests;
    ok := true;
  }

  lemma HitAdds(i: nat, done: set<Digest>, d: Digest, missing: set<Digest>, gone: set<nat>, asked: set<Digest>)
    ensures gone + Hit(i, done, missing) + Hit(i, {d}, missing) == gone + Hit(i, done + {d}, missing)
    ensures asked + done + {d} == asked + (done + {d})
  {
    assert (done + {d}) * missing == done * missing + {d} * missing;
  }

  /** Child `i`, if filtering removes it. */
  function Loss(i: nat, c: Dependencies, digestFunction: Bytes, missing: set<Digest>): set<nat> {
    if Dropped(c, digestFunction, missing) then {i} else {}
  }

  lemma BalancedBounds(requests: seq<set<Digest>>, removed: set<nat>, queue: Queue, missing: set<Digest>, limit: nat,
                       gone: set<nat>, asked: set<Digest>, i: nat)
    requires Balanced(requests, removed, queue, missing, limit, gone, asked)
    ensures removed <= gone && FullBatches(requests, limit)
    ensures Balanced(requests, removed + {i}, queue, missing, limit, gone + {i}, asked)
  {
    assert (removed + {i}) + Waiting(queue, missing) == gone + {i};
  }

  /** Whether all digests of a child use a given digest function. */
  method UsesDigestFunction(digests: seq<Digest>, digestFunction: Bytes) returns (r: bool)
    ensures r <==> !Foreign(On(digests), digestFunction)
  {
    for k := 0 to |digests|
      invariant forall j :: 0 <= j < k ==> digests[j].digestFunction == digestFunction
    {
      if digests[k].digestFunction != digestFunction {
        assert digests[k] in digests;
        return false;
      }
    }
    r := true;
  }

  /** Decide about one child: keep it, remove it, or queue its digests. */
  method FilterChild(cas: ContentAddressableStorage, root: PrepopulatedDirectory, digestFunction: Bytes, limit: nat,
                     i: nat, q: Queue, ghost gone: set<nat>, ghost asked: set<Digest>)
    returns (queue: Queue, ok: bool)
    requires 1 <= limit && i < |root.children|
    requires Balanced(cas.requests, root.removed, q, cas.missing, limit, gone, asked)
    modifies cas`requests, root`removed
    ensures ok ==> Balanced(cas.requests, root.removed, queue, cas.missing, limit,
                            gone + Loss(i, root.children[i], digestFunction, cas.missing),
                            asked + Required(root.children[i], digestFunction))
    ensures !ok ==> root.removed <= gone + Loss(i, root.children[i], digestFunction, cas.missing)
                    && FullBatches(cas.requests, limit)
    ensures old(root.removed) <= root.removed
    ensures ok ==> root.children[i] != Unresolvable(false)
    ensures cas.reliable && root.reliable && !ok ==> root.children[i] == Unresolvable(false)
  {
    hide Balanced, FullBatches;
    queue, ok := q, true;
    var c := root.children[i];
    BalancedBounds(cas.requests, root.removed, q, cas.missing, limit, gone, asked, i);
    assert gone + {} == gone && asked + {} == asked;
    match c
    case Independent =>
    case Unresolvable(notFound) =>
      if notFound {
        ok := root.Remove(i);
      } else {
        ok := false;
      }
    case On(digests) =>
      var own := UsesDigestFunction(digests, digestFunction);
      HitsAreDropped(c, digestFunction, i, cas.missing);
      if own {
        queue, ok := QueueDigests(cas, root, limit, i, digests, queue, gone, asked);
      } else {
        ok := root.Remove(i);
      }
  }

  lemma HitsAreDropped(c: Dependencies, digestFunction: Bytes, i: nat, missing: set<Digest>)
    requires c.On?
    ensures Foreign(c, digestFunction) ==> Loss(i, c, digestFunction, missing) == {i}
    ensures !Foreign(c, digestFunction) ==> Loss(i, c, digestFunction, missing) == Hit(i, Elements(c.digests), missing)
    ensures !Foreign(c, digestFunction) ==> Required(c, digestFunction) == Elements(c.digests)
  {
    if !Foreign(c, digestFunction) && Dropped(c, digestFunction, missing) {
      var d :| d in c.digests && (d.digestFunction != digestFunction || d in missing);
      assert d in Elements(c.digests);
    }
  }

  /** Visit all children, up to the first one that cannot be dealt with. */
  method FilterChildren(cas: ContentAddressableStorage, root: PrepopulatedDirectory, digestFunction: Bytes, limit: nat)
    returns (queue: Queue, ok: bool)
    requires 1 <= limit && cas.requests == []
    modifies cas`requests, root`removed
    ensures ok ==> Balanced(cas.requests, root.removed, queue, cas.missing, limit,
                            old(root.removed) + AllDropped(root.children, digestFunction, cas.missing),
                            AllRequired(root.children, digestFunction))
    ensures !ok ==> FullBatches(cas.requests, limit)
                    && root.removed <= old(root.removed) + AllDropped(root.children, digestFunction, cas.missing)
    ensures old(root.removed) <= root.removed
    ensures ok ==> Unresolvable(false) !in root.children
    ensures cas.reliable && root.reliable ==> (ok <==> Unresolvable(false) !in root.children)
  {
    ghost var before, children := root.removed, root.children;
    queue, ok := map[], true;
    assert Balanced([], before, queue, cas.missing, limit, Gone(before, children, 0, digestFunction, cas.missing), {});
    hide Balanced, FullBatches, AllDropped, Loss;
    var i := 0;
    while i < |root.children|
      invariant 0 <= i <= |children|
      invariant Balanced(cas.requests, root.removed, queue, cas.missing, limit,
                         Gone(before, children, i, digestFunction, cas.missing), AllRequired(children[..i], digestFunction))
      invariant Unresolvable(false) !in children[..i]
      invariant before <= root.removed
    {
      ghost var gone := Gone(before, children, i, digestFunction, cas.missing);
      BalancedBounds(cas.requests, root.removed, queue, cas.missing, limit, gone, AllRequired(children[..i], digestFunction), i);
      GoneSplits(before, children, i, digestFunction, cas.missing);
      ok := root.Advance();
      if !ok {
        return;
      }
      queue, ok := FilterChild(cas, root, digestFunction, limit, i, queue, gone, AllRequired(children[..i], digestFunction));
      if !ok {
        return;
      }
      i := i + 1;
    }
    assert children[..i] == children;
  }

  /** Remove every child that depends on something that is missing, or on digests
      of another digest function. Success means that exactly the usable children
      are left and that every digest they need was looked up. Failure never costs
      more than the children that filtering would have removed. Batches are never
      empty, and all but the last one are full. */
  method FilterMissingChildren(cas: ContentAddressableStorage, root: PrepopulatedDirectory, digestFunction: Bytes, limit: nat)
    returns (ok: bool)
    requires 1 <= limit
    modifies cas`requests, root`removed
    ensures ok ==> forall i :: 0 <= i < |root.children| ==>
                     (i in root.removed <==>
                      || i in old(root.removed)
                      || match root.children[i]
                         case Independent => false
                         case Unresolvable(_) => true
                         case On(digests) => exists d :: d in digests && (d.digestFunction != digestFunction || d in cas.missing))
    ensures old(root.removed) <= root.removed
    ensures forall i :: i in root.removed && i !in old(root.removed) ==>
              && i < |root.children|
              && match root.children[i]
                 case Independent => false
                 case Unresolvable(notFound) => notFound
                 case On(digests) => exists d :: d in digests && (d.digestFunction != digestFunction || d in cas.missing)
    ensures ok ==> forall d :: WasAskedFor(d, cas.requests) <==> IsNeeded(d, root.children, digestFunction)
    ensures forall k :: 0 <= k < |cas.requests| ==> 1 <= |cas.requests[k]| <= limit
    ensures forall k :: 0 <= k < |cas.requests| - 1 ==> |cas.requests[k]| == limit
    ensures ok ==> Unresolvable(false) !in root.children
    ensures cas.reliable && root.reliable ==> (ok <==> Unresolvable(false) !in root.children)
  {
    hide Usable, Dropped, AllRequired, Union, WasAskedFor, IsNeeded;
    ok := FilterInBatches(cas, root, digestFunction, limit);
    UnusableByDefinition(root.children, digestFunction, cas.missing);
    RequestsByDefinition(cas.requests, root.children, digestFunction);
  }

  predicate WasAskedFor(d: Digest, requests: seq<set<Digest>>) {
    exists k :: 0 <= k < |requests| && d in requests[k]
  }

  /** Whether there is a child with a digest, none of its digests being of another
      digest function. */
  predicate IsNeeded(d: Digest, cs: seq<Dependencies>, digestFunction: Bytes) {
    exists i :: 0 <= i < |cs| && cs[i].On? && d in cs[i].digests
                && forall e :: e in cs[i].digests ==> e.digestFunction == digestFunction
  }

  lemma UnusableByDefinition(cs: seq<Dependencies>, digestFunction: Bytes, missing: set<Digest>)
    ensures forall i :: 0 <= i < |cs| ==>
              (!Usable(cs[i], digestFunction, missing) <==>
               match cs[i]
               case Independent => false
               case Unresolvable(_) => true
               case On(digests) => exists d :: d in digests && (d.digestFunction != digestFunction || d in missing))
    ensures forall i :: 0 <= i < |cs| ==>
              (Dropped(cs[i], digestFunction, missing) <==>
               match cs[i]
               case Independent => false
               case Unresolvable(notFound) => notFound
               case On(digests) => exists d :: d in digests && (d.digestFunction != digestFunction || d in missing))
  {
  }

  lemma RequestsByDefinition(requests: seq<set<Digest>>, cs: seq<Dependencies>, digestFunction: Bytes)
    ensures forall d :: d in Union(requests) <==> WasAskedFor(d, requests)
    ensures forall d :: d in AllRequired(cs, digestFunction) <==> IsNeeded(d, cs, digestFunction)
  {
    hide Union, AllRequired, WasAskedFor, IsNeeded;
    forall d ensures d in Union(requests) <==> WasAskedFor(d, requests) {
      UnionHas(requests, d);
    }
    forall d ensures d in AllRequired(cs, digestFunction) <==> IsNeeded(d, cs, digestFunction) {
      AllRequiredHas(cs, digestFunction, d);
    }
  }

  lemma {:induction false} UnionHas(requests: seq<set<Digest>>, d: Digest)
    ensures d in Union(requests) <==> WasAskedFor(d, requests)
  {
    if requests != [] {
      var n := |requests| - 1;
      UnionHas(requests[..n], d);
      assert requests == requests[..n] + [requests[n]];
    }
  }

  lemma {:induction false} AllRequiredHas(cs: seq<Dependencies>, digestFunction: Bytes, d: Digest)
    ensures d in AllRequired(cs, digestFunction) <==> IsNeeded(d, cs, digestFunction)
  {
    if cs != [] {
      var n := |cs| - 1;
      AllRequiredHas(cs[..n], digestFunction, d);
      assert cs == cs[..n] + [cs[n]];
      assert d in Required(cs[n], digestFunction) <==>
             cs[n].On? && d in cs[n].digests && forall e :: e in cs[n].digests ==> e.digestFunction == digestFunction;
    }
  }

  method FilterInBatches(cas: ContentAddressableStorage, root: PrepopulatedDirectory, digestFunction: Bytes, limit: nat)
    returns (ok: bool)
    requires 1 <= limit
    modifies cas`requests, root`removed
    ensures ok ==> forall i :: 0 <= i < |root.children| ==>
                     (i in root.removed <==> i in old(root.removed) || !Usable(root.children[i], digestFunction, cas.missing))
    ensures old(root.removed) <= root.removed
            <= old(root.removed) + AllDropped(root.children, digestFunction, cas.missing)
    ensures ok ==> Union(cas.requests) == AllRequired(root.children, digestFunction)
    ensures GoodBatches(cas.requests, limit)
    ensures ok ==> Unresolvable(false) !in root.children
    ensures cas.reliable && root.reliable ==> (ok <==> Unresolvable(false) !in root.children)
  {
    cas.requests := [];
    var queue;
    queue, ok := FilterChildren(cas, root, digestFunction, limit);
    if ok && |queue| > 0 {
      FinalBatch(cas.requests, queue.Keys);
      assert |queue.Keys| == |queue|;
      ok := FindMissingAndRemove(cas, root, queue);
    }
  }

  /** No batch is empty or too large, and all but the last one are full. */
  predicate GoodBatches(requests: seq<set<Digest>>, limit: nat) {
    && (forall k :: 0 <= k < |requests| ==> 1 <= |requests[k]| <= limit)
    && forall k :: 0 <= k < |requests| - 1 ==> |requests[k]| == limit
  }

  lemma FinalBatch(requests: seq<set<Digest>>, last: set<Digest>)
    ensures Union(requests + [last]) == Union(requests) + last
  {
    assert (requests + [last])[..|requests|] == requests;
  }

  /** What is gone after the first `i` children, given what was removed before. */
  function Gone(before: set<nat>, cs: seq<Dependencies>, i: nat, digestFunction: Bytes, missing: set<Digest>): set<nat>
    requires i <= |cs|
  {
    before + AllDropped(cs[..i], digestFunction, missing)
  }

  lemma GoneSplits(before: set<nat>, cs: seq<Dependencies>, i: nat, digestFunction: Bytes, missing: set<Digest>)
    requires i < |cs|
    ensures Gone(before, cs, i + 1, digestFunction, missing) ==
            Gone(before, cs, i, digestFunction, missing) + Loss(i, cs[i], digestFunction, missing)
    ensures Gone(before, cs, i + 1, digestFunction, missing) <= before + AllDropped(cs, digestFunction, missing)
    ensures AllRequired(cs[..i + 1], digestFunction) == AllRequired(cs[..i], digestFunction) + Required(cs[i], digestFunction)
    ensures cs[..i + 1] == cs[..i] + [cs[i]]
  {
    assert cs[..i + 1][..i] == cs[..i];
  }
}
