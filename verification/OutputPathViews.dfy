/** The registry of output paths as a value: what the lock-held sections of the
    Bazel Output Service do to it, and what that means for whole runs. */
module OutputPathViews {
  import opened Wrappers
  import opened ByteStrings

  type Name = Bytes

  datatype BuildState = BuildState(id: Bytes, digestFunction: Bytes)

  /** An output path object. Its cookie identifies it for all time. */
  datatype Entry = Entry(cookie: nat, outputBaseID: Name, buildState: Option<BuildState>)

  /** The change ID, and the registered output paths in listing order. */
  datatype View = View(changeID: nat, entries: seq<Entry>)

  const EMPTY_VIEW := View(0, [])

  /** Cookies increase along the list and are all in the past, and every output
      base and every running build has one entry. */
  predicate WellFormed(v: View) {
    && (forall i :: 0 <= i < |v.entries| ==> v.entries[i].cookie < v.changeID)
    && (forall i, j :: 0 <= i < j < |v.entries| ==> v.entries[i].cookie < v.entries[j].cookie)
    && (forall i, j :: 0 <= i < j < |v.entries| ==> v.entries[i].outputBaseID != v.entries[j].outputBaseID)
    && (forall i, j :: 0 <= i < j < |v.entries| ==> !SameBuild(v.entries[i], v.entries[j]))
  }

  predicate SameBuild(a: Entry, b: Entry) {
    a.buildState.Some? && b.buildState.Some? && a.buildState.value.id == b.buildState.value.id
  }

  predicate Runs(e: Entry, buildID: Bytes) {
    e.buildState.Some? && e.buildState.value.id == buildID
  }

  /** The index of the entry of an output base, or the number of entries. */
  function FindBase(es: seq<Entry>, outputBaseID: Name): (i: nat)
    ensures i <= |es|
    ensures i < |es| ==> es[i].outputBaseID == outputBaseID
    ensures forall k :: 0 <= k < i ==> es[k].outputBaseID != outputBaseID
  {
    if es == [] then 0
    else if es[0].outputBaseID == outputBaseID then 0
    else 1 + FindBase(es[1..], outputBaseID)
  }

  /** The index of the entry that runs a build, or the number of entries. */
  function FindBuild(es: seq<Entry>, buildID: Bytes): (i: nat)
    ensures i <= |es|
    ensures i < |es| ==> Runs(es[i], buildID)
    ensures forall k :: 0 <= k < i ==> !Runs(es[k], buildID)
  {
    if es == [] then 0
    else if Runs(es[0], buildID) then 0
    else 1 + FindBuild(es[1..], buildID)
  }

  // The lock-held sections that change the registry.

  datatype Section =
    | StartBuild(outputBaseID: Name, buildState: BuildState)
    | CleanRemove(outputBaseID: Name, cookie: nat)
    | FinalizeBuild(buildID: Bytes)

  function SetBuild(v: View, i: nat, b: Option<BuildState>): View
    requires i < |v.entries|
  {
    v.(entries := v.entries[i := v.entries[i].(buildState := b)])
  }

  function Apply(s: Section, v: View): View {
    match s
    case StartBuild(base, build) =>
      if FindBuild(v.entries, build.id) < |v.entries| then v
      else if FindBase(v.entries, base) < |v.entries| then SetBuild(v, FindBase(v.entries, base), Some(build))
      else View(v.changeID + 1, v.entries + [Entry(v.changeID, base, Some(build))])
    case CleanRemove(base, cookie) =>
      var i := FindBase(v.entries, base);
      if i < |v.entries| && v.entries[i].cookie == cookie then
        View(v.changeID + 1, v.entries[..i] + v.entries[i + 1..])
      else v
    case FinalizeBuild(buildID) =>
      var i := FindBuild(v.entries, buildID);
      if i < |v.entries| then SetBuild(v, i, None) else v
  }

  /** The index of the entry that a StartBuild call goes on to work with. */
  function Served(base: Name, buildID: Bytes, v: View): nat {
    if FindBuild(v.entries, buildID) < |v.entries| then FindBuild(v.entries, buildID)
    else FindBase(v.entries, base)
  }

  lemma SetBuildKeepsWellFormed(v: View, i: nat, b: Option<BuildState>)
    requires WellFormed(v) && i < |v.entries|
    requires b.Some? ==> FindBuild(v.entries, b.value.id) == |v.entries|
    ensures WellFormed(SetBuild(v, i, b))
  {
    var v' := SetBuild(v, i, b);
    forall j, k | 0 <= j < k < |v'.entries| ensures !SameBuild(v'.entries[j], v'.entries[k]) {
      assert !SameBuild(v.entries[j], v.entries[k]);
    }
  }

  lemma AppendKeepsWellFormed(v: View, e: Entry)
    requires WellFormed(v) && e.cookie == v.changeID
    requires FindBase(v.entries, e.outputBaseID) == |v.entries|
    requires e.buildState.Some? ==> FindBuild(v.entries, e.buildState.value.id) == |v.entries|
    ensures WellFormed(View(v.changeID + 1, v.entries + [e]))
  {
  }

  lemma RemoveKeepsWellFormed(v: View, i: nat)
    requires WellFormed(v) && i < |v.entries|
    ensures WellFormed(View(v.changeID + 1, v.entries[..i] + v.entries[i + 1..]))
  {
    var es := v.entries[..i] + v.entries[i + 1..];
    forall j, k | 0 <= j < k < |es|
      ensures es[j].cookie < es[k].cookie && es[j].outputBaseID != es[k].outputBaseID && !SameBuild(es[j], es[k])
    {
      var j', k' := if j < i then j else j + 1, if k < i then k else k + 1;
      assert es[j] == v.entries[j'] && es[k] == v.entries[k'];
      assert !SameBuild(v.entries[j'], v.entries[k']);
    }
  }

  lemma SectionKeepsWellFormed(s: Section, v: View)
    requires WellFormed(v)
    ensures WellFormed(Apply(s, v))
  {
    match s
    case StartBuild(base, build) =>
      var i := FindBase(v.entries, base);
      if FindBuild(v.entries, build.id) == |v.entries| {
        if i < |v.entries| {
          SetBuildKeepsWellFormed(v, i, Some(build));
        } else {
          AppendKeepsWellFormed(v, Entry(v.changeID, base, Some(build)));
        }
      }
    case CleanRemove(base, cookie) =>
      var i := FindBase(v.entries, base);
      if i < |v.entries| {
        RemoveKeepsWellFormed(v, i);
      }
    case FinalizeBuild(buildID) =>
      var i := FindBuild(v.entries, buildID);
      if i < |v.entries| {
        SetBuildKeepsWellFormed(v, i, None);
      }
  }

  /** A successful StartBuild leaves its build ID bound to exactly one entry.
      That entry is one of the requested output base unless the build ID was
      already in use for another one, in which case that one is used instead. */
  lemma StartBuildBinds(base: Name, build: BuildState, v: View)
    requires WellFormed(v)
    ensures var v' := Apply(StartBuild(base, build), v);
            var i := Served(base, build.id, v);
            && i < |v'.entries| && Runs(v'.entries[i], build.id)
            && FindBuild(v'.entries, build.id) == i
            && (v'.entries[i].outputBaseID == base <==>
                var k := FindBuild(v.entries, build.id);
                k == |v.entries| || v.entries[k].outputBaseID == base)
  {
    var v' := Apply(StartBuild(base, build), v);
    var i := Served(base, build.id, v);
    SectionKeepsWellFormed(StartBuild(base, build), v);
    if FindBuild(v'.entries, build.id) < i {
      assert SameBuild(v'.entries[FindBuild(v'.entries, build.id)], v'.entries[i]);
    }
  }

  /** What StartBuild leaves behind: nothing new if the build was running already.
      Otherwise the output path of the base, or a new one at the end of the list,
      runs precisely the requested build. Everything else stays as it was. */
  lemma StartBuildStores(base: Name, build: BuildState, v: View)
    requires WellFormed(v)
    ensures var v' := Apply(StartBuild(base, build), v);
            var running := exists k :: 0 <= k < |v.entries| && v.entries[k].buildState.Some? && v.entries[k].buildState.value.id == build.id;
            var registered := exists k :: 0 <= k < |v.entries| && v.entries[k].outputBaseID == base;
            if running then v' == v
            else if registered then
              && v'.changeID == v.changeID && |v'.entries| == |v.entries|
              && forall k :: 0 <= k < |v.entries| ==>
                   v'.entries[k] == if v.entries[k].outputBaseID == base then Entry(v.entries[k].cookie, base, Some(build))
                                    else v.entries[k]
            else
              && v'.changeID == v.changeID + 1
              && v'.entries == v.entries + [Entry(v.changeID, base, Some(build))]
  {
    var i, j := FindBuild(v.entries, build.id), FindBase(v.entries, base);
    assert i < |v.entries| ==> Runs(v.entries[i], build.id);
    assert forall k :: 0 <= k < i ==> !Runs(v.entries[k], build.id);
    if i == |v.entries| && j < |v.entries| {
      forall k | 0 <= k < |v.entries| && k != j ensures v.entries[k].outputBaseID != base {
      }
    }
  }

  /** FinalizeBuild takes the build away from the output path that runs it, and
      leaves everything else as it was. */
  lemma FinalizeBuildClears(buildID: Bytes, v: View)
    requires WellFormed(v)
    ensures var v' := Apply(FinalizeBuild(buildID), v);
            && v'.changeID == v.changeID && |v'.entries| == |v.entries|
            && forall k :: 0 <= k < |v.entries| ==>
                 var e := v.entries[k];
                 v'.entries[k] == if e.buildState.Some? && e.buildState.value.id == buildID
                                  then Entry(e.cookie, e.outputBaseID, None) else e
  {
    var i := FindBuild(v.entries, buildID);
    forall k | 0 <= k < |v.entries| && k != i ensures !Runs(v.entries[k], buildID) {
      if i < k {
        assert !SameBuild(v.entries[i], v.entries[k]);
      }
    }
  }

  /** CleanRemove takes one entry out of the list, if it is still the one that was
      looked up, and leaves the order of the others as it was. */
  lemma CleanRemoveTakesOut(base: Name, cookie: nat, v: View)
    requires WellFormed(v)
    ensures var v' := Apply(CleanRemove(base, cookie), v);
            if exists k :: 0 <= k < |v.entries| && v.entries[k].outputBaseID == base && v.entries[k].cookie == cookie then
              && v'.changeID == v.changeID + 1
              && exists k :: 0 <= k < |v.entries| && v.entries[k].outputBaseID == base && v.entries[k].cookie == cookie
                             && v'.entries == v.entries[..k] + v.entries[k + 1..]
            else v' == v
  {
    var i := FindBase(v.entries, base);
    forall k | 0 <= k < |v.entries| && v.entries[k].outputBaseID == base ensures k == i {
    }
  }

  lemma FinalizedBuildIsGone(buildID: Bytes, v: View)
    requires WellFormed(v)
    ensures var es := Apply(FinalizeBuild(buildID), v).entries;
            FindBuild(es, buildID) == |es|
  {
    var es := Apply(FinalizeBuild(buildID), v).entries;
    var i := FindBuild(v.entries, buildID);
    forall k | 0 <= k < |es| ensures !Runs(es[k], buildID) {
      if i < k {
        assert !SameBuild(v.entries[i], v.entries[k]);
      }
    }
  }

  /** Starting a build again, or finalizing it again, changes nothing more. */
  lemma SectionsAreIdempotent(s: Section, v: View)
    requires WellFormed(v) && !s.CleanRemove?
    ensures Apply(s, Apply(s, v)) == Apply(s, v)
  {
    if s.StartBuild? {
      StartBuildBinds(s.outputBaseID, s.buildState, v);
    } else {
      FinalizedBuildIsGone(s.buildID, v);
    }
  }

  lemma RemovedMembers(es: seq<Entry>, i: nat, e: Entry)
    requires i < |es| && forall k :: 0 <= k < |es| && k != i ==> es[k] != es[i]
    ensures e in es[..i] + es[i + 1..] <==> e in es && e != es[i]
  {
    var es' := es[..i] + es[i + 1..];
    if e in es && e != es[i] {
      var k :| 0 <= k < |es| && es[k] == e;
      assert es'[if k < i then k else k - 1] == e;
    }
    if e in es' {
      var k :| 0 <= k < |es'| && es'[k] == e;
      assert es[if k < i then k else k + 1] == e;
    }
  }

  lemma OneEntryPerBase(v: View, e: Entry)
    requires WellFormed(v) && e in v.entries
    ensures var i := FindBase(v.entries, e.outputBaseID);
            i < |v.entries| && v.entries[i] == e
  {
    var k :| 0 <= k < |v.entries| && v.entries[k] == e;
    assert !(FindBase(v.entries, e.outputBaseID) < k);
  }

  /** A Clean whose output path object was replaced in the meantime removes
      nothing, and otherwise it removes that object and no other one. */
  lemma CleanRemovesOnlyWhatItLookedUp(base: Name, cookie: nat, v: View, e: Entry)
    requires WellFormed(v)
    ensures e in Apply(CleanRemove(base, cookie), v).entries <==>
            e in v.entries && !(e.outputBaseID == base && e.cookie == cookie)
  {
    var i := FindBase(v.entries, base);
    if e in v.entries {
      OneEntryPerBase(v, e);
    }
    if i < |v.entries| && v.entries[i].cookie == cookie {
      RemovedMembers(v.entries, i, e);
    }
  }

  // Runs.

  function ApplyAll(ss: seq<Section>, v: View): View {
    if ss == [] then v else Apply(ss[|ss| - 1], ApplyAll(ss[..|ss| - 1], v))
  }

  /** In every run, the registry stays well-formed. */
  lemma {:induction false} RunKeepsWellFormed(ss: seq<Section>, v: View)
    requires WellFormed(v)
    ensures WellFormed(ApplyAll(ss, v)) && v.changeID <= ApplyAll(ss, v).changeID
  {
    if ss != [] {
      RunKeepsWellFormed(ss[..|ss| - 1], v);
      SectionKeepsWellFormed(ss[|ss| - 1], ApplyAll(ss[..|ss| - 1], v));
    }
  }

  datatype Listed = Listed(cookie: nat, outputBaseID: Name)

  function ToListed(e: Entry): Listed {
    Listed(e.cookie, e.outputBaseID)
  }

  /** What a complete listing of the directory shows. */
  function Listing(es: seq<Entry>): seq<Listed> {
    seq(|es|, i requires 0 <= i < |es| => ToListed(es[i]))
  }

  /** Over any run, an unchanged change ID means an unchanged listing. */
  lemma {:induction false} ChangeIDTracksListing(ss: seq<Section>, v: View)
    requires WellFormed(v) && ApplyAll(ss, v).changeID == v.changeID
    ensures Listing(ApplyAll(ss, v).entries) == Listing(v.entries)
  {
    if ss != [] {
      RunKeepsWellFormed(ss[..|ss| - 1], v);
      ChangeIDTracksListing(ss[..|ss| - 1], v);
    }
  }

  // Paged listing while the registry changes.

  /** The entries that a VirtualReadDir call starting at a cookie goes through. */
  function From(es: seq<Entry>, cookie: nat): seq<Entry> {
    if es == [] then []
    else if es[0].cookie >= cookie then es
    else From(es[1..], cookie)
  }

  datatype Event = Change(section: Section) | Page(accepted: nat)

  /** A listing in progress: the registry, the cookie to resume at, what was
      reported so far, and what has been present ever since the listing began. */
  datatype Progress = Progress(v: View, cursor: nat, reported: seq<Listed>, steady: set<Listed>)

  function Begin(v: View): Progress {
    Progress(v, 0, [], set l | l in Listing(v.entries))
  }

  /** A page reports the next entries until one is refused. */
  function React(p: Progress, e: Event): Progress {
    match e
    case Change(s) =>
      var v' := Apply(s, p.v);
      p.(v := v', steady := set l | l in p.steady && l in Listing(v'.entries))
    case Page(accepted) =>
      var pending := From(p.v.entries, p.cursor);
      var n := if accepted < |pending| then accepted else |pending|;
      p.(cursor := if n == 0 then p.cursor else pending[n - 1].cookie + 1,
         reported := p.reported + Listing(pending[..n]))
  }

  function ReactAll(p: Progress, events: seq<Event>): Progress {
    if events == [] then p else React(ReactAll(p, events[..|events| - 1]), events[|events| - 1])
  }

  predicate Ascending(ls: seq<Listed>) {
    forall i, j :: 0 <= i < j < |ls| ==> ls[i].cookie < ls[j].cookie
  }

  /** Nothing was reported twice, and nothing steady before the cursor is missing. */
  predicate ListingInvariant(p: Progress) {
    && WellFormed(p.v)
    && Ascending(p.reported)
    && (forall l :: l in p.reported ==> l.cookie < p.cursor)
    && (forall l :: l in p.steady ==> l in Listing(p.v.entries))
    && (forall l :: l in p.steady && l.cookie < p.cursor ==> l in p.reported)
  }

  lemma {:induction false} FromSplits(es: seq<Entry>, cookie: nat)
    requires forall i, j :: 0 <= i < j < |es| ==> es[i].cookie < es[j].cookie
    ensures |From(es, cookie)| <= |es|
    ensures var n := |es| - |From(es, cookie)|;
            && es[n..] == From(es, cookie)
            && (forall i :: 0 <= i < n ==> es[i].cookie < cookie)
            && (forall i :: n <= i < |es| ==> cookie <= es[i].cookie)
  {
    if es != [] && es[0].cookie < cookie {
      FromSplits(es[1..], cookie);
    }
  }

  lemma PageIsAscending(p: Progress, accepted: nat)
    requires ListingInvariant(p)
    ensures var p' := React(p, Page(accepted));
            && Ascending(p'.reported)
            && forall l :: l in p'.reported ==> l.cookie < p'.cursor
  {
    FromSplits(p.v.entries, p.cursor);
    var pending := From(p.v.entries, p.cursor);
    var n := if accepted < |pending| then accepted else |pending|;
    ListingIsAscending(pending[..n], p.cursor);
    AscendingConcat(p.reported, Listing(pending[..n]), p.cursor);
  }

  lemma ListingIsAscending(es: seq<Entry>, cursor: nat)
    requires forall i, j :: 0 <= i < j < |es| ==> es[i].cookie < es[j].cookie
    requires forall i :: 0 <= i < |es| ==> cursor <= es[i].cookie
    ensures var ls := Listing(es);
            && Ascending(ls)
            && (forall i :: 0 <= i < |ls| ==> cursor <= ls[i].cookie)
            && (forall l :: l in ls ==> cursor <= l.cookie <= es[|es| - 1].cookie)
  {
  }

  lemma AscendingConcat(a: seq<Listed>, b: seq<Listed>, cursor: nat)
    requires Ascending(a) && Ascending(b)
    requires forall l :: l in a ==> l.cookie < cursor
    requires forall i :: 0 <= i < |b| ==> cursor <= b[i].cookie
    ensures Ascending(a + b)
  {
    forall i, j | 0 <= i < j < |a + b| ensures (a + b)[i].cookie < (a + b)[j].cookie {
      if i < |a| <= j {
        assert a[i] in a;
      }
    }
  }

  lemma ListedAt(es: seq<Entry>, l: Listed) returns (k: nat)
    requires l in Listing(es)
    ensures k < |es| && ToListed(es[k]) == l
  {
    k :| 0 <= k < |es| && Listing(es)[k] == l;
  }

  lemma ListsPrefix(es: seq<Entry>, n: nat, k: nat)
    requires k < n <= |es|
    ensures ToListed(es[k]) in Listing(es[..n])
  {
    assert Listing(es[..n])[k] == ToListed(es[k]);
  }

  // Everything steady that a page gets to is reported.
  lemma PageReportsSteady(p: Progress, accepted: nat, l: Listed)
    requires ListingInvariant(p) && l in p.steady
    requires l.cookie < React(p, Page(accepted)).cursor || accepted >= |From(p.v.entries, p.cursor)|
    ensures l in React(p, Page(accepted)).reported
  {
    hide Listing, Apply;
    var k := ListedAt(p.v.entries, l);
    FromSplits(p.v.entries, p.cursor);
    var pending := From(p.v.entries, p.cursor);
    var n := if accepted < |pending| then accepted else |pending|;
    var skipped := |p.v.entries| - |pending|;
    assert 0 < n ==> pending[n - 1] == p.v.entries[skipped + n - 1];
    if k >= skipped {
      assert p.v.entries[skipped..][k - skipped] == p.v.entries[k];
      ListsPrefix(pending, n, k - skipped);
    }
  }

  lemma PageKeepsInvariant(p: Progress, accepted: nat)
    requires ListingInvariant(p)
    ensures ListingInvariant(React(p, Page(accepted)))
    ensures accepted >= |From(p.v.entries, p.cursor)| ==>
              forall l :: l in p.steady ==> l in React(p, Page(accepted)).reported
  {
    PageIsAscending(p, accepted);
    var p' := React(p, Page(accepted));
    forall l | l in p.steady && (l.cookie < p'.cursor || accepted >= |From(p.v.entries, p.cursor)|)
      ensures l in p'.reported
    {
      PageReportsSteady(p, accepted, l);
    }
  }

  lemma {:induction false} RunKeepsListingInvariant(v: View, events: seq<Event>)
    requires WellFormed(v)
    ensures ListingInvariant(ReactAll(Begin(v), events))
  {
    if events != [] {
      var n := |events| - 1;
      RunKeepsListingInvariant(v, events[..n]);
      var p := ReactAll(Begin(v), events[..n]);
      match events[n]
      case Change(s) => SectionKeepsWellFormed(s, p.v);
      case Page(accepted) => PageKeepsInvariant(p, accepted);
    }
  }

  /** However StartBuild, Clean and FinalizeBuild interleave with the pages of a
      listing, no output path object is reported twice, and once a page reaches
      the end every object that was present throughout has been reported. */
  lemma PagedListingIsExact(v: View, events: seq<Event>, accepted: nat)
    requires WellFormed(v)
    requires var p := ReactAll(Begin(v), events);
             accepted >= |From(p.v.entries, p.cursor)|
    ensures var p := ReactAll(Begin(v), events);
            var reported := React(p, Page(accepted)).reported;
            && (forall i, j :: 0 <= i < j < |reported| ==> reported[i].cookie < reported[j].cookie)
            && (forall l :: l in p.steady ==> l in reported)
  {
    RunKeepsListingInvariant(v, events);
    PageKeepsInvariant(ReactAll(Begin(v), events), accepted);
  }

  predicate IsRegistered(es: seq<Entry>, l: Listed) {
    exists i :: 0 <= i < |es| && es[i].cookie == l.cookie && es[i].outputBaseID == l.outputBaseID
  }

  lemma ListingHas(es: seq<Entry>, l: Listed)
    ensures l in Listing(es) <==> IsRegistered(es, l)
  {
    if l in Listing(es) {
      var k := ListedAt(es, l);
    }
    if i :| 0 <= i < |es| && es[i].cookie == l.cookie && es[i].outputBaseID == l.outputBaseID {
      assert Listing(es)[i] == l;
    }
  }

  lemma ReactKeepsSteady(p: Progress, e: Event, l: Listed)
    requires l in p.steady ==> IsRegistered(p.v.entries, l)
    ensures l in React(p, e).steady <==> l in p.steady && IsRegistered(React(p, e).v.entries, l)
  {
    hide Apply, Listing, IsRegistered;
    ListingHas(React(p, e).v.entries, l);
  }

  /** An object is steady exactly if it was registered at every moment of the run. */
  lemma {:induction false} SteadyMeansPresentThroughout(v: View, events: seq<Event>, l: Listed)
    ensures l in ReactAll(Begin(v), events).steady <==>
            forall k :: 0 <= k <= |events| ==> IsRegistered(ReactAll(Begin(v), events[..k]).v.entries, l)
    ensures l in ReactAll(Begin(v), events).steady ==> IsRegistered(ReactAll(Begin(v), events).v.entries, l)
  {
    hide React, IsRegistered;
    assert events[..|events|] == events;
    if events == [] {
      ListingHas(v.entries, l);
    } else {
      var n := |events| - 1;
      SteadyMeansPresentThroughout(v, events[..n], l);
      ReactKeepsSteady(ReactAll(Begin(v), events[..n]), events[n], l);
      assert forall k :: 0 <= k <= n ==> events[..n][..k] == events[..k];
    }
  }
}
