/** Directories backed by the Content Addressable Storage: looking up a name by
    binary search in three sorted lists, and listing those lists page by page. */
module CasDirectory {
  import opened Wrappers
  import opened ByteStrings
  import opened Messages
  import opened OutputPathState

  // The Directory message of the Remote Execution API v2.

  datatype DirectoryNode = DirectoryNode(name: Bytes, digest: Option<Digest>)
  datatype CasDirectory = CasDirectory(
    directories: seq<DirectoryNode>,
    files: seq<FileNode>,
    symlinks: seq<SymlinkNode>)

  /** A child, as far as its parent directory determines it. */
  datatype Child =
    | ChildDirectory(digest: Digest)
    | ChildFile(digest: Digest, isExecutable: bool)
    | ChildSymlink(index: nat, target: Bytes)

  /** A name in a directory, with its child if that can be instantiated. */
  datatype Entry = Entry(name: Bytes, child: Option<Child>)

  datatype Status = OK | ErrIO | ErrNoEnt | ErrExist | ErrIsDir | ErrSymlink

  function DirectoryEntry(policy: Policy, n: DirectoryNode): Entry {
    Entry(n.name, if n.digest.Some? && policy.acceptsDigest(n.digest.value) then Some(ChildDirectory(n.digest.value)) else None)
  }

  function FileEntry(policy: Policy, n: FileNode): Entry {
    Entry(n.name, if n.digest.Some? && policy.acceptsDigest(n.digest.value)
                  then Some(ChildFile(n.digest.value, n.isExecutable)) else None)
  }

  function SymlinkEntry(policy: Policy, index: nat, n: SymlinkNode): Entry {
    Entry(n.name, if policy.acceptsTarget(n.target) then Some(ChildSymlink(index, n.target)) else None)
  }

  function DirectoryEntries(policy: Policy, ds: seq<DirectoryNode>): seq<Entry> {
    seq(|ds|, i requires 0 <= i < |ds| => DirectoryEntry(policy, ds[i]))
  }

  function FileEntries(policy: Policy, fs: seq<FileNode>): seq<Entry> {
    seq(|fs|, i requires 0 <= i < |fs| => FileEntry(policy, fs[i]))
  }

  function SymlinkEntries(policy: Policy, ss: seq<SymlinkNode>): seq<Entry> {
    seq(|ss|, i requires 0 <= i < |ss| => SymlinkEntry(policy, i, ss[i]))
  }

  /** All entries, in the order in which they are listed. */
  function Entries(policy: Policy, d: CasDirectory): seq<Entry> {
    DirectoryEntries(policy, d.directories) + FileEntries(policy, d.files) + SymlinkEntries(policy, d.symlinks)
  }

  // Alphabetical order.

  /** String `a` comes before string `b`. */
  predicate Below(a: Bytes, b: Bytes) {
    b != [] && (a == [] || a[0] < b[0] || (a[0] == b[0] && Below(a[1..], b[1..])))
  }

  lemma {:induction false} BelowIsTransitive(a: Bytes, b: Bytes, c: Bytes)
    requires Below(a, b) && Below(b, c)
    ensures Below(a, c)
  {
    if a != [] && a[0] == b[0] == c[0] {
      BelowIsTransitive(a[1..], b[1..], c[1..]);
    }
  }

  lemma {:induction false} BelowIsTotal(a: Bytes, b: Bytes)
    ensures Below(a, b) || Below(b, a) || a == b
    ensures !(Below(a, b) && Below(b, a)) && !Below(a, a)
  {
    if a != [] {
      BelowIsTotal(a[1..], a[1..]);
      if b != [] {
        BelowIsTotal(a[1..], b[1..]);
        assert a == [a[0]] + a[1..] && b == [b[0]] + b[1..];
      }
    }
  }

  /** No name comes before an earlier one. */
  predicate Sorted(names: seq<Bytes>) {
    forall i, j :: 0 <= i < j < |names| ==> !Below(names[j], names[i])
  }

  predicate Distinct(names: seq<Bytes>) {
    forall i, j :: 0 <= i < j < |names| ==> names[i] != names[j]
  }

  // Binary search.

  /** The index that halving the range from `i` to `j` ends at, when looking for
      the first name that does not come before `n`. */
  function Search(names: seq<Bytes>, n: Bytes, i: nat, j: nat): (r: nat)
    requires i <= j <= |names|
    ensures i <= r <= j
    decreases j - i
  {
    if i == j then i
    else
      var h := (i + j) / 2;
      if Below(names[h], n) then Search(names, n, h + 1, j) else Search(names, n, i, h)
  }

  /** In a sorted list, the search separates what comes before from the rest. */
  lemma {:induction false} SearchSeparates(names: seq<Bytes>, n: Bytes, i: nat, j: nat)
    requires i <= j <= |names| && Sorted(names)
    ensures forall k :: i <= k < Search(names, n, i, j) ==> Below(names[k], n)
    ensures forall k :: Search(names, n, i, j) <= k < j ==> !Below(names[k], n)
    decreases j - i
  {
    if i < j {
      var h := (i + j) / 2;
      if Below(names[h], n) {
        SearchSeparates(names, n, h + 1, j);
        forall k | i <= k < h ensures Below(names[k], n) {
          NotAbove(names[k], names[h], n);
        }
      } else {
        SearchSeparates(names, n, i, h);
        forall k | h < k < j ensures !Below(names[k], n) {
          if Below(names[k], n) {
            NotAbove(names[h], names[k], n);
          }
        }
      }
    }
  }

  lemma NotAbove(a: Bytes, b: Bytes, c: Bytes)
    requires !Below(b, a) && Below(b, c)
    ensures Below(a, c)
  {
    BelowIsTotal(a, b);
    if a != b {
      BelowIsTransitive(a, b, c);
    }
  }

  /** The index at which a name is found, if any. */
  function Find(names: seq<Bytes>, n: Bytes): (r: Option<nat>)
    ensures r.Some? ==> r.value < |names| && names[r.value] == n
  {
    var i := Search(names, n, 0, |names|);
    if i < |names| && names[i] == n then Some(i) else None
  }

  /** In a sorted list, every name is found at its first occurrence. */
  lemma FindsFirst(names: seq<Bytes>, n: Bytes)
    requires Sorted(names)
    ensures Find(names, n) == None <==> n !in names
    ensures Find(names, n).Some? ==> n !in names[..Find(names, n).value]
  {
    SearchSeparates(names, n, 0, |names|);
    BelowIsTotal(n, n);
    var i := Search(names, n, 0, |names|);
    if n in names {
      var k :| 0 <= k < |names| && names[k] == n;
      assert i <= k;
      if i < k {
        assert !Below(names[k], names[i]);
        BelowIsTotal(names[i], n);
      }
    }
  }

  /** Sorting is not only sufficient but necessary: if every one of a number of
      distinct names can be found, then they are sorted. */
  lemma FindsAllOnlyIfSorted(names: seq<Bytes>)
    requires Distinct(names)
    ensures (forall k :: 0 <= k < |names| ==> Find(names, names[k]).Some?) <==> Sorted(names)
  {
    if forall k :: 0 <= k < |names| ==> Find(names, names[k]).Some? {
      forall k | 0 <= k < |names| ensures Search(names, names[k], 0, |names|) == k {
        var i := Find(names, names[k]).value;
        assert !(i < k) && !(k < i);
      }
      SearchForcesOrder(names, 0, |names|);
    }
    if Sorted(names) {
      forall k | 0 <= k < |names| ensures Find(names, names[k]).Some? {
        FindsFirst(names, names[k]);
      }
    }
  }

  lemma {:induction false} SearchForcesOrder(names: seq<Bytes>, i: nat, j: nat)
    requires i <= j <= |names|
    requires forall k :: i <= k < j ==> Search(names, names[k], i, j) == k
    ensures forall a, b :: i <= a < b < j ==> !Below(names[b], names[a])
    decreases j - i
  {
    if i < j {
      var h := (i + j) / 2;
      SearchForcesOrder(names, i, h);
      SearchForcesOrder(names, h + 1, j);
      forall a, b | i <= a < b < j ensures !Below(names[b], names[a]) {
        if a < h < b {
          BelowIsTotal(names[h], names[b]);
          if Below(names[b], names[a]) {
            BelowIsTransitive(names[h], names[b], names[a]);
          }
        } else if a == h {
          BelowIsTotal(names[h], names[b]);
        }
      }
    }
  }

  // Looking up a single name.

  function DirectoryNames(d: CasDirectory): seq<Bytes> {
    seq(|d.directories|, i requires 0 <= i < |d.directories| => d.directories[i].name)
  }

  function FileNames(d: CasDirectory): seq<Bytes> {
    seq(|d.files|, i requires 0 <= i < |d.files| => d.files[i].name)
  }

  function SymlinkNames(d: CasDirectory): seq<Bytes> {
    seq(|d.symlinks|, i requires 0 <= i < |d.symlinks| => d.symlinks[i].name)
  }

  function ToResult(child: Option<Child>): Result<Child, Status> {
    if child.Some? then Success(child.value) else Failure(ErrIO)
  }

  function VirtualLookup(policy: Policy, contents: Result<CasDirectory, Status>, n: Bytes): Result<Child, Status> {
    match contents
    case Failure(status) => Failure(status)
    case Success(d) =>
      var i := Find(DirectoryNames(d), n);
      if i.Some? then ToResult(DirectoryEntry(policy, d.directories[i.value]).child)
      else
        var i := Find(FileNames(d), n);
        if i.Some? then ToResult(FileEntry(policy, d.files[i.value]).child)
        else
          var i := Find(SymlinkNames(d), n);
          if i.Some? then ToResult(SymlinkEntry(policy, i.value, d.symlinks[i.value]).child)
          else Failure(ErrNoEnt)
  }

  /** What opening a child may result in. Only files can be opened; whether
      opening a file succeeds is then up to the file. */
  datatype Opened = Opened(child: Child) | Refused(status: Status) | Missing

  function WrongFileType(existing: bool, status: Status): Opened {
    Refused(if existing then status else ErrExist)
  }

  function VirtualOpenChild(policy: Policy, contents: Result<CasDirectory, Status>, n: Bytes, existing: bool): Opened {
    match contents
    case Failure(status) => Refused(status)
    case Success(d) =>
      if Find(DirectoryNames(d), n).Some? then WrongFileType(existing, ErrIsDir)
      else
        var i := Find(FileNames(d), n);
        if i.Some? then
          if !existing then Refused(ErrExist)
          else
            var child := FileEntry(policy, d.files[i.value]).child;
            if child.Some? then Opened(child.value) else Refused(ErrIO)
        else if Find(SymlinkNames(d), n).Some? then WrongFileType(existing, ErrSymlink)
        else Missing
  }

  /** The first entry of a given name. */
  function FirstNamed(es: seq<Entry>, n: Bytes): (r: Option<Entry>)
    ensures r == None <==> forall i :: 0 <= i < |es| ==> es[i].name != n
    ensures r.Some? ==> r.value in es && r.value.name == n
  {
    if es == [] then None
    else if es[0].name == n then Some(es[0])
    else FirstNamed(es[1..], n)
  }

  /** The lists are sorted, as the Remote Execution protocol demands. */
  predicate Canonical(d: CasDirectory) {
    Sorted(DirectoryNames(d)) && Sorted(FileNames(d)) && Sorted(SymlinkNames(d))
  }

  lemma {:induction false} FirstNamedAt(es: seq<Entry>, n: Bytes, i: nat)
    requires i < |es| && es[i].name == n && forall k :: 0 <= k < i ==> es[k].name != n
    ensures FirstNamed(es, n) == Some(es[i])
  {
    if i > 0 {
      FirstNamedAt(es[1..], n, i - 1);
    }
  }

  lemma {:induction false} FirstNamedInEither(a: seq<Entry>, b: seq<Entry>, n: Bytes)
    ensures FirstNamed(a + b, n) == if FirstNamed(a, n).Some? then FirstNamed(a, n) else FirstNamed(b, n)
  {
    if a == [] {
      assert a + b == b;
    } else {
      assert (a + b)[1..] == a[1..] + b;
      FirstNamedInEither(a[1..], b, n);
    }
  }

  function Names(es: seq<Entry>): seq<Bytes> {
    seq(|es|, i requires 0 <= i < |es| => es[i].name)
  }

  lemma FindIsFirstNamed(es: seq<Entry>, n: Bytes)
    requires Sorted(Names(es))
    ensures FirstNamed(es, n) ==
            match Find(Names(es), n)
            case Some(i) => Some(es[i])
            case None => None
  {
    var names := Names(es);
    FindsFirst(names, n);
    if Find(names, n).Some? {
      var i := Find(names, n).value;
      forall k | 0 <= k < i ensures es[k].name != n {
        assert names[..i][k] == es[k].name;
      }
      FirstNamedAt(es, n, i);
    } else {
      forall k | 0 <= k < |es| ensures es[k].name != n {
        assert names[k] == es[k].name;
      }
    }
  }

  lemma NamesOfLists(policy: Policy, d: CasDirectory)
    ensures Names(DirectoryEntries(policy, d.directories)) == DirectoryNames(d)
    ensures Names(FileEntries(policy, d.files)) == FileNames(d)
    ensures Names(SymlinkEntries(policy, d.symlinks)) == SymlinkNames(d)
  {
  }

  /** In a sorted directory, the binary searches yield what a search through the
      whole listing would, down to the same child. */
  lemma LookupIsSearch(policy: Policy, d: CasDirectory, n: Bytes)
    requires Canonical(d)
    ensures VirtualLookup(policy, Success(d), n) ==
            match FirstNamed(Entries(policy, d), n)
            case Some(e) => ToResult(e.child)
            case None => Failure(ErrNoEnt)
  {
    SearchesAreFirstNamed(policy, d, n);
  }

  lemma SearchesAreFirstNamed(policy: Policy, d: CasDirectory, n: Bytes)
    requires Canonical(d)
    ensures FirstNamed(Entries(policy, d), n) ==
            if Find(DirectoryNames(d), n).Some? then Some(DirectoryEntry(policy, d.directories[Find(DirectoryNames(d), n).value]))
            else if Find(FileNames(d), n).Some? then Some(FileEntry(policy, d.files[Find(FileNames(d), n).value]))
            else if Find(SymlinkNames(d), n).Some? then
              var i := Find(SymlinkNames(d), n).value;
              Some(SymlinkEntry(policy, i, d.symlinks[i]))
            else None
  {
    var ds, fs, ss := DirectoryEntries(policy, d.directories), FileEntries(policy, d.files), SymlinkEntries(policy, d.symlinks);
    NamesOfLists(policy, d);
    FindIsFirstNamed(ds, n);
    FindIsFirstNamed(fs, n);
    FindIsFirstNamed(ss, n);
    FirstNamedInEither(ds, fs, n);
    FirstNamedInEither(ds + fs, ss, n);
  }

  /** Opening a child tells directories, files and symbolic links apart just like
      looking it up does. */
  lemma OpenAgreesWithLookup(policy: Policy, contents: Result<CasDirectory, Status>, n: Bytes, existing: bool)
    ensures var looked := VirtualLookup(policy, contents, n);
            var outcome := VirtualOpenChild(policy, contents, n, existing);
            && (outcome.Opened? ==> existing && looked == Success(outcome.child) && outcome.child.ChildFile?)
            && (existing && looked.Success? && looked.value.ChildFile? ==> outcome == Opened(looked.value))
            && (looked.Success? && looked.value.ChildDirectory? ==> outcome == WrongFileType(existing, ErrIsDir))
            && (looked.Success? && looked.value.ChildSymlink? ==> outcome == WrongFileType(existing, ErrSymlink))
            && (contents.Success? ==> (outcome == Missing <==> looked == Failure(ErrNoEnt)))
  {
  }

  // Listing.

  datatype Report = Report(cookie: nat, entry: Entry)

  /** An entry that can be reported. */
  predicate Presentable(e: Entry) {
    ValidComponent(e.name) && e.child.Some?
  }

  /** What is reported from index `from` on, to a reporter that refuses an entry
      after having accepted `capacity` of them. */
  function Page(es: seq<Entry>, from: nat, capacity: nat): (seq<Report>, Status)
    decreases |es| - from
  {
    if from >= |es| then ([], OK)
    else if !Presentable(es[from]) then ([], ErrIO)
    else if capacity == 0 then ([], OK)
    else
      var rest := Page(es, from + 1, capacity - 1);
      ([Report(from + 1, es[from])] + rest.0, rest.1)
  }

  /** What was reported so far, and what remains to be reported from index `i` on,
      make up the page. */
  predicate Continues(es: seq<Entry>, from: nat, capacity: nat, i: nat, reported: seq<Report>) {
    && |reported| <= capacity
    && var page := Page(es, i, capacity - |reported|);
       Page(es, from, capacity) == (reported + page.0, page.1)
  }

  lemma ContinuesOrEnds(es: seq<Entry>, from: nat, capacity: nat, i: nat, reported: seq<Report>)
    requires Continues(es, from, capacity, i, reported)
    ensures if i >= |es| then Page(es, from, capacity) == (reported, OK)
            else if !Presentable(es[i]) then Page(es, from, capacity) == (reported, ErrIO)
            else if |reported| == capacity then Page(es, from, capacity) == (reported, OK)
            else |reported| < capacity && Continues(es, from, capacity, i + 1, reported + [Report(i + 1, es[i])])
  {
    assert reported + [] == reported;
    if i < |es| && Presentable(es[i]) && |reported| < capacity {
      var rest := Page(es, i + 1, capacity - |reported| - 1).0;
      assert reported + ([Report(i + 1, es[i])] + rest) == reported + [Report(i + 1, es[i])] + rest;
    }
  }

  /** Report the directories. The page ends here unless all of them were accepted. */
  method ReportDirectories(policy: Policy, directory: CasDirectory, nextCookieOffset: nat, first: nat, before: seq<Report>,
                capacity: nat, ghost firstCookie: nat)
    returns (i: nat, reported: seq<Report>, end: Option<Status>)
    requires nextCookieOffset == 1
    requires Continues(Entries(policy, directory), firstCookie, capacity, nextCookieOffset - 1 + first, before)
    ensures end == None ==>
              && |directory.directories| <= i
              && Continues(Entries(policy, directory), firstCookie, capacity, nextCookieOffset - 1 + i, reported)
    ensures end.Some? ==> Page(Entries(policy, directory), firstCookie, capacity) == (reported, end.value)
  {
    ghost var es := Entries(policy, directory);
    hide Continues, Page;
    i, reported := first, before;
    while i < |directory.directories|
      invariant Continues(es, firstCookie, capacity, nextCookieOffset - 1 + i, reported)
    {
      var entry := DirectoryEntry(policy, directory.directories[i]);
      assert es[nextCookieOffset - 1 + i] == entry;
      ContinuesOrEnds(es, firstCookie, capacity, nextCookieOffset - 1 + i, reported);
      if !ValidComponent(entry.name) || entry.child == None {
        return i, reported, Some(ErrIO);
      }
      if |reported| == capacity {
        return i, reported, Some(OK);
      }
      reported := reported + [Report(nextCookieOffset + i, entry)];
      i := i + 1;
    }
    end := None;
  }

  /** Report the files. The page ends here unless all of them were accepted. */
  method ReportFiles(policy: Policy, directory: CasDirectory, nextCookieOffset: nat, first: nat, before: seq<Report>,
                capacity: nat, ghost firstCookie: nat)
    returns (i: nat, reported: seq<Report>, end: Option<Status>)
    requires nextCookieOffset == 1 + |directory.directories|
    requires Continues(Entries(policy, directory), firstCookie, capacity, nextCookieOffset - 1 + first, before)
    ensures end == None ==>
              && |directory.files| <= i
              && Continues(Entries(policy, directory), firstCookie, capacity, nextCookieOffset - 1 + i, reported)
    ensures end.Some? ==> Page(Entries(policy, directory), firstCookie, capacity) == (reported, end.value)
  {
    ghost var es := Entries(policy, directory);
    hide Continues, Page;
    i, reported := first, before;
    while i < |directory.files|
      invariant Continues(es, firstCookie, capacity, nextCookieOffset - 1 + i, reported)
    {
      var entry := FileEntry(policy, directory.files[i]);
      assert es[nextCookieOffset - 1 + i] == entry;
      ContinuesOrEnds(es, firstCookie, capacity, nextCookieOffset - 1 + i, reported);
      if !ValidComponent(entry.name) || entry.child == None {
        return i, reported, Some(ErrIO);
      }
      if |reported| == capacity {
        return i, reported, Some(OK);
      }
      reported := reported + [Report(nextCookieOffset + i, entry)];
      i := i + 1;
    }
    end := None;
  }

  /** Report the symbolic links. The page ends here unless all of them were accepted. */
  method ReportSymlinks(policy: Policy, directory: CasDirectory, nextCookieOffset: nat, first: nat, before: seq<Report>,
                capacity: nat, ghost firstCookie: nat)
    returns (i: nat, reported: seq<Report>, end: Option<Status>)
    requires nextCookieOffset == 1 + |directory.directories| + |directory.files|
    requires Continues(Entries(policy, directory), firstCookie, capacity, nextCookieOffset - 1 + first, before)
    ensures end == None ==>
              && |directory.symlinks| <= i
              && Continues(Entries(policy, directory), firstCookie, capacity, nextCookieOffset - 1 + i, reported)
    ensures end.Some? ==> Page(Entries(policy, directory), firstCookie, capacity) == (reported, end.value)
  {
    ghost var es := Entries(policy, directory);
    hide Continues, Page;
    i, reported := first, before;
    while i < |directory.symlinks|
      invariant Continues(es, firstCookie, capacity, nextCookieOffset - 1 + i, reported)
    {
      var entry := SymlinkEntry(policy, i, directory.symlinks[i]);
      assert es[nextCookieOffset - 1 + i] == entry;
      ContinuesOrEnds(es, firstCookie, capacity, nextCookieOffset - 1 + i, reported);
      if !ValidComponent(entry.name) || entry.child == None {
        return i, reported, Some(ErrIO);
      }
      if |reported| == capacity {
        return i, reported, Some(OK);
      }
      reported := reported + [Report(nextCookieOffset + i, entry)];
      i := i + 1;
    }
    end := None;
  }

  /** List the directory from a cookie onwards. */
  method VirtualReadDir(policy: Policy, contents: Result<CasDirectory, Status>, firstCookie: nat, capacity: nat)
    returns (reported: seq<Report>, status: Status)
    ensures contents.Success? ==>
              Page(Entries(policy, contents.value), firstCookie, capacity) == (reported, status)
    ensures contents.Failure? ==> reported == [] && status == contents.error
    ensures contents.Success? ==>
              var d := contents.value;
              && |reported| <= capacity
              && (forall k :: 0 <= k < |reported| ==> IsReportOf(policy, d, firstCookie + k, reported[k]))
              && (if firstCookie + |reported| >= |d.directories| + |d.files| + |d.symlinks| then status == OK
                  else if CanReport(policy, d, firstCookie + |reported|) then status == OK && |reported| == capacity
                  else status == ErrIO)
  {
    hide Page, Entries, IsReportOf, CanReport;
    if contents.Failure? {
      return [], contents.error;
    }
    PageOfMessage(policy, contents.value, firstCookie, capacity);
    reported, status := ReportEntries(policy, contents.value, firstCookie, capacity);
  }

  /** Report directories, then files, then symbolic links. */
  method ReportEntries(policy: Policy, directory: CasDirectory, firstCookie: nat, capacity: nat)
    returns (reported: seq<Report>, status: Status)
    ensures Page(Entries(policy, directory), firstCookie, capacity) == (reported, status)
  {
    ghost var es := Entries(policy, directory);
    assert Continues(es, firstCookie, capacity, firstCookie, []) by {
      assert [] + Page(es, firstCookie, capacity).0 == Page(es, firstCookie, capacity).0;
    }
    EntryCount(policy, directory);
    hide Continues, Page, Entries;

    var nextCookieOffset := 1;
    var i, end;
    i, reported, end := ReportDirectories(policy, directory, nextCookieOffset, firstCookie, [], capacity, firstCookie);
    if end.Some? {
      return reported, end.value;
    }
    i := i - |directory.directories|;
    nextCookieOffset := nextCookieOffset + |directory.directories|;

    i, reported, end := ReportFiles(policy, directory, nextCookieOffset, i, reported, capacity, firstCookie);
    if end.Some? {
      return reported, end.value;
    }
    i := i - |directory.files|;
    nextCookieOffset := nextCookieOffset + |directory.files|;

    i, reported, end := ReportSymlinks(policy, directory, nextCookieOffset, i, reported, capacity, firstCookie);
    if end.Some? {
      return reported, end.value;
    }
    ContinuesOrEnds(es, firstCookie, capacity, nextCookieOffset - 1 + i, reported);
    status := OK;
  }

  /** A page consists of consecutive entries, each with the cookie of its
      successor. It ends at the end of the listing, at an entry that cannot be
      presented, or where the reporter refuses to go on. */
  lemma {:induction false} PageIsConsecutive(es: seq<Entry>, from: nat, capacity: nat)
    ensures var (reported, status) := Page(es, from, capacity);
            var n := |reported|;
            && n <= capacity && (n > 0 ==> from + n <= |es|)
            && (forall k :: 0 <= k < n ==> IsReport(es, from + k, reported[k]))
            && (if from + n >= |es| then status == OK
                else if Presentable(es[from + n]) then status == OK && n == capacity
                else status == ErrIO)
    decreases |es| - from
  {
    if from < |es| && Presentable(es[from]) && capacity > 0 {
      hide Presentable, IsReport;
      PageIsConsecutive(es, from + 1, capacity - 1);
      ReportsExtend(es, from, Page(es, from + 1, capacity - 1).0);
    }
  }

  /** The report of the entry at an index. */
  predicate IsReport(es: seq<Entry>, i: nat, r: Report) {
    i < |es| && r == Report(i + 1, es[i]) && Presentable(es[i])
  }

  lemma ReportsExtend(es: seq<Entry>, from: nat, rest: seq<Report>)
    requires from < |es| && Presentable(es[from])
    requires forall k :: 0 <= k < |rest| ==> IsReport(es, from + 1 + k, rest[k])
    ensures var reported := [Report(from + 1, es[from])] + rest;
            forall k :: 0 <= k < |reported| ==> IsReport(es, from + k, reported[k])
  {
    var reported := [Report(from + 1, es[from])] + rest;
    forall k | 0 <= k < |reported| ensures IsReport(es, from + k, reported[k]) {
      if k > 0 {
        assert IsReport(es, from + 1 + (k - 1), rest[k - 1]);
      }
    }
  }

  /** Where to resume after a page. */
  function NextCookie(from: nat, reported: seq<Report>): nat {
    if reported == [] then from else reported[|reported| - 1].cookie
  }

  /** All that a number of pages report, each resuming where the last one ended. */
  function Pages(es: seq<Entry>, from: nat, capacities: seq<nat>): seq<Report>
    decreases capacities
  {
    if capacities == [] then []
    else
      var reported := Page(es, from, capacities[0]).0;
      reported + Pages(es, NextCookie(from, reported), capacities[1..])
  }

  function Sum(ns: seq<nat>): nat {
    if ns == [] then 0 else ns[0] + Sum(ns[1..])
  }

  lemma {:induction false} PageSplits(es: seq<Entry>, from: nat, a: nat, b: nat)
    ensures var first := Page(es, from, a).0;
            Page(es, from, a + b).0 == first + Page(es, NextCookie(from, first), b).0
    decreases a
  {
    if a > 0 && from < |es| && Presentable(es[from]) {
      PageSplits(es, from + 1, a - 1, b);
      var rest := Page(es, from + 1, a - 1).0;
      assert NextCookie(from, [Report(from + 1, es[from])] + rest) == NextCookie(from + 1, rest);
    } else if a > 0 {
      assert Page(es, from, a).0 == [];
    }
  }

  /** However a listing is cut into pages, together they report what a single
      page would. */
  lemma {:induction false} PagesConcatenate(es: seq<Entry>, from: nat, capacities: seq<nat>)
    ensures Pages(es, from, capacities) == Page(es, from, Sum(capacities)).0
    decreases capacities
  {
    if capacities != [] {
      var reported := Page(es, from, capacities[0]).0;
      PagesConcatenate(es, NextCookie(from, reported), capacities[1..]);
      PageSplits(es, from, capacities[0], Sum(capacities[1..]));
    }
  }

  /** The complete listing. */
  function FullListing(es: seq<Entry>): seq<Report> {
    seq(|es|, i requires 0 <= i < |es| => Report(i + 1, es[i]))
  }

  /** Enough pages, of whatever sizes, list every entry exactly once. */
  lemma PagesListEverything(es: seq<Entry>, capacities: seq<nat>)
    requires forall i :: 0 <= i < |es| ==> Presentable(es[i])
    requires Sum(capacities) >= |es|
    ensures Pages(es, 0, capacities) == FullListing(es)
  {
    PagesConcatenate(es, 0, capacities);
    PageIsConsecutive(es, 0, Sum(capacities));
  }

  /** A directory in which no name occurs twice and every entry can be presented. */
  predicate WellFormedDirectory(policy: Policy, d: CasDirectory) {
    var es := Entries(policy, d);
    && Canonical(d)
    && Distinct(Names(es))
    && forall i :: 0 <= i < |es| ==> Presentable(es[i])
  }

  /** Looking up a name succeeds exactly when a complete listing reports it, and
      yields the very child that was reported. */
  lemma LookupAgreesWithListing(policy: Policy, d: CasDirectory, n: Bytes, capacities: seq<nat>, child: Child)
    requires WellFormedDirectory(policy, d) && Sum(capacities) >= |Entries(policy, d)|
    ensures VirtualLookup(policy, Success(d), n) == Success(child) <==>
            exists r :: r in Pages(Entries(policy, d), 0, capacities) && r.entry == Entry(n, Some(child))
    ensures VirtualLookup(policy, Success(d), n) == Failure(ErrNoEnt) <==>
            forall r :: r in Pages(Entries(policy, d), 0, capacities) ==> r.entry.name != n
  {
    hide VirtualLookup, Pages;
    var es := Entries(policy, d);
    var listing := FullListing(es);
    PagesListEverything(es, capacities);
    LookupIsSearch(policy, d, n);
    var first := FirstNamed(es, n);
    if first.Some? {
      var i :| 0 <= i < |es| && es[i] == first.value;
      assert listing[i].entry == first.value;
      forall r | r in listing && r.entry.name == n ensures r.entry == first.value {
        var k :| 0 <= k < |listing| && listing[k] == r;
        assert Names(es)[k] == Names(es)[i];
      }
    }
  }

  // What it comes down to, said of the message itself.

  function AllNames(d: CasDirectory): seq<Bytes> {
    DirectoryNames(d) + FileNames(d) + SymlinkNames(d)
  }

  lemma FindsAt(names: seq<Bytes>, k: nat)
    requires Sorted(names) && Distinct(names) && k < |names|
    ensures Find(names, names[k]) == Some(k)
  {
    FindsFirst(names, names[k]);
  }

  lemma AbsentIsNotFound(names: seq<Bytes>, n: Bytes)
    requires Sorted(names) && n !in names
    ensures Find(names, n) == None
  {
    FindsFirst(names, n);
  }

  lemma NamesAreApart(d: CasDirectory)
    requires Distinct(AllNames(d))
    ensures Distinct(DirectoryNames(d)) && Distinct(FileNames(d)) && Distinct(SymlinkNames(d))
    ensures forall n :: n in FileNames(d) ==> n !in DirectoryNames(d)
    ensures forall n :: n in SymlinkNames(d) ==> n !in DirectoryNames(d) && n !in FileNames(d)
  {
    var a, b, c := DirectoryNames(d), FileNames(d), SymlinkNames(d);
    var all := AllNames(d);
    assert forall i :: 0 <= i < |a| ==> all[i] == a[i];
    assert forall i :: 0 <= i < |b| ==> all[|a| + i] == b[i];
    assert forall i :: 0 <= i < |c| ==> all[|a| + |b| + i] == c[i];
  }

  /** Looking up or opening the name of a directory. */
  lemma FindsDirectories(policy: Policy, d: CasDirectory, k: nat, existing: bool)
    requires Canonical(d) && Distinct(AllNames(d)) && k < |d.directories|
    ensures var n := d.directories[k];
            && VirtualLookup(policy, Success(d), n.name) ==
               (if n.digest.Some? && policy.acceptsDigest(n.digest.value) then Success(ChildDirectory(n.digest.value))
                else Failure(ErrIO))
            && VirtualOpenChild(policy, Success(d), n.name, existing) == Refused(if existing then ErrIsDir else ErrExist)
  {
    hide Find, Sorted, Distinct;
    NamesAreApart(d);
    FindsAt(DirectoryNames(d), k);
  }

  /** Looking up or opening the name of a file. */
  lemma FindsFiles(policy: Policy, d: CasDirectory, k: nat, existing: bool)
    requires Canonical(d) && Distinct(AllNames(d)) && k < |d.files|
    ensures var n := d.files[k];
            var good := n.digest.Some? && policy.acceptsDigest(n.digest.value);
            && VirtualLookup(policy, Success(d), n.name) ==
               (if good then Success(ChildFile(n.digest.value, n.isExecutable)) else Failure(ErrIO))
            && VirtualOpenChild(policy, Success(d), n.name, existing) ==
               (if !existing then Refused(ErrExist)
                else if good then Opened(ChildFile(n.digest.value, n.isExecutable))
                else Refused(ErrIO))
  {
    hide Find, Sorted, Distinct;
    NamesAreApart(d);
    assert FileNames(d)[k] in FileNames(d);
    AbsentIsNotFound(DirectoryNames(d), d.files[k].name);
    FindsAt(FileNames(d), k);
  }

  /** Looking up or opening the name of a symbolic link. */
  lemma FindsSymlinks(policy: Policy, d: CasDirectory, k: nat, existing: bool)
    requires Canonical(d) && Distinct(AllNames(d)) && k < |d.symlinks|
    ensures var n := d.symlinks[k];
            && VirtualLookup(policy, Success(d), n.name) ==
               (if policy.acceptsTarget(n.target) then Success(ChildSymlink(k, n.target)) else Failure(ErrIO))
            && VirtualOpenChild(policy, Success(d), n.name, existing) == Refused(if existing then ErrSymlink else ErrExist)
  {
    hide Find, Sorted, Distinct;
    NamesAreApart(d);
    assert SymlinkNames(d)[k] in SymlinkNames(d);
    AbsentIsNotFound(DirectoryNames(d), d.symlinks[k].name);
    AbsentIsNotFound(FileNames(d), d.symlinks[k].name);
    FindsAt(SymlinkNames(d), k);
  }

  /** Looking up or opening a name that there is not, or in a directory that cannot
      be loaded. */
  lemma FindsNothing(policy: Policy, d: CasDirectory, n: Bytes, existing: bool, status: Status)
    requires Canonical(d) && n !in AllNames(d)
    ensures VirtualLookup(policy, Success(d), n) == Failure(ErrNoEnt)
    ensures VirtualOpenChild(policy, Success(d), n, existing) == Missing
    ensures VirtualLookup(policy, Failure(status), n) == Failure(status)
    ensures VirtualOpenChild(policy, Failure(status), n, existing) == Refused(status)
  {
    hide Find, Sorted;
    AbsentIsNotFound(DirectoryNames(d), n);
    AbsentIsNotFound(FileNames(d), n);
    AbsentIsNotFound(SymlinkNames(d), n);
  }

  /** What is reported for the entry at an index: its name and child as the message
      has them, and the index of its successor as its cookie. */
  predicate IsReportOf(policy: Policy, d: CasDirectory, i: nat, r: Report) {
    var n, m := |d.directories|, |d.directories| + |d.files|;
    && r.cookie == i + 1
    && i < m + |d.symlinks|
    && ValidComponent(r.entry.name)
    && if i < n then
         var node := d.directories[i];
         && r.entry.name == node.name && node.digest.Some? && policy.acceptsDigest(node.digest.value)
         && r.entry.child == Some(ChildDirectory(node.digest.value))
       else if i < m then
         var node := d.files[i - n];
         && r.entry.name == node.name && node.digest.Some? && policy.acceptsDigest(node.digest.value)
         && r.entry.child == Some(ChildFile(node.digest.value, node.isExecutable))
       else
         var node := d.symlinks[i - m];
         && r.entry.name == node.name && policy.acceptsTarget(node.target)
         && r.entry.child == Some(ChildSymlink(i - m, node.target))
  }

  /** Whether the entry at an index can be reported. */
  predicate CanReport(policy: Policy, d: CasDirectory, i: nat)
    requires i < |d.directories| + |d.files| + |d.symlinks|
  {
    var n, m := |d.directories|, |d.directories| + |d.files|;
    if i < n then
      var node := d.directories[i];
      ValidComponent(node.name) && node.digest.Some? && policy.acceptsDigest(node.digest.value)
    else if i < m then
      var node := d.files[i - n];
      ValidComponent(node.name) && node.digest.Some? && policy.acceptsDigest(node.digest.value)
    else
      var node := d.symlinks[i - m];
      ValidComponent(node.name) && policy.acceptsTarget(node.target)
  }

  lemma EntryIsOfMessage(policy: Policy, d: CasDirectory, i: nat)
    requires i < |d.directories| + |d.files| + |d.symlinks|
    ensures |Entries(policy, d)| == |d.directories| + |d.files| + |d.symlinks|
    ensures Presentable(Entries(policy, d)[i]) <==> CanReport(policy, d, i)
    ensures Presentable(Entries(policy, d)[i]) ==> IsReportOf(policy, d, i, Report(i + 1, Entries(policy, d)[i]))
  {
  }

  /** A page of a listing, said of the message: the entries from the cookie on, and
      why it ends. */
  lemma PageOfMessage(policy: Policy, d: CasDirectory, from: nat, capacity: nat)
    ensures var (reported, status) := Page(Entries(policy, d), from, capacity);
            var total := |d.directories| + |d.files| + |d.symlinks|;
            && |reported| <= capacity
            && (forall k :: 0 <= k < |reported| ==> IsReportOf(policy, d, from + k, reported[k]))
            && (if from + |reported| >= total then status == OK
                else if CanReport(policy, d, from + |reported|) then status == OK && |reported| == capacity
                else status == ErrIO)
  {
    hide IsReportOf, CanReport, Presentable, Page, Entries;
    var es := Entries(policy, d);
    var (reported, status) := Page(es, from, capacity);
    var total := |d.directories| + |d.files| + |d.symlinks|;
    EntryCount(policy, d);
    PageIsConsecutive(es, from, capacity);
    forall i: nat | i < total
      ensures Presentable(es[i]) <==> CanReport(policy, d, i)
      ensures Presentable(es[i]) ==> IsReportOf(policy, d, i, Report(i + 1, es[i]))
    {
      EntryIsOfMessage(policy, d, i);
    }
    forall k | 0 <= k < |reported| ensures IsReportOf(policy, d, from + k, reported[k]) {
      assert IsReport(es, from + k, reported[k]);
    }
  }

  lemma EntryCount(policy: Policy, d: CasDirectory)
    ensures |Entries(policy, d)| == |d.directories| + |d.files| + |d.symlinks|
  {
  }
}
