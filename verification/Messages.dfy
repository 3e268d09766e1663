/** The messages of an output path state file, with their marshaled form.
    Files, symbolic links and digests are those of the Remote Execution API v2. */
module Messages {
  import opened Wrappers
  import opened ByteStrings
  import opened Wire

  datatype FileRegion = FileRegion(offsetBytes: Int64, sizeBytes: Int32)
  datatype DirectoryNode = DirectoryNode(name: Bytes, fileRegion: Option<FileRegion>)
  datatype Digest = Digest(hash: Bytes, sizeBytes: Int64)
  datatype FileNode = FileNode(name: Bytes, digest: Option<Digest>, isExecutable: bool)
  datatype SymlinkNode = SymlinkNode(name: Bytes, target: Bytes)
  datatype Directory = Directory(
    files: seq<FileNode>,
    directories: seq<DirectoryNode>,
    symlinks: seq<SymlinkNode>)
  datatype Timestamp = Timestamp(seconds: Int64, nanos: Int32)
  datatype RootDirectory = RootDirectory(
    initialCreationTime: Option<Timestamp>,
    contents: Option<Directory>)

  const EMPTY_DIRECTORY := Directory([], [], [])

  // Members of each message, in the order in which they are marshaled.

  function RegionFields(r: FileRegion): seq<Field> {
    ScalarField(1, r.offsetBytes) + ScalarField(2, r.sizeBytes)
  }

  function DirectoryNodeFields(n: DirectoryNode): seq<Field> {
    StringField(1, n.name) +
    MessageField(2, if n.fileRegion == None then None else Some(RegionFields(n.fileRegion.value)))
  }

  function DigestFields(d: Digest): seq<Field> {
    StringField(1, d.hash) + ScalarField(2, d.sizeBytes)
  }

  function FileNodeFields(n: FileNode): seq<Field> {
    StringField(1, n.name) +
    MessageField(2, if n.digest == None then None else Some(DigestFields(n.digest.value))) +
    ScalarField(4, if n.isExecutable then 1 else 0)
  }

  function SymlinkNodeFields(n: SymlinkNode): seq<Field> {
    StringField(1, n.name) + StringField(2, n.target)
  }

  function FileFields(d: Directory): seq<seq<Field>> {
    seq(|d.files|, i requires 0 <= i < |d.files| => FileNodeFields(d.files[i]))
  }

  function SubdirectoryFields(d: Directory): seq<seq<Field>> {
    seq(|d.directories|, i requires 0 <= i < |d.directories| => DirectoryNodeFields(d.directories[i]))
  }

  function SymlinkFields(d: Directory): seq<seq<Field>> {
    seq(|d.symlinks|, i requires 0 <= i < |d.symlinks| => SymlinkNodeFields(d.symlinks[i]))
  }

  function DirectoryFields(d: Directory): seq<Field> {
    RepeatedField(1, FileFields(d)) + RepeatedField(2, SubdirectoryFields(d)) + RepeatedField(3, SymlinkFields(d))
  }

  function TimestampFields(t: Timestamp): seq<Field> {
    ScalarField(1, t.seconds) + ScalarField(2, t.nanos)
  }

  function RootDirectoryFields(r: RootDirectory): seq<Field> {
    MessageField(1, if r.initialCreationTime == None then None else Some(TimestampFields(r.initialCreationTime.value))) +
    MessageField(2, if r.contents == None then None else Some(DirectoryFields(r.contents.value)))
  }

  // Strings that are not valid UTF-8 make marshaling fail.

  predicate FileNodeUtf8(n: FileNode) {
    Utf8(n.name) && (n.digest.Some? ==> Utf8(n.digest.value.hash))
  }

  predicate SymlinkNodeUtf8(n: SymlinkNode) {
    Utf8(n.name) && Utf8(n.target)
  }

  predicate DirectoryUtf8(d: Directory) {
    && (forall n :: n in d.files ==> FileNodeUtf8(n))
    && (forall n :: n in d.directories ==> Utf8(n.name))
    && (forall n :: n in d.symlinks ==> SymlinkNodeUtf8(n))
  }

  function MarshalDirectory(d: Directory): Option<Bytes> {
    if DirectoryUtf8(d) then Some(Serialize(DirectoryFields(d))) else None
  }

  function MarshalRootDirectory(r: RootDirectory): Option<Bytes> {
    if r.contents.Some? && !DirectoryUtf8(r.contents.value) then None
    else Some(Serialize(RootDirectoryFields(r)))
  }

  // Interpretation of parsed fields as a message.

  function RegionFromFields(fs: seq<Field>): FileRegion {
    FileRegion(ToInt64(LastScalar(fs, 1)), ToInt32(LastScalar(fs, 2)))
  }

  function DirectoryNodeFromFields(fs: seq<Field>): Option<DirectoryNode> {
    var name :- LastString(fs, 1);
    var region :- MergedMessage(fs, 2);
    Some(DirectoryNode(name, if region == None then None else Some(RegionFromFields(region.value))))
  }

  function DigestFromFields(fs: seq<Field>): Option<Digest> {
    var hash :- LastString(fs, 1);
    Some(Digest(hash, ToInt64(LastScalar(fs, 2))))
  }

  function FileNodeFromFields(fs: seq<Field>): Option<FileNode> {
    var name :- LastString(fs, 1);
    var digest :- MergedMessage(fs, 2);
    var isExecutable := LastScalar(fs, 4) != 0;
    if digest == None then Some(FileNode(name, None, isExecutable))
    else
      var d :- DigestFromFields(digest.value);
      Some(FileNode(name, Some(d), isExecutable))
  }

  function SymlinkNodeFromFields(fs: seq<Field>): Option<SymlinkNode> {
    var name :- LastString(fs, 1);
    var target :- LastString(fs, 2);
    Some(SymlinkNode(name, target))
  }

  function ParseDirectoryNode(p: Bytes): Option<DirectoryNode> {
    var fs :- Parse(p);
    DirectoryNodeFromFields(fs)
  }

  function ParseFileNode(p: Bytes): Option<FileNode> {
    var fs :- Parse(p);
    FileNodeFromFields(fs)
  }

  function ParseSymlinkNode(p: Bytes): Option<SymlinkNode> {
    var fs :- Parse(p);
    SymlinkNodeFromFields(fs)
  }

  function DirectoryFromFields(fs: seq<Field>): Option<Directory> {
    var files :- TryMap(ParseFileNode, Payloads(fs, 1));
    var directories :- TryMap(ParseDirectoryNode, Payloads(fs, 2));
    var symlinks :- TryMap(ParseSymlinkNode, Payloads(fs, 3));
    Some(Directory(files, directories, symlinks))
  }

  function TimestampFromFields(fs: seq<Field>): Timestamp {
    Timestamp(ToInt64(LastScalar(fs, 1)), ToInt32(LastScalar(fs, 2)))
  }

  function ReadCreationTime(fs: seq<Field>): Option<Option<Timestamp>> {
    var time :- MergedMessage(fs, 1);
    Some(if time == None then None else Some(TimestampFromFields(time.value)))
  }

  function ReadContents(fs: seq<Field>): Option<Option<Directory>> {
    var contents :- MergedMessage(fs, 2);
    if contents == None then Some(None)
    else
      var d :- DirectoryFromFields(contents.value);
      Some(Some(d))
  }

  function RootDirectoryFromFields(fs: seq<Field>): Option<RootDirectory> {
    var time :- ReadCreationTime(fs);
    var contents :- ReadContents(fs);
    Some(RootDirectory(time, contents))
  }

  function UnmarshalDirectory(s: Bytes): Option<Directory> {
    var fs :- Parse(s);
    DirectoryFromFields(fs)
  }

  function UnmarshalRootDirectory(s: Bytes): Option<RootDirectory> {
    var fs :- Parse(s);
    RootDirectoryFromFields(fs)
  }

  // Round trips, from the leaves of the message hierarchy upwards.

  // A file region and a timestamp are both a pair of an int64 and an int32.
  lemma PairRoundTrip(x: Int64, y: Int32)
    ensures var fs := ScalarField(1, x) + ScalarField(2, y);
            && Emitted(fs)
            && ToInt64(LastScalar(fs, 1)) == x
            && ToInt32(LastScalar(fs, 2)) == y
  {
    var a, b := ScalarField(1, x), ScalarField(2, y);
    ScalarFieldAt(1, x, 1);
    ScalarFieldAt(1, x, 2);
    ScalarFieldAt(2, y, 1);
    ScalarFieldAt(2, y, 2);
    EmittedConcat(a, b);
    ScalarsConcat(a, b, 1);
    ScalarsConcat(a, b, 2);
  }

  lemma RegionRoundTrip(r: FileRegion)
    ensures Emitted(RegionFields(r)) && RegionFromFields(RegionFields(r)) == r
  {
    PairRoundTrip(r.offsetBytes, r.sizeBytes);
  }

  lemma TimestampRoundTrip(t: Timestamp)
    ensures Emitted(TimestampFields(t)) && TimestampFromFields(TimestampFields(t)) == t
  {
    PairRoundTrip(t.seconds, t.nanos);
  }

  lemma DigestRoundTrip(d: Digest)
    requires Utf8(d.hash)
    ensures DigestFromFields(DigestFields(d)) == Some(d)
  {
    PayloadsConcat(StringField(1, d.hash), ScalarField(2, d.sizeBytes), 1);
    ScalarsConcat(StringField(1, d.hash), ScalarField(2, d.sizeBytes), 2);
  }

  // The payload of a singular message member comes back as the same fields.
  lemma MemberMessage(number: nat, fs: seq<Field>, inner: seq<Field>)
    requires Payloads(fs, number) == [Serialize(inner)]
    requires Emitted(inner) && |Serialize(fs)| < TWO_64
    ensures MergedMessage(fs, number) == Some(Some(inner))
    ensures |Serialize(inner)| < TWO_64
  {
    var all := Payloads(fs, number);
    assert all[0] in all;
    PayloadIsField(fs, number, Serialize(inner));
    PayloadFits(fs, Delimited(number, Serialize(inner)));
    EmittedRoundTrip(inner);
    assert all[1..] == [];
    assert MergePayloads(all) == Some(inner + []);
    assert inner + [] == inner;
  }

  lemma DirectoryNodeFieldsAt(n: DirectoryNode, k: nat)
    ensures Payloads(DirectoryNodeFields(n), k) ==
            (if k == 1 && n.name != [] then [n.name]
             else if k == 2 && n.fileRegion.Some? then [Serialize(RegionFields(n.fileRegion.value))]
             else [])
  {
    var region := if n.fileRegion == None then None else Some(RegionFields(n.fileRegion.value));
    PayloadsConcat(StringField(1, n.name), MessageField(2, region), k);
    StringFieldAt(1, n.name, k);
    MessageFieldAt(2, region, k);
  }

  // Any fields that hold the members of `n` are interpreted as `n`.
  lemma DirectoryNodeFromMembers(n: DirectoryNode, fs: seq<Field>)
    requires Utf8(n.name) && |Serialize(fs)| < TWO_64
    requires Payloads(fs, 1) == if n.name == [] then [] else [n.name]
    requires Payloads(fs, 2) == if n.fileRegion == None then [] else [Serialize(RegionFields(n.fileRegion.value))]
    ensures DirectoryNodeFromFields(fs) == Some(n)
  {
    LastStringIs(fs, 1, n.name);
    if n.fileRegion.Some? {
      var inner := RegionFields(n.fileRegion.value);
      RegionRoundTrip(n.fileRegion.value);
      MemberMessage(2, fs, inner);
    }
  }

  lemma DirectoryNodeRoundTrip(n: DirectoryNode)
    requires Utf8(n.name) && |Serialize(DirectoryNodeFields(n))| < TWO_64
    ensures ParseDirectoryNode(Serialize(DirectoryNodeFields(n))) == Some(n)
  {
    EmittedRoundTrip(DirectoryNodeFields(n));
    DirectoryNodeFieldsAt(n, 1);
    DirectoryNodeFieldsAt(n, 2);
    DirectoryNodeFromMembers(n, DirectoryNodeFields(n));
  }

  lemma FileNodeFieldsAt(n: FileNode, k: nat)
    ensures Payloads(FileNodeFields(n), k) ==
            (if k == 1 && n.name != [] then [n.name]
             else if k == 2 && n.digest.Some? then [Serialize(DigestFields(n.digest.value))]
             else [])
    ensures Scalars(FileNodeFields(n), k) == if k == 4 && n.isExecutable then [1] else []
  {
    var digest := if n.digest == None then None else Some(DigestFields(n.digest.value));
    var isExecutable := if n.isExecutable then 1 else 0;
    ConcatAt(StringField(1, n.name), MessageField(2, digest), ScalarField(4, isExecutable), k);
    StringFieldAt(1, n.name, k);
    MessageFieldAt(2, digest, k);
    ScalarFieldAt(4, isExecutable, k);
  }

  lemma FileNodeEmitted(n: FileNode)
    ensures Emitted(FileNodeFields(n))
  {
    var digest := if n.digest == None then None else Some(DigestFields(n.digest.value));
    var isExecutable := if n.isExecutable then 1 else 0;
    EmittedConcat(StringField(1, n.name), MessageField(2, digest));
    EmittedConcat(StringField(1, n.name) + MessageField(2, digest), ScalarField(4, isExecutable));
  }

  // Any fields that hold the members of `n` are interpreted as `n`.
  lemma FileNodeFromMembers(n: FileNode, fs: seq<Field>)
    requires FileNodeUtf8(n) && |Serialize(fs)| < TWO_64
    requires Payloads(fs, 1) == if n.name == [] then [] else [n.name]
    requires Payloads(fs, 2) == if n.digest == None then [] else [Serialize(DigestFields(n.digest.value))]
    requires Scalars(fs, 4) == if n.isExecutable then [1] else []
    ensures FileNodeFromFields(fs) == Some(n)
  {
    LastStringIs(fs, 1, n.name);
    if n.digest.Some? {
      var inner := DigestFields(n.digest.value);
      MemberMessage(2, fs, inner);
      DigestRoundTrip(n.digest.value);
    }
  }

  lemma FileNodeRoundTrip(n: FileNode)
    requires FileNodeUtf8(n) && |Serialize(FileNodeFields(n))| < TWO_64
    ensures ParseFileNode(Serialize(FileNodeFields(n))) == Some(n)
  {
    FileNodeEmitted(n);
    EmittedRoundTrip(FileNodeFields(n));
    FileNodeFieldsAt(n, 1);
    FileNodeFieldsAt(n, 2);
    FileNodeFieldsAt(n, 4);
    FileNodeFromMembers(n, FileNodeFields(n));
  }

  lemma SymlinkNodeFieldsAt(n: SymlinkNode, k: nat)
    ensures Payloads(SymlinkNodeFields(n), k) ==
            (if k == 1 && n.name != [] then [n.name] else if k == 2 && n.target != [] then [n.target] else [])
  {
    PayloadsConcat(StringField(1, n.name), StringField(2, n.target), k);
    StringFieldAt(1, n.name, k);
    StringFieldAt(2, n.target, k);
  }

  lemma SymlinkNodeRoundTrip(n: SymlinkNode)
    requires SymlinkNodeUtf8(n) && |Serialize(SymlinkNodeFields(n))| < TWO_64
    ensures ParseSymlinkNode(Serialize(SymlinkNodeFields(n))) == Some(n)
  {
    var fs := SymlinkNodeFields(n);
    EmittedRoundTrip(fs);
    SymlinkNodeFieldsAt(n, 1);
    SymlinkNodeFieldsAt(n, 2);
    LastStringIs(fs, 1, n.name);
    LastStringIs(fs, 2, n.target);
  }

  // Each of three repeated members is found at its own number, and only there.
  lemma ThreeRepeated(ms1: seq<seq<Field>>, ms2: seq<seq<Field>>, ms3: seq<seq<Field>>)
    ensures var fs := RepeatedField(1, ms1) + RepeatedField(2, ms2) + RepeatedField(3, ms3);
            && Payloads(fs, 1) == Payloads(RepeatedField(1, ms1), 1)
            && Payloads(fs, 2) == Payloads(RepeatedField(2, ms2), 2)
            && Payloads(fs, 3) == Payloads(RepeatedField(3, ms3), 3)
  {
    var a, b, c := RepeatedField(1, ms1), RepeatedField(2, ms2), RepeatedField(3, ms3);
    forall n | n in {1, 2, 3}
      ensures Payloads(a + b + c, n) == Payloads(a, n) + Payloads(b, n) + Payloads(c, n)
      ensures n != 1 ==> Payloads(a, n) == []
      ensures n != 2 ==> Payloads(b, n) == []
      ensures n != 3 ==> Payloads(c, n) == []
    {
      PayloadsConcat(a + b, c, n);
      PayloadsConcat(a, b, n);
      RepeatedPayloads(1, ms1, n);
      RepeatedPayloads(2, ms2, n);
      RepeatedPayloads(3, ms3, n);
    }
  }

  lemma PayloadsOfMember(number: nat, ms: seq<seq<Field>>, at: nat, fs: seq<Field>)
    requires at + |RepeatedField(number, ms)| <= |fs|
    requires fs[at..at + |RepeatedField(number, ms)|] == RepeatedField(number, ms)
    requires Payloads(fs, number) == Payloads(RepeatedField(number, ms), number)
    ensures |Payloads(fs, number)| == |ms|
    ensures forall i :: 0 <= i < |ms| ==>
              Payloads(fs, number)[i] == Serialize(ms[i]) && Delimited(number, Serialize(ms[i])) in fs
  {
    RepeatedPayloads(number, ms, number);
    forall i | 0 <= i < |ms| ensures Delimited(number, Serialize(ms[i])) in fs {
      assert fs[at + i] == RepeatedField(number, ms)[i];
    }
  }

  lemma DirectoryEmitted(d: Directory)
    ensures Emitted(DirectoryFields(d))
  {
    var a, b, c := RepeatedField(1, FileFields(d)), RepeatedField(2, SubdirectoryFields(d)), RepeatedField(3, SymlinkFields(d));
    RepeatedPayloads(1, FileFields(d), 1);
    RepeatedPayloads(2, SubdirectoryFields(d), 2);
    RepeatedPayloads(3, SymlinkFields(d), 3);
    EmittedConcat(a, b);
    EmittedConcat(a + b, c);
  }

  // What the members of a directory look like among its fields.
  lemma FileMembers(d: Directory)
    ensures var fs := DirectoryFields(d);
            && |Payloads(fs, 1)| == |d.files|
            && forall i :: 0 <= i < |d.files| ==>
                 var p := Serialize(FileNodeFields(d.files[i]));
                 Payloads(fs, 1)[i] == p && Delimited(1, p) in fs
  {
    ThreeRepeated(FileFields(d), SubdirectoryFields(d), SymlinkFields(d));
    PayloadsOfMember(1, FileFields(d), 0, DirectoryFields(d));
    forall i | 0 <= i < |d.files| ensures FileFields(d)[i] == FileNodeFields(d.files[i]) {
    }
  }

  lemma SubdirectoryMembers(d: Directory)
    ensures var fs := DirectoryFields(d);
            && |Payloads(fs, 2)| == |d.directories|
            && forall i :: 0 <= i < |d.directories| ==>
                 var p := Serialize(DirectoryNodeFields(d.directories[i]));
                 Payloads(fs, 2)[i] == p && Delimited(2, p) in fs
  {
    ThreeRepeated(FileFields(d), SubdirectoryFields(d), SymlinkFields(d));
    PayloadsOfMember(2, SubdirectoryFields(d), |RepeatedField(1, FileFields(d))|, DirectoryFields(d));
    forall i | 0 <= i < |d.directories| ensures SubdirectoryFields(d)[i] == DirectoryNodeFields(d.directories[i]) {
    }
  }

  lemma SymlinkMembers(d: Directory)
    ensures var fs := DirectoryFields(d);
            && |Payloads(fs, 3)| == |d.symlinks|
            && forall i :: 0 <= i < |d.symlinks| ==>
                 var p := Serialize(SymlinkNodeFields(d.symlinks[i]));
                 Payloads(fs, 3)[i] == p && Delimited(3, p) in fs
  {
    ThreeRepeated(FileFields(d), SubdirectoryFields(d), SymlinkFields(d));
    PayloadsOfMember(3, SymlinkFields(d), |RepeatedField(1, FileFields(d))| + |RepeatedField(2, SubdirectoryFields(d))|, DirectoryFields(d));
    forall i | 0 <= i < |d.symlinks| ensures SymlinkFields(d)[i] == SymlinkNodeFields(d.symlinks[i]) {
    }
  }

  lemma FilesReadBack(d: Directory)
    requires DirectoryUtf8(d) && |Serialize(DirectoryFields(d))| < TWO_64
    ensures TryMap(ParseFileNode, Payloads(DirectoryFields(d), 1)) == Some(d.files)
  {
    var fs := DirectoryFields(d);
    FileMembers(d);
    forall i | 0 <= i < |d.files| ensures ParseFileNode(Payloads(fs, 1)[i]) == Some(d.files[i]) {
      PayloadFits(fs, Delimited(1, Serialize(FileNodeFields(d.files[i]))));
      FileNodeRoundTrip(d.files[i]);
    }
    TryMapAll(ParseFileNode, Payloads(fs, 1), d.files);
  }

  lemma SubdirectoriesReadBack(d: Directory)
    requires DirectoryUtf8(d) && |Serialize(DirectoryFields(d))| < TWO_64
    ensures TryMap(ParseDirectoryNode, Payloads(DirectoryFields(d), 2)) == Some(d.directories)
  {
    var fs := DirectoryFields(d);
    SubdirectoryMembers(d);
    forall i | 0 <= i < |d.directories| ensures ParseDirectoryNode(Payloads(fs, 2)[i]) == Some(d.directories[i]) {
      PayloadFits(fs, Delimited(2, Serialize(DirectoryNodeFields(d.directories[i]))));
      DirectoryNodeRoundTrip(d.directories[i]);
    }
    TryMapAll(ParseDirectoryNode, Payloads(fs, 2), d.directories);
  }

  lemma SymlinksReadBack(d: Directory)
    requires DirectoryUtf8(d) && |Serialize(DirectoryFields(d))| < TWO_64
    ensures TryMap(ParseSymlinkNode, Payloads(DirectoryFields(d), 3)) == Some(d.symlinks)
  {
    var fs := DirectoryFields(d);
    SymlinkMembers(d);
    forall i | 0 <= i < |d.symlinks| ensures ParseSymlinkNode(Payloads(fs, 3)[i]) == Some(d.symlinks[i]) {
      PayloadFits(fs, Delimited(3, Serialize(SymlinkNodeFields(d.symlinks[i]))));
      SymlinkNodeRoundTrip(d.symlinks[i]);
    }
    TryMapAll(ParseSymlinkNode, Payloads(fs, 3), d.symlinks);
  }

  lemma DirectoryFieldsRoundTrip(d: Directory)
    requires DirectoryUtf8(d) && |Serialize(DirectoryFields(d))| < TWO_64
    ensures DirectoryFromFields(DirectoryFields(d)) == Some(d)
  {
    FilesReadBack(d);
    SubdirectoriesReadBack(d);
    SymlinksReadBack(d);
  }

  /** A directory that can be marshaled is unmarshaled to itself. */
  lemma DirectoryRoundTrip(d: Directory)
    requires MarshalDirectory(d).Some? && |MarshalDirectory(d).value| < TWO_64
    ensures UnmarshalDirectory(MarshalDirectory(d).value) == Some(d)
  {
    DirectoryEmitted(d);
    DirectoryFieldsRoundTrip(d);
    EmittedRoundTrip(DirectoryFields(d));
  }

  /** Only the directory without any entries marshals to zero bytes. */
  lemma OnlyEmptyDirectoryIsEmpty(d: Directory)
    ensures MarshalDirectory(d) == Some([]) <==> d == EMPTY_DIRECTORY
  {
    SerializeEmpty(DirectoryFields(d));
    RepeatedPayloads(1, FileFields(d), 1);
    RepeatedPayloads(2, SubdirectoryFields(d), 2);
    RepeatedPayloads(3, SymlinkFields(d), 3);
  }

  lemma RootDirectoryFieldsAt(r: RootDirectory, k: nat)
    ensures Payloads(RootDirectoryFields(r), k) ==
            (if k == 1 && r.initialCreationTime.Some? then [Serialize(TimestampFields(r.initialCreationTime.value))]
             else if k == 2 && r.contents.Some? then [Serialize(DirectoryFields(r.contents.value))]
             else [])
  {
    var time := if r.initialCreationTime == None then None else Some(TimestampFields(r.initialCreationTime.value));
    var contents := if r.contents == None then None else Some(DirectoryFields(r.contents.value));
    PayloadsConcat(MessageField(1, time), MessageField(2, contents), k);
    MessageFieldAt(1, time, k);
    MessageFieldAt(2, contents, k);
  }

  lemma CreationTimeMember(t: Option<Timestamp>, fs: seq<Field>)
    requires |Serialize(fs)| < TWO_64
    requires Payloads(fs, 1) == if t == None then [] else [Serialize(TimestampFields(t.value))]
    ensures ReadCreationTime(fs) == Some(t)
  {
    if t.Some? {
      TimestampRoundTrip(t.value);
      MemberMessage(1, fs, TimestampFields(t.value));
    }
  }

  lemma ContentsMember(d: Option<Directory>, fs: seq<Field>)
    requires |Serialize(fs)| < TWO_64 && (d.Some? ==> DirectoryUtf8(d.value))
    requires Payloads(fs, 2) == if d == None then [] else [Serialize(DirectoryFields(d.value))]
    ensures ReadContents(fs) == Some(d)
  {
    if d.Some? {
      DirectoryEmitted(d.value);
      MemberMessage(2, fs, DirectoryFields(d.value));
      DirectoryFieldsRoundTrip(d.value);
    }
  }

  /** A root directory that can be marshaled is unmarshaled to itself, keeping
      apart absent and empty contents. */
  lemma RootDirectoryRoundTrip(r: RootDirectory)
    requires MarshalRootDirectory(r).Some? && |MarshalRootDirectory(r).value| < TWO_64
    ensures UnmarshalRootDirectory(MarshalRootDirectory(r).value) == Some(r)
  {
    var fs := RootDirectoryFields(r);
    RootDirectoryFieldsAt(r, 1);
    RootDirectoryFieldsAt(r, 2);
    EmittedRoundTrip(fs);
    CreationTimeMember(r.initialCreationTime, fs);
    ContentsMember(r.contents, fs);
  }

  /** A root directory with contents never marshals to zero bytes. */
  lemma RootDirectoryIsStored(r: RootDirectory)
    requires r.contents.Some?
    ensures MarshalRootDirectory(r) != Some([])
  {
    SerializeEmpty(RootDirectoryFields(r));
  }
}
