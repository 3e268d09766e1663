/** What a state file means: flattening an output path into the bytes of a file,
    rebuilding an output path from such bytes, and the proof that the second
    undoes the first. */
module OutputPathState {
  import opened Wrappers
  import opened ByteStrings
  import opened Messages
  import opened FileReader

  // An output path as its directories list it: every directory yields its
  // subdirectories and its leaves in some order. A transient leaf, such as a
  // file that is backed by a file pool, does not add itself to a state file.

  datatype Leaf = File(digest: Digest, isExecutable: bool) | Symlink(target: Bytes) | Transient
  datatype NamedLeaf = NamedLeaf(name: Bytes, leaf: Leaf)
  datatype Subdirectory = Subdirectory(name: Bytes, child: Tree)
  datatype Tree = Tree(directories: seq<Subdirectory>, leaves: seq<NamedLeaf>)

  function Ascii(s: string): Bytes {
    seq(|s|, i requires 0 <= i < |s| => s[i] as int % 256)
  }

  const STABLE_STATUS := Ascii("stable-status.txt")
  const VOLATILE_STATUS := Ascii("volatile-status.txt")

  predicate Skipped(l: NamedLeaf, isRoot: bool) {
    (isRoot && (l.name == STABLE_STATUS || l.name == VOLATILE_STATUS)) || l.leaf.Transient?
  }

  function FileNodes(leaves: seq<NamedLeaf>, isRoot: bool): seq<FileNode> {
    if leaves == [] then []
    else
      var l := leaves[|leaves| - 1];
      FileNodes(leaves[..|leaves| - 1], isRoot) +
      if Skipped(l, isRoot) || !l.leaf.File? then []
      else [FileNode(l.name, Some(l.leaf.digest), l.leaf.isExecutable)]
  }

  function SymlinkNodes(leaves: seq<NamedLeaf>, isRoot: bool): seq<SymlinkNode> {
    if leaves == [] then []
    else
      var l := leaves[|leaves| - 1];
      SymlinkNodes(leaves[..|leaves| - 1], isRoot) +
      if Skipped(l, isRoot) || !l.leaf.Symlink? then [] else [SymlinkNode(l.name, l.leaf.target)]
  }

  // Saving. The image is everything that follows the header. Children are
  // stored before their parents, and empty directories are not stored.

  function WriteMessage(image: Bytes, data: Bytes): (Option<FileRegion>, Bytes) {
    if data == [] then (None, image)
    else (Some(FileRegion(ToInt64(HEADER_SIZE_BYTES + |image|), ToInt32(|data|))), image + data)
  }

  function Max(a: int, b: int): int {
    if a < b then b else a
  }

  /** A saved directory, the image that holds its descendants, and the size of
      the largest message written for them. */
  datatype Saved<T> = Saved(value: T, image: Bytes, largest: int)

  function SaveDirectory(t: Tree, isRoot: bool, image: Bytes): Option<Saved<Directory>>
    decreases t, 1
  {
    var s :- SaveSubdirectories(t.directories, image);
    Some(Saved(Directory(FileNodes(t.leaves, isRoot), s.value, SymlinkNodes(t.leaves, isRoot)), s.image, s.largest))
  }

  function SaveSubdirectories(ds: seq<Subdirectory>, image: Bytes): Option<Saved<seq<DirectoryNode>>>
    decreases ds, 0
  {
    if ds == [] then Some(Saved([], image, 0))
    else
      var s :- SaveSubdirectories(ds[..|ds| - 1], image);
      SaveSubdirectory(s, ds[|ds| - 1])
  }

  function SaveSubdirectory(s: Saved<seq<DirectoryNode>>, d: Subdirectory): Option<Saved<seq<DirectoryNode>>>
    decreases d, 0
  {
    var child :- SaveDirectory(d.child, false, s.image);
    var data :- MarshalDirectory(child.value);
    var (region, image') := WriteMessage(child.image, data);
    Some(Saved(s.value + [DirectoryNode(d.name, region)], image', Max(Max(s.largest, child.largest), |data|)))
  }

  function RegionOffset(r: Option<FileRegion>): Int64 {
    if r == None then 0 else r.value.offsetBytes
  }

  function RegionSize(r: Option<FileRegion>): Int32 {
    if r == None then 0 else r.value.sizeBytes
  }

  /** The bytes of a finalized file. */
  function FinalizedFile(image: Bytes, rootDirectory: RootDirectory): Option<Bytes> {
    var data :- MarshalRootDirectory(rootDirectory);
    var (region, image') := WriteMessage(image, data);
    Some(EncodeHeader(RegionOffset(region), RegionSize(region)) + image')
  }

  function StateFile(t: Tree, creationTime: Timestamp): Option<Bytes> {
    var s :- SaveDirectory(t, true, []);
    FinalizedFile(s.image, RootDirectory(Some(creationTime), Some(s.value)))
  }

  /** The size of the largest message in the state file of an output path. */
  function LargestMessage(t: Tree, creationTime: Timestamp): int
    requires StateFile(t, creationTime).Some?
  {
    var s := SaveDirectory(t, true, []).value;
    Max(s.largest, |MarshalRootDirectory(RootDirectory(Some(creationTime), Some(s.value))).value|)
  }

  // Restoring. Directories are addressed by name. The digest function and the
  // symbolic link factory may turn entries down.

  datatype Dir = Dir(directories: map<Bytes, Dir>, leaves: map<Bytes, Leaf>)
  datatype Policy = Policy(acceptsDigest: Digest -> bool, acceptsTarget: Bytes -> bool)

  const EMPTY_DIR := Dir(map[], map[])

  function Enter(d: Dir, name: Bytes): Dir {
    if name in d.directories then d.directories[name] else EMPTY_DIR
  }

  function Place(d: Dir, name: Bytes, child: Dir): Dir {
    Dir(d.directories[name := child], d.leaves - {name})
  }

  function Attach(d: Dir, leaves: map<Bytes, Leaf>): Dir {
    Dir(d.directories - leaves.Keys, d.leaves + leaves)
  }

  function CollectFile(policy: Policy, m: map<Bytes, Leaf>, n: FileNode): Option<map<Bytes, Leaf>> {
    if !ValidComponent(n.name) || n.name in m || n.digest == None || !policy.acceptsDigest(n.digest.value) then None
    else Some(m[n.name := File(n.digest.value, n.isExecutable)])
  }

  function CollectFiles(policy: Policy, files: seq<FileNode>): Option<map<Bytes, Leaf>> {
    if files == [] then Some(map[])
    else
      var m :- CollectFiles(policy, files[..|files| - 1]);
      CollectFile(policy, m, files[|files| - 1])
  }

  function CollectSymlink(policy: Policy, m: map<Bytes, Leaf>, n: SymlinkNode): Option<map<Bytes, Leaf>> {
    if !ValidComponent(n.name) || n.name in m || !policy.acceptsTarget(n.target) then None
    else Some(m[n.name := Symlink(n.target)])
  }

  function CollectSymlinks(policy: Policy, m: map<Bytes, Leaf>, symlinks: seq<SymlinkNode>): Option<map<Bytes, Leaf>> {
    if symlinks == [] then Some(m)
    else
      var m' :- CollectSymlinks(policy, m, symlinks[..|symlinks| - 1]);
      CollectSymlink(policy, m', symlinks[|symlinks| - 1])
  }

  function CollectLeaves(policy: Policy, contents: Directory): Option<map<Bytes, Leaf>> {
    var m :- CollectFiles(policy, contents.files);
    CollectSymlinks(policy, m, contents.symlinks)
  }

  /** The directory after an attempt to restore it, whether the attempt
      succeeded, and how deep the attempt nested. */
  datatype Restored = Restored(dir: Dir, ok: bool, depth: int)

  /** Room that a reader leaves for further descent. It decreases with every
      level of nesting, so even malformed files cannot be cyclic. */
  function Room(r: Reader): nat {
    if r.maximumOffsetBytes < 0 then 0 else r.maximumOffsetBytes
  }

  function RestoreDirectory(policy: Policy, r: Reader, contents: Directory, d: Dir): Restored
    decreases Room(r), |contents.directories| > 0, |contents.directories| + 1
  {
    var restored := RestoreSubdirectories(policy, r, contents.directories, d);
    var depth := restored.depth + 1;
    if !restored.ok then Restored(restored.dir, false, depth)
    else
      match CollectLeaves(policy, contents)
      case None => Restored(restored.dir, false, depth)
      case Some(leaves) => Restored(Attach(restored.dir, leaves), true, depth)
  }

  function RestoreSubdirectories(policy: Policy, r: Reader, nodes: seq<DirectoryNode>, d: Dir): Restored
    decreases Room(r), |nodes| > 0, |nodes|
  {
    if nodes == [] then Restored(d, true, 0)
    else
      var before := RestoreSubdirectories(policy, r, nodes[..|nodes| - 1], d);
      if !before.ok then before
      else RestoreSubdirectory(policy, r, nodes[|nodes| - 1], before)
  }

  function RestoreSubdirectory(policy: Policy, r: Reader, node: DirectoryNode, before: Restored): Restored
    decreases Room(r), true, 0
  {
    if !ValidComponent(node.name) then Restored(before.dir, false, before.depth)
    else
      match ReadDirectory(r, node.fileRegion)
      case Failure(_) => Restored(before.dir, false, before.depth)
      case Success((childReader, childContents)) =>
        var child := RestoreDirectory(policy, childReader, childContents, Enter(before.dir, node.name));
        Restored(Place(before.dir, node.name, child.dir), child.ok, Max(before.depth, child.depth))
  }

  /** Restoring ends on every byte string, with a nesting depth bounded by the
      range that the reader may refer to. */
  lemma {:induction false} NestingIsBounded(policy: Policy, r: Reader, contents: Directory, d: Dir)
    ensures RestoreDirectory(policy, r, contents, d).depth <= Max(2, Room(r) - 14)
    ensures contents.directories == [] ==> RestoreDirectory(policy, r, contents, d).depth == 1
    decreases Room(r), |contents.directories| > 0, |contents.directories| + 1
  {
    SubdirectoryNestingIsBounded(policy, r, contents.directories, d);
  }

  lemma {:induction false} SubdirectoryNestingIsBounded(policy: Policy, r: Reader, nodes: seq<DirectoryNode>, d: Dir)
    ensures RestoreSubdirectories(policy, r, nodes, d).depth <= Max(1, Room(r) - 15)
    decreases Room(r), |nodes| > 0, |nodes|
  {
    if nodes != [] {
      var node := nodes[|nodes| - 1];
      SubdirectoryNestingIsBounded(policy, r, nodes[..|nodes| - 1], d);
      var before := RestoreSubdirectories(policy, r, nodes[..|nodes| - 1], d);
      match ReadDirectory(r, node.fileRegion)
      case Failure(_) =>
      case Success((childReader, childContents)) =>
        NestingIsBounded(policy, childReader, childContents, Enter(before.dir, node.name));
    }
  }

  // The round trip.

  /** The part of an output path that a state file can hold. */
  function Persisted(t: Tree, isRoot: bool): Tree
    decreases t, 1
  {
    Tree(PersistedSubdirectories(t.directories), KeptLeaves(t.leaves, isRoot))
  }

  function PersistedSubdirectories(ds: seq<Subdirectory>): (r: seq<Subdirectory>)
    ensures |r| == |ds|
    decreases ds, 0
  {
    if ds == [] then []
    else
      var last := ds[|ds| - 1];
      PersistedSubdirectories(ds[..|ds| - 1]) + [Subdirectory(last.name, Persisted(last.child, false))]
  }

  function KeptLeaves(leaves: seq<NamedLeaf>, isRoot: bool): seq<NamedLeaf> {
    if leaves == [] then []
    else
      var l := leaves[|leaves| - 1];
      KeptLeaves(leaves[..|leaves| - 1], isRoot) + if Skipped(l, isRoot) then [] else [l]
  }

  /** Saving does not look at anything but the part that can be held. */
  lemma {:induction false} SavesPersistedPart(t: Tree, isRoot: bool, image: Bytes)
    ensures SaveDirectory(t, isRoot, image) == SaveDirectory(Persisted(t, isRoot), false, image)
    decreases t, 1
  {
    SavesPersistedSubdirectories(t.directories, image);
    SavesKeptLeaves(t.leaves, isRoot);
  }

  lemma {:induction false} SavesPersistedSubdirectories(ds: seq<Subdirectory>, image: Bytes)
    ensures SaveSubdirectories(ds, image) == SaveSubdirectories(PersistedSubdirectories(ds), image)
    decreases ds, 0
  {
    if ds != [] {
      var ps := PersistedSubdirectories(ds);
      SavesPersistedSubdirectories(ds[..|ds| - 1], image);
      assert ps[..|ps| - 1] == PersistedSubdirectories(ds[..|ds| - 1]);
      var s := SaveSubdirectories(ds[..|ds| - 1], image);
      if s.Some? {
        SavesPersistedPart(ds[|ds| - 1].child, false, s.value.image);
        assert SaveSubdirectory(s.value, ds[|ds| - 1]) == SaveSubdirectory(s.value, ps[|ps| - 1]);
      }
    }
  }

  lemma {:induction false} SavesKeptLeaves(leaves: seq<NamedLeaf>, isRoot: bool)
    ensures FileNodes(leaves, isRoot) == FileNodes(KeptLeaves(leaves, isRoot), false)
    ensures SymlinkNodes(leaves, isRoot) == SymlinkNodes(KeptLeaves(leaves, isRoot), false)
    ensures forall l :: l in KeptLeaves(leaves, isRoot) ==> !l.leaf.Transient?
  {
    if leaves != [] {
      SavesKeptLeaves(leaves[..|leaves| - 1], isRoot);
      var before, kept := KeptLeaves(leaves[..|leaves| - 1], isRoot), KeptLeaves(leaves, isRoot);
      if Skipped(leaves[|leaves| - 1], isRoot) {
        assert kept == before;
      } else {
        assert kept[..|kept| - 1] == before;
      }
    }
  }

  /** Names are valid and unique within every directory, and the entries of
      every directory are acceptable. */
  predicate WellFormed(policy: Policy, t: Tree) {
    && (forall i :: 0 <= i < |t.directories| ==> ValidComponent(t.directories[i].name))
    && (forall i :: 0 <= i < |t.leaves| ==> ValidComponent(t.leaves[i].name) && AcceptableLeaf(policy, t.leaves[i].leaf))
    && (forall i, j :: 0 <= i < j < |t.directories| ==> t.directories[i].name != t.directories[j].name)
    && (forall i, j :: 0 <= i < j < |t.leaves| ==> t.leaves[i].name != t.leaves[j].name)
    && (forall i, j :: 0 <= i < |t.directories| && 0 <= j < |t.leaves| ==> t.directories[i].name != t.leaves[j].name)
    && (forall i :: 0 <= i < |t.directories| ==> WellFormed(policy, t.directories[i].child))
  }

  predicate AcceptableLeaf(policy: Policy, l: Leaf) {
    match l
    case File(digest, _) => policy.acceptsDigest(digest)
    case Symlink(target) => policy.acceptsTarget(target)
    case Transient => false
  }

  /** The directory that a listing describes. */
  function ToDir(t: Tree): Dir
    decreases t, 1
  {
    Dir(DirectoryMap(t.directories), LeafMap(t.leaves))
  }

  function DirectoryMap(ds: seq<Subdirectory>): map<Bytes, Dir>
    decreases ds, 0
  {
    if ds == [] then map[]
    else
      var last := ds[|ds| - 1];
      DirectoryMap(ds[..|ds| - 1])[last.name := ToDir(last.child)]
  }

  function LeafMap(leaves: seq<NamedLeaf>): map<Bytes, Leaf> {
    if leaves == [] then map[]
    else
      var l := leaves[|leaves| - 1];
      LeafMap(leaves[..|leaves| - 1])[l.name := l.leaf]
  }

  lemma {:induction false} LeafMapKeys(leaves: seq<NamedLeaf>)
    ensures forall name :: name in LeafMap(leaves) <==> exists i :: 0 <= i < |leaves| && leaves[i].name == name
  {
    if leaves != [] {
      var n := |leaves| - 1;
      LeafMapKeys(leaves[..n]);
      forall name ensures name in LeafMap(leaves) <==> exists i :: 0 <= i < |leaves| && leaves[i].name == name {
        if name in LeafMap(leaves[..n]) {
          var i :| 0 <= i < n && leaves[..n][i].name == name;
          assert leaves[i].name == name;
        }
        if exists i :: 0 <= i < |leaves| && leaves[i].name == name {
          var i :| 0 <= i < |leaves| && leaves[i].name == name;
          assert i < n ==> leaves[..n][i].name == name;
        }
        assert leaves[n].name in LeafMap(leaves);
      }
    }
  }

  lemma {:induction false} DirectoryMapKeys(ds: seq<Subdirectory>)
    ensures forall name :: name in DirectoryMap(ds) <==> exists i :: 0 <= i < |ds| && ds[i].name == name
  {
    if ds != [] {
      var n := |ds| - 1;
      DirectoryMapKeys(ds[..n]);
      forall name ensures name in DirectoryMap(ds) <==> exists i :: 0 <= i < |ds| && ds[i].name == name {
        if name in DirectoryMap(ds[..n]) {
          var i :| 0 <= i < n && ds[..n][i].name == name;
          assert ds[i].name == name;
        }
        if exists i :: 0 <= i < |ds| && ds[i].name == name {
          var i :| 0 <= i < |ds| && ds[i].name == name;
          assert i < n ==> ds[..n][i].name == name;
        }
        assert ds[n].name in DirectoryMap(ds);
      }
    }
  }

  // The leaves of a directory, by kind.

  function FileMap(leaves: seq<NamedLeaf>): map<Bytes, Leaf> {
    if leaves == [] then map[]
    else
      var l, m := leaves[|leaves| - 1], FileMap(leaves[..|leaves| - 1]);
      if l.leaf.File? then m[l.name := l.leaf] else m
  }

  function SymlinkMap(leaves: seq<NamedLeaf>): map<Bytes, Leaf> {
    if leaves == [] then map[]
    else
      var l, m := leaves[|leaves| - 1], SymlinkMap(leaves[..|leaves| - 1]);
      if l.leaf.Symlink? then m[l.name := l.leaf] else m
  }

  predicate WellFormedLeaves(policy: Policy, leaves: seq<NamedLeaf>) {
    && (forall i :: 0 <= i < |leaves| ==> ValidComponent(leaves[i].name) && AcceptableLeaf(policy, leaves[i].leaf))
    && (forall i, j :: 0 <= i < j < |leaves| ==> leaves[i].name != leaves[j].name)
  }

  lemma LastNameIsNew(policy: Policy, leaves: seq<NamedLeaf>)
    requires WellFormedLeaves(policy, leaves) && leaves != []
    ensures leaves[|leaves| - 1].name !in LeafMap(leaves[..|leaves| - 1])
    ensures WellFormedLeaves(policy, leaves[..|leaves| - 1])
  {
    LeafMapKeys(leaves[..|leaves| - 1]);
  }

  lemma {:induction false} KindsPartitionLeaves(policy: Policy, leaves: seq<NamedLeaf>)
    requires WellFormedLeaves(policy, leaves)
    ensures FileMap(leaves) + SymlinkMap(leaves) == LeafMap(leaves)
    ensures FileMap(leaves).Keys !! SymlinkMap(leaves).Keys
    ensures FileMap(leaves).Keys + SymlinkMap(leaves).Keys == LeafMap(leaves).Keys
  {
    if leaves != [] {
      var before, l := leaves[..|leaves| - 1], leaves[|leaves| - 1];
      LastNameIsNew(policy, leaves);
      KindsPartitionLeaves(policy, before);
      PartitionExtends(FileMap(before), SymlinkMap(before), LeafMap(before), l.name, l.leaf);
    }
  }

  lemma PartitionExtends<K, V>(f: map<K, V>, s: map<K, V>, all: map<K, V>, k: K, v: V)
    requires f + s == all && f.Keys !! s.Keys && f.Keys + s.Keys == all.Keys && k !in all
    ensures f[k := v] + s == all[k := v] && f[k := v].Keys !! s.Keys
    ensures f + s[k := v] == all[k := v] && f.Keys !! s[k := v].Keys
    ensures f[k := v].Keys + s.Keys == all[k := v].Keys == f.Keys + s[k := v].Keys
  {
  }

  lemma {:induction false} CollectsFiles(policy: Policy, leaves: seq<NamedLeaf>)
    requires WellFormedLeaves(policy, leaves)
    ensures CollectFiles(policy, FileNodes(leaves, false)) == Some(FileMap(leaves))
  {
    if leaves != [] {
      var n := |leaves| - 1;
      LastNameIsNew(policy, leaves);
      CollectsFiles(policy, leaves[..n]);
      KindsPartitionLeaves(policy, leaves[..n]);
      var before, all := FileNodes(leaves[..n], false), FileNodes(leaves, false);
      if leaves[n].leaf.File? {
        assert all[..|all| - 1] == before;
      } else {
        assert all == before;
      }
    }
  }

  lemma {:induction false} CollectsSymlinks(policy: Policy, leaves: seq<NamedLeaf>, m: map<Bytes, Leaf>)
    requires WellFormedLeaves(policy, leaves) && m.Keys !! SymlinkMap(leaves).Keys
    ensures CollectSymlinks(policy, m, SymlinkNodes(leaves, false)) == Some(m + SymlinkMap(leaves))
  {
    if leaves == [] {
      assert m + map[] == m;
    } else {
      var n := |leaves| - 1;
      var l := leaves[n];
      LastNameIsNew(policy, leaves);
      KindsPartitionLeaves(policy, leaves[..n]);
      assert SymlinkMap(leaves[..n]).Keys <= SymlinkMap(leaves).Keys;
      CollectsSymlinks(policy, leaves[..n], m);
      var before, all := SymlinkNodes(leaves[..n], false), SymlinkNodes(leaves, false);
      if l.leaf.Symlink? {
        assert all[..|all| - 1] == before;
        assert l.name in SymlinkMap(leaves);
        CollectsLastSymlink(policy, m + SymlinkMap(leaves[..n]), m, all, SymlinkNode(l.name, l.leaf.target));
        UnionExtends(m, SymlinkMap(leaves[..n]), l.name, l.leaf);
      } else {
        assert all == before;
      }
    }
  }

  lemma CollectsLastSymlink(policy: Policy, collected: map<Bytes, Leaf>, m: map<Bytes, Leaf>,
                            all: seq<SymlinkNode>, n: SymlinkNode)
    requires all != [] && all[|all| - 1] == n
    requires CollectSymlinks(policy, m, all[..|all| - 1]) == Some(collected)
    requires ValidComponent(n.name) && n.name !in collected && policy.acceptsTarget(n.target)
    ensures CollectSymlinks(policy, m, all) == Some(collected[n.name := Symlink(n.target)])
  {
  }

  lemma UnionExtends<K, V>(m: map<K, V>, n: map<K, V>, k: K, v: V)
    ensures (m + n)[k := v] == m + n[k := v]
  {
  }

  lemma CollectsLeaves(policy: Policy, leaves: seq<NamedLeaf>, nodes: seq<DirectoryNode>)
    requires WellFormedLeaves(policy, leaves)
    ensures CollectLeaves(policy, Directory(FileNodes(leaves, false), nodes, SymlinkNodes(leaves, false)))
            == Some(LeafMap(leaves))
  {
    CollectsFiles(policy, leaves);
    KindsPartitionLeaves(policy, leaves);
    CollectsSymlinks(policy, leaves, FileMap(leaves));
  }

  /** Images only grow while children are saved. */
  lemma {:induction false} SaveExtendsImage(t: Tree, image: Bytes)
    requires SaveDirectory(t, false, image).Some?
    ensures image <= SaveDirectory(t, false, image).value.image
    decreases t, 1
  {
    SaveSubdirectoriesExtendsImage(t.directories, image);
  }

  lemma {:induction false} SaveSubdirectoriesExtendsImage(ds: seq<Subdirectory>, image: Bytes)
    requires SaveSubdirectories(ds, image).Some?
    ensures image <= SaveSubdirectories(ds, image).value.image
    decreases ds, 0
  {
    if ds != [] {
      SaveSubdirectoriesExtendsImage(ds[..|ds| - 1], image);
      SaveExtendsImage(ds[|ds| - 1].child, SaveSubdirectories(ds[..|ds| - 1], image).value.image);
    }
  }

  /** A reader that may refer to all of the image inside its file. */
  predicate Holds(r: Reader, image: Bytes) {
    && HEADER_SIZE_BYTES + |image| <= |r.rawReader|
    && HEADER_SIZE_BYTES + |image| <= r.maximumOffsetBytes
    && r.rawReader[HEADER_SIZE_BYTES..HEADER_SIZE_BYTES + |image|] == image
  }

  lemma HoldsPrefix(r: Reader, image: Bytes, prefix: Bytes)
    requires Holds(r, image) && prefix <= image
    ensures Holds(r, prefix)
  {
    assert prefix == image[..|prefix|];
  }

  /** Data that was appended to an image is found at its region. */
  lemma ReadsRegion(r: Reader, image: Bytes, data: Bytes)
    requires data != [] && |data| < TWO_31 && Holds(r, image + data)
    ensures var offset := HEADER_SIZE_BYTES + |image|;
            && IsInt64(offset)
            && WriteMessage(image, data).0 == Some(FileRegion(offset, |data|))
            && ReadMessage(r, offset, |data|) == Success(data)
            && Holds(Reader(r.rawReader, offset), image)
  {
    var offset := HEADER_SIZE_BYTES + |image|;
    HoldsPrefix(r, image + data, image);
    assert r.rawReader[offset..offset + |data|] == (image + data)[|image|..];
  }

  /** Whatever is written to an image can be read from a file that holds it. */
  lemma WrittenDirectoryReadsBack(r: Reader, image: Bytes, d: Directory)
    requires MarshalDirectory(d).Some? && |MarshalDirectory(d).value| < TWO_31
    requires Holds(r, WriteMessage(image, MarshalDirectory(d).value).1)
    ensures var region := WriteMessage(image, MarshalDirectory(d).value).0;
            && ReadDirectory(r, region).Success?
            && ReadDirectory(r, region).value.1 == d
            && (region == None <==> d == EMPTY_DIRECTORY)
            && (region.Some? ==> Holds(ReadDirectory(r, region).value.0, image))
  {
    OnlyEmptyDirectoryIsEmpty(d);
    var data := MarshalDirectory(d).value;
    if data != [] {
      ReadsRegion(r, image, data);
      DirectoryRoundTrip(d);
    }
  }

  // Attaching leaves does not hide a directory of another name.
  lemma AttachesAll(policy: Policy, t: Tree)
    requires WellFormed(policy, t)
    ensures Attach(Dir(DirectoryMap(t.directories), map[]), LeafMap(t.leaves)) == ToDir(t)
  {
    LeafMapKeys(t.leaves);
    DirectoryMapKeys(t.directories);
    assert DirectoryMap(t.directories) - LeafMap(t.leaves).Keys == DirectoryMap(t.directories);
    assert map[] + LeafMap(t.leaves) == LeafMap(t.leaves);
  }

  lemma {:induction false} RestoresSaved(policy: Policy, t: Tree, image: Bytes, r: Reader)
    requires WellFormed(policy, t)
    requires var s := SaveDirectory(t, false, image);
             s.Some? && s.value.largest < TWO_31 && Holds(r, s.value.image)
    ensures var restored := RestoreDirectory(policy, r, SaveDirectory(t, false, image).value.value, EMPTY_DIR);
            restored.ok && restored.dir == ToDir(t)
    decreases t, 1
  {
    RestoresSubdirectories(policy, t.directories, image, r);
    CollectsLeaves(policy, t.leaves, SaveSubdirectories(t.directories, image).value.value);
    AttachesAll(policy, t);
  }

  // What the last step of saving subdirectories did.
  lemma SavedLast(ds: seq<Subdirectory>, image: Bytes)
    requires ds != [] && SaveSubdirectories(ds, image).Some?
    ensures var n := |ds| - 1;
            var s := SaveSubdirectories(ds[..n], image);
            && s.Some?
            && var child := SaveDirectory(ds[n].child, false, s.value.image);
            && child.Some? && MarshalDirectory(child.value.value).Some?
            && var data := MarshalDirectory(child.value.value).value;
            && var (region, image') := WriteMessage(child.value.image, data);
            && SaveSubdirectories(ds, image).value.value == s.value.value + [DirectoryNode(ds[n].name, region)]
            && SaveSubdirectories(ds, image).value.image == image'
            && Max(Max(s.value.largest, child.value.largest), |data|) == SaveSubdirectories(ds, image).value.largest
  {
  }

  lemma RestoresLast(policy: Policy, r: Reader, nodes: seq<DirectoryNode>, node: DirectoryNode, d: Dir)
    requires RestoreSubdirectories(policy, r, nodes, d).ok
    ensures RestoreSubdirectories(policy, r, nodes + [node], d) ==
            RestoreSubdirectory(policy, r, node, RestoreSubdirectories(policy, r, nodes, d))
  {
    var all := nodes + [node];
    assert all[..|all| - 1] == nodes;
  }

  lemma {:induction false} RestoresSubdirectories(policy: Policy, ds: seq<Subdirectory>, image: Bytes, r: Reader)
    requires forall i :: 0 <= i < |ds| ==> ValidComponent(ds[i].name) && WellFormed(policy, ds[i].child)
    requires forall i, j :: 0 <= i < j < |ds| ==> ds[i].name != ds[j].name
    requires var s := SaveSubdirectories(ds, image);
             s.Some? && s.value.largest < TWO_31 && Holds(r, s.value.image)
    ensures var restored := RestoreSubdirectories(policy, r, SaveSubdirectories(ds, image).value.value, EMPTY_DIR);
            restored.ok && restored.dir == Dir(DirectoryMap(ds), map[])
    decreases ds, 0
  {
    if ds != [] {
      var n := |ds| - 1;
      var last := ds[n];
      SavedLast(ds, image);
      var s := SaveSubdirectories(ds[..n], image).value;
      var child := SaveDirectory(last.child, false, s.image).value;
      var (region, image') := WriteMessage(child.image, MarshalDirectory(child.value).value);
      SaveExtendsImage(last.child, s.image);
      HoldsPrefix(r, image', s.image);
      RestoresSubdirectories(policy, ds[..n], image, r);
      RestoresLast(policy, r, s.value, DirectoryNode(last.name, region), EMPTY_DIR);
      DirectoryMapKeys(ds[..n]);
      RestoresSubdirectory(policy, last, s.image, r, RestoreSubdirectories(policy, r, s.value, EMPTY_DIR));
    }
  }

  lemma {:induction false} RestoresSubdirectory(policy: Policy, d: Subdirectory, image: Bytes, r: Reader, before: Restored)
    requires ValidComponent(d.name) && WellFormed(policy, d.child)
    requires d.name !in before.dir.directories && before.dir.leaves == map[]
    requires var child := SaveDirectory(d.child, false, image);
             && child.Some? && child.value.largest < TWO_31
             && MarshalDirectory(child.value.value).Some?
             && |MarshalDirectory(child.value.value).value| < TWO_31
             && Holds(r, WriteMessage(child.value.image, MarshalDirectory(child.value.value).value).1)
    ensures var child := SaveDirectory(d.child, false, image).value;
            var region := WriteMessage(child.image, MarshalDirectory(child.value).value).0;
            var restored := RestoreSubdirectory(policy, r, DirectoryNode(d.name, region), before);
            && restored.ok
            && restored.dir == Dir(before.dir.directories[d.name := ToDir(d.child)], map[])
    decreases d, 0
  {
    var child := SaveDirectory(d.child, false, image).value;
    var (region, image') := WriteMessage(child.image, MarshalDirectory(child.value).value);
    WrittenDirectoryReadsBack(r, child.image, child.value);
    var childReader := ReadDirectory(r, region).value.0;
    if region == None {
      HoldsPrefix(r, image', child.image);
      RestoresSaved(policy, d.child, image, r);
      RestoresNothing(policy, r, childReader);
    } else {
      RestoresSaved(policy, d.child, image, childReader);
    }
    assert before.dir.leaves - {d.name} == map[];
  }

  lemma RestoresNothing(policy: Policy, r: Reader, other: Reader)
    ensures RestoreDirectory(policy, r, EMPTY_DIRECTORY, EMPTY_DIR) ==
            RestoreDirectory(policy, other, EMPTY_DIRECTORY, EMPTY_DIR)
  {
  }

  /** The root directory of a finalized file is read back whenever the whole
      file lies below the limit, and only then. */
  lemma FinalizedFileOpens(image: Bytes, root: RootDirectory, limit: Int64)
    requires FinalizedFile(image, root).Some? && |FinalizedFile(image, root).value| < TWO_63
    requires 0 < |MarshalRootDirectory(root).value| < TWO_31
    ensures var file: RawFile := FinalizedFile(image, root).value;
            var loaded := NewFileReader(file, limit);
            && (loaded.Success? <==> |file| <= limit)
            && (loaded.Success? ==> loaded.value.1 == root && Holds(loaded.value.0, image))
  {
    var file: RawFile := FinalizedFile(image, root).value;
    var data := MarshalRootDirectory(root).value;
    var offset := HEADER_SIZE_BYTES + |image|;
    var header := EncodeHeader(offset, |data|);
    assert file == header + (image + data);
    HeaderRoundTrip(offset, |data|);
    assert ReadFull(file, 0, HEADER_SIZE_BYTES) == Some(header);
    var r := Reader(file, limit);
    if |file| <= limit {
      assert Holds(r, image + data);
      ReadsRegion(r, image, data);
      RootDirectoryRoundTrip(root);
    } else {
      assert IsInt64(offset + |data|);
      assert !InBounds(limit, offset, |data|);
    }
  }

  /** A file is accepted exactly if it does not exceed the limit, and then yields
      the creation time and everything of the output path that a file can hold. */
  predicate ReloadsAs(policy: Policy, t: Tree, creationTime: Timestamp, limit: Int64, file: RawFile) {
    var loaded := NewFileReader(file, limit);
    && (loaded.Success? <==> |file| <= limit)
    && (loaded.Success? ==>
         var (r, root) := loaded.value;
         && root.initialCreationTime == Some(creationTime)
         && root.contents.Some?
         && var restored := RestoreDirectory(policy, r, root.contents.value, EMPTY_DIR);
         && restored.ok
         && restored.dir == ToDir(Persisted(t, true)))
  }

  /** Saving an output path and reloading the file rebuilds everything that a
      state file can hold, empty directories included. */
  lemma SaveRestoreRoundTrip(policy: Policy, t: Tree, creationTime: Timestamp, limit: Int64, file: RawFile)
    requires WellFormed(policy, Persisted(t, true))
    requires StateFile(t, creationTime) == Some(file) && LargestMessage(t, creationTime) < TWO_31
    ensures ReloadsAs(policy, t, creationTime, limit, file)
  {
    var s := SaveDirectory(t, true, []).value;
    var root := RootDirectory(Some(creationTime), Some(s.value));
    RootDirectoryIsStored(root);
    FinalizedFileOpens(s.image, root, limit);
    if |file| <= limit {
      SavesPersistedPart(t, true, []);
      RestoresSaved(policy, Persisted(t, true), [], NewFileReader(file, limit).value.0);
    }
  }

  // When saving fails: one name or target that is not UTF-8 is enough.

  predicate Utf8Leaf(l: NamedLeaf) {
    match l.leaf
    case File(digest, _) => Utf8(l.name) && Utf8(digest.hash)
    case Symlink(target) => Utf8(l.name) && Utf8(target)
    case Transient => true
  }

  predicate Utf8Below(t: Tree) {
    && (forall l :: l in t.leaves ==> Utf8Leaf(l))
    && (forall d :: d in t.directories ==> Utf8(d.name) && Utf8Below(d.child))
  }

  lemma {:induction false} LeafNodesUtf8(leaves: seq<NamedLeaf>)
    ensures ((forall n :: n in FileNodes(leaves, false) ==> FileNodeUtf8(n)) &&
             (forall n :: n in SymlinkNodes(leaves, false) ==> SymlinkNodeUtf8(n)))
            <==> forall l :: l in leaves ==> Utf8Leaf(l)
  {
    if leaves != [] {
      var n := |leaves| - 1;
      LeafNodesUtf8(leaves[..n]);
      assert leaves == leaves[..n] + [leaves[n]];
      match leaves[n].leaf
      case File(digest, isExecutable) =>
        assert SymlinkNodes(leaves, false) == SymlinkNodes(leaves[..n], false);
        var node := FileNode(leaves[n].name, Some(digest), isExecutable);
        assert FileNodes(leaves, false) == FileNodes(leaves[..n], false) + [node];
        assert FileNodeUtf8(node) <==> Utf8Leaf(leaves[n]);
      case Symlink(target) =>
        assert FileNodes(leaves, false) == FileNodes(leaves[..n], false);
        var node := SymlinkNode(leaves[n].name, target);
        assert SymlinkNodes(leaves, false) == SymlinkNodes(leaves[..n], false) + [node];
        assert SymlinkNodeUtf8(node) <==> Utf8Leaf(leaves[n]);
      case Transient =>
        assert FileNodes(leaves, false) == FileNodes(leaves[..n], false);
        assert SymlinkNodes(leaves, false) == SymlinkNodes(leaves[..n], false);
    }
  }

  lemma NodesUtf8(nodes: seq<DirectoryNode>, ds: seq<Subdirectory>)
    requires Names(nodes) == SubdirectoryNames(ds)
    ensures (forall n :: n in nodes ==> Utf8(n.name)) <==> forall d :: d in ds ==> Utf8(d.name)
  {
    assert |Names(nodes)| == |SubdirectoryNames(ds)|;
    forall i | 0 <= i < |ds| ensures nodes[i].name == ds[i].name {
      assert Names(nodes)[i] == SubdirectoryNames(ds)[i];
    }
  }

  lemma {:induction false} SavesExactlyUtf8Directory(t: Tree, image: Bytes)
    ensures var s := SaveDirectory(t, false, image);
            s.Some? && MarshalDirectory(s.value.value).Some? <==> Utf8Below(t)
    decreases t, 1
  {
    SavesExactlyUtf8Subdirectories(t.directories, image);
    LeafNodesUtf8(t.leaves);
    var s := SaveDirectory(t, false, image);
    if s.Some? {
      SavedNames(t.directories, image);
      NodesUtf8(s.value.value.directories, t.directories);
    }
  }

  lemma {:induction false} SavesExactlyUtf8Subdirectories(ds: seq<Subdirectory>, image: Bytes)
    ensures SaveSubdirectories(ds, image).Some? <==> AllUtf8Below(ds)
    decreases ds, 0
  {
    if ds != [] {
      var n := |ds| - 1;
      SavesExactlyUtf8Subdirectories(ds[..n], image);
      AllUtf8Splits(ds[..n], ds[n]);
      assert ds == ds[..n] + [ds[n]];
      var s := SaveSubdirectories(ds[..n], image);
      if s.Some? {
        SavesExactlyUtf8Subdirectory(s.value, ds[n]);
      }
    }
  }

  lemma {:induction false} SavesExactlyUtf8Subdirectory(s: Saved<seq<DirectoryNode>>, d: Subdirectory)
    ensures SaveSubdirectory(s, d).Some? <==> Utf8Below(d.child)
    decreases d, 0
  {
    SavesExactlyUtf8Directory(d.child, s.image);
  }

  predicate AllUtf8Below(ds: seq<Subdirectory>) {
    forall d :: d in ds ==> Utf8Below(d.child)
  }

  lemma AllUtf8Splits(ds: seq<Subdirectory>, d: Subdirectory)
    ensures AllUtf8Below(ds + [d]) <==> AllUtf8Below(ds) && Utf8Below(d.child)
  {
    assert d in ds + [d];
    assert forall e :: e in ds ==> e in ds + [d];
  }

  function Names(nodes: seq<DirectoryNode>): seq<Bytes> {
    seq(|nodes|, i requires 0 <= i < |nodes| => nodes[i].name)
  }

  function SubdirectoryNames(ds: seq<Subdirectory>): seq<Bytes> {
    seq(|ds|, i requires 0 <= i < |ds| => ds[i].name)
  }

  lemma {:induction false} SavedNames(ds: seq<Subdirectory>, image: Bytes)
    requires SaveSubdirectories(ds, image).Some?
    ensures Names(SaveSubdirectories(ds, image).value.value) == SubdirectoryNames(ds)
  {
    if ds != [] {
      var before, last := ds[..|ds| - 1], ds[|ds| - 1];
      SaveSplits(ds, image);
      SavedNames(before, image);
      NamesExtend(SaveSubdirectories(before, image).value, last);
      SubdirectoryNamesExtend(ds);
    }
  }

  lemma SaveSplits(ds: seq<Subdirectory>, image: Bytes)
    requires ds != [] && SaveSubdirectories(ds, image).Some?
    ensures SaveSubdirectories(ds[..|ds| - 1], image).Some?
    ensures SaveSubdirectories(ds, image) ==
            SaveSubdirectory(SaveSubdirectories(ds[..|ds| - 1], image).value, ds[|ds| - 1])
  {
  }

  lemma SubdirectoryNamesExtend(ds: seq<Subdirectory>)
    requires ds != []
    ensures SubdirectoryNames(ds) == SubdirectoryNames(ds[..|ds| - 1]) + [ds[|ds| - 1].name]
  {
  }

  lemma NamesExtend(s: Saved<seq<DirectoryNode>>, d: Subdirectory)
    requires SaveSubdirectory(s, d).Some?
    ensures Names(SaveSubdirectory(s, d).value.value) == Names(s.value) + [d.name]
  {
  }

  /** An output path can be saved exactly when all of its names, hashes and
      targets that a state file would hold are valid UTF-8: a single one that is
      not prevents the whole output path from being saved. */
  lemma SavesExactlyUtf8(t: Tree, creationTime: Timestamp)
    ensures StateFile(t, creationTime).Some? <==> Utf8Below(Persisted(t, true))
  {
    SavesPersistedPart(t, true, []);
    SavesExactlyUtf8Directory(Persisted(t, true), []);
  }

  // Where the regions of saved directories lie.

  /** The region of a subdirectory itself, if it takes any space. */
  function OwnRegion(s: Saved<seq<DirectoryNode>>, d: Subdirectory): seq<FileRegion>
    requires SaveSubdirectory(s, d).Some?
  {
    var nodes := SaveSubdirectory(s, d).value.value;
    match nodes[|nodes| - 1].fileRegion
    case None => []
    case Some(region) => [region]
  }

  // Saving gets to the last subdirectory, and to everything below it.
  lemma LastIsSaved(ds: seq<Subdirectory>, image: Bytes)
    requires ds != [] && SaveSubdirectories(ds, image).Some?
    ensures var last, before := ds[|ds| - 1], SaveSubdirectories(ds[..|ds| - 1], image);
            && before.Some?
            && SaveSubdirectory(before.value, last).Some?
            && SaveSubdirectories(ds, image) == SaveSubdirectory(before.value, last)
            && SaveSubdirectories(last.child.directories, before.value.image).Some?
  {
    var before := SaveSubdirectories(ds[..|ds| - 1], image).value;
    assert SaveDirectory(ds[|ds| - 1].child, false, before.image).Some?;
  }

  /** The regions of all directories at any depth below one that is being saved,
      those of the children of a directory before its own. */
  function RegionsBelow(ds: seq<Subdirectory>, image: Bytes): seq<FileRegion>
    requires SaveSubdirectories(ds, image).Some?
    decreases ds
  {
    if ds == [] then []
    else
      LastIsSaved(ds, image);
      var last, s := ds[|ds| - 1], SaveSubdirectories(ds[..|ds| - 1], image).value;
      RegionsBelow(ds[..|ds| - 1], image) + RegionsBelow(last.child.directories, s.image) + OwnRegion(s, last)
  }

  /** Regions that follow one another without gaps, none of them empty. */
  predicate Adjacent(rs: seq<FileRegion>, start: int, end: int) {
    if rs == [] then start == end
    else
      var last := rs[|rs| - 1];
      0 < last.sizeBytes && last.offsetBytes + last.sizeBytes == end && Adjacent(rs[..|rs| - 1], start, last.offsetBytes)
  }

  lemma {:induction false} AdjacentConcat(a: seq<FileRegion>, b: seq<FileRegion>, start: int, mid: int, end: int)
    requires Adjacent(a, start, mid) && Adjacent(b, mid, end)
    ensures Adjacent(a + b, start, end)
  {
    if b == [] {
      assert a + b == a;
    } else {
      var n := |b| - 1;
      AdjacentConcat(a, b[..n], start, mid, b[n].offsetBytes);
      assert (a + b)[..|a + b| - 1] == a + b[..n];
    }
  }

  lemma {:induction false} AdjacentBounds(rs: seq<FileRegion>, start: int, end: int)
    requires Adjacent(rs, start, end)
    ensures start <= end && forall i :: 0 <= i < |rs| ==> start <= rs[i].offsetBytes < rs[i].offsetBytes + rs[i].sizeBytes <= end
  {
    if rs != [] {
      AdjacentBounds(rs[..|rs| - 1], start, rs[|rs| - 1].offsetBytes);
    }
  }

  predicate EndBy(rs: seq<FileRegion>, limit: int) {
    forall i :: 0 <= i < |rs| ==> rs[i].offsetBytes + rs[i].sizeBytes <= limit
  }

  /** At every depth, all regions below a directory end before its own begins. */
  predicate DescendantsFirst(ds: seq<Subdirectory>, image: Bytes)
    requires SaveSubdirectories(ds, image).Some?
    decreases ds
  {
    if ds == [] then true
    else
      LastIsSaved(ds, image);
      var last, s := ds[|ds| - 1], SaveSubdirectories(ds[..|ds| - 1], image).value;
      && DescendantsFirst(ds[..|ds| - 1], image)
      && DescendantsFirst(last.child.directories, s.image)
      && forall own :: own in OwnRegion(s, last) ==> EndBy(RegionsBelow(last.child.directories, s.image), own.offsetBytes)
  }

  predicate FitsFile(s: Saved<seq<DirectoryNode>>) {
    s.largest < TWO_31 && HEADER_SIZE_BYTES + |s.image| < TWO_63
  }

  /** Below any directory, the regions of all descendants tile the part of the
      image that was written on its behalf, children precede their parents at every
      depth, and so everything below the directory precedes its own message, which
      is written after that part. */
  lemma {:induction false} ChildrenPrecedeParents(ds: seq<Subdirectory>, image: Bytes)
    requires SaveSubdirectories(ds, image).Some? && FitsFile(SaveSubdirectories(ds, image).value)
    ensures DescendantsFirst(ds, image)
    ensures Adjacent(RegionsBelow(ds, image), HEADER_SIZE_BYTES + |image|,
                     HEADER_SIZE_BYTES + |SaveSubdirectories(ds, image).value.image|)
    ensures EndBy(RegionsBelow(ds, image), HEADER_SIZE_BYTES + |SaveSubdirectories(ds, image).value.image|)
    decreases ds
  {
    hide Adjacent, SaveSubdirectories, SaveSubdirectory, SaveDirectory, OwnRegion, FitsFile;
    var start, end := HEADER_SIZE_BYTES + |image|, HEADER_SIZE_BYTES + |SaveSubdirectories(ds, image).value.image|;
    if ds == [] {
      NothingBelow(image);
    } else {
      LastIsSaved(ds, image);
      var before, last := ds[..|ds| - 1], ds[|ds| - 1];
      var s := SaveSubdirectories(before, image).value;
      var child := SaveSubdirectories(last.child.directories, s.image).value;
      SubdirectoryRegion(s, last);
      ChildrenPrecedeParents(before, image);
      ChildrenPrecedeParents(last.child.directories, s.image);
      var mid, own := HEADER_SIZE_BYTES + |s.image|, HEADER_SIZE_BYTES + |child.image|;
      AdjacentConcat(RegionsBelow(before, image), RegionsBelow(last.child.directories, s.image), start, mid, own);
      AdjacentConcat(RegionsBelow(before, image) + RegionsBelow(last.child.directories, s.image), OwnRegion(s, last),
                     start, own, end);
    }
    AdjacentBounds(RegionsBelow(ds, image), start, end);
  }

  lemma NothingBelow(image: Bytes)
    ensures SaveSubdirectories([], image) == Some(Saved([], image, 0))
    ensures forall n :: Adjacent([], n, n)
  {
  }

  // The own region of a subdirectory directly follows those below it.
  lemma SubdirectoryRegion(s: Saved<seq<DirectoryNode>>, d: Subdirectory)
    requires SaveSubdirectory(s, d).Some? && FitsFile(SaveSubdirectory(s, d).value)
    ensures SaveSubdirectories(d.child.directories, s.image).Some?
    ensures var s', child := SaveSubdirectory(s, d).value, SaveSubdirectories(d.child.directories, s.image).value;
            && FitsFile(s) && FitsFile(child)
            && Adjacent(OwnRegion(s, d), HEADER_SIZE_BYTES + |child.image|, HEADER_SIZE_BYTES + |s'.image|)
            && (forall own :: own in OwnRegion(s, d) ==> own.offsetBytes == HEADER_SIZE_BYTES + |child.image|)
  {
    hide SaveSubdirectory, SaveSubdirectories;
    var child, data := SubdirectoryUnfolds(s, d);
    SaveSubdirectoriesExtendsImage(d.child.directories, s.image);
    assert FitsFile(s) && FitsFile(child);
    if data != [] {
      assert ToInt64(HEADER_SIZE_BYTES + |child.image|) == HEADER_SIZE_BYTES + |child.image| && ToInt32(|data|) == |data|;
      SingleRegion(OwnRegion(s, d)[0]);
    }
  }

  lemma SubdirectoryUnfolds(s: Saved<seq<DirectoryNode>>, d: Subdirectory)
    returns (child: Saved<seq<DirectoryNode>>, data: Bytes)
    requires SaveSubdirectory(s, d).Some?
    ensures SaveSubdirectories(d.child.directories, s.image) == Some(child)
    ensures var (region, image) := WriteMessage(child.image, data);
            SaveSubdirectory(s, d) ==
            Some(Saved(s.value + [DirectoryNode(d.name, region)], image, Max(Max(s.largest, child.largest), |data|)))
  {
    hide MarshalDirectory;
    child := SaveSubdirectories(d.child.directories, s.image).value;
    data := MarshalDirectory(SaveDirectory(d.child, false, s.image).value.value).value;
  }

  lemma SingleRegion(r: FileRegion)
    ensures r.sizeBytes > 0 ==> Adjacent([r], r.offsetBytes, r.offsetBytes + r.sizeBytes)
  {
    assert [r][..0] == [];
  }
}
