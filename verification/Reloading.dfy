/** What survives saving and reloading, said of the output path itself: which
    directories and leaves are there again, and which messages can be restored. */
module Reloading {
  import opened Wrappers
  import opened ByteStrings
  import opened Messages
  import opened FileReader
  import opened OutputPathState

  /** Transient leaves do not survive, nor do, at the root, stable-status.txt and
      volatile-status.txt. */
  predicate Survives(l: NamedLeaf, isRoot: bool) {
    && !l.leaf.Transient?
    && !(isRoot && l.name == [115, 116, 97, 98, 108, 101, 45, 115, 116, 97, 116, 117, 115, 46, 116, 120, 116])
    && !(isRoot && l.name == [118, 111, 108, 97, 116, 105, 108, 101, 45, 115, 116, 97, 116, 117, 115, 46, 116, 120, 116])
  }

  /** Exactly the leaves of a directory that survive are there. */
  predicate SameLeaves(leaves: seq<NamedLeaf>, m: map<Bytes, Leaf>, isRoot: bool) {
    && (forall l :: l in leaves ==> ((l.name in m && m[l.name] == l.leaf) <==> Survives(l, isRoot)))
    && (forall name :: name in m ==> NamedLeaf(name, m[name]) in leaves)
  }

  /** Exactly the subdirectories and leaves of an output path are there again. */
  predicate Mirrors(t: Tree, d: Dir, isRoot: bool)
    decreases t
  {
    && (forall i :: 0 <= i < |t.directories| ==>
          && t.directories[i].name in d.directories
          && Mirrors(t.directories[i].child, d.directories[t.directories[i].name], false))
    && (forall name :: name in d.directories ==> exists i :: 0 <= i < |t.directories| && t.directories[i].name == name)
    && SameLeaves(t.leaves, d.leaves, isRoot)
  }

  /** Names are valid and unique in every directory, and every leaf that has to be
      restored is acceptable. */
  predicate Reloadable(policy: Policy, t: Tree, isRoot: bool)
    decreases t
  {
    && (forall i :: 0 <= i < |t.directories| ==> ValidComponent(t.directories[i].name))
    && (forall i :: 0 <= i < |t.leaves| ==> ValidComponent(t.leaves[i].name))
    && (forall i, j :: 0 <= i < j < |t.directories| ==> t.directories[i].name != t.directories[j].name)
    && (forall i, j :: 0 <= i < j < |t.leaves| ==> t.leaves[i].name != t.leaves[j].name)
    && (forall i, j :: 0 <= i < |t.directories| && 0 <= j < |t.leaves| ==> t.directories[i].name != t.leaves[j].name)
    && (forall l :: l in t.leaves && Survives(l, isRoot) ==>
          match l.leaf
          case File(digest, _) => policy.acceptsDigest(digest)
          case Symlink(target) => policy.acceptsTarget(target)
          case Transient => true)
    && (forall i :: 0 <= i < |t.directories| ==> Reloadable(policy, t.directories[i].child, false))
  }

  lemma StatusFileNames()
    ensures STABLE_STATUS == [115, 116, 97, 98, 108, 101, 45, 115, 116, 97, 116, 117, 115, 46, 116, 120, 116]
    ensures VOLATILE_STATUS == [118, 111, 108, 97, 116, 105, 108, 101, 45, 115, 116, 97, 116, 117, 115, 46, 116, 120, 116]
  {
  }

  predicate DistinctLeaves(leaves: seq<NamedLeaf>) {
    forall i, j :: 0 <= i < j < |leaves| ==> leaves[i].name != leaves[j].name
  }

  lemma {:induction false} KeptMembers(leaves: seq<NamedLeaf>, isRoot: bool, l: NamedLeaf)
    ensures l in KeptLeaves(leaves, isRoot) <==> l in leaves && !Skipped(l, isRoot)
  {
    if leaves != [] {
      var n := |leaves| - 1;
      KeptMembers(leaves[..n], isRoot, l);
      assert leaves == leaves[..n] + [leaves[n]];
    }
  }

  lemma {:induction false} KeptAreDistinct(leaves: seq<NamedLeaf>, isRoot: bool)
    requires DistinctLeaves(leaves)
    ensures DistinctLeaves(KeptLeaves(leaves, isRoot))
  {
    if leaves != [] {
      var n := |leaves| - 1;
      var kept := KeptLeaves(leaves[..n], isRoot);
      KeptAreDistinct(leaves[..n], isRoot);
      forall i | 0 <= i < |kept| ensures kept[i].name != leaves[n].name {
        KeptMembers(leaves[..n], isRoot, kept[i]);
        assert kept[i] in leaves[..n];
      }
    }
  }

  lemma {:induction false} LeafMapHolds(leaves: seq<NamedLeaf>, name: Bytes)
    requires DistinctLeaves(leaves)
    ensures forall l :: l in leaves && l.name == name ==> name in LeafMap(leaves) && LeafMap(leaves)[name] == l.leaf
    ensures name in LeafMap(leaves) ==> NamedLeaf(name, LeafMap(leaves)[name]) in leaves
  {
    if leaves != [] {
      var n := |leaves| - 1;
      LeafMapHolds(leaves[..n], name);
      assert leaves == leaves[..n] + [leaves[n]];
      forall l | l in leaves[..n] ensures l.name != leaves[n].name {
      }
    }
  }

  lemma {:induction false} DirectoryMapHolds(ds: seq<Subdirectory>, i: nat)
    requires forall i, j :: 0 <= i < j < |ds| ==> ds[i].name != ds[j].name
    requires i < |ds|
    ensures ds[i].name in DirectoryMap(ds) && DirectoryMap(ds)[ds[i].name] == ToDir(ds[i].child)
  {
    var n := |ds| - 1;
    if i < n {
      DirectoryMapHolds(ds[..n], i);
    }
  }

  lemma {:induction false} PersistedAt(ds: seq<Subdirectory>, i: nat)
    requires i < |ds|
    ensures PersistedSubdirectories(ds)[i] == Subdirectory(ds[i].name, Persisted(ds[i].child, false))
  {
    if i < |ds| - 1 {
      PersistedAt(ds[..|ds| - 1], i);
    }
  }

  lemma KeptLeavesAreSame(t: Tree, isRoot: bool)
    requires DistinctLeaves(t.leaves)
    ensures SameLeaves(t.leaves, LeafMap(KeptLeaves(t.leaves, isRoot)), isRoot)
  {
    hide Skipped, Survives, KeptLeaves, LeafMap;
    var kept := KeptLeaves(t.leaves, isRoot);
    KeptAreDistinct(t.leaves, isRoot);
    forall l | l in t.leaves ensures (l.name in LeafMap(kept) && LeafMap(kept)[l.name] == l.leaf) <==> Survives(l, isRoot) {
      SkippedByName(l, isRoot);
      KeptMembers(t.leaves, isRoot, l);
      LeafMapHolds(kept, l.name);
      assert l == NamedLeaf(l.name, l.leaf);
    }
    forall name | name in LeafMap(kept) ensures NamedLeaf(name, LeafMap(kept)[name]) in t.leaves {
      LeafMapHolds(kept, name);
      KeptMembers(t.leaves, isRoot, NamedLeaf(name, LeafMap(kept)[name]));
    }
  }

  lemma SkippedByName(l: NamedLeaf, isRoot: bool)
    ensures Skipped(l, isRoot) <==> !Survives(l, isRoot)
  {
    StatusFileNames();
  }

  lemma {:induction false} PersistedMirrors(policy: Policy, t: Tree, isRoot: bool)
    requires Reloadable(policy, t, isRoot)
    ensures WellFormed(policy, Persisted(t, isRoot))
    ensures Mirrors(t, ToDir(Persisted(t, isRoot)), isRoot)
    decreases t
  {
    var ds, ps := t.directories, PersistedSubdirectories(t.directories);
    forall i | 0 <= i < |ds|
      ensures ps[i] == Subdirectory(ds[i].name, Persisted(ds[i].child, false))
      ensures WellFormed(policy, ps[i].child) && Mirrors(ds[i].child, ToDir(ps[i].child), false)
    {
      PersistedAt(ds, i);
      PersistedMirrors(policy, ds[i].child, false);
    }
    PersistedIsWellFormed(policy, t, isRoot);
    MirrorsFromParts(t, isRoot);
  }

  lemma PersistedIsWellFormed(policy: Policy, t: Tree, isRoot: bool)
    requires Reloadable(policy, t, isRoot)
    requires var ps := PersistedSubdirectories(t.directories);
             forall i :: 0 <= i < |ps| ==> ps[i].name == t.directories[i].name && WellFormed(policy, ps[i].child)
    ensures WellFormed(policy, Persisted(t, isRoot))
  {
    var kept := KeptLeaves(t.leaves, isRoot);
    StatusFileNames();
    KeptAreDistinct(t.leaves, isRoot);
    forall i | 0 <= i < |kept|
      ensures kept[i] in t.leaves && ValidComponent(kept[i].name) && AcceptableLeaf(policy, kept[i].leaf)
    {
      KeptMembers(t.leaves, isRoot, kept[i]);
    }
  }

  lemma MirrorsFromParts(t: Tree, isRoot: bool)
    requires DistinctLeaves(t.leaves)
    requires forall i, j :: 0 <= i < j < |t.directories| ==> t.directories[i].name != t.directories[j].name
    requires var ps := PersistedSubdirectories(t.directories);
             forall i :: 0 <= i < |ps| ==>
               ps[i].name == t.directories[i].name && Mirrors(t.directories[i].child, ToDir(ps[i].child), false)
    ensures Mirrors(t, ToDir(Persisted(t, isRoot)), isRoot)
  {
    hide SameLeaves, KeptLeaves, DirectoryMap, PersistedSubdirectories, LeafMap;
    var ps := PersistedSubdirectories(t.directories);
    KeptLeavesAreSame(t, isRoot);
    DirectoryMapKeys(ps);
    forall i | 0 <= i < |ps| ensures ps[i].name in DirectoryMap(ps) && DirectoryMap(ps)[ps[i].name] == ToDir(ps[i].child) {
      DirectoryMapHolds(ps, i);
    }
  }

  /** Saving an output path and reloading the file brings back precisely its
      directories and its leaves, the status files at the root and transient leaves
      excepted. */
  lemma ReloadedPathMirrors(policy: Policy, t: Tree, creationTime: Timestamp, limit: Int64, file: RawFile)
    requires Reloadable(policy, t, true)
    requires StateFile(t, creationTime) == Some(file) && LargestMessage(t, creationTime) < TWO_31
    ensures var loaded := NewFileReader(file, limit);
            && (loaded.Success? <==> |file| <= limit)
            && (loaded.Success? ==>
                 && loaded.value.1.initialCreationTime == Some(creationTime)
                 && loaded.value.1.contents.Some?
                 && var restored := RestoreDirectory(policy, loaded.value.0, loaded.value.1.contents.value, EMPTY_DIR);
                 && restored.ok && Mirrors(t, restored.dir, true))
  {
    PersistedMirrors(policy, t, true);
    SaveRestoreRoundTrip(policy, t, creationTime, limit, file);
  }

  // How large messages can be.

  lemma {:induction false} LargestIsInImage(ds: seq<Subdirectory>, image: Bytes)
    requires SaveSubdirectories(ds, image).Some?
    ensures SaveSubdirectories(ds, image).value.largest <= |SaveSubdirectories(ds, image).value.image|
    decreases ds
  {
    hide SaveSubdirectory, SaveDirectory;
    if ds == [] {
      NothingBelow(image);
    } else {
      LastIsSaved(ds, image);
      var last, s := ds[|ds| - 1], SaveSubdirectories(ds[..|ds| - 1], image).value;
      LargestIsInImage(ds[..|ds| - 1], image);
      LargestIsInImage(last.child.directories, s.image);
      SaveSubdirectoriesExtendsImage(last.child.directories, s.image);
      var child, data := SubdirectoryUnfolds(s, last);
    }
  }

  /** No message is larger than its file, so that below two gigabytes the size of
      messages is no concern. */
  lemma LargestMessageIsInFile(t: Tree, creationTime: Timestamp, file: Bytes)
    requires StateFile(t, creationTime) == Some(file)
    ensures HEADER_SIZE_BYTES + LargestMessage(t, creationTime) <= |file|
  {
    hide MarshalRootDirectory;
    var s := SaveDirectory(t, true, []).value;
    assert SaveSubdirectories(t.directories, []).Some?;
    LargestIsInImage(t.directories, []);
  }

  // Which leaves are saved.

  /** A file is saved exactly if it is neither of the two status files at the root. */
  lemma {:induction false} FileNodesExactly(leaves: seq<NamedLeaf>, isRoot: bool, n: FileNode)
    ensures n in FileNodes(leaves, isRoot) <==>
            exists l :: l in leaves && l.leaf.File? && Survives(l, isRoot)
                        && n == FileNode(l.name, Some(l.leaf.digest), l.leaf.isExecutable)
  {
    StatusFileNames();
    if leaves != [] {
      FileNodesExactly(leaves[..|leaves| - 1], isRoot, n);
      assert leaves == leaves[..|leaves| - 1] + [leaves[|leaves| - 1]];
    }
  }

  /** The same for symbolic links. */
  lemma {:induction false} SymlinkNodesExactly(leaves: seq<NamedLeaf>, isRoot: bool, n: SymlinkNode)
    ensures n in SymlinkNodes(leaves, isRoot) <==>
            exists l :: l in leaves && l.leaf.Symlink? && Survives(l, isRoot)
                        && n == SymlinkNode(l.name, l.leaf.target)
  {
    StatusFileNames();
    if leaves != [] {
      SymlinkNodesExactly(leaves[..|leaves| - 1], isRoot, n);
      assert leaves == leaves[..|leaves| - 1] + [leaves[|leaves| - 1]];
    }
  }

  lemma NodesExactly(leaves: seq<NamedLeaf>, isRoot: bool)
    ensures forall n :: n in FileNodes(leaves, isRoot) <==>
              exists l :: l in leaves && l.leaf.File? && Survives(l, isRoot)
                          && n == FileNode(l.name, Some(l.leaf.digest), l.leaf.isExecutable)
    ensures forall n :: n in SymlinkNodes(leaves, isRoot) <==>
              exists l :: l in leaves && l.leaf.Symlink? && Survives(l, isRoot)
                          && n == SymlinkNode(l.name, l.leaf.target)
  {
    hide FileNodes, SymlinkNodes, Survives;
    forall n ensures n in FileNodes(leaves, isRoot) <==>
                     exists l :: l in leaves && l.leaf.File? && Survives(l, isRoot)
                                 && n == FileNode(l.name, Some(l.leaf.digest), l.leaf.isExecutable)
    {
      FileNodesExactly(leaves, isRoot, n);
    }
    forall n ensures n in SymlinkNodes(leaves, isRoot) <==>
                     exists l :: l in leaves && l.leaf.Symlink? && Survives(l, isRoot)
                                 && n == SymlinkNode(l.name, l.leaf.target)
    {
      SymlinkNodesExactly(leaves, isRoot, n);
    }
  }

  // Which messages can be restored.

  predicate GoodFile(policy: Policy, n: FileNode) {
    ValidComponent(n.name) && n.digest.Some? && policy.acceptsDigest(n.digest.value)
  }

  predicate GoodSymlink(policy: Policy, n: SymlinkNode) {
    ValidComponent(n.name) && policy.acceptsTarget(n.target)
  }

  /** Every entry of a message is valid, no two leaves have the same name, and every
      directory that it refers to can be read and is of that kind, too. */
  predicate Restorable(policy: Policy, r: Reader, contents: Directory)
    decreases Room(r), |contents.directories|
  {
    && (forall i :: 0 <= i < |contents.directories| ==>
          var n := contents.directories[i];
          && ValidComponent(n.name)
          && ReadDirectory(r, n.fileRegion).Success?
          && var (childReader, childContents) := ReadDirectory(r, n.fileRegion).value;
          Restorable(policy, childReader, childContents))
    && (forall i :: 0 <= i < |contents.files| ==> GoodFile(policy, contents.files[i]))
    && (forall i :: 0 <= i < |contents.symlinks| ==> GoodSymlink(policy, contents.symlinks[i]))
    && Distinct(NamesOfFiles(contents.files) + NamesOfSymlinks(contents.symlinks))
  }

  function NamesOfFiles(files: seq<FileNode>): seq<Bytes> {
    seq(|files|, i requires 0 <= i < |files| => files[i].name)
  }

  function NamesOfSymlinks(symlinks: seq<SymlinkNode>): seq<Bytes> {
    seq(|symlinks|, i requires 0 <= i < |symlinks| => symlinks[i].name)
  }

  predicate Distinct(names: seq<Bytes>) {
    forall i, j :: 0 <= i < j < |names| ==> names[i] != names[j]
  }

  lemma DistinctSplits(names: seq<Bytes>)
    requires names != []
    ensures var n := |names| - 1;
            && (Distinct(names) <==> Distinct(names[..n]) && names[n] !in names[..n])
            && forall x :: x in names <==> x in names[..n] || x == names[n]
  {
    var n := |names| - 1;
    assert names == names[..n] + [names[n]];
  }

  lemma {:induction false} CollectFilesExactly(policy: Policy, files: seq<FileNode>)
    ensures CollectFiles(policy, files).Some? <==>
            (forall i :: 0 <= i < |files| ==> GoodFile(policy, files[i])) && Distinct(NamesOfFiles(files))
    ensures CollectFiles(policy, files).Some? ==>
              forall name :: name in CollectFiles(policy, files).value <==> name in NamesOfFiles(files)
  {
    if files != [] {
      hide Distinct, GoodFile;
      var n := |files| - 1;
      CollectFilesExactly(policy, files[..n]);
      assert NamesOfFiles(files)[..n] == NamesOfFiles(files[..n]);
      DistinctSplits(NamesOfFiles(files));
      LastFileCollects(policy, files);
    }
  }

  lemma LastFileCollects(policy: Policy, files: seq<FileNode>)
    requires files != []
    ensures var n := |files| - 1;
            var before := CollectFiles(policy, files[..n]);
            && (CollectFiles(policy, files).Some? <==>
                before.Some? && GoodFile(policy, files[n]) && files[n].name !in before.value)
            && (CollectFiles(policy, files).Some? ==>
                CollectFiles(policy, files).value.Keys == before.value.Keys + {files[n].name})
  {
  }

  lemma {:induction false} CollectSymlinksExactly(policy: Policy, m: map<Bytes, Leaf>, names: seq<Bytes>, symlinks: seq<SymlinkNode>)
    requires Distinct(names) && forall name :: name in m <==> name in names
    ensures CollectSymlinks(policy, m, symlinks).Some? <==>
            && (forall i :: 0 <= i < |symlinks| ==> GoodSymlink(policy, symlinks[i]))
            && Distinct(names + NamesOfSymlinks(symlinks))
    ensures CollectSymlinks(policy, m, symlinks).Some? ==>
              forall name :: name in CollectSymlinks(policy, m, symlinks).value <==> name in names + NamesOfSymlinks(symlinks)
  {
    hide Distinct, GoodSymlink;
    if symlinks == [] {
      assert names + NamesOfSymlinks(symlinks) == names;
    } else {
      var n := |symlinks| - 1;
      var all := names + NamesOfSymlinks(symlinks);
      CollectSymlinksExactly(policy, m, names, symlinks[..n]);
      assert all[..|all| - 1] == names + NamesOfSymlinks(symlinks[..n]);
      DistinctSplits(all);
      LastSymlinkCollects(policy, m, symlinks);
    }
  }

  lemma LastSymlinkCollects(policy: Policy, m: map<Bytes, Leaf>, symlinks: seq<SymlinkNode>)
    requires symlinks != []
    ensures var n := |symlinks| - 1;
            var before := CollectSymlinks(policy, m, symlinks[..n]);
            && (CollectSymlinks(policy, m, symlinks).Some? <==>
                before.Some? && GoodSymlink(policy, symlinks[n]) && symlinks[n].name !in before.value)
            && (CollectSymlinks(policy, m, symlinks).Some? ==>
                CollectSymlinks(policy, m, symlinks).value.Keys == before.value.Keys + {symlinks[n].name})
  {
  }

  lemma CollectLeavesExactly(policy: Policy, contents: Directory)
    ensures CollectLeaves(policy, contents).Some? <==>
            && (forall i :: 0 <= i < |contents.files| ==> GoodFile(policy, contents.files[i]))
            && (forall i :: 0 <= i < |contents.symlinks| ==> GoodSymlink(policy, contents.symlinks[i]))
            && Distinct(NamesOfFiles(contents.files) + NamesOfSymlinks(contents.symlinks))
  {
    hide GoodFile, GoodSymlink;
    CollectFilesExactly(policy, contents.files);
    var names := NamesOfFiles(contents.files) + NamesOfSymlinks(contents.symlinks);
    if CollectFiles(policy, contents.files).Some? {
      CollectSymlinksExactly(policy, CollectFiles(policy, contents.files).value, NamesOfFiles(contents.files), contents.symlinks);
    } else if Distinct(names) {
      assert names[..|contents.files|] == NamesOfFiles(contents.files);
    }
  }

  /** Restoring succeeds exactly for such messages, whatever there is already. */
  lemma {:induction false} RestoresExactly(policy: Policy, r: Reader, contents: Directory, d: Dir)
    ensures RestoreDirectory(policy, r, contents, d).ok <==> Restorable(policy, r, contents)
    decreases Room(r), |contents.directories| > 0, |contents.directories| + 1
  {
    RestoresSubdirectoriesExactly(policy, r, contents.directories, d);
    CollectLeavesExactly(policy, contents);
    hide CollectLeaves, Distinct, GoodFile, GoodSymlink, ReadDirectory, ValidComponent, RestoreSubdirectories;
    assert forall i :: 0 <= i < |contents.directories| ==> contents.directories[i] == contents.directories[i];
  }

  predicate RestorableNode(policy: Policy, r: Reader, n: DirectoryNode) {
    && ValidComponent(n.name)
    && ReadDirectory(r, n.fileRegion).Success?
    && var (childReader, childContents) := ReadDirectory(r, n.fileRegion).value;
    Restorable(policy, childReader, childContents)
  }

  lemma {:induction false} RestoresSubdirectoriesExactly(policy: Policy, r: Reader, nodes: seq<DirectoryNode>, d: Dir)
    ensures RestoreSubdirectories(policy, r, nodes, d).ok <==>
            forall i :: 0 <= i < |nodes| ==> RestorableNode(policy, r, nodes[i])
    decreases Room(r), |nodes| > 0, |nodes|
  {
    hide Restorable, ReadDirectory, ValidComponent;
    if nodes != [] {
      var n := |nodes| - 1;
      RestoresSubdirectoriesExactly(policy, r, nodes[..n], d);
      RestoresLastExactly(policy, r, nodes[n], RestoreSubdirectories(policy, r, nodes[..n], d));
    }
  }

  lemma {:induction false} RestoresLastExactly(policy: Policy, r: Reader, node: DirectoryNode, before: Restored)
    ensures RestoreSubdirectory(policy, r, node, before).ok <==> RestorableNode(policy, r, node)
    decreases Room(r), true, 0
  {
    hide Restorable;
    match ReadDirectory(r, node.fileRegion)
    case Failure(_) =>
    case Success((childReader, childContents)) =>
      RestoresExactly(policy, childReader, childContents, Enter(before.dir, node.name));
  }

  // What restoring a message yields, and how deep it can go.

  lemma {:induction false} CollectedFiles(policy: Policy, files: seq<FileNode>, i: nat)
    requires CollectFiles(policy, files).Some? && i < |files|
    ensures var m := CollectFiles(policy, files).value;
            && files[i].name in m && files[i].digest.Some?
            && m[files[i].name] == File(files[i].digest.value, files[i].isExecutable)
  {
    if i < |files| - 1 {
      CollectedFiles(policy, files[..|files| - 1], i);
    }
  }

  lemma {:induction false} CollectedSymlinks(policy: Policy, m: map<Bytes, Leaf>, symlinks: seq<SymlinkNode>)
    requires CollectSymlinks(policy, m, symlinks).Some?
    ensures var m' := CollectSymlinks(policy, m, symlinks).value;
            && (forall name :: name in m ==> name in m' && m'[name] == m[name])
            && (forall i :: 0 <= i < |symlinks| ==>
                  symlinks[i].name in m' && m'[symlinks[i].name] == Symlink(symlinks[i].target))
  {
    if symlinks != [] {
      CollectedSymlinks(policy, m, symlinks[..|symlinks| - 1]);
    }
  }

  lemma {:induction false} SubdirectoriesAddNoLeaves(policy: Policy, r: Reader, nodes: seq<DirectoryNode>, d: Dir)
    ensures RestoreSubdirectories(policy, r, nodes, d).dir.leaves.Keys <= d.leaves.Keys
  {
    if nodes != [] {
      SubdirectoriesAddNoLeaves(policy, r, nodes[..|nodes| - 1], d);
    }
  }

  /** A directory restored from a message into an empty one has exactly the files and
      symbolic links of the message. */
  lemma RestoredLeavesAreThoseOfMessage(policy: Policy, r: Reader, contents: Directory)
    requires RestoreDirectory(policy, r, contents, EMPTY_DIR).ok
    ensures var m := RestoreDirectory(policy, r, contents, EMPTY_DIR).dir.leaves;
            && (forall i :: 0 <= i < |contents.files| ==>
                  var n := contents.files[i];
                  n.digest.Some? && n.name in m && m[n.name] == File(n.digest.value, n.isExecutable))
            && (forall i :: 0 <= i < |contents.symlinks| ==>
                  var n := contents.symlinks[i];
                  n.name in m && m[n.name] == Symlink(n.target))
            && (forall name :: name in m ==> name in NamesOfFiles(contents.files) + NamesOfSymlinks(contents.symlinks))
  {
    var files := CollectFiles(policy, contents.files).value;
    SubdirectoriesAddNoLeaves(policy, r, contents.directories, EMPTY_DIR);
    CollectFilesExactly(policy, contents.files);
    CollectSymlinksExactly(policy, files, NamesOfFiles(contents.files), contents.symlinks);
    CollectedSymlinks(policy, files, contents.symlinks);
    forall i | 0 <= i < |contents.files|
      ensures var n := contents.files[i];
              n.digest.Some? && n.name in files && files[n.name] == File(n.digest.value, n.isExecutable)
    {
      CollectedFiles(policy, contents.files, i);
    }
  }

  /** A further subdirectory is restored into the one of that name, if there is one
      already. It replaces a leaf of that name and leaves everything else alone. */
  lemma SubdirectoryIsEntered(policy: Policy, r: Reader, nodes: seq<DirectoryNode>, n: DirectoryNode, d: Dir)
    requires RestoreSubdirectories(policy, r, nodes, d).ok && RestorableNode(policy, r, n)
    ensures var before, after := RestoreSubdirectories(policy, r, nodes, d).dir, RestoreSubdirectories(policy, r, nodes + [n], d).dir;
            var (childReader, childContents) := ReadDirectory(r, n.fileRegion).value;
            var entered := if n.name in before.directories then before.directories[n.name] else Dir(map[], map[]);
            && after.directories == before.directories[n.name := RestoreDirectory(policy, childReader, childContents, entered).dir]
            && after.leaves == before.leaves - {n.name}
  {
    assert (nodes + [n])[..|nodes|] == nodes;
  }

  lemma {:induction false} SubdirectoryNamesAreRestored(policy: Policy, r: Reader, nodes: seq<DirectoryNode>, d: Dir, name: Bytes)
    requires RestoreSubdirectories(policy, r, nodes, d).ok
    ensures name in RestoreSubdirectories(policy, r, nodes, d).dir.directories <==>
            name in d.directories || exists i :: 0 <= i < |nodes| && nodes[i].name == name
  {
    if nodes != [] {
      hide RestoreDirectory, ReadDirectory, ValidComponent;
      var n := |nodes| - 1;
      SubdirectoryNamesAreRestored(policy, r, nodes[..n], d, name);
      assert forall i :: 0 <= i < n ==> nodes[..n][i] == nodes[i];
    }
  }

  /** The subdirectories restored are those of the message, unless a leaf takes the
      place of one. */
  lemma RestoredDirectoriesAreThoseOfMessage(policy: Policy, r: Reader, contents: Directory, name: Bytes)
    requires RestoreDirectory(policy, r, contents, EMPTY_DIR).ok
    ensures name in RestoreDirectory(policy, r, contents, EMPTY_DIR).dir.directories <==>
            && (exists i :: 0 <= i < |contents.directories| && contents.directories[i].name == name)
            && name !in NamesOfFiles(contents.files) + NamesOfSymlinks(contents.symlinks)
  {
    SubdirectoryNamesAreRestored(policy, r, contents.directories, EMPTY_DIR, name);
    CollectFilesExactly(policy, contents.files);
    CollectSymlinksExactly(policy, CollectFiles(policy, contents.files).value, NamesOfFiles(contents.files), contents.symlinks);
  }

  /** Directories of which each is one that the previous one refers to. */
  ghost predicate IsDescent(path: seq<(Reader, Directory)>) {
    forall i :: 0 <= i < |path| - 1 ==> Refers(path[i], path[i + 1])
  }

  ghost predicate Refers(a: (Reader, Directory), b: (Reader, Directory)) {
    exists k :: 0 <= k < |a.1.directories| && ReadDirectory(a.0, a.1.directories[k].fileRegion) == Success(b)
  }

  /** No file, however malformed, lets anyone descend further than its size limit
      allows. */
  lemma {:induction false} DescentIsBounded(path: seq<(Reader, Directory)>)
    requires path != [] && IsDescent(path)
    ensures |path| <= Max(2, Room(path[0].0) - 14)
    decreases |path|
  {
    if |path| > 1 {
      var a, b := path[0], path[1];
      assert Refers(path[0], path[0 + 1]);
      var k :| 0 <= k < |a.1.directories| && ReadDirectory(a.0, a.1.directories[k].fileRegion) == Success(b);
      forall i | 0 <= i < |path[1..]| - 1 ensures Refers(path[1..][i], path[1..][i + 1]) {
        assert Refers(path[i + 1], path[i + 1 + 1]);
      }
      if a.1.directories[k].fileRegion == None {
        assert b.1.directories == [];
        assert |path| > 2 ==> Refers(path[1], path[1 + 1]);
      } else {
        DescentIsBounded(path[1..]);
      }
    }
  }
}
