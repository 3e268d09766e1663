/** Saving and restoring output paths step by step, proved against the functions
    of OutputPathState. Restoring also accounts for every leaf it obtains. */
module PersistentOutputPath {
  import opened Wrappers
  import opened ByteStrings
  import opened Messages
  import opened FileReader
  import opened FileWriter
  import opened OutputPathState
  import Reloading

  /** Access to the directories of an output path, which fails at times unless it
      is reliable. */
  class DirectoryLister {
    const reliable: bool
    ghost var failed: bool

    constructor (reliable: bool)
      ensures this.reliable == reliable && !failed
    {
      this.reliable, failed := reliable, false;
    }

    method LookupAllChildren(t: Tree) returns (children: Option<(seq<Subdirectory>, seq<NamedLeaf>)>)
      modifies this
      ensures children.Some? ==> children.value == (t.directories, t.leaves) && failed == old(failed)
      ensures children == None ==> failed && !reliable
    {
      var ok := *;
      if ok || reliable {
        children := Some((t.directories, t.leaves));
      } else {
        failed := true;
        children := None;
      }
    }
  }

  /** Write everything below a directory to the state file, children first. */
  method SaveDirectoryRecursive(t: Tree, isRoot: bool, lister: DirectoryLister, w: FileWriter) returns (directory: Option<Directory>)
    requires w.Valid()
    modifies w.Footprint(), lister
    ensures w.Valid()
    ensures directory.Some? ==>
              && SaveDirectory(t, isRoot, old(w.Image())).Some?
              && var s := SaveDirectory(t, isRoot, old(w.Image())).value;
              && s.value == directory.value && s.image == w.Image()
    ensures directory == None ==> lister.failed || w.bufferedWriter.failed || SaveDirectory(t, isRoot, old(w.Image())) == None
    ensures w.rawWriter.reliable && !old(w.bufferedWriter.failed) ==> !w.bufferedWriter.failed
    ensures lister.reliable && !old(lister.failed) ==> !lister.failed
    decreases t
  {
    hide SaveSubdirectory;
    ghost var image := w.Image();
    ghost var saved: Saved<seq<DirectoryNode>> := Saved([], image, 0);
    var children := lister.LookupAllChildren(t);
    if children == None {
      return None;
    }
    var directories: seq<DirectoryNode> := [];
    var i := 0;
    while i < |children.value.0|
      invariant 0 <= i <= |t.directories| && w.Valid()
      invariant lister.reliable && !old(lister.failed) ==> !lister.failed
      invariant SaveSubdirectories(t.directories[..i], image) == Some(saved)
      invariant saved.value == directories && saved.image == w.Image()
      invariant w.rawWriter.reliable && !old(w.bufferedWriter.failed) ==> !w.bufferedWriter.failed
    {
      SaveSplitsAt(t.directories, i, image);
      var node := SaveSubdirectoryNode(t.directories[i], lister, w, saved);
      if node == None {
        SaveStops(t.directories, i + 1, image);
        return None;
      }
      directories := directories + [node.value];
      saved := SaveSubdirectory(saved, t.directories[i]).value;
      i := i + 1;
    }
    assert t.directories[..i] == t.directories;

    var files, symlinks := AppendLeaves(children.value.1, isRoot);
    directory := Some(Directory(files, directories, symlinks));
  }

  /** Save one subdirectory, and yield the node by which its parent refers to it. */
  method SaveSubdirectoryNode(entry: Subdirectory, lister: DirectoryLister, w: FileWriter, ghost saved: Saved<seq<DirectoryNode>>)
    returns (node: Option<DirectoryNode>)
    requires w.Valid() && saved.image == w.Image()
    modifies w.Footprint(), lister
    ensures w.Valid()
    ensures node.Some? ==>
              && SaveSubdirectory(saved, entry).Some?
              && var s := SaveSubdirectory(saved, entry).value;
              && s.value == saved.value + [node.value] && s.image == w.Image()
    ensures node == None ==> lister.failed || w.bufferedWriter.failed || SaveSubdirectory(saved, entry) == None
    ensures w.rawWriter.reliable && !old(w.bufferedWriter.failed) ==> !w.bufferedWriter.failed
    ensures lister.reliable && !old(lister.failed) ==> !lister.failed
    decreases entry
  {
    var child := SaveDirectoryRecursive(entry.child, false, lister, w);
    if child == None {
      return None;
    }
    var ok, fileRegion := w.WriteDirectory(child.value);
    node := if ok then Some(DirectoryNode(entry.name, fileRegion)) else None;
  }

  /** Add every leaf that can be persisted to the directory it is part of. */
  method AppendLeaves(leaves: seq<NamedLeaf>, isRoot: bool) returns (files: seq<FileNode>, symlinks: seq<SymlinkNode>)
    ensures files == FileNodes(leaves, isRoot) && symlinks == SymlinkNodes(leaves, isRoot)
    ensures forall n :: n in files <==>
              exists l :: l in leaves && l.leaf.File? && Reloading.Survives(l, isRoot)
                          && n == FileNode(l.name, Some(l.leaf.digest), l.leaf.isExecutable)
    ensures forall n :: n in symlinks <==>
              exists l :: l in leaves && l.leaf.Symlink? && Reloading.Survives(l, isRoot)
                          && n == SymlinkNode(l.name, l.leaf.target)
  {
    files, symlinks := [], [];
    for j := 0 to |leaves|
      invariant files == FileNodes(leaves[..j], isRoot) && symlinks == SymlinkNodes(leaves[..j], isRoot)
    {
      assert leaves[..j + 1][..j] == leaves[..j];
      var l := leaves[j];
      if !(isRoot && (l.name == STABLE_STATUS || l.name == VOLATILE_STATUS)) {
        match l.leaf
        case File(digest, isExecutable) => files := files + [FileNode(l.name, Some(digest), isExecutable)];
        case Symlink(target) => symlinks := symlinks + [SymlinkNode(l.name, target)];
        case Transient =>
      }
    }
    assert leaves[..|leaves|] == leaves;
    Reloading.NodesExactly(leaves, isRoot);
  }

  lemma SaveSplitsAt(ds: seq<Subdirectory>, i: nat, image: Bytes)
    requires i < |ds|
    ensures SaveSubdirectories(ds[..i + 1], image) ==
            (match SaveSubdirectories(ds[..i], image)
             case None => None
             case Some(s) => SaveSubdirectory(s, ds[i]))
  {
    assert ds[..i + 1][..i] == ds[..i];
  }

  /** A subdirectory that cannot be saved makes saving as a whole fail. */
  lemma {:induction false} SaveStops(ds: seq<Subdirectory>, i: nat, image: Bytes)
    requires i <= |ds|
    ensures SaveSubdirectories(ds[..i], image) == None ==> SaveSubdirectories(ds, image) == None
    decreases |ds| - i
  {
    if i < |ds| {
      SaveSplitsAt(ds, i, image);
      SaveStops(ds, i + 1, image);
    } else {
      assert ds[..i] == ds;
    }
  }

  /** Save an output path into a fresh file. On success the file holds exactly
      the bytes of its state file; if directories and file are reliable, only
      strings that are not UTF-8 stand in the way. */
  method SaveOutputPath(t: Tree, creationTime: Timestamp, lister: DirectoryLister, rawWriter: WritableFile) returns (ok: bool)
    requires rawWriter.contents == []
    modifies rawWriter, lister
    ensures ok ==> StateFile(t, creationTime) == Some(rawWriter.contents)
    ensures rawWriter.reliable && lister.reliable && !old(lister.failed) ==> (ok <==> Utf8Below(Persisted(t, true)))
  {
    SavesExactlyUtf8(t, creationTime);
    var w := new FileWriter(rawWriter);
    var contents := SaveDirectoryRecursive(t, true, lister, w);
    if contents == None {
      return false;
    }
    ok := w.Finalize(RootDirectory(Some(creationTime), contents));
  }

  // Restoring.

  /** A leaf obtained from one of the factories. */
  datatype Handle = Handle(leaf: Leaf, id: nat)

  /** The directories and factories that restoring calls into, with a record of
      what happened to every leaf. Unless it is reliable, creating directories
      and children may fail. */
  class Environment {
    const reliable: bool
    var created: nat
    ghost var attached: multiset<nat>
    ghost var unlinked: multiset<nat>

    ghost predicate Settled(pending: set<nat>)
      reads this
    {
      && (forall id :: id in pending ==> 0 <= id < created)
      && forall id: nat ::
           attached[id] + unlinked[id] == if id < created && id !in pending then 1 else 0
    }

    constructor (reliable: bool)
      ensures Settled({}) && this.reliable == reliable
    {
      this.reliable := reliable;
      created := 0;
      attached := multiset{};
      unlinked := multiset{};
    }

    method LookupLeaf(leaf: Leaf) returns (h: Handle)
      modifies this`created
      ensures created == old(created) + 1 && h == Handle(leaf, old(created))
    {
      h := Handle(leaf, created);
      created := created + 1;
    }

    method CreateDirectory() returns (ok: bool)
      ensures reliable ==> ok
    {
      ok := *;
      ok := ok || reliable;
    }

    /** Attaches all of the leaves, or none of them. */
    method CreateChildren(ghost ids: set<nat>) returns (ok: bool)
      requires Settled(ids)
      modifies this`attached
      ensures ok ==> Settled({})
      ensures !ok ==> attached == old(attached)
      ensures reliable ==> ok
    {
      ok := *;
      ok := ok || reliable;
      if ok {
        attached := attached + multiset(ids);
      }
    }

    method Unlink(ghost pending: set<nat>, ghost id: nat)
      requires Settled(pending) && id in pending
      modifies this`unlinked
      ensures Settled(pending - {id})
    {
      unlinked := unlinked + multiset{id};
    }
  }

  function Leaves(m: map<Bytes, Handle>): map<Bytes, Leaf> {
    map name | name in m :: m[name].leaf
  }

  function Ids(m: map<Bytes, Handle>): set<nat> {
    set name | name in m :: m[name].id
  }

  ghost predicate DistinctIds(m: map<Bytes, Handle>) {
    forall a, b :: a in m && b in m && a != b ==> m[a].id != m[b].id
  }

  lemma RemovesHandle(m: map<Bytes, Handle>, name: Bytes)
    requires name in m && DistinctIds(m)
    ensures m[name].id in Ids(m)
    ensures Ids(m - {name}) == Ids(m) - {m[name].id}
    ensures DistinctIds(m - {name})
  {
    var m' := m - {name};
    forall id | id in Ids(m) - {m[name].id} ensures id in Ids(m') {
      var n :| n in m && m[n].id == id;
      assert n in m' && m'[n].id == id;
    }
  }

  /** Unlinks every leaf that was not attached, each of them once. */
  method UnlinkAll(env: Environment, m: map<Bytes, Handle>)
    requires env.Settled(Ids(m)) && DistinctIds(m)
    modifies env`unlinked
    ensures env.Settled({})
  {
    var rest := m;
    while rest != map[]
      invariant DistinctIds(rest) && env.Settled(Ids(rest))
      decreases rest.Keys
    {
      var name :| name in rest;
      RemovesHandle(rest, name);
      env.Unlink(Ids(rest), rest[name].id);
      rest := rest - {name};
    }
  }

  /** The leaves in `m` are the only ones not dealt with yet. */
  ghost predicate Pending(env: Environment, m: map<Bytes, Handle>)
    reads env
  {
    DistinctIds(m) && env.Settled(Ids(m))
  }

  method AddLeaf(env: Environment, m: map<Bytes, Handle>, name: Bytes, leaf: Leaf) returns (m': map<Bytes, Handle>)
    requires Pending(env, m) && name !in m
    modifies env`created
    ensures Pending(env, m') && Leaves(m') == Leaves(m)[name := leaf]
  {
    var h := env.LookupLeaf(leaf);
    AddsHandle(m, name, h);
    m' := m[name := h];
    forall a | a in m ensures m[a].id != h.id {
      assert m[a].id in Ids(m);
    }
  }

  /** Obtain a leaf for every file. Whether or not that works out, every leaf
      obtained is among the results. */
  method ObtainFiles(env: Environment, policy: Policy, files: seq<FileNode>)
    returns (initialNodes: map<Bytes, Handle>, ok: bool)
    requires env.Settled({})
    modifies env`created
    ensures Pending(env, initialNodes)
    ensures CollectFiles(policy, files) == if ok then Some(Leaves(initialNodes)) else None
  {
    initialNodes := map[];
    for i := 0 to |files|
      invariant Pending(env, initialNodes)
      invariant CollectFiles(policy, files[..i]) == Some(Leaves(initialNodes))
    {
      var entry := files[i];
      assert files[..i + 1][..i] == files[..i];
      if !ValidComponent(entry.name) || entry.name in initialNodes
         || entry.digest == None || !policy.acceptsDigest(entry.digest.value) {
        FilesStop(policy, files, i + 1);
        ok := false;
        return;
      }
      initialNodes := AddLeaf(env, initialNodes, entry.name, File(entry.digest.value, entry.isExecutable));
    }
    assert files[..|files|] == files;
    ok := true;
  }

  /** Obtain a leaf for every symbolic link, next to those of the files. */
  method ObtainSymlinks(env: Environment, policy: Policy, fileNodes: map<Bytes, Handle>, symlinks: seq<SymlinkNode>)
    returns (initialNodes: map<Bytes, Handle>, ok: bool)
    requires Pending(env, fileNodes)
    modifies env`created
    ensures Pending(env, initialNodes)
    ensures CollectSymlinks(policy, Leaves(fileNodes), symlinks) == if ok then Some(Leaves(initialNodes)) else None
  {
    initialNodes := fileNodes;
    for i := 0 to |symlinks|
      invariant Pending(env, initialNodes)
      invariant CollectSymlinks(policy, Leaves(fileNodes), symlinks[..i]) == Some(Leaves(initialNodes))
    {
      var entry := symlinks[i];
      assert symlinks[..i + 1][..i] == symlinks[..i];
      if !ValidComponent(entry.name) || entry.name in initialNodes || !policy.acceptsTarget(entry.target) {
        SymlinksStop(policy, Leaves(fileNodes), symlinks, i + 1);
        ok := false;
        return;
      }
      initialNodes := AddLeaf(env, initialNodes, entry.name, Symlink(entry.target));
    }
    assert symlinks[..|symlinks|] == symlinks;
    ok := true;
  }

  lemma AddsHandle(m: map<Bytes, Handle>, name: Bytes, h: Handle)
    requires name !in m
    ensures Leaves(m[name := h]) == Leaves(m)[name := h.leaf]
    ensures Ids(m[name := h]) == Ids(m) + {h.id}
  {
    var m' := m[name := h];
    forall id | id in Ids(m) + {h.id} ensures id in Ids(m') {
      if id in Ids(m) {
        var n :| n in m && m[n].id == id;
        assert n in m' && m'[n].id == id;
      } else {
        assert name in m' && m'[name].id == id;
      }
    }
  }

  lemma {:induction false} FilesStop(policy: Policy, files: seq<FileNode>, i: nat)
    requires i <= |files| && CollectFiles(policy, files[..i]) == None
    ensures CollectFiles(policy, files) == None
    decreases |files| - i
  {
    if i < |files| {
      assert files[..i + 1][..i] == files[..i];
      FilesStop(policy, files, i + 1);
    } else {
      assert files[..i] == files;
    }
  }

  lemma {:induction false} SymlinksStop(policy: Policy, m: map<Bytes, Leaf>, symlinks: seq<SymlinkNode>, i: nat)
    requires i <= |symlinks| && CollectSymlinks(policy, m, symlinks[..i]) == None
    ensures CollectSymlinks(policy, m, symlinks) == None
    decreases |symlinks| - i
  {
    if i < |symlinks| {
      assert symlinks[..i + 1][..i] == symlinks[..i];
      SymlinksStop(policy, m, symlinks, i + 1);
    } else {
      assert symlinks[..i] == symlinks;
    }
  }

  lemma RestoreSplitsAt(policy: Policy, r: Reader, nodes: seq<DirectoryNode>, i: nat, d: Dir)
    requires i < |nodes|
    ensures var before := RestoreSubdirectories(policy, r, nodes[..i], d);
            RestoreSubdirectories(policy, r, nodes[..i + 1], d) ==
            if before.ok then RestoreSubdirectory(policy, r, nodes[i], before) else before
  {
    assert nodes[..i + 1][..i] == nodes[..i];
  }

  /** The first subdirectory that cannot be restored ends the attempt. */
  lemma {:induction false} RestoreStops(policy: Policy, r: Reader, nodes: seq<DirectoryNode>, i: nat, d: Dir)
    requires i <= |nodes| && !RestoreSubdirectories(policy, r, nodes[..i], d).ok
    ensures RestoreSubdirectories(policy, r, nodes, d) == RestoreSubdirectories(policy, r, nodes[..i], d)
    decreases |nodes| - i
  {
    if i < |nodes| {
      RestoreSplitsAt(policy, r, nodes, i, d);
      RestoreStops(policy, r, nodes, i + 1, d);
    } else {
      assert nodes[..i] == nodes;
    }
  }

  /** Rebuild a directory from its message. Success means that the result is the
      one that the message describes; in a reliable environment the outcome is
      always that of RestoreDirectory, even when it is a failure halfway. In any
      case each leaf obtained was attached once or unlinked once, never both. */
  method RestoreDirectoryRecursive(env: Environment, policy: Policy, r: Reader, contents: Directory, d: Dir)
    returns (d': Dir, ok: bool)
    requires env.Settled({})
    modifies env
    ensures env.Settled({})
    ensures ok ==> var restored := RestoreDirectory(policy, r, contents, d);
                   restored.ok && restored.dir == d'
    ensures env.reliable ==> var restored := RestoreDirectory(policy, r, contents, d);
                             restored.ok == ok && restored.dir == d'
    decreases Room(r), |contents.directories| > 0, |contents.directories| + 1
  {
    d', ok := d, false;
    var i := 0;
    while i < |contents.directories|
      invariant 0 <= i <= |contents.directories|
      invariant env.Settled({})
      invariant var restored := RestoreSubdirectories(policy, r, contents.directories[..i], d);
                restored.ok && restored.dir == d'
    {
      var entry := contents.directories[i];
      ghost var before := RestoreSubdirectories(policy, r, contents.directories[..i], d);
      RestoreSplitsAt(policy, r, contents.directories, i, d);
      if !ValidComponent(entry.name) {
        RestoreStops(policy, r, contents.directories, i + 1, d);
        return;
      }
      match ReadDirectory(r, entry.fileRegion)
      case Failure(_) =>
        RestoreStops(policy, r, contents.directories, i + 1, d);
        return;
      case Success((childReader, childContents)) =>
        var created := env.CreateDirectory();
        if !created {
          return;
        }
        var child, childOk := RestoreDirectoryRecursive(env, policy, childReader, childContents, Enter(d', entry.name));
        d' := Place(d', entry.name, child);
        if !childOk {
          if env.reliable {
            RestoreStops(policy, r, contents.directories, i + 1, d);
          }
          return;
        }
        i := i + 1;
    }
    assert contents.directories[..i] == contents.directories;

    var initialNodes, obtained := ObtainFiles(env, policy, contents.files);
    if obtained {
      initialNodes, obtained := ObtainSymlinks(env, policy, initialNodes, contents.symlinks);
    }
    if !obtained {
      UnlinkAll(env, initialNodes);
      return;
    }
    ok := env.CreateChildren(Ids(initialNodes));
    if !ok {
      UnlinkAll(env, initialNodes);
      return;
    }
    d' := Attach(d', Leaves(initialNodes));
  }
}
