/** The identifiers of directories and symbolic links inside REv2 Tree objects.
    An identifier is read back byte by byte to find the node it was made for. */
module TreeHandles {
  import opened Wrappers
  import opened ByteStrings
  import opened Messages
  import opened OutputPathState
  import opened CasDirectory
  import Varint

  /** A directory of a tree: the root, or any other one, which its digest names. */
  datatype Place = Root | Nested(digest: Digest)

  /** What an identifier denotes: a directory, or a symbolic link in it. */
  datatype Node =
    | DirectoryAt(place: Place)
    | SymlinkAt(place: Place, index: nat)

  datatype Resolved = Resolved(node: Node, target: Option<Bytes>)

  datatype HandleError = BadHandle | Unavailable(status: Status)

  /** The compact binary form of digests, which the digest library determines. */
  datatype DigestCodec = DigestCodec(encode: Digest -> Bytes, decode: Bytes -> Option<(Digest, nat)>)

  /** Decoding yields the encoded digest and stops right behind it. */
  ghost predicate Faithful(codec: DigestCodec) {
    forall d, rest :: codec.decode(codec.encode(d) + rest) == Some((d, |codec.encode(d)|))
  }

  /** A tree: the contents of its directories, if these can be loaded. */
  type Tree = Place -> Result<CasDirectory, Status>

  function PlaceIdentifier(codec: DigestCodec, place: Place): Bytes {
    match place
    case Root => [0]
    case Nested(digest) => [1] + codec.encode(digest)
  }

  function Identifier(codec: DigestCodec, node: Node): Bytes {
    match node
    case DirectoryAt(place) => PlaceIdentifier(codec, place) + [0]
    case SymlinkAt(place, index) => PlaceIdentifier(codec, place) + Varint.Encode(index + 1)
  }

  /** The symbolic link at an index of a directory. */
  function ResolveSymlink(policy: Policy, tree: Tree, place: Place, index: nat): Result<Resolved, HandleError> {
    match tree(place)
    case Failure(status) => Failure(Unavailable(status))
    case Success(directory) =>
      if index >= |directory.symlinks| then Failure(BadHandle)
      else if !policy.acceptsTarget(directory.symlinks[index].target) then Failure(Unavailable(ErrIO))
      else Success(Resolved(SymlinkAt(place, index), Some(directory.symlinks[index].target)))
  }

  /** Resolve what follows the part of an identifier that denotes a directory. */
  function ResolveInside(policy: Policy, tree: Tree, place: Place, s: Bytes): Result<Resolved, HandleError> {
    match Varint.Decode(s)
    case Malformed => Failure(BadHandle)
    case Decoded(value, _) =>
      if value == 0 then Success(Resolved(DirectoryAt(place), None)) else ResolveSymlink(policy, tree, place, value - 1)
  }

  /** The directory that an identifier starts with, and where that part ends. */
  function LocatePlace(codec: DigestCodec, s: Bytes): (r: Option<(Place, nat)>)
    ensures r.Some? ==> r.value.1 <= |s|
  {
    if s == [] then None
    else if s[0] == 0 then Some((Root, 1))
    else if s[0] == 1 then
      match codec.decode(s[1..])
      case None => None
      case Some((digest, length)) => if 1 + length > |s| then None else Some((Nested(digest), 1 + length))
    else None
  }

  function Resolve(policy: Policy, codec: DigestCodec, tree: Tree, s: Bytes): Result<Resolved, HandleError> {
    match LocatePlace(codec, s)
    case None => Failure(BadHandle)
    case Some((place, length)) => ResolveInside(policy, tree, place, s[length..])
  }

  lemma PlaceRoundTrip(codec: DigestCodec, place: Place, rest: Bytes)
    requires Faithful(codec)
    ensures LocatePlace(codec, PlaceIdentifier(codec, place) + rest) == Some((place, |PlaceIdentifier(codec, place)|))
  {
    var s := PlaceIdentifier(codec, place) + rest;
    if place.Nested? {
      assert s[1..] == codec.encode(place.digest) + rest;
    }
  }

  lemma IdentifierSplits(codec: DigestCodec, node: Node, rest: Bytes)
    requires Faithful(codec) && Suffix(node) < TWO_64
    ensures var s, n := Identifier(codec, node) + rest, |PlaceIdentifier(codec, node.place)|;
            && LocatePlace(codec, s) == Some((node.place, n))
            && n <= |s| && Varint.Decode(s[n..]) == Varint.Decoded(Suffix(node), |Identifier(codec, node)| - n)
  {
    var place, suffix := PlaceIdentifier(codec, node.place), Varint.Encode(Suffix(node));
    assert Identifier(codec, node) == place + suffix;
    assert Identifier(codec, node) + rest == place + (suffix + rest);
    PlaceRoundTrip(codec, node.place, suffix + rest);
    Varint.RoundTrip(Suffix(node), rest);
    DropPrefix(place, suffix + rest);
  }

  /** The number that follows the place in the identifier of a node. */
  function Suffix(node: Node): nat {
    if node.DirectoryAt? then 0 else node.index + 1
  }

  /** An identifier, followed by anything, resolves to the node it was made for.
      For symbolic links that means the target that the directory has at that
      index, and a bad handle if there is none. */
  lemma ResolvesToItsNode(policy: Policy, codec: DigestCodec, tree: Tree, node: Node, rest: Bytes)
    requires Faithful(codec) && Suffix(node) < TWO_64
    ensures Resolve(policy, codec, tree, Identifier(codec, node) + rest) ==
            match node
            case DirectoryAt(_) => Success(Resolved(node, None))
            case SymlinkAt(place, index) =>
              match tree(place)
              case Failure(status) => Failure(Unavailable(status))
              case Success(d) =>
                if index >= |d.symlinks| then Failure(BadHandle)
                else if policy.acceptsTarget(d.symlinks[index].target) then Success(Resolved(node, Some(d.symlinks[index].target)))
                else Failure(Unavailable(ErrIO))
  {
    IdentifierSplits(codec, node, rest);
  }

  /** The root starts with a zero byte, any other directory with a one and its digest.
      A further zero stands for the directory itself, and a number for a symbolic
      link in it, counting from one. */
  lemma IdentifierBytes(codec: DigestCodec, digest: Digest)
    ensures Identifier(codec, DirectoryAt(Root)) == [0x00, 0x00]
    ensures Identifier(codec, DirectoryAt(Nested(digest))) == [0x01] + codec.encode(digest) + [0x00]
    ensures Identifier(codec, SymlinkAt(Root, 0)) == [0x00, 0x01]
    ensures Identifier(codec, SymlinkAt(Root, 299)) == [0x00, 0xAC, 0x02]
    ensures Identifier(codec, SymlinkAt(Nested(digest), 0)) == [0x01] + codec.encode(digest) + [0x01]
  {
    assert Varint.Encode(1) == [0x01] && Varint.Encode(300) == [0xAC, 0x02];
  }

  /** Handles that do not start like that are bad, and so are those that end early. */
  lemma OtherHandlesAreBad(policy: Policy, codec: DigestCodec, tree: Tree, s: Bytes)
    ensures s == [0x00] ==> Resolve(policy, codec, tree, s) == Failure(BadHandle)
    ensures s == [] || s[0] > 0x01 ==> Resolve(policy, codec, tree, s) == Failure(BadHandle)
    ensures s != [] && s[0] == 0x01 && codec.decode(s[1..]) == None ==> Resolve(policy, codec, tree, s) == Failure(BadHandle)
  {
  }

  /** Distinct nodes have distinct identifiers, none of which is a prefix of
      another one. */
  lemma IdentifiersArePrefixFree(codec: DigestCodec, a: Node, b: Node)
    requires Faithful(codec) && Suffix(a) < TWO_64 && Suffix(b) < TWO_64
    requires Identifier(codec, a) <= Identifier(codec, b)
    ensures a == b
  {
    var rest := Identifier(codec, b)[|Identifier(codec, a)|..];
    assert Identifier(codec, a) + rest == Identifier(codec, b) + [];
    IdentifierSplits(codec, a, rest);
    IdentifierSplits(codec, b, []);
  }

  /** Whatever bytes are presented as a handle, resolving them only ever yields a
      node that the tree has, with the target that it has there. */
  lemma ResolvesOnlyToWhatExists(policy: Policy, codec: DigestCodec, tree: Tree, s: Bytes)
    ensures match Resolve(policy, codec, tree, s)
            case Failure(_) => true
            case Success(r) =>
              && r.target.Some? == r.node.SymlinkAt?
              && (r.target.Some? ==>
                    && tree(r.node.place).Success?
                    && var symlinks := tree(r.node.place).value.symlinks;
                    && r.node.index < |symlinks|
                    && symlinks[r.node.index].target == r.target.value)
  {
  }

  /** The node of a child that a directory yields, if it is part of the tree. */
  function NodeOf(place: Place, child: Child): Option<Node> {
    match child
    case ChildDirectory(digest) => Some(DirectoryAt(Nested(digest)))
    case ChildSymlink(index, _) => Some(SymlinkAt(place, index))
    case ChildFile(_, _) => None
  }

  /** The handle of a child found by name resolves to that same child again. */
  lemma LookedUpChildResolves(policy: Policy, codec: DigestCodec, tree: Tree, place: Place, name: Bytes)
    requires Faithful(codec)
    requires VirtualLookup(policy, tree(place), name).Success?
    requires tree(place).Success? ==> |tree(place).value.symlinks| < TWO_64
    ensures var child := VirtualLookup(policy, tree(place), name).value;
            var node := NodeOf(place, child);
            node.Some? ==>
              Resolve(policy, codec, tree, Identifier(codec, node.value)) ==
              Success(Resolved(node.value, if child.ChildSymlink? then Some(child.target) else None))
  {
    var child := VirtualLookup(policy, tree(place), name).value;
    var node := NodeOf(place, child);
    if node.Some? {
      ResolvesToItsNode(policy, codec, tree, node.value, []);
      assert Identifier(codec, node.value) + [] == Identifier(codec, node.value);
    }
  }

  // Resolving by means of a cursor.

  class ByteReader {
    const data: Bytes
    var position: nat

    ghost predicate Valid()
      reads this
    {
      position <= |data|
    }

    ghost function Remaining(): Bytes
      requires Valid()
      reads this
    {
      data[position..]
    }

    constructor (data: Bytes)
      ensures Valid() && this.data == data && Remaining() == data
    {
      this.data, position := data, 0;
    }

    method ReadByte() returns (b: Option<Byte>)
      requires Valid()
      modifies this
      ensures Valid()
      ensures b == if old(Remaining()) == [] then None else Some(old(Remaining())[0])
      ensures b.Some? ==> Remaining() == old(Remaining())[1..]
    {
      if position < |data| {
        b := Some(data[position]);
        position := position + 1;
      } else {
        b := None;
      }
    }

    /** Read a varint, as the standard library does. */
    method ReadUvarint() returns (r: Option<nat>)
      requires Valid()
      modifies this
      ensures Valid()
      ensures match Varint.Decode(old(Remaining()))
              case Malformed => r == None
              case Decoded(value, length) => r == Some(value) && Remaining() == old(Remaining())[length..]
    {
      match Varint.Decode(data[position..])
      case Malformed =>
        r := None;
      case Decoded(value, length) =>
        r := Some(value);
        position := position + length;
    }

    /** Read a digest in compact binary form. */
    method ReadDigest(codec: DigestCodec) returns (r: Option<Digest>)
      requires Valid()
      modifies this
      ensures Valid()
      ensures match codec.decode(old(Remaining()))
              case None => r == None
              case Some((digest, length)) =>
                if length > |old(Remaining())| then r == None
                else r == Some(digest) && Remaining() == old(Remaining())[length..]
    {
      match codec.decode(data[position..])
      case None =>
        r := None;
      case Some((digest, length)) =>
        if length <= |data| - position {
          r := Some(digest);
          position := position + length;
        } else {
          r := None;
        }
    }
  }

  /** Resolve the handle of a directory or of something inside it. */
  method ResolveHandle(policy: Policy, tree: Tree, place: Place, r: ByteReader) returns (result: Result<Resolved, HandleError>)
    requires r.Valid()
    modifies r
    ensures result == ResolveInside(policy, tree, place, old(r.Remaining()))
  {
    var index := r.ReadUvarint();
    if index == None {
      return Failure(BadHandle);
    }
    if index.value == 0 {
      return Success(Resolved(DirectoryAt(place), None));
    }
    result := ResolveSymlink(policy, tree, place, index.value - 1);
  }

  /** Resolve a handle, reading it from front to back. */
  method ResolveNode(policy: Policy, codec: DigestCodec, tree: Tree, r: ByteReader) returns (result: Result<Resolved, HandleError>)
    requires r.Valid()
    modifies r
    ensures result == Resolve(policy, codec, tree, old(r.Remaining()))
  {
    ghost var s := r.Remaining();
    var isChild := r.ReadByte();
    if isChild == None {
      return Failure(BadHandle);
    }
    if isChild.value == 0 {
      result := ResolveHandle(policy, tree, Root, r);
    } else if isChild.value == 1 {
      var digest := r.ReadDigest(codec);
      if digest == None {
        return Failure(BadHandle);
      }
      assert forall n: nat :: 1 + n <= |s| ==> s[1..][n..] == s[1 + n..];
      result := ResolveHandle(policy, tree, Nested(digest.value), r);
    } else {
      result := Failure(BadHandle);
    }
  }
}
