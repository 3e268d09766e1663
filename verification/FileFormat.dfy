/** The bytes that make up a state file, spelled out: field numbers, lengths and
    the layout of the header. */
module FileFormat {
  import opened Wrappers
  import opened ByteStrings
  import opened Wire
  import opened Messages
  import opened FileReader
  import opened OutputPathState
  import Varint

  // The header.

  /** The four magic bytes come first, then the offset and the size, each with its
      least significant byte first. */
  lemma HeaderBytes(offsetBytes: Int64, sizeBytes: Int32)
    requires 0 <= offsetBytes && 0 <= sizeBytes
    ensures EncodeHeader(offsetBytes, sizeBytes) ==
            [0xFA, 0x12, 0xA4, 0xA5]
            + [offsetBytes % 256, offsetBytes / 0x100 % 256, offsetBytes / 0x1_0000 % 256, offsetBytes / 0x100_0000 % 256]
            + [offsetBytes / 0x1_0000_0000 % 256, offsetBytes / 0x100_0000_0000 % 256,
               offsetBytes / 0x1_0000_0000_0000 % 256, offsetBytes / 0x100_0000_0000_0000 % 256]
            + [sizeBytes % 256, sizeBytes / 0x100 % 256, sizeBytes / 0x1_0000 % 256, sizeBytes / 0x100_0000 % 256]
  {
    hide EncodeLittleEndian;
    var low, high := offsetBytes, offsetBytes / 0x1_0000_0000;
    FourBytes(low, 4);
    FourBytes(high, 0);
    FourBytes(sizeBytes, 0);
    WordShifts(offsetBytes);
    NoBytes(high / 0x1_0000_0000);
    NoBytes(sizeBytes / 0x1_0000_0000);
    assert ToUint64(offsetBytes) == offsetBytes && ToUint32(sizeBytes) == sizeBytes;
  }

  lemma FourBytes(v: nat, n: nat)
    ensures EncodeLittleEndian(v, n + 4) ==
            [v % 256, v / 0x100 % 256, v / 0x1_0000 % 256, v / 0x100_0000 % 256] + EncodeLittleEndian(v / 0x1_0000_0000, n)
  {
    hide EncodeLittleEndian;
    OneByte(v, n + 3);
    OneByte(v / 0x100, n + 2);
    OneByte(v / 0x1_0000, n + 1);
    OneByte(v / 0x100_0000, n);
    ByteShifts(v);
  }

  lemma ByteShifts(v: nat)
    ensures v / 0x100 / 256 == v / 0x1_0000
    ensures v / 0x1_0000 / 256 == v / 0x100_0000
    ensures v / 0x100_0000 / 256 == v / 0x1_0000_0000
  {
  }

  lemma WordShifts(v: nat)
    ensures v / 0x1_0000_0000 / 0x100 == v / 0x100_0000_0000
    ensures v / 0x1_0000_0000 / 0x1_0000 == v / 0x1_0000_0000_0000
    ensures v / 0x1_0000_0000 / 0x100_0000 == v / 0x100_0000_0000_0000
  {
  }

  lemma OneByte(v: nat, n: nat)
    ensures EncodeLittleEndian(v, n + 1) == [v % 256] + EncodeLittleEndian(v / 256, n)
  {
  }

  lemma NoBytes(v: nat)
    ensures EncodeLittleEndian(v, 0) == []
  {
  }

  /** A file that does not begin with the magic bytes is refused, and so is one that
      does not even have a header. */
  lemma OtherFilesAreRefused(file: RawFile, limit: Int64)
    ensures |file| < 16 ==> NewFileReader(file, limit) == Failure(ShortHeader)
    ensures |file| >= 16 && file[..4] != [0xFA, 0x12, 0xA4, 0xA5] ==> NewFileReader(file, limit) == Failure(BadMagic)
  {
    if |file| >= 16 {
      assert file[0..16][..4] == file[..4];
    }
  }

  // Varints and fields.

  /** The examples of the encoding guide, and the seconds of a recent point in time. */
  lemma VarintExamples()
    ensures Varint.Encode(1) == [0x01]
    ensures Varint.Encode(150) == [0x96, 0x01]
    ensures Varint.Encode(300) == [0xAC, 0x02]
    ensures Varint.Encode(1619157611) == [0xEB, 0xC4, 0x89, 0x84, 0x06]
  {
    assert Varint.Encode(6) == [0x06];
    assert Varint.Encode(772) == [0x84, 0x06];
    assert Varint.Encode(98825) == [0x89, 0x84, 0x06];
    assert Varint.Encode(12649668) == [0xC4, 0x89, 0x84, 0x06];
  }

  lemma DelimitedBytes(number: nat, payload: Bytes)
    requires 1 <= number < 16 && |payload| < 128
    ensures SerializeField(Delimited(number, payload)) == [8 * number + 2, |payload|] + payload
  {
  }

  lemma ScalarBytes(number: nat, value: nat)
    requires 1 <= number < 16
    ensures SerializeField(Scalar(number, value)) == [8 * number] + Varint.Encode(value)
  {
  }

  lemma OneField(f: Field)
    ensures Serialize([f]) == SerializeField(f)
  {
    assert [f][1..] == [];
  }

  lemma TwoFields(f: Field, g: Field)
    ensures Serialize([f, g]) == SerializeField(f) + SerializeField(g)
  {
    assert [f, g][1..] == [g];
    OneField(g);
  }

  lemma ThreeFields(f: Field, g: Field, h: Field)
    ensures Serialize([f, g, h]) == SerializeField(f) + SerializeField(g) + SerializeField(h)
  {
    assert [f, g, h][1..] == [g, h];
    TwoFields(g, h);
  }

  // Messages with a single entry.

  lemma OneRepeated(number: nat, m: seq<Field>)
    ensures RepeatedField(number, [m]) == [Delimited(number, Serialize(m))]
    ensures RepeatedField(number, []) == []
  {
    assert [m][1..] == [];
  }

  lemma TwoRepeated(number: nat, m: seq<Field>, n: seq<Field>)
    ensures RepeatedField(number, [m, n]) == [Delimited(number, Serialize(m)), Delimited(number, Serialize(n))]
  {
    assert [m, n][1..] == [n];
    OneRepeated(number, n);
  }

  /** A symbolic link has its name in field 1 and its target in field 2. */
  lemma SymlinkNodeBytes(name: Bytes, target: Bytes)
    requires name != [] && target != [] && |name| + |target| < 124
    ensures Serialize(SymlinkNodeFields(SymlinkNode(name, target))) ==
            ([0x0A, |name|] + name) + ([0x12, |target|] + target)
  {
    hide Serialize, SerializeField;
    assert SymlinkNodeFields(SymlinkNode(name, target)) == [Delimited(1, name), Delimited(2, target)];
    TwoFields(Delimited(1, name), Delimited(2, target));
    DelimitedBytes(1, name);
    DelimitedBytes(2, target);
  }

  /** A digest has its hash in field 1 and its size in field 2. */
  lemma DigestBytes(hash: Bytes, sizeBytes: Int64)
    requires hash != [] && |hash| < 128 && sizeBytes > 0
    ensures Serialize(DigestFields(Digest(hash, sizeBytes))) == ([0x0A, |hash|] + hash) + ([0x10] + Varint.Encode(sizeBytes))
  {
    hide Serialize, SerializeField, Varint.Encode;
    assert DigestFields(Digest(hash, sizeBytes)) == [Delimited(1, hash), Scalar(2, sizeBytes)];
    TwoFields(Delimited(1, hash), Scalar(2, sizeBytes));
    DelimitedBytes(1, hash);
    ScalarBytes(2, sizeBytes);
  }

  /** A file has its name in field 1, its digest in field 2, and a bit in field 4 if
      it is executable. */
  lemma FileNodeBytes(name: Bytes, d: Digest, digest: Bytes)
    requires name != [] && |name| < 128
    requires Serialize(DigestFields(d)) == digest && |digest| < 128
    ensures Serialize(FileNodeFields(FileNode(name, Some(d), true))) ==
            ([0x0A, |name|] + name) + ([0x12, |digest|] + digest) + [0x20, 0x01]
    ensures Serialize(FileNodeFields(FileNode(name, Some(d), false))) == ([0x0A, |name|] + name) + ([0x12, |digest|] + digest)
  {
    VarintExamples();
    hide Serialize, SerializeField, Varint.Encode;
    assert FileNodeFields(FileNode(name, Some(d), true)) == [Delimited(1, name), Delimited(2, digest), Scalar(4, 1)];
    assert FileNodeFields(FileNode(name, Some(d), false)) == [Delimited(1, name), Delimited(2, digest)];
    ThreeFields(Delimited(1, name), Delimited(2, digest), Scalar(4, 1));
    TwoFields(Delimited(1, name), Delimited(2, digest));
    DelimitedBytes(1, name);
    DelimitedBytes(2, digest);
    ScalarBytes(4, 1);
  }

  /** A subdirectory has its name in field 1 and, if it is stored, in field 2 a region
      with an offset in field 1 and a size in field 2. */
  lemma DirectoryNodeBytes(name: Bytes, offsetBytes: Int64, sizeBytes: Int32)
    requires name != [] && |name| < 128 && 0 < offsetBytes < 128 && 0 < sizeBytes < 128
    ensures Serialize(DirectoryNodeFields(DirectoryNode(name, None))) == [0x0A, |name|] + name
    ensures Serialize(DirectoryNodeFields(DirectoryNode(name, Some(FileRegion(offsetBytes, sizeBytes))))) ==
            ([0x0A, |name|] + name) + [0x12, 0x04, 0x08, offsetBytes, 0x10, sizeBytes]
  {
    RegionBytes(offsetBytes, sizeBytes);
    hide Serialize, SerializeField, RegionFields;
    var region := Serialize(RegionFields(FileRegion(offsetBytes, sizeBytes)));
    assert DirectoryNodeFields(DirectoryNode(name, None)) == [Delimited(1, name)];
    assert DirectoryNodeFields(DirectoryNode(name, Some(FileRegion(offsetBytes, sizeBytes)))) ==
           [Delimited(1, name), Delimited(2, region)];
    OneField(Delimited(1, name));
    TwoFields(Delimited(1, name), Delimited(2, region));
    DelimitedBytes(1, name);
    DelimitedBytes(2, region);
  }

  lemma RegionBytes(offsetBytes: Int64, sizeBytes: Int32)
    requires 0 < offsetBytes < 128 && 0 < sizeBytes < 128
    ensures Serialize(RegionFields(FileRegion(offsetBytes, sizeBytes))) == [0x08, offsetBytes, 0x10, sizeBytes]
  {
    assert Varint.Encode(offsetBytes) == [offsetBytes] && Varint.Encode(sizeBytes) == [sizeBytes];
    hide Serialize, SerializeField, Varint.Encode;
    assert RegionFields(FileRegion(offsetBytes, sizeBytes)) == [Scalar(1, offsetBytes), Scalar(2, sizeBytes)];
    TwoFields(Scalar(1, offsetBytes), Scalar(2, sizeBytes));
    ScalarBytes(1, offsetBytes);
    ScalarBytes(2, sizeBytes);
  }

  /** A directory has its files in field 1, its subdirectories in field 2 and its
      symbolic links in field 3. */
  lemma DirectoryBytes(file: FileNode, a: DirectoryNode, b: DirectoryNode, symlink: SymlinkNode,
                       f: Bytes, x: Bytes, y: Bytes, s: Bytes)
    requires Serialize(FileNodeFields(file)) == f && |f| < 128
    requires Serialize(DirectoryNodeFields(a)) == x && |x| < 128 && Serialize(DirectoryNodeFields(b)) == y && |y| < 128
    requires Serialize(SymlinkNodeFields(symlink)) == s && |s| < 128
    ensures Serialize(DirectoryFields(Directory([file], [], []))) == [0x0A, |f|] + f
    ensures Serialize(DirectoryFields(Directory([], [a, b], []))) == ([0x12, |x|] + x) + ([0x12, |y|] + y)
    ensures Serialize(DirectoryFields(Directory([], [], [symlink]))) == [0x1A, |s|] + s
  {
    hide Serialize, SerializeField, RepeatedField, FileNodeFields, DirectoryNodeFields, SymlinkNodeFields;
    var none: seq<Field> := [];
    forall n ensures RepeatedField(n, []) == [] {
      OneRepeated(n, none);
    }
    OneRepeated(1, FileNodeFields(file));
    TwoRepeated(2, DirectoryNodeFields(a), DirectoryNodeFields(b));
    OneRepeated(3, SymlinkNodeFields(symlink));
    assert FileFields(Directory([], [a, b], [])) == [] && FileFields(Directory([], [], [symlink])) == [];
    assert SubdirectoryFields(Directory([file], [], [])) == [] && SubdirectoryFields(Directory([], [], [symlink])) == [];
    assert SymlinkFields(Directory([file], [], [])) == [] && SymlinkFields(Directory([], [a, b], [])) == [];
    assert FileFields(Directory([file], [], [])) == [FileNodeFields(file)];
    assert SubdirectoryFields(Directory([], [a, b], [])) == [DirectoryNodeFields(a), DirectoryNodeFields(b)];
    assert SymlinkFields(Directory([], [], [symlink])) == [SymlinkNodeFields(symlink)];
    assert DirectoryFields(Directory([file], [], [])) == [Delimited(1, f)];
    assert DirectoryFields(Directory([], [a, b], [])) == [Delimited(2, x), Delimited(2, y)];
    assert DirectoryFields(Directory([], [], [symlink])) == [Delimited(3, s)];
    OneField(Delimited(1, f));
    TwoFields(Delimited(2, x), Delimited(2, y));
    OneField(Delimited(3, s));
    DelimitedBytes(1, f);
    DelimitedBytes(2, x);
    DelimitedBytes(2, y);
    DelimitedBytes(3, s);
  }

  /** A root directory has its creation time in field 1, with the seconds in field 1
      of that, and its contents in field 2. */
  lemma RootDirectoryBytes(seconds: Int64, d: Directory, contents: Bytes)
    requires seconds > 0 && |Varint.Encode(seconds)| < 100
    requires Serialize(DirectoryFields(d)) == contents && |contents| < 128
    ensures Serialize(RootDirectoryFields(RootDirectory(Some(Timestamp(seconds, 0)), Some(d)))) ==
            ([0x0A, 1 + |Varint.Encode(seconds)|, 0x08] + Varint.Encode(seconds)) + ([0x12, |contents|] + contents)
  {
    hide Serialize, SerializeField, DirectoryFields, Varint.Encode;
    assert TimestampFields(Timestamp(seconds, 0)) == [Scalar(1, seconds)];
    OneField(Scalar(1, seconds));
    ScalarBytes(1, seconds);
    var time := Serialize([Scalar(1, seconds)]);
    assert RootDirectoryFields(RootDirectory(Some(Timestamp(seconds, 0)), Some(d))) == [Delimited(1, time), Delimited(2, contents)];
    TwoFields(Delimited(1, time), Delimited(2, contents));
    DelimitedBytes(1, time);
    DelimitedBytes(2, contents);
  }

  // A complete file.

  lemma {:induction false} AsciiIsUtf8(s: Bytes)
    requires forall i :: 0 <= i < |s| ==> s[i] < 0x80
    ensures Utf8(s)
  {
    if s != [] {
      AsciiIsUtf8(s[1..]);
    }
  }

  // "symlink", "/etc/passwd", "subdirectory1" and "subdirectory2"
  const SYMLINK: Bytes := [0x73, 0x79, 0x6D, 0x6C, 0x69, 0x6E, 0x6B]
  const TARGET: Bytes := [0x2F, 0x65, 0x74, 0x63, 0x2F, 0x70, 0x61, 0x73, 0x73, 0x77, 0x64]
  const SUBDIRECTORY1: Bytes := [0x73, 0x75, 0x62, 0x64, 0x69, 0x72, 0x65, 0x63, 0x74, 0x6F, 0x72, 0x79, 0x31]
  const SUBDIRECTORY2: Bytes := [0x73, 0x75, 0x62, 0x64, 0x69, 0x72, 0x65, 0x63, 0x74, 0x6F, 0x72, 0x79, 0x32]

  const EXAMPLE_SUBDIRECTORY: Bytes :=
    [0x1A, 0x16, 0x0A, 0x07] + SYMLINK + [0x12, 0x0B] + TARGET

  const EXAMPLE_ROOT: Bytes :=
    [0x0A, 0x06, 0x08, 0xEB, 0xC4, 0x89, 0x84, 0x06]
    + [0x12, 0x28, 0x12, 0x15, 0x0A, 0x0D] + SUBDIRECTORY1 + [0x12, 0x04, 0x08, 0x10, 0x10, 0x18]
    + [0x12, 0x0F, 0x0A, 0x0D] + SUBDIRECTORY2

  const EXAMPLE_HEADER: Bytes :=
    [0xFA, 0x12, 0xA4, 0xA5, 0x28, 0x00, 0x00, 0x00, 0x00, 0x00, 0x00, 0x00, 0x32, 0x00, 0x00, 0x00]

  lemma ExampleStrings()
    ensures Utf8(SYMLINK) && Utf8(TARGET) && Utf8(SUBDIRECTORY1) && Utf8(SUBDIRECTORY2)
    ensures |SYMLINK| == 7 && |TARGET| == 11 && |SUBDIRECTORY1| == 13 && |SUBDIRECTORY2| == 13
  {
    hide Utf8;
    AsciiIsUtf8(SYMLINK);
    AsciiIsUtf8(TARGET);
    AsciiIsUtf8(SUBDIRECTORY1);
    AsciiIsUtf8(SUBDIRECTORY2);
  }

  lemma SubdirectoryWith(name: Bytes, target: Bytes)
    requires |name| == 7 && |target| == 11 && Utf8(name) && Utf8(target)
    ensures MarshalDirectory(Directory([], [], [SymlinkNode(name, target)])) ==
            Some([0x1A, 0x16, 0x0A, 0x07] + name + [0x12, 0x0B] + target)
  {
    hide Serialize, SerializeField, DirectoryFields, SymlinkNodeFields, Utf8;
    SymlinkNodeBytes(name, target);
    var s := ([0x0A, 0x07] + name) + ([0x12, 0x0B] + target);
    OneSymlinkBytes(SymlinkNode(name, target), s);
    assert [0x1A, 0x16] + s == [0x1A, 0x16, 0x0A, 0x07] + name + [0x12, 0x0B] + target;
  }

  lemma ExampleSubdirectory()
    ensures MarshalDirectory(Directory([], [], [SymlinkNode(SYMLINK, TARGET)])) == Some(EXAMPLE_SUBDIRECTORY)
    ensures |EXAMPLE_SUBDIRECTORY| == 24
  {
    hide MarshalDirectory, Utf8;
    ExampleStrings();
    SubdirectoryWith(SYMLINK, TARGET);
  }

  lemma OneSymlinkBytes(symlink: SymlinkNode, s: Bytes)
    requires Serialize(SymlinkNodeFields(symlink)) == s && |s| < 128
    ensures Serialize(DirectoryFields(Directory([], [], [symlink]))) == [0x1A, |s|] + s
  {
    var node, file := DirectoryNode([0x61], None), FileNode([], None, false);
    DirectoryNodeBytes([0x61], 1, 1);
    assert FileNodeFields(file) == [];
    DirectoryBytes(file, node, node, symlink, [], [0x0A, 0x01, 0x61], [0x0A, 0x01, 0x61], s);
  }

  lemma RootWith(name1: Bytes, name2: Bytes)
    requires |name1| == |name2| == 13 && Utf8(name1) && Utf8(name2)
    ensures var nodes := [DirectoryNode(name1, Some(FileRegion(16, 24))), DirectoryNode(name2, None)];
            MarshalRootDirectory(RootDirectory(Some(Timestamp(1619157611, 0)), Some(Directory([], nodes, [])))) ==
            Some([0x0A, 0x06, 0x08, 0xEB, 0xC4, 0x89, 0x84, 0x06]
                 + [0x12, 0x28, 0x12, 0x15, 0x0A, 0x0D] + name1 + [0x12, 0x04, 0x08, 0x10, 0x10, 0x18]
                 + [0x12, 0x0F, 0x0A, 0x0D] + name2)
  {
    hide Serialize, SerializeField, DirectoryFields, DirectoryNodeFields, RootDirectoryFields, Varint.Encode, Utf8;
    var a, b := DirectoryNode(name1, Some(FileRegion(16, 24))), DirectoryNode(name2, None);
    VarintExamples();
    DirectoryNodeBytes(name1, 16, 24);
    DirectoryNodeBytes(name2, 16, 24);
    var x, y := ([0x0A, 0x0D] + name1) + [0x12, 0x04, 0x08, 0x10, 0x10, 0x18], [0x0A, 0x0D] + name2;
    TwoSubdirectoriesBytes(a, b, x, y);
    var contents := ([0x12, 0x15] + x) + ([0x12, 0x0F] + y);
    RootDirectoryBytes(1619157611, Directory([], [a, b], []), contents);
    RootRegroups(name1, name2);
  }

  lemma RootRegroups(name1: Bytes, name2: Bytes)
    ensures var x, y := ([0x0A, 0x0D] + name1) + [0x12, 0x04, 0x08, 0x10, 0x10, 0x18], [0x0A, 0x0D] + name2;
            ([0x0A, 0x06, 0x08] + [0xEB, 0xC4, 0x89, 0x84, 0x06]) + ([0x12, 0x28] + (([0x12, 0x15] + x) + ([0x12, 0x0F] + y))) ==
            [0x0A, 0x06, 0x08, 0xEB, 0xC4, 0x89, 0x84, 0x06]
            + [0x12, 0x28, 0x12, 0x15, 0x0A, 0x0D] + name1 + [0x12, 0x04, 0x08, 0x10, 0x10, 0x18]
            + [0x12, 0x0F, 0x0A, 0x0D] + name2
  {
  }

  lemma ExampleRoot()
    ensures var nodes := [DirectoryNode(SUBDIRECTORY1, Some(FileRegion(16, 24))), DirectoryNode(SUBDIRECTORY2, None)];
            MarshalRootDirectory(RootDirectory(Some(Timestamp(1619157611, 0)), Some(Directory([], nodes, [])))) == Some(EXAMPLE_ROOT)
    ensures |EXAMPLE_ROOT| == 50
  {
    hide MarshalRootDirectory, Utf8;
    ExampleStrings();
    RootWith(SUBDIRECTORY1, SUBDIRECTORY2);
  }

  lemma TwoSubdirectoriesBytes(a: DirectoryNode, b: DirectoryNode, x: Bytes, y: Bytes)
    requires Serialize(DirectoryNodeFields(a)) == x && |x| < 128 && Serialize(DirectoryNodeFields(b)) == y && |y| < 128
    ensures Serialize(DirectoryFields(Directory([], [a, b], []))) == ([0x12, |x|] + x) + ([0x12, |y|] + y)
  {
    var file, symlink := FileNode([], None, false), SymlinkNode([], []);
    assert FileNodeFields(file) == [] && SymlinkNodeFields(symlink) == [];
    DirectoryBytes(file, a, b, symlink, [], x, y, []);
  }

  /** A directory with one symbolic link, an empty directory, and a root that refers
      to both, created at a given second: every byte of the file. */
  lemma ExampleFile()
    ensures var image := WriteMessage([], EXAMPLE_SUBDIRECTORY);
            var nodes := [DirectoryNode(SUBDIRECTORY1, image.0), DirectoryNode(SUBDIRECTORY2, WriteMessage(image.1, []).0)];
            && image.0 == Some(FileRegion(16, 24))
            && MarshalDirectory(Directory([], [], [SymlinkNode(SYMLINK, TARGET)])) == Some(EXAMPLE_SUBDIRECTORY)
            && FinalizedFile(image.1, RootDirectory(Some(Timestamp(1619157611, 0)), Some(Directory([], nodes, [])))) ==
               Some(EXAMPLE_HEADER + (EXAMPLE_SUBDIRECTORY + EXAMPLE_ROOT))
  {
    hide MarshalDirectory, MarshalRootDirectory, EncodeHeader;
    ExampleSubdirectory();
    ExampleRoot();
    HeaderBytes(40, 50);
    assert [] + EXAMPLE_SUBDIRECTORY == EXAMPLE_SUBDIRECTORY;
    assert EncodeHeader(40, 50) == EXAMPLE_HEADER;
  }
}
