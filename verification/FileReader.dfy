/** Reading output path state files: the header, the bounds check on every
    message, and readers whose permitted range keeps shrinking. */
module FileReader {
  import opened Wrappers
  import opened ByteStrings
  import opened Messages

  const HEADER_SIZE_BYTES := 16
  const HEADER_MAGIC: Bytes := [0xFA, 0x12, 0xA4, 0xA5]

  /** The contents of a file, whose length is always an int64. */
  type RawFile = f: Bytes | |f| < TWO_63

  datatype ReadError = ShortHeader | BadMagic | OutOfRange | ShortMessage | BadMessage

  /** An io.Reader on top of an io.ReaderAt: it adds a read cursor. */
  class OffsetReader {
    const r: RawFile
    var offset: int

    constructor (r: RawFile, offset: int)
      ensures this.r == r && this.offset == offset
    {
      this.r := r;
      this.offset := offset;
    }

    /** Reads up to `size` bytes. Fewer bytes come with an error. */
    method Read(size: nat) returns (p: Bytes, ok: bool)
      requires 0 <= offset
      modifies this
      ensures offset == old(offset) + |p| && |p| <= size
      ensures old(offset) + |p| <= |r| ==> p == r[old(offset)..old(offset) + |p|]
      ensures p != [] ==> old(offset) + |p| <= |r|
      ensures ok <==> |p| == size
      ensures !ok ==> old(offset) + |p| >= |r|
    {
      var available := if offset < |r| then |r| - offset else 0;
      var n := if size <= available then size else available;
      p := if n == 0 then [] else r[offset..offset + n];
      ok := n == size;
      offset := offset + n;
    }

    /** Keeps reading until `size` bytes arrived or the file ended. */
    method ReadFully(size: nat) returns (data: Option<Bytes>)
      requires 0 <= offset
      modifies this
      ensures data == ReadFull(r, old(offset), size)
    {
      var buffer: Bytes := [];
      var ok := true;
      var start := offset;
      while |buffer| < size && ok
        invariant |buffer| <= size && offset == start + |buffer|
        invariant buffer != [] ==> start + |buffer| <= |r| && buffer == r[start..start + |buffer|]
        invariant !ok ==> |buffer| < size && start + |buffer| >= |r|
        decreases ok, size - |buffer|
      {
        var p;
        p, ok := Read(size - |buffer|);
        buffer := buffer + p;
      }
      data := if |buffer| == size then Some(buffer) else None;
      assert size == 0 ==> buffer == [];
    }
  }

  /** What io.ReadFull() obtains at a given offset of a file. */
  function ReadFull(file: RawFile, offset: int, size: nat): Option<Bytes> {
    if size == 0 then Some([])
    else if 0 <= offset && offset + size <= |file| then Some(file[offset..offset + size])
    else None
  }

  // Little endian integers.

  function EncodeLittleEndian(v: nat, n: nat): (s: Bytes)
    ensures |s| == n
  {
    if n == 0 then [] else [v % 256] + EncodeLittleEndian(v / 256, n - 1)
  }

  function DecodeLittleEndian(s: Bytes): nat {
    if s == [] then 0 else s[0] + 256 * DecodeLittleEndian(s[1..])
  }

  function Pow256(n: nat): nat {
    if n == 0 then 1 else 256 * Pow256(n - 1)
  }

  lemma {:induction false} LittleEndianRoundTrip(v: nat, n: nat)
    requires v < Pow256(n)
    ensures DecodeLittleEndian(EncodeLittleEndian(v, n)) == v
  {
    if n > 0 {
      LittleEndianRoundTrip(v / 256, n - 1);
      assert EncodeLittleEndian(v, n)[1..] == EncodeLittleEndian(v / 256, n - 1);
    }
  }

  function EncodeHeader(offsetBytes: Int64, sizeBytes: Int32): (h: Bytes)
    ensures |h| == HEADER_SIZE_BYTES
  {
    HEADER_MAGIC + EncodeLittleEndian(ToUint64(offsetBytes), 8) + EncodeLittleEndian(ToUint32(sizeBytes), 4)
  }

  datatype Reader = Reader(rawReader: RawFile, maximumOffsetBytes: Int64)

  /** The bounds check on a message, including the wrap-around of the addition. */
  predicate InBounds(maximumOffsetBytes: Int64, offsetBytes: Int64, sizeBytes: Int32) {
    var endBytes := ToInt64(offsetBytes + sizeBytes);
    !(offsetBytes < HEADER_SIZE_BYTES || offsetBytes > maximumOffsetBytes || sizeBytes <= 0 || endBytes > maximumOffsetBytes)
  }

  function ReadMessage(r: Reader, offsetBytes: Int64, sizeBytes: Int32): Result<Bytes, ReadError> {
    if !InBounds(r.maximumOffsetBytes, offsetBytes, sizeBytes) then Failure(OutOfRange)
    else
      match ReadFull(r.rawReader, offsetBytes, sizeBytes)
      case None => Failure(ShortMessage)
      case Some(data) => Success(data)
  }

  /** Whatever the limit, a message that could be read lies inside the file and
      before the limit: where the addition of offset and size wraps around, the
      file is too short. */
  lemma ReadMessageInRange(r: Reader, offsetBytes: Int64, sizeBytes: Int32)
    requires ReadMessage(r, offsetBytes, sizeBytes).Success?
    ensures HEADER_SIZE_BYTES <= offsetBytes < offsetBytes + sizeBytes <= r.maximumOffsetBytes
    ensures offsetBytes + sizeBytes <= |r.rawReader|
    ensures ReadMessage(r, offsetBytes, sizeBytes).value == r.rawReader[offsetBytes..offsetBytes + sizeBytes]
  {
    assert IsInt64(offsetBytes + sizeBytes);
  }

  function ReadDirectory(r: Reader, fileRegion: Option<FileRegion>): (result: Result<(Reader, Directory), ReadError>)
    ensures result.Success? && fileRegion == None ==>
              result.value.1 == EMPTY_DIRECTORY && result.value.0.maximumOffsetBytes == 0
    ensures result.Success? && fileRegion.Some? ==>
              && result.value.0.rawReader == r.rawReader
              && HEADER_SIZE_BYTES <= result.value.0.maximumOffsetBytes < r.maximumOffsetBytes
  {
    match fileRegion
    case None => Success((Reader([], 0), EMPTY_DIRECTORY))
    case Some(FileRegion(offsetBytes, sizeBytes)) =>
      var data :- ReadMessage(r, offsetBytes, sizeBytes);
      ReadMessageInRange(r, offsetBytes, sizeBytes);
      match UnmarshalDirectory(data)
      case None => Failure(BadMessage)
      case Some(directory) => Success((Reader(r.rawReader, offsetBytes), directory))
  }

  function NewFileReader(rawReader: RawFile, maximumStateFileSizeBytes: Int64):
    (result: Result<(Reader, RootDirectory), ReadError>)
    ensures result.Success? ==>
              && result.value.0.rawReader == rawReader
              && HEADER_SIZE_BYTES <= result.value.0.maximumOffsetBytes < maximumStateFileSizeBytes
  {
    match ReadFull(rawReader, 0, HEADER_SIZE_BYTES)
    case None => Failure(ShortHeader)
    case Some(header) =>
      if header[..4] != HEADER_MAGIC then Failure(BadMagic)
      else
        var r := Reader(rawReader, maximumStateFileSizeBytes);
        var offsetBytes := ToInt64(DecodeLittleEndian(header[4..12]));
        var sizeBytes := ToInt32(DecodeLittleEndian(header[12..16]));
        var data :- ReadMessage(r, offsetBytes, sizeBytes);
        ReadMessageInRange(r, offsetBytes, sizeBytes);
        match UnmarshalRootDirectory(data)
        case None => Failure(BadMessage)
        case Some(rootDirectory) => Success((Reader(rawReader, offsetBytes), rootDirectory))
  }

  /** The bounds check alone keeps every message below the limit exactly when
      the limit leaves room for the size of a message. */
  lemma BoundsCheckIsExact(maximumOffsetBytes: Int64)
    ensures (forall offsetBytes: Int64, sizeBytes: Int32 ::
               InBounds(maximumOffsetBytes, offsetBytes, sizeBytes) ==> offsetBytes + sizeBytes <= maximumOffsetBytes)
            <==> maximumOffsetBytes <= TWO_63 - TWO_31
  {
    if maximumOffsetBytes > TWO_63 - TWO_31 {
      // The largest message at the limit wraps around and is let through.
      var size: Int32 := TWO_31 - 1;
      var end := maximumOffsetBytes + size;
      assert TWO_63 <= end < TWO_64;
      assert end % TWO_64 == end;
      assert InBounds(maximumOffsetBytes, maximumOffsetBytes, size);
    } else {
      forall offsetBytes: Int64, sizeBytes: Int32 | InBounds(maximumOffsetBytes, offsetBytes, sizeBytes)
        ensures offsetBytes + sizeBytes <= maximumOffsetBytes
      {
        assert IsInt64(offsetBytes + sizeBytes);
      }
    }
  }

  /** A header is read back as the offset and size that it was made of. */
  lemma HeaderRoundTrip(offsetBytes: Int64, sizeBytes: Int32)
    ensures var header := EncodeHeader(offsetBytes, sizeBytes);
            && header[..4] == HEADER_MAGIC
            && ToInt64(DecodeLittleEndian(header[4..12])) == offsetBytes
            && ToInt32(DecodeLittleEndian(header[12..16])) == sizeBytes
  {
    var header := EncodeHeader(offsetBytes, sizeBytes);
    assert Pow256(4) == TWO_32;
    assert Pow256(8) == TWO_64 by {
      assert Pow256(8) == 256 * (256 * (256 * (256 * Pow256(4))));
    }
    LittleEndianRoundTrip(ToUint64(offsetBytes), 8);
    LittleEndianRoundTrip(ToUint32(sizeBytes), 4);
    assert header[4..12] == EncodeLittleEndian(ToUint64(offsetBytes), 8);
    assert header[12..16] == EncodeLittleEndian(ToUint32(sizeBytes), 4);
  }
}
