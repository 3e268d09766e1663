/** Writing output path state files through a buffer, with the header last. */
module FileWriter {
  import opened Wrappers
  import opened ByteStrings
  import opened Messages
  import opened FileReader
  import opened OutputPathState

  /** What a write at an offset does to a file. Gaps read as zeroes. */
  function Overwrite(data: Bytes, offset: nat, p: Bytes): Bytes {
    if p == [] then data
    else
      var padded := if |data| < offset then data + Zeroes(offset - |data|) else data;
      padded[..offset] + p + (if offset + |p| < |padded| then padded[offset + |p|..] else [])
  }

  function Zeroes(n: nat): (z: Bytes)
    ensures |z| == n
  {
    seq(n, i => 0)
  }

  /** A file opened for writing. Unless it is reliable, any write may fail after
      an arbitrary part of the data. */
  class WritableFile {
    const reliable: bool
    var contents: Bytes

    constructor (reliable: bool)
      ensures this.reliable == reliable && contents == []
    {
      this.reliable := reliable;
      contents := [];
    }

    method WriteAt(p: Bytes, offset: nat) returns (n: nat, ok: bool)
      modifies this
      ensures n <= |p| && contents == Overwrite(old(contents), offset, p[..n])
      ensures ok ==> n == |p|
      ensures reliable ==> ok
    {
      n, ok := |p|, true;
      if !reliable {
        ok := *;
        if !ok {
          n :| 0 <= n <= |p|;
        }
      }
      contents := Overwrite(contents, offset, p[..n]);
    }
  }

  /** An io.Writer on top of an io.WriterAt: it adds a write cursor. */
  class OffsetWriter {
    const w: WritableFile
    var offsetBytes: nat

    constructor (w: WritableFile, offsetBytes: nat)
      ensures this.w == w && this.offsetBytes == offsetBytes
    {
      this.w := w;
      this.offsetBytes := offsetBytes;
    }

    method Write(p: Bytes) returns (n: nat, ok: bool)
      modifies this, w
      ensures n <= |p| && w.contents == Overwrite(old(w.contents), old(offsetBytes), p[..n])
      ensures offsetBytes == old(offsetBytes) + n
      ensures ok ==> n == |p|
      ensures w.reliable ==> ok
    {
      n, ok := w.WriteAt(p, offsetBytes);
      offsetBytes := offsetBytes + n;
    }
  }

  /** A writer that collects data in a buffer of a fixed size. Data that exceeds
      an empty buffer bypasses it. Errors are sticky. */
  class BufferedWriter {
    const wr: OffsetWriter
    const size: nat
    var buf: Bytes
    var failed: bool

    /** The flushed data directly follows the header, which is still blank. */
    ghost predicate Valid()
      reads this, wr, wr.w
    {
      && |buf| <= size && 0 < size
      && (!failed ==> if wr.w.contents == [] then wr.offsetBytes == HEADER_SIZE_BYTES
                      else HEADER_SIZE_BYTES <= |wr.w.contents| == wr.offsetBytes)
    }

    /** Everything written so far, whether flushed or not. */
    ghost function Image(): Bytes
      reads this, wr, wr.w
    {
      (if HEADER_SIZE_BYTES <= |wr.w.contents| then wr.w.contents[HEADER_SIZE_BYTES..] else []) + buf
    }

    constructor (wr: OffsetWriter, size: nat)
      requires 0 < size && wr.w.contents == [] && wr.offsetBytes == HEADER_SIZE_BYTES
      ensures Valid() && Image() == [] && !failed && this.wr == wr && this.size == size
    {
      this.wr := wr;
      this.size := size;
      buf := [];
      failed := false;
    }

    /** Hands data to the underlying writer ahead of anything buffered later. */
    method Emit(p: Bytes)
      requires Valid() && buf == [] && !failed
      modifies this`failed, wr, wr.w
      ensures Valid() && (!failed ==> Image() == old(Image()) + p)
      ensures wr.w.reliable ==> !failed
    {
      var n, ok := wr.Write(p);
      failed := !ok;
      if ok && p != [] {
        assert p[..n] == p;
      }
    }

    method Flush() returns (ok: bool)
      requires Valid()
      modifies this`buf, this`failed, wr, wr.w
      ensures Valid() && (ok <==> !failed)
      ensures ok ==> buf == [] && Image() == old(Image())
      ensures old(failed) ==> failed
      ensures wr.w.reliable && !old(failed) ==> ok
    {
      if !failed && buf != [] {
        var data := buf;
        buf := [];
        Emit(data);
        if failed {
          // Whatever did not make it to the file is kept.
          buf := data;
        }
      }
      ok := !failed;
    }

    method Write(p: Bytes) returns (ok: bool)
      requires Valid()
      modifies this`buf, this`failed, wr, wr.w
      ensures Valid() && (ok <==> !failed)
      ensures ok ==> Image() == old(Image()) + p
      ensures old(failed) ==> failed
      ensures wr.w.reliable && !old(failed) ==> ok
    {
      var rest := p;
      while |rest| > size - |buf| && !failed
        invariant Valid() && |rest| <= |p|
        invariant !failed ==> Image() + rest == old(Image()) + p
        invariant old(failed) ==> failed
        invariant wr.w.reliable && !old(failed) ==> !failed
        decreases !failed, |rest|, |buf|
      {
        ghost var before := Image();
        if buf == [] {
          Emit(rest);
          assert !failed ==> Image() + [] == before + rest;
          rest := [];
        } else {
          var room := size - |buf|;
          buf := buf + rest[..room];
          assert Image() == before + rest[..room];
          assert before + rest == Image() + rest[room..];
          rest := rest[room..];
          var _ := Flush();
        }
      }
      if !failed {
        ghost var before := Image();
        buf := buf + rest;
        assert Image() == before + rest;
      }
      ok := !failed;
    }
  }

  const BUFFER_SIZE_BYTES := 1024 * 1024

  class FileWriter {
    const rawWriter: WritableFile
    const bufferedWriter: BufferedWriter
    var offsetBytes: Int64

    ghost predicate Valid()
      reads this, bufferedWriter, bufferedWriter.wr, bufferedWriter.wr.w
    {
      && bufferedWriter.wr.w == rawWriter
      && bufferedWriter.Valid()
      && (!bufferedWriter.failed ==> offsetBytes == ToInt64(HEADER_SIZE_BYTES + |Image()|))
    }

    ghost function Image(): Bytes
      reads bufferedWriter, bufferedWriter.wr, bufferedWriter.wr.w
    {
      bufferedWriter.Image()
    }

    ghost function Footprint(): set<object> {
      {this, bufferedWriter, bufferedWriter.wr, bufferedWriter.wr.w}
    }

    constructor (rawWriter: WritableFile)
      requires rawWriter.contents == []
      ensures Valid() && fresh(Footprint() - {rawWriter})
      ensures this.rawWriter == rawWriter && Image() == [] && !bufferedWriter.failed
    {
      this.rawWriter := rawWriter;
      var offsetWriter := new OffsetWriter(rawWriter, HEADER_SIZE_BYTES);
      bufferedWriter := new BufferedWriter(offsetWriter, BUFFER_SIZE_BYTES);
      offsetBytes := HEADER_SIZE_BYTES;
    }

    /** Append one marshaled message. An empty message takes no space. */
    method Append(data: Bytes) returns (ok: bool, region: Option<FileRegion>)
      requires Valid()
      modifies Footprint()
      ensures Valid()
      ensures ok ==> (region, Image()) == WriteMessage(old(Image()), data)
      ensures !ok ==> bufferedWriter.failed
      ensures rawWriter.reliable && !old(bufferedWriter.failed) ==> !bufferedWriter.failed
      ensures old(bufferedWriter.failed) ==> bufferedWriter.failed && (data != [] ==> !ok)
    {
      if data == [] {
        return true, None;
      }
      var start := offsetBytes;
      ok := bufferedWriter.Write(data);
      if !ok {
        return false, None;
      }
      offsetBytes := ToInt64(offsetBytes + |data|);
      region := Some(FileRegion(start, ToInt32(|data|)));
      WrapsOnce(HEADER_SIZE_BYTES + |old(Image())|, |data|);
    }

    method WriteDirectory(directory: Directory) returns (ok: bool, region: Option<FileRegion>)
      requires Valid()
      modifies Footprint()
      ensures Valid()
      ensures ok ==> MarshalDirectory(directory).Some?
                     && (region, Image()) == WriteMessage(old(Image()), MarshalDirectory(directory).value)
      ensures !ok ==> MarshalDirectory(directory) == None || bufferedWriter.failed
      ensures rawWriter.reliable && !old(bufferedWriter.failed) ==> !bufferedWriter.failed
    {
      match MarshalDirectory(directory)
      case None => return false, None;
      case Some(data) => ok, region := Append(data);
    }

    /** Store the root directory, flush, and only then write the header. If any
        write before this failed, that error comes back. */
    method Finalize(rootDirectory: RootDirectory) returns (ok: bool)
      requires Valid()
      modifies Footprint()
      ensures ok ==> FinalizedFile(old(Image()), rootDirectory) == Some(rawWriter.contents)
      ensures old(bufferedWriter.failed) ==> !ok
      ensures rawWriter.reliable && !old(bufferedWriter.failed) ==> (ok <==> FinalizedFile(old(Image()), rootDirectory).Some?)
    {
      var marshaled := MarshalRootDirectory(rootDirectory);
      if marshaled == None {
        return false;
      }
      var region;
      ok, region := Append(marshaled.value);
      if !ok {
        return false;
      }
      ok := bufferedWriter.Flush();
      if !ok {
        return false;
      }
      var header := EncodeHeader(RegionOffset(region), RegionSize(region));
      ghost var flushed, image := rawWriter.contents, Image();
      assert image == if HEADER_SIZE_BYTES <= |flushed| then flushed[HEADER_SIZE_BYTES..] else [];
      var n;
      n, ok := rawWriter.WriteAt(header, 0);
      if ok {
        assert header[..n] == header;
        HeaderReplaces(flushed, header);
        assert rawWriter.contents == header + image;
      }
    }
  }

  lemma HeaderReplaces(flushed: Bytes, header: Bytes)
    requires |header| == HEADER_SIZE_BYTES && (flushed == [] || HEADER_SIZE_BYTES <= |flushed|)
    ensures Overwrite(flushed, 0, header) ==
            header + (if HEADER_SIZE_BYTES <= |flushed| then flushed[HEADER_SIZE_BYTES..] else [])
  {
  }

  lemma WrapsOnce(a: int, n: nat)
    ensures ToInt64(ToInt64(a) + n) == ToInt64(a + n)
  {
    var q := a / 0x1_0000_0000_0000_0000;
    assert a == 0x1_0000_0000_0000_0000 * q + a % 0x1_0000_0000_0000_0000;
  }

  // The regions of a sequence of messages.

  function WriteAll(image: Bytes, messages: seq<Bytes>): (r: (seq<Option<FileRegion>>, Bytes))
    ensures |r.0| == |messages|
  {
    if messages == [] then ([], image)
    else
      var before := WriteAll(image, messages[..|messages| - 1]);
      var (region, image') := WriteMessage(before.1, messages[|messages| - 1]);
      (before.0 + [region], image')
  }

  /** The regions cover `[start, end)` without gaps, in the order of their
      messages. Only empty messages have no region. */
  predicate Tiles(regions: seq<Option<FileRegion>>, messages: seq<Bytes>, start: int, end: int) {
    if regions == [] || messages == [] then regions == [] && messages == [] && start == end
    else
      var r, m := regions[|regions| - 1], messages[|messages| - 1];
      var regions', messages' := regions[..|regions| - 1], messages[..|messages| - 1];
      if r == None then m == [] && Tiles(regions', messages', start, end)
      else
        && 0 < r.value.sizeBytes == |m|
        && r.value.offsetBytes + r.value.sizeBytes == end
        && Tiles(regions', messages', start, r.value.offsetBytes)
  }

  /** The regions returned for any sequence of messages tile the file behind the
      header. */
  lemma {:induction false} RegionsTile(messages: seq<Bytes>)
    requires forall i :: 0 <= i < |messages| ==> |messages[i]| < TWO_31
    requires HEADER_SIZE_BYTES + |WriteAll([], messages).1| < TWO_63
    ensures var (regions, image) := WriteAll([], messages);
            Tiles(regions, messages, HEADER_SIZE_BYTES, HEADER_SIZE_BYTES + |image|)
  {
    if messages != [] {
      var n := |messages| - 1;
      RegionsTile(messages[..n]);
      var regions := WriteAll([], messages).0;
      assert regions[..n] == WriteAll([], messages[..n]).0;
    }
  }

  predicate RegionWithin(r: Option<FileRegion>, start: int, end: int) {
    r.Some? ==> start <= r.value.offsetBytes && 0 < r.value.sizeBytes && r.value.offsetBytes + r.value.sizeBytes <= end
  }

  /** Tiled regions are disjoint and in order. */
  lemma {:induction false} TiledRegionsAreDisjoint(regions: seq<Option<FileRegion>>, messages: seq<Bytes>, start: int, end: int)
    requires Tiles(regions, messages, start, end)
    ensures start <= end
    ensures forall i :: 0 <= i < |regions| ==> RegionWithin(regions[i], start, end)
    ensures forall i, j :: 0 <= i < j < |regions| && regions[i].Some? && regions[j].Some? ==>
              regions[i].value.offsetBytes + regions[i].value.sizeBytes <= regions[j].value.offsetBytes
  {
    if regions != [] {
      var n := |regions| - 1;
      var r := regions[n];
      TiledRegionsAreDisjoint(regions[..n], messages[..|messages| - 1], start, if r == None then end else r.value.offsetBytes);
    }
  }
}
