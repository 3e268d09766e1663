/** Command messages presented as shell scripts. A script is only ever produced as
    a stream of strings, of which a read extracts the region that it needs. */
module CommandFile {
  import opened Wrappers
  import opened ByteStrings

  function Concat(chunks: seq<Bytes>): Bytes {
    if chunks == [] then [] else Concat(chunks[..|chunks| - 1]) + chunks[|chunks| - 1]
  }

  function Min(a: int, b: int): int {
    if a < b then a else b
  }

  /** The bytes from `offset` on, at most `length` of them. */
  function Region(s: Bytes, offset: nat, length: nat): Bytes {
    if offset >= |s| then [] else s[offset..Min(|s|, offset + length)]
  }

  class SizeCountingWriter {
    var size: nat

    constructor ()
      ensures size == 0
    {
      size := 0;
    }

    method WriteString(s: Bytes)
      modifies this
      ensures size == ToUint64(old(size) + |s|)
    {
      size := ToUint64(size + |s|);
    }
  }

  class RegionExtractingWriter {
    // What remains to be filled is `data` from `start` to `end`.
    const data: array<Byte>
    const end: nat
    var start: nat
    var offset: nat
    ghost const wanted: nat

    /** After the script's first bytes `seen` were written, the buffer holds what
        they have to offer, and the number of bytes still to skip is known. */
    ghost predicate Extracted(seen: Bytes)
      reads this, data
    {
      && start <= end <= data.Length
      && offset == Skipped(seen, wanted)
      && data[..start] == Region(seen, wanted, end)
    }

    constructor (data: array<Byte>, length: nat, offset: nat)
      requires length <= data.Length
      ensures this.data == data && end == length && wanted == offset && Extracted([])
    {
      this.data, this.offset := data, offset;
      start, end := 0, length;
      wanted := offset;
    }

    /** Copy as much as fits, and report how much that was. */
    method Copy(s: Bytes) returns (n: nat)
      requires start <= end <= data.Length
      modifies data
      ensures n == Min(end - start, |s|) && start + n <= data.Length
      ensures data[..start + n] == old(data[..start]) + s[..n]
      ensures data[end..] == old(data[end..])
    {
      n := 0;
      while n < end - start && n < |s|
        invariant n <= Min(end - start, |s|)
        invariant data[..start + n] == old(data[..start]) + s[..n]
        invariant data[end..] == old(data[end..])
      {
        data[start + n] := s[n];
        n := n + 1;
      }
    }

    method WriteString(s: Bytes, ghost seen: Bytes)
      requires Extracted(seen)
      modifies this`start, this`offset, data
      ensures Extracted(seen + s)
      ensures data[end..] == old(data[end..])
    {
      RegionGrows(seen, s, wanted, end);
      hide Region;
      if offset >= |s| {
        offset := offset - |s|;
      } else {
        var n := Copy(s[offset..]);
        start := start + n;
        offset := 0;
      }
    }
  }

  /** How many bytes have yet to be skipped before a region begins. */
  function Skipped(seen: Bytes, offset: nat): nat {
    if |seen| <= offset then offset - |seen| else 0
  }

  // What a further string adds to a region.
  lemma RegionGrows(seen: Bytes, s: Bytes, offset: nat, length: nat)
    ensures |Region(seen, offset, length)| <= length
    ensures var skip := Skipped(seen, offset);
            var before := Region(seen, offset, length);
            Region(seen + s, offset, length) ==
            if skip >= |s| then before else before + s[skip..][..Min(length - |before|, |s| - skip)]
  {
  }

  /** The number of bytes that a read can return, given the size of the file. */
  function Bounded(length: nat, offset: nat, size: nat): nat {
    if offset >= size then 0 else Min(length, size - offset)
  }

  /** Whether a read gets to the end of the file. */
  predicate ReachesEnd(length: nat, offset: nat, size: nat) {
    offset >= size || length >= size - offset
  }

  datatype ReadResult = Read(n: nat, eof: bool) | Unavailable | Panicked

  /** A file of which the contents are written anew for every read. Whether that
      works out, and into which strings they are cut, may differ each time. */
  class ScriptFile {
    const size: nat

    constructor (size: nat)
      ensures this.size == size
    {
      this.size := size;
    }

    /** Fill the buffer from an offset on. What is read is exactly the part of the
        script that the caller asked for, as far as the file goes. The panic is
        reached exactly if the script ends before what its size promises. */
    method VirtualRead(script: Option<seq<Bytes>>, buf: array<Byte>, offset: nat) returns (r: ReadResult)
      modifies buf
      ensures var n := if offset >= size then 0 else if buf.Length < size - offset then buf.Length else size - offset;
              && (r == Unavailable <==> n > 0 && script == None)
              && (r == Panicked <==> n > 0 && script.Some? && |Concat(script.value)| < offset + n)
              && (r.Read? ==> r.n == n && buf[n..] == old(buf[n..]))
              && (r.Read? ==> (r.eof <==> size <= offset + buf.Length))
              && (r.Read? && n > 0 ==> offset + n <= |Concat(script.value)| && buf[..n] == Concat(script.value)[offset..offset + n])
    {
      var n := Bounded(buf.Length, offset, size);
      if n > 0 {
        if script == None {
          return Unavailable;
        }
        var w := new RegionExtractingWriter(buf, n, offset);
        WriteShellScript(script.value, w);
        if w.start < w.end {
          return Panicked;
        }
      }
      r := Read(n, ReachesEnd(buf.Length, offset, size));
    }
  }

  method WriteShellScript(script: seq<Bytes>, w: RegionExtractingWriter)
    requires w.Extracted([])
    modifies w`start, w`offset, w.data
    ensures w.Extracted(Concat(script)) && w.data[w.end..] == old(w.data[w.end..])
  {
    for i := 0 to |script|
      invariant w.Extracted(Concat(script[..i])) && w.data[w.end..] == old(w.data[w.end..])
    {
      assert script[..i + 1][..i] == script[..i];
      w.WriteString(script[i], Concat(script[..i]));
    }
    assert script[..|script|] == script;
  }

  /** Determine the size of the script once, to create a file for it. */
  method LookupFile(script: Option<seq<Bytes>>) returns (f: ScriptFile?)
    ensures script == None <==> f == null
    ensures f != null ==> fresh(f) && f.size == ToUint64(|Concat(script.value)|)
  {
    if script == None {
      return null;
    }
    var w := new SizeCountingWriter();
    for i := 0 to |script.value|
      invariant w.size == ToUint64(|Concat(script.value[..i])|)
    {
      assert script.value[..i + 1][..i] == script.value[..i];
      WrapsOnce(|Concat(script.value[..i])|, |script.value[i]|);
      w.WriteString(script.value[i]);
    }
    assert script.value[..|script.value|] == script.value;
    f := new ScriptFile(w.size);
  }

  lemma WrapsOnce(a: int, b: int)
    ensures ToUint64(ToUint64(a) + b) == ToUint64(a + b)
  {
    var q := a / 0x1_0000_0000_0000_0000;
    assert a == 0x1_0000_0000_0000_0000 * q + a % 0x1_0000_0000_0000_0000;
  }

  /** As long as the script stays the same, however it is cut into strings, the
      panic is out of reach: a read returns all there is of the script in its
      region, and tells whether there is more. */
  method ReadUnchangedScript(before: seq<Bytes>, now: seq<Bytes>, buf: array<Byte>, offset: nat) returns (r: ReadResult)
    requires Concat(before) == Concat(now) && |Concat(before)| < TWO_64
    modifies buf
    ensures r.Read?
    ensures var total := |Concat(now)|;
            r.n == if offset >= total then 0 else if buf.Length < total - offset then buf.Length else total - offset
    ensures r.n <= buf.Length && forall k :: 0 <= k < r.n ==> offset + k < |Concat(now)| && buf[k] == Concat(now)[offset + k]
    ensures buf[r.n..] == old(buf[r.n..])
    ensures r.eof <==> |Concat(now)| <= offset + buf.Length
  {
    var f := LookupFile(Some(before));
    r := f.VirtualRead(Some(now), buf, offset);
    assert forall k :: 0 <= k < r.n ==> buf[k] == buf[..r.n][k];
  }

  /** Strings that are written one after the other are found one after the other. */
  lemma {:induction false} ConcatAt(chunks: seq<Bytes>, i: nat, k: nat)
    requires i < |chunks| && k < |chunks[i]|
    ensures |Concat(chunks[..i])| + k < |Concat(chunks)|
    ensures Concat(chunks)[|Concat(chunks[..i])| + k] == chunks[i][k]
  {
    var n := |chunks| - 1;
    if i < n {
      ConcatAt(chunks[..n], i, k);
      assert chunks[..n][..i] == chunks[..i];
    }
  }

  // Reading a file from front to back.

  /** What consecutive reads with buffers of given lengths return. */
  function ReadAll(script: Bytes, offset: nat, lengths: seq<nat>): Bytes
    decreases lengths
  {
    if lengths == [] then []
    else
      var n := Bounded(lengths[0], offset, |script|);
      Region(script, offset, n) + ReadAll(script, offset + n, lengths[1..])
  }

  function Sum(ns: seq<nat>): nat {
    if ns == [] then 0 else ns[0] + Sum(ns[1..])
  }

  /** Consecutive reads of any lengths return the script without gaps or overlaps. */
  lemma {:induction false} ReadsAreConsecutive(script: Bytes, offset: nat, lengths: seq<nat>)
    ensures ReadAll(script, offset, lengths) == Region(script, offset, Sum(lengths))
    decreases lengths
  {
    hide Region, Bounded;
    if lengths == [] {
      RegionIsEmpty(script, offset);
    } else {
      var n := Bounded(lengths[0], offset, |script|);
      ReadsAreConsecutive(script, offset + n, lengths[1..]);
      RegionSplits(script, offset, lengths[0], Sum(lengths[1..]));
    }
  }

  /** Reads that are long enough together return all of it. */
  lemma ReadsReturnEverything(script: Bytes, lengths: seq<nat>)
    requires Sum(lengths) >= |script|
    ensures ReadAll(script, 0, lengths) == script
  {
    ReadsAreConsecutive(script, 0, lengths);
  }

  lemma RegionIsEmpty(script: Bytes, offset: nat)
    ensures Region(script, offset, 0) == []
  {
  }

  lemma RegionSplits(script: Bytes, offset: nat, a: nat, b: nat)
    ensures var n := Bounded(a, offset, |script|);
            Region(script, offset, n) + Region(script, offset + n, b) == Region(script, offset, a + b)
  {
  }
}
