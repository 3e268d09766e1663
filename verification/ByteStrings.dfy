/** Bytes, the fixed-width integers of Go, and the string checks that the
    file format and the virtual file system rely on. */
module ByteStrings {

  type Byte = x: int | 0 <= x < 256
  type Bytes = seq<Byte>

  const TWO_31: int := 0x8000_0000
  const TWO_32: int := 0x1_0000_0000
  const TWO_63: int := 0x8000_0000_0000_0000
  const TWO_64: int := 0x1_0000_0000_0000_0000

  predicate IsInt32(x: int) {
    -TWO_31 <= x < TWO_31
  }

  predicate IsInt64(x: int) {
    -TWO_63 <= x < TWO_63
  }

  type Int32 = x: int | -0x8000_0000 <= x < 0x8000_0000
  type Int64 = x: int | -0x8000_0000_0000_0000 <= x < 0x8000_0000_0000_0000

  /** Conversion to int32: keeps the low 32 bits, read as two's complement. */
  function ToInt32(x: int): (r: int)
    ensures IsInt32(r)
    ensures IsInt32(x) ==> r == x
  {
    var low := x % 0x1_0000_0000;
    if low < 0x8000_0000 then low else low - 0x1_0000_0000
  }

  /** Conversion to int64, and the wrap-around of int64 arithmetic. */
  function ToInt64(x: int): (r: int)
    ensures IsInt64(r)
    ensures IsInt64(x) ==> r == x
  {
    var low := x % 0x1_0000_0000_0000_0000;
    if low < 0x8000_0000_0000_0000 then low else low - 0x1_0000_0000_0000_0000
  }

  /** Conversion to uint64. Negative numbers are sign extended. */
  function ToUint64(x: int): (r: nat)
    ensures r < TWO_64
    ensures IsInt64(x) ==> ToInt64(r) == x
    ensures IsInt32(x) ==> ToInt32(r) == x
  {
    x % 0x1_0000_0000_0000_0000
  }

  /** Conversion of an int32 to uint32. */
  function ToUint32(x: Int32): (r: nat)
    ensures r < TWO_32 && ToInt32(r) == x
  {
    if x < 0 then x + TWO_32 else x
  }

  lemma DropPrefix<T>(a: seq<T>, b: seq<T>)
    ensures (a + b)[|a|..] == b
    ensures (a + b)[..|a|] == a
  {
  }

  /** Well-formed UTF-8 (Unicode Standard, table 3-7), the check that Protocol
      Buffers applies to every string field. */
  predicate Utf8(s: Bytes)
  {
    if s == [] then true
    else if s[0] < 0x80 then Utf8(s[1..])
    else if 0xC2 <= s[0] <= 0xDF then
      |s| >= 2 && Continuation(s[1]) && Utf8(s[2..])
    else if 0xE0 <= s[0] <= 0xEF then
      && |s| >= 3
      && (if s[0] == 0xE0 then 0xA0 else 0x80) <= s[1]
      && s[1] <= (if s[0] == 0xED then 0x9F else 0xBF)
      && Continuation(s[2])
      && Utf8(s[3..])
    else if 0xF0 <= s[0] <= 0xF4 then
      && |s| >= 4
      && (if s[0] == 0xF0 then 0x90 else 0x80) <= s[1]
      && s[1] <= (if s[0] == 0xF4 then 0x8F else 0xBF)
      && Continuation(s[2])
      && Continuation(s[3])
      && Utf8(s[4..])
    else false
  }

  predicate Continuation(b: Byte) {
    0x80 <= b <= 0xBF
  }

  const SLASH: Byte := 0x2F
  const DOT: Byte := 0x2E

  /** A name that can be a single component of a path. */
  predicate ValidComponent(name: Bytes) {
    && name != []
    && name != [DOT]
    && name != [DOT, DOT]
    && SLASH !in name
    && 0 !in name
  }
}
