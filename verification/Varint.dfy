/** Base 128 varints of 64-bit unsigned integers, as used by Protocol Buffers
    ('Base 128 Varints') and by the identifiers of virtual file system nodes. */
module Varint {
  import opened ByteStrings

  datatype Decoded = Malformed | Decoded(value: nat, length: nat)

  const MAX_LENGTH := 10

  function Encode(v: nat): (s: Bytes)
    ensures s != []
  {
    if v < 128 then [v] else [128 + v % 128] + Encode(v / 128)
  }

  /** Read one varint from the front of `s`, ignoring what follows it. At most
      ten bytes are consumed, and the value must fit in 64 bits. */
  function Decode(s: Bytes): (r: Decoded)
    ensures r.Decoded? ==> 1 <= r.length <= |s| && r.length <= MAX_LENGTH && r.value < TWO_64
  {
    DecodeFrom(s, 0)
  }

  // The values that still fit once `i` groups of seven bits were consumed.
  function Bound(i: nat): (b: nat)
    requires i < MAX_LENGTH
  {
    [TWO_64, 0x200_0000_0000_0000, 0x4_0000_0000_0000, 0x800_0000_0000, 0x10_0000_0000,
     0x2000_0000, 0x40_0000, 0x8000, 0x100, 0x2][i]
  }

  function DecodeFrom(s: Bytes, i: nat): (r: Decoded)
    requires i < MAX_LENGTH
    ensures r.Decoded? ==> 1 <= r.length <= |s| && r.length <= MAX_LENGTH - i && r.value < Bound(i)
  {
    if s == [] then Malformed
    else if s[0] < 128 then
      if i == MAX_LENGTH - 1 && s[0] > 1 then Malformed else Decoded(s[0], 1)
    else if i == MAX_LENGTH - 1 then Malformed
    else
      match DecodeFrom(s[1..], i + 1)
      case Malformed => Malformed
      case Decoded(value, length) => Decoded(s[0] - 128 + 128 * value, 1 + length)
  }

  lemma {:induction false} RoundTripFrom(v: nat, rest: Bytes, i: nat)
    requires i < MAX_LENGTH && v < Bound(i)
    ensures DecodeFrom(Encode(v) + rest, i) == Decoded(v, |Encode(v)|)
    decreases v
  {
    var s := Encode(v) + rest;
    if v >= 128 {
      assert i < MAX_LENGTH - 1;
      RoundTripFrom(v / 128, rest, i + 1);
      assert s[1..] == Encode(v / 128) + rest;
    }
  }

  /** Decoding finds the encoded value again and stops right behind it. */
  lemma RoundTrip(v: nat, rest: Bytes)
    requires v < TWO_64
    ensures Decode(Encode(v) + rest) == Decoded(v, |Encode(v)|)
  {
    RoundTripFrom(v, rest, 0);
  }
}
