/** UTF-8 by its definition: the encoding of a sequence of Unicode scalar values. */
module Unicode {
  import opened ByteStrings

  predicate IsScalar(c: int) {
    0 <= c < 0xD800 || 0xE000 <= c < 0x11_0000
  }

  function EncodeScalar(c: int): (s: Bytes)
    requires IsScalar(c)
    ensures 1 <= |s| <= 4
  {
    if c < 0x80 then [c]
    else if c < 0x800 then [0xC0 + c / 64, 0x80 + c % 64]
    else if c < 0x1_0000 then [0xE0 + c / 4096, 0x80 + c / 64 % 64, 0x80 + c % 64]
    else [0xF0 + c / 262144, 0x80 + c / 4096 % 64, 0x80 + c / 64 % 64, 0x80 + c % 64]
  }

  function Encode(cs: seq<int>): Bytes
    requires forall i :: 0 <= i < |cs| ==> IsScalar(cs[i])
  {
    if cs == [] then [] else EncodeScalar(cs[0]) + Encode(cs[1..])
  }

  // Recognizing the bytes of one scalar value, by their number.

  lemma OneByte(c: int, rest: Bytes)
    requires 0 <= c < 0x80
    ensures Utf8([c] + rest) <==> Utf8(rest)
  {
    assert ([c] + rest)[1..] == rest;
  }

  lemma TwoBytes(c: int, rest: Bytes)
    requires 0x80 <= c < 0x800
    ensures Utf8(EncodeScalar(c) + rest) <==> Utf8(rest)
  {
    assert (EncodeScalar(c) + rest)[2..] == rest;
  }

  lemma ThreeBytes(c: int, rest: Bytes)
    requires 0x800 <= c < 0x1_0000 && IsScalar(c)
    ensures Utf8(EncodeScalar(c) + rest) <==> Utf8(rest)
  {
    assert (EncodeScalar(c) + rest)[3..] == rest;
  }

  lemma FourBytes(c: int, rest: Bytes)
    requires 0x1_0000 <= c < 0x11_0000
    ensures Utf8(EncodeScalar(c) + rest) <==> Utf8(rest)
  {
    assert (EncodeScalar(c) + rest)[4..] == rest;
  }

  lemma {:induction false} EncodedIsUtf8(cs: seq<int>)
    requires forall i :: 0 <= i < |cs| ==> IsScalar(cs[i])
    ensures Utf8(Encode(cs))
  {
    if cs != [] {
      hide Utf8, EncodeScalar;
      EncodedIsUtf8(cs[1..]);
      ScalarPrefix(cs[0], Encode(cs[1..]));
    } else {
      assert Utf8([]);
    }
  }

  lemma ScalarPrefix(c: int, rest: Bytes)
    requires IsScalar(c)
    ensures Utf8(EncodeScalar(c) + rest) <==> Utf8(rest)
  {
    hide Utf8;
    if c < 0x80 {
      OneByte(c, rest);
    } else if c < 0x800 {
      TwoBytes(c, rest);
    } else if c < 0x1_0000 {
      ThreeBytes(c, rest);
    } else {
      FourBytes(c, rest);
    }
  }

  // Digits to base 64, most significant first.

  lemma Two(x: nat, y: nat)
    requires y < 64
    ensures (x * 64 + y) / 64 == x && (x * 64 + y) % 64 == y
  {
  }

  lemma Three(x: nat, y: nat, z: nat)
    requires y < 64 && z < 64
    ensures var c := x * 4096 + y * 64 + z;
            c / 4096 == x && c / 64 % 64 == y && c % 64 == z
  {
    Two(x, y);
    Two(x * 64 + y, z);
  }

  lemma Four(w: nat, x: nat, y: nat, z: nat)
    requires x < 64 && y < 64 && z < 64
    ensures var c := w * 262144 + x * 4096 + y * 64 + z;
            c / 262144 == w && c / 4096 % 64 == x && c / 64 % 64 == y && c % 64 == z
  {
    Three(w, x, y);
    Two(w * 4096 + x * 64 + y, z);
    var c := w * 262144 + x * 4096 + y * 64 + z;
    assert c / 64 == w * 4096 + x * 64 + y;
    assert c / 4096 == c / 64 / 64 && c / 262144 == c / 64 / 4096;
  }

  lemma FirstOfTwo(s: Bytes) returns (c: int)
    requires |s| >= 2 && 0xC2 <= s[0] <= 0xDF && Continuation(s[1])
    ensures IsScalar(c) && EncodeScalar(c) == s[..2]
  {
    Two(s[0] - 0xC0, s[1] - 0x80);
    c := (s[0] as int - 0xC0) * 64 + (s[1] as int - 0x80);
  }

  lemma FirstOfThree(s: Bytes) returns (c: int)
    requires |s| >= 3 && 0xE0 <= s[0] <= 0xEF && Continuation(s[2])
    requires (if s[0] == 0xE0 then 0xA0 else 0x80) <= s[1] <= (if s[0] == 0xED then 0x9F else 0xBF)
    ensures IsScalar(c) && EncodeScalar(c) == s[..3]
  {
    Three(s[0] - 0xE0, s[1] - 0x80, s[2] - 0x80);
    c := (s[0] as int - 0xE0) * 4096 + (s[1] as int - 0x80) * 64 + (s[2] as int - 0x80);
  }

  lemma FirstOfFour(s: Bytes) returns (c: int)
    requires |s| >= 4 && 0xF0 <= s[0] <= 0xF4 && Continuation(s[2]) && Continuation(s[3])
    requires (if s[0] == 0xF0 then 0x90 else 0x80) <= s[1] <= (if s[0] == 0xF4 then 0x8F else 0xBF)
    ensures IsScalar(c) && EncodeScalar(c) == s[..4]
  {
    Four(s[0] - 0xF0, s[1] - 0x80, s[2] - 0x80, s[3] - 0x80);
    c := (s[0] as int - 0xF0) * 262144 + (s[1] as int - 0x80) * 4096 + (s[2] as int - 0x80) * 64 + (s[3] as int - 0x80);
  }

  /** The scalar value at the front of a valid string. */
  lemma FirstScalar(s: Bytes) returns (c: int, rest: Bytes)
    requires s != [] && Utf8(s)
    ensures IsScalar(c) && s == EncodeScalar(c) + rest && |rest| < |s|
  {
    var n;
    if s[0] < 0x80 {
      c, n := s[0], 1;
      assert EncodeScalar(c) == s[..1];
    } else if s[0] <= 0xDF {
      c := FirstOfTwo(s);
      n := 2;
    } else if s[0] <= 0xEF {
      c := FirstOfThree(s);
      n := 3;
    } else {
      c := FirstOfFour(s);
      n := 4;
    }
    rest := s[n..];
  }

  lemma {:induction false} Decodes(s: Bytes) returns (cs: seq<int>)
    requires Utf8(s)
    ensures (forall i :: 0 <= i < |cs| ==> IsScalar(cs[i])) && Encode(cs) == s
    decreases |s|
  {
    if s == [] {
      cs := [];
    } else {
      hide Utf8, EncodeScalar, IsScalar;
      var c, rest := FirstScalar(s);
      ScalarPrefix(c, rest);
      var tail := Decodes(rest);
      cs := [c] + tail;
      assert cs[1..] == tail;
    }
  }

  /** The check on strings accepts exactly the encodings of sequences of scalars. */
  lemma Utf8Exactly(s: Bytes)
    ensures Utf8(s) <==>
            exists cs: seq<int> :: (forall i :: 0 <= i < |cs| ==> IsScalar(cs[i])) && Encode(cs) == s
  {
    if Utf8(s) {
      var cs := Decodes(s);
    }
    if cs: seq<int> :| (forall i :: 0 <= i < |cs| ==> IsScalar(cs[i])) && Encode(cs) == s {
      EncodedIsUtf8(cs);
    }
  }
}
