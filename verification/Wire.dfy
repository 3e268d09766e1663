/** The Protocol Buffers wire format: a message is a sequence of numbered
    fields ('Length-Delimited Records' in the encoding guide). Groups, which
    none of the modelled messages use, are not accepted. */
module Wire {
  import opened Wrappers
  import opened ByteStrings
  import Varint

  datatype Field =
    | Scalar(number: nat, value: nat)
    | Fixed64(number: nat, payload: Bytes)
    | Delimited(number: nat, payload: Bytes)
    | Fixed32(number: nat, payload: Bytes)

  const MAX_FIELD_NUMBER := 0x1FFF_FFFF

  function WireType(f: Field): nat {
    match f
    case Scalar(_, _) => 0
    case Fixed64(_, _) => 1
    case Delimited(_, _) => 2
    case Fixed32(_, _) => 5
  }

  predicate ValidField(f: Field) {
    && 1 <= f.number <= MAX_FIELD_NUMBER
    && match f
       case Scalar(_, value) => value < TWO_64
       case Fixed64(_, payload) => |payload| == 8
       case Delimited(_, payload) => |payload| < TWO_64
       case Fixed32(_, payload) => |payload| == 4
  }

  function Tag(f: Field): nat {
    8 * f.number + WireType(f)
  }

  function SerializeValue(f: Field): Bytes {
    match f
    case Scalar(_, value) => Varint.Encode(value)
    case Fixed64(_, payload) => payload
    case Delimited(_, payload) => Varint.Encode(|payload|) + payload
    case Fixed32(_, payload) => payload
  }

  function SerializeField(f: Field): (s: Bytes)
    ensures s != []
  {
    Varint.Encode(Tag(f)) + SerializeValue(f)
  }

  function Serialize(fs: seq<Field>): Bytes {
    if fs == [] then [] else SerializeField(fs[0]) + Serialize(fs[1..])
  }

  datatype ParsedField = Malformed | Parsed(field: Field, length: nat)

  /** Parse the field at the front of `s`. */
  function ParseField(s: Bytes): (r: ParsedField)
    ensures r.Parsed? ==> 0 < r.length <= |s| && ValidField(r.field)
  {
    match Varint.Decode(s)
    case Malformed => Malformed
    case Decoded(tag, n) =>
      var number := tag / 8;
      if number < 1 || number > MAX_FIELD_NUMBER then Malformed
      else
        match ParseValue(number, tag % 8, s[n..])
        case Malformed => Malformed
        case Parsed(f, m) => Parsed(f, n + m)
  }

  /** Parse the value of a field, given its tag. */
  function ParseValue(number: nat, wireType: nat, s: Bytes): (r: ParsedField)
    requires 1 <= number <= MAX_FIELD_NUMBER
    ensures r.Parsed? ==> r.length <= |s| && ValidField(r.field)
  {
    if wireType == 0 then
      match Varint.Decode(s)
      case Malformed => Malformed
      case Decoded(value, n) => Parsed(Scalar(number, value), n)
    else if wireType == 1 then
      if |s| < 8 then Malformed else Parsed(Fixed64(number, s[..8]), 8)
    else if wireType == 2 then
      match Varint.Decode(s)
      case Malformed => Malformed
      case Decoded(size, n) =>
        if size > |s| - n then Malformed else Parsed(Delimited(number, s[n..][..size]), n + size)
    else if wireType == 5 then
      if |s| < 4 then Malformed else Parsed(Fixed32(number, s[..4]), 4)
    else Malformed
  }

  function Parse(s: Bytes): Option<seq<Field>>
    decreases |s|
  {
    if s == [] then Some([])
    else
      match ParseField(s)
      case Malformed => None
      case Parsed(f, n) =>
        var rest :- Parse(s[n..]);
        Some([f] + rest)
  }

  lemma ParseValueRoundTrip(f: Field, rest: Bytes)
    requires ValidField(f)
    ensures ParseValue(f.number, WireType(f), SerializeValue(f) + rest) == Parsed(f, |SerializeValue(f)|)
  {
    var s := SerializeValue(f) + rest;
    match f
    case Scalar(_, value) =>
      Varint.RoundTrip(value, rest);
    case Delimited(_, payload) =>
      var size := Varint.Encode(|payload|);
      assert s == size + (payload + rest);
      Varint.RoundTrip(|payload|, payload + rest);
      DropPrefix(size, payload + rest);
      DropPrefix(payload, rest);
    case Fixed64(_, payload) =>
      DropPrefix(payload, rest);
    case Fixed32(_, payload) =>
      DropPrefix(payload, rest);
  }

  lemma ParseFieldRoundTrip(f: Field, rest: Bytes)
    requires ValidField(f)
    ensures ParseField(SerializeField(f) + rest) == Parsed(f, |SerializeField(f)|)
  {
    var head, tail := Varint.Encode(Tag(f)), SerializeValue(f) + rest;
    assert SerializeField(f) + rest == head + tail;
    Varint.RoundTrip(Tag(f), tail);
    DropPrefix(head, tail);
    assert Tag(f) / 8 == f.number && Tag(f) % 8 == WireType(f);
    ParseValueRoundTrip(f, rest);
  }

  /** Parsing a serialized message yields its fields again, in order. */
  lemma {:induction false} RoundTrip(fs: seq<Field>)
    requires forall f :: f in fs ==> ValidField(f)
    ensures Parse(Serialize(fs)) == Some(fs)
  {
    if fs != [] {
      var head, tail := SerializeField(fs[0]), Serialize(fs[1..]);
      ParseFieldRoundTrip(fs[0], tail);
      DropPrefix(head, tail);
      RoundTrip(fs[1..]);
      assert fs == [fs[0]] + fs[1..];
      assert Serialize(fs)[|head|..] == tail;
    }
  }

  lemma {:induction false} PayloadFits(fs: seq<Field>, f: Field)
    requires f in fs && f.Delimited?
    ensures |f.payload| <= |Serialize(fs)|
  {
    if f != fs[0] {
      PayloadFits(fs[1..], f);
    }
  }

  // What a marshaler emits: scalars and length-delimited fields only.
  predicate Emitted(fs: seq<Field>) {
    forall f :: f in fs ==>
      && 1 <= f.number <= MAX_FIELD_NUMBER
      && (f.Delimited? || (f.Scalar? && f.value < TWO_64))
  }

  lemma EmittedConcat(a: seq<Field>, b: seq<Field>)
    requires Emitted(a) && Emitted(b)
    ensures Emitted(a + b)
  {
  }

  lemma EmittedRoundTrip(fs: seq<Field>)
    requires Emitted(fs) && |Serialize(fs)| < TWO_64
    ensures Parse(Serialize(fs)) == Some(fs)
  {
    forall f | f in fs ensures ValidField(f) {
      if f.Delimited? {
        PayloadFits(fs, f);
      }
    }
    RoundTrip(fs);
  }

  lemma {:induction false} SerializeEmpty(fs: seq<Field>)
    ensures Serialize(fs) == [] <==> fs == []
  {
  }

  // How a message type looks at its fields: unknown numbers, and known numbers
  // that carry an unexpected wire type, are skipped.

  function Payloads(fs: seq<Field>, number: nat): seq<Bytes> {
    if fs == [] then []
    else
      (if fs[0].Delimited? && fs[0].number == number then [fs[0].payload] else []) +
      Payloads(fs[1..], number)
  }

  lemma {:induction false} PayloadIsField(fs: seq<Field>, number: nat, p: Bytes)
    requires p in Payloads(fs, number)
    ensures Delimited(number, p) in fs
  {
    if fs[0] != Delimited(number, p) {
      PayloadIsField(fs[1..], number, p);
    }
  }

  function Scalars(fs: seq<Field>, number: nat): seq<nat> {
    if fs == [] then []
    else
      (if fs[0].Scalar? && fs[0].number == number then [fs[0].value] else []) +
      Scalars(fs[1..], number)
  }

  /** A singular scalar field: the last occurrence wins. */
  function LastScalar(fs: seq<Field>, number: nat): nat {
    var all := Scalars(fs, number);
    if all == [] then 0 else all[|all| - 1]
  }

  /** A singular string field: every occurrence is validated, the last wins. */
  function LastString(fs: seq<Field>, number: nat): Option<Bytes> {
    var all := Payloads(fs, number);
    if exists p :: p in all && !Utf8(p) then None
    else Some(if all == [] then [] else all[|all| - 1])
  }

  lemma LastStringIs(fs: seq<Field>, number: nat, s: Bytes)
    requires Utf8(s) && Payloads(fs, number) == if s == [] then [] else [s]
    ensures LastString(fs, number) == Some(s)
  {
  }

  /** A singular message field: None if it is malformed, Some(None) if it is
      absent. The occurrences of the field are merged. */
  function MergedMessage(fs: seq<Field>, number: nat): Option<Option<seq<Field>>> {
    var all := Payloads(fs, number);
    if all == [] then Some(None)
    else
      var merged :- MergePayloads(all);
      Some(Some(merged))
  }

  function MergePayloads(ps: seq<Bytes>): Option<seq<Field>> {
    if ps == [] then Some([])
    else
      var first :- Parse(ps[0]);
      var rest :- MergePayloads(ps[1..]);
      Some(first + rest)
  }

  lemma {:induction false} PayloadsConcat(a: seq<Field>, b: seq<Field>, number: nat)
    ensures Payloads(a + b, number) == Payloads(a, number) + Payloads(b, number)
  {
    if a == [] {
      assert a + b == b;
    } else {
      assert (a + b)[1..] == a[1..] + b;
      PayloadsConcat(a[1..], b, number);
    }
  }

  lemma {:induction false} ScalarsConcat(a: seq<Field>, b: seq<Field>, number: nat)
    ensures Scalars(a + b, number) == Scalars(a, number) + Scalars(b, number)
  {
    if a == [] {
      assert a + b == b;
    } else {
      assert (a + b)[1..] == a[1..] + b;
      ScalarsConcat(a[1..], b, number);
    }
  }

  lemma ConcatAt(a: seq<Field>, b: seq<Field>, c: seq<Field>, number: nat)
    ensures Payloads(a + b + c, number) == Payloads(a, number) + Payloads(b, number) + Payloads(c, number)
    ensures Scalars(a + b + c, number) == Scalars(a, number) + Scalars(b, number) + Scalars(c, number)
  {
    PayloadsConcat(a + b, c, number);
    PayloadsConcat(a, b, number);
    ScalarsConcat(a + b, c, number);
    ScalarsConcat(a, b, number);
  }

  // The fields emitted for one member of a message. Members that have their
  // default value are left out.

  function ScalarField(number: nat, value: int): (fs: seq<Field>) {
    if value == 0 then [] else [Scalar(number, ToUint64(value))]
  }

  function StringField(number: nat, s: Bytes): seq<Field> {
    if s == [] then [] else [Delimited(number, s)]
  }

  function MessageField(number: nat, m: Option<seq<Field>>): seq<Field> {
    if m == None then [] else [Delimited(number, Serialize(m.value))]
  }

  // What one member contributes at any field number.

  lemma StringFieldAt(number: nat, s: Bytes, other: nat)
    ensures Payloads(StringField(number, s), other) == if number == other && s != [] then [s] else []
    ensures Scalars(StringField(number, s), other) == []
  {
  }

  lemma ScalarFieldAt(number: nat, value: int, other: nat)
    ensures Payloads(ScalarField(number, value), other) == []
    ensures Scalars(ScalarField(number, value), other) ==
            if number == other && value != 0 then [ToUint64(value)] else []
    ensures 1 <= number <= MAX_FIELD_NUMBER ==> Emitted(ScalarField(number, value))
  {
  }

  lemma MessageFieldAt(number: nat, m: Option<seq<Field>>, other: nat)
    ensures Payloads(MessageField(number, m), other) ==
            if number == other && m.Some? then [Serialize(m.value)] else []
    ensures Scalars(MessageField(number, m), other) == []
  {
  }

  function RepeatedField(number: nat, ms: seq<seq<Field>>): seq<Field> {
    if ms == [] then [] else [Delimited(number, Serialize(ms[0]))] + RepeatedField(number, ms[1..])
  }

  lemma {:induction false} RepeatedPayloads(number: nat, ms: seq<seq<Field>>, other: nat)
    ensures |Payloads(RepeatedField(number, ms), other)| == (if other == number then |ms| else 0)
    ensures other == number ==>
              forall i :: 0 <= i < |ms| ==> Payloads(RepeatedField(number, ms), other)[i] == Serialize(ms[i])
    ensures |RepeatedField(number, ms)| == |ms|
    ensures forall i :: 0 <= i < |ms| ==> RepeatedField(number, ms)[i] == Delimited(number, Serialize(ms[i]))
  {
    if ms != [] {
      RepeatedPayloads(number, ms[1..], other);
      assert RepeatedField(number, ms)[1..] == RepeatedField(number, ms[1..]);
    }
  }

  /** Apply a partial decoder to every element, failing if any of them fails. */
  function TryMap<A, B>(decode: A -> Option<B>, xs: seq<A>): Option<seq<B>> {
    if xs == [] then Some([])
    else
      var first :- decode(xs[0]);
      var rest :- TryMap(decode, xs[1..]);
      Some([first] + rest)
  }

  lemma {:induction false} TryMapAll<A, B>(decode: A -> Option<B>, xs: seq<A>, ys: seq<B>)
    requires |xs| == |ys|
    requires forall i :: 0 <= i < |xs| ==> decode(xs[i]) == Some(ys[i])
    ensures TryMap(decode, xs) == Some(ys)
  {
    if xs != [] {
      TryMapAll(decode, xs[1..], ys[1..]);
      assert ys == [ys[0]] + ys[1..];
    }
  }
}
