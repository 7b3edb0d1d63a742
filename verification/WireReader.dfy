/** Reading messages in the wire format without knowing their layout: what any decoder finds at which tag. */
module WireReader {
  import opened Base
  import opened Wire

  /** One field as any reader of the wire format sees it: by its wire type, with its contents unread. */
  datatype Raw = RawVarint(n: nat) | RawFixed(n: nat) | RawBytes(b: bytes)

  /** The field at the front of `b`, after its key. */
  function ReadPayload(b: bytes): Option<Raw>
    requires b != []
  {
    if b[0] % 8 == 0 then
      var n := DecodeVarint(b[1..]);
      if n.None? then None else Some(RawVarint(n.value.0))
    else if b[0] % 8 == 1 then
      if |b| < 9 then None else Some(RawFixed(DecodeFixed(b[1..9])))
    else if b[0] % 8 == 2 then
      var d := DecodeDelimited(b[1..]);
      if d.None? then None else Some(RawBytes(d.value.0))
    else None
  }

  /** What is left of a message, whose fields come in the order of their tags, from this tag on. */
  function From(b: bytes, tag: nat): bytes
    decreases tag, |b|
  {
    if tag <= 1 then b else After(tag - 1, From(b, tag - 1))
  }

  /** The field at the front of `b`, if it has this tag. */
  function Front(b: bytes, tag: nat): Option<Raw> {
    if b == [] || b[0] / 8 != tag then None else ReadPayload(b)
  }

  /** The field with this tag; `None` if there is none. */
  function Get(b: bytes, tag: nat): Option<Raw> {
    Front(From(b, tag), tag)
  }

  /** What a reader should find for a value of each kind; zero values are not there. */
  function RawOf(omitEmpty: bool, kind: Kind, v: Value): Option<Raw>
    requires Fits(kind, v)
  {
    match kind
    case Varint => if v.n == 0 then None else Some(RawVarint(v.n))
    case Fixed64 => if v.n == 0 then None else Some(RawFixed(v.n))
    case Bytes => if v.b == [] then None else Some(RawBytes(v.b))
    case Message(fields) =>
      if v.msg.None? then None
      else
        var body := EncodeFields(omitEmpty, 1, fields, v.msg.value);
        if omitEmpty && body == [] then None else Some(RawBytes(body))
  }

  lemma ReadsVarint(key: u8, n: u64, rest: bytes)
    requires key % 8 == 0
    ensures ReadPayload([key] + EncodeVarint(n) + rest) == Some(RawVarint(n))
  {
    VarintRoundTrip(n, rest);
    assert ([key] + EncodeVarint(n) + rest)[1..] == EncodeVarint(n) + rest;
  }

  lemma ReadsFixed(key: u8, n: u64, rest: bytes)
    requires key % 8 == 1
    ensures ReadPayload([key] + EncodeFixed(n, 8) + rest) == Some(RawFixed(n))
  {
    Pow256Of8();
    FixedRoundTrip(n, 8);
    assert ([key] + EncodeFixed(n, 8) + rest)[1..9] == EncodeFixed(n, 8);
  }

  lemma ReadsBytes(key: u8, x: bytes, rest: bytes)
    requires key % 8 == 2
    ensures ReadPayload([key] + Delimited(x) + rest) == Some(RawBytes(x))
  {
    DelimitedRoundTrip(x, rest);
    assert ([key] + Delimited(x) + rest)[1..] == Delimited(x) + rest;
  }

  lemma ReadsPayload(omitEmpty: bool, tag: nat, kind: Kind, v: Value, rest: bytes)
    requires tag <= MAX_TAG && Fits(kind, v) && EncodeField(omitEmpty, tag, kind, v) != []
    ensures ReadPayload(EncodeField(omitEmpty, tag, kind, v) + rest) == RawOf(omitEmpty, kind, v)
  {
    match kind
    case Varint => ReadsVarint(Key(tag, kind), v.n, rest);
    case Fixed64 => ReadsFixed(Key(tag, kind), v.n, rest);
    case _ =>
      assert EncodeField(omitEmpty, tag, kind, v) == [Key(tag, kind)] + Delimited(Content(omitEmpty, kind, v));
      ReadsBytes(Key(tag, kind), Content(omitEmpty, kind, v), rest);
  }

  lemma FrontIsFirst(omitEmpty: bool, tag: nat, ks: seq<Kind>, vs: seq<Value>)
    requires ks != [] && tag + |ks| <= MAX_TAG + 1 && AllFit(ks, vs)
    ensures Front(EncodeFields(omitEmpty, tag, ks, vs), tag) == RawOf(omitEmpty, ks[0], vs[0])
  {
    var x := EncodeField(omitEmpty, tag, ks[0], vs[0]);
    var rest := EncodeFields(omitEmpty, tag + 1, ks[1..], vs[1..]);
    StartsWithKey(omitEmpty, tag, ks[0], vs[0]);
    FirstKey(omitEmpty, tag + 1, ks[1..], vs[1..]);
    if x == [] {
      assert x + rest == rest;
    } else {
      ReadsPayload(omitEmpty, tag, ks[0], vs[0], rest);
      assert (x + rest)[0] == x[0];
    }
  }

  lemma {:induction false} FromIsSuffix(omitEmpty: bool, ks: seq<Kind>, vs: seq<Value>, i: nat)
    requires |ks| <= MAX_TAG && AllFit(ks, vs) && i <= |ks|
    ensures AllFit(ks[i..], vs[i..])
    ensures From(EncodeFields(omitEmpty, 1, ks, vs), 1 + i) == EncodeFields(omitEmpty, 1 + i, ks[i..], vs[i..])
    decreases i
  {
    if i == 0 {
      assert ks[0..] == ks && vs[0..] == vs;
    } else {
      FromIsSuffix(omitEmpty, ks, vs, i - 1);
      FirstField(omitEmpty, i, ks[i - 1..], vs[i - 1..]);
      assert ks[i - 1..][1..] == ks[i..] && vs[i - 1..][1..] == vs[i..];
    }
  }

  /** A reader that knows nothing but the wire format finds each field at its own tag. */
  lemma GetsField(omitEmpty: bool, ks: seq<Kind>, vs: seq<Value>, i: nat)
    requires |ks| <= MAX_TAG && AllFit(ks, vs) && i < |ks|
    ensures Get(EncodeFields(omitEmpty, 1, ks, vs), 1 + i) == RawOf(omitEmpty, ks[i], vs[i])
  {
    FromIsSuffix(omitEmpty, ks, vs, i);
    FrontIsFirst(omitEmpty, 1 + i, ks[i..], vs[i..]);
  }

  /** And nothing after the last one. */
  lemma GetsNoMore(omitEmpty: bool, ks: seq<Kind>, vs: seq<Value>)
    requires |ks| <= MAX_TAG && AllFit(ks, vs)
    ensures From(EncodeFields(omitEmpty, 1, ks, vs), 1 + |ks|) == []
  {
    FromIsSuffix(omitEmpty, ks, vs, |ks|);
  }
}
