/**
 * The Protocol Buffers wire format that both message encodings share: varints, fixed 64-bit
 * fields, length-delimited bytes and sub-messages, fields in tag order, zero values left out.
 * Messages are described by the list of their field kinds, tagged 1, 2, 3 and so on.
 */
module Wire {
  import opened Base

  datatype Kind = Varint | Fixed64 | Bytes | Message(fields: seq<Kind>)

  datatype Value = Number(n: u64) | Blob(b: bytes) | Nested(msg: Option<seq<Value>>)

  /** Up to fifteen fields, so that every field key is a single byte. */
  const MAX_TAG := 15

  predicate Fits(kind: Kind, v: Value)
    decreases kind, 1
  {
    match kind
    case Varint => v.Number?
    case Fixed64 => v.Number?
    case Bytes => v.Blob?
    case Message(fields) =>
      v.Nested? && |fields| <= MAX_TAG && (v.msg.Some? ==> AllFit(fields, v.msg.value))
  }

  predicate AllFit(kinds: seq<Kind>, vs: seq<Value>)
    decreases kinds, 0
  {
    |kinds| == |vs| && forall i :: 0 <= i < |kinds| ==> Fits(kinds[i], vs[i])
  }

  // ---------------------------------------------------------------- numbers

  /** Base 128, least significant group first, the high bit marking that more follow. */
  function EncodeVarint(n: nat): (b: bytes)
    ensures b != []
  {
    if n < 128 then [n] else [128 + n % 128] + EncodeVarint(n / 128)
  }

  function DecodeVarint(b: bytes): (r: Option<(nat, bytes)>)
    ensures r.Some? ==> |r.value.1| < |b|
    decreases |b|
  {
    if b == [] then None
    else if b[0] < 128 then Some((b[0], b[1..]))
    else
      var r := DecodeVarint(b[1..]);
      if r.None? then None else Some((b[0] - 128 + 128 * r.value.0, r.value.1))
  }

  lemma {:induction false} VarintRoundTrip(n: nat, rest: bytes)
    ensures DecodeVarint(EncodeVarint(n) + rest) == Some((n, rest))
    decreases n
  {
    var b := EncodeVarint(n) + rest;
    if n < 128 {
      assert b[1..] == rest;
    } else {
      VarintRoundTrip(n / 128, rest);
      assert b[1..] == EncodeVarint(n / 128) + rest;
    }
  }

  function Pow256(k: nat): (p: nat)
    ensures p > 0
  {
    if k == 0 then 1 else 256 * Pow256(k - 1)
  }

  lemma Pow256Of8()
    ensures Pow256(8) == TWO_64
  {
  }

  /** `k` bytes, least significant first. */
  function EncodeFixed(n: nat, k: nat): (b: bytes)
    ensures |b| == k
  {
    if k == 0 then [] else [n % 256] + EncodeFixed(n / 256, k - 1)
  }

  function DecodeFixed(b: bytes): (n: nat)
    ensures n < Pow256(|b|)
  {
    if b == [] then 0 else b[0] + 256 * DecodeFixed(b[1..])
  }

  lemma {:induction false} FixedRoundTrip(n: nat, k: nat)
    requires n < Pow256(k)
    ensures DecodeFixed(EncodeFixed(n, k)) == n
  {
    if k > 0 {
      FixedRoundTrip(n / 256, k - 1);
      assert EncodeFixed(n, k)[1..] == EncodeFixed(n / 256, k - 1);
    }
  }

  // ---------------------------------------------------------------- fields and messages

  function Key(tag: nat, kind: Kind): u8
    requires tag <= MAX_TAG
  {
    tag * 8 + match kind { case Varint => 0 case Fixed64 => 1 case _ => 2 }
  }

  function Delimited(b: bytes): bytes {
    EncodeVarint(|b|) + b
  }

  /**
   * One field. `omitEmpty` says whether a present sub-message without content is left out
   * like an absent one.
   */
  function EncodeField(omitEmpty: bool, tag: nat, kind: Kind, v: Value): bytes
    requires tag <= MAX_TAG && Fits(kind, v)
    decreases kind, 1
  {
    match kind
    case Varint => if v.n == 0 then [] else [Key(tag, kind)] + EncodeVarint(v.n)
    case Fixed64 => if v.n == 0 then [] else [Key(tag, kind)] + EncodeFixed(v.n, 8)
    case Bytes => if v.b == [] then [] else [Key(tag, kind)] + Delimited(v.b)
    case Message(fields) =>
      if v.msg.None? then []
      else
        var body := EncodeFields(omitEmpty, 1, fields, v.msg.value);
        if omitEmpty && body == [] then [] else [Key(tag, kind)] + Delimited(body)
  }

  function EncodeFields(omitEmpty: bool, tag: nat, kinds: seq<Kind>, vs: seq<Value>): bytes
    requires tag + |kinds| <= MAX_TAG + 1 && AllFit(kinds, vs)
    decreases kinds, 0
  {
    if kinds == [] then []
    else EncodeField(omitEmpty, tag, kinds[0], vs[0]) + EncodeFields(omitEmpty, tag + 1, kinds[1..], vs[1..])
  }

  function Concat(pieces: seq<bytes>): bytes {
    if pieces == [] then [] else pieces[0] + Concat(pieces[1..])
  }

  /** The fields one after the other. */
  lemma {:induction false} FieldsConcat(
    omitEmpty: bool, tag: nat, kinds: seq<Kind>, vs: seq<Value>, pieces: seq<bytes>)
    requires tag + |kinds| <= MAX_TAG + 1 && AllFit(kinds, vs) && |pieces| == |kinds|
    requires forall i :: 0 <= i < |kinds| ==> EncodeField(omitEmpty, tag + i, kinds[i], vs[i]) == pieces[i]
    ensures EncodeFields(omitEmpty, tag, kinds, vs) == Concat(pieces)
    decreases |kinds|
  {
    if kinds != [] {
      assert EncodeField(omitEmpty, tag + 0, kinds[0], vs[0]) == pieces[0];
      forall i | 0 <= i < |kinds[1..]|
        ensures EncodeField(omitEmpty, tag + 1 + i, kinds[1..][i], vs[1..][i]) == pieces[1..][i]
      {
        assert EncodeField(omitEmpty, tag + (i + 1), kinds[i + 1], vs[i + 1]) == pieces[i + 1];
      }
      FieldsConcat(omitEmpty, tag + 1, kinds[1..], vs[1..], pieces[1..]);
    }
  }

  function Default(kind: Kind): Value {
    match kind
    case Varint => Number(0)
    case Fixed64 => Number(0)
    case Bytes => Blob([])
    case Message(_) => Nested(None)
  }

  function DecodeDelimited(b: bytes): (r: Option<(bytes, bytes)>) {
    var len := DecodeVarint(b);
    if len.None? || len.value.0 > |len.value.1| then None
    else Some((len.value.1[..len.value.0], len.value.1[len.value.0..]))
  }

  lemma DelimitedRoundTrip(b: bytes, rest: bytes)
    ensures DecodeDelimited(Delimited(b) + rest) == Some((b, rest))
  {
    VarintRoundTrip(|b|, b + rest);
    assert Delimited(b) + rest == EncodeVarint(|b|) + (b + rest);
    assert (b + rest)[..|b|] == b && (b + rest)[|b|..] == rest;
  }

  lemma DelimitedInjective(a: bytes, b: bytes)
    requires Delimited(a) == Delimited(b)
    ensures a == b
  {
    DelimitedRoundTrip(a, []);
    DelimitedRoundTrip(b, []);
    assert Delimited(a) + [] == Delimited(a) && Delimited(b) + [] == Delimited(b);
  }

  /** Read the field if its key comes next, its default otherwise; also return what follows. */
  function DecodeField(tag: nat, kind: Kind, b: bytes): Option<(Value, bytes)>
    requires tag <= MAX_TAG
    decreases kind, 1
  {
    if b == [] || b[0] != Key(tag, kind) then Some((Default(kind), b))
    else
      match kind
      case Varint =>
        var n := DecodeVarint(b[1..]);
        if n.None? || n.value.0 >= TWO_64 then None else Some((Number(n.value.0), n.value.1))
      case Fixed64 =>
        if |b| < 9 then None
        else
          Pow256Of8();
          Some((Number(DecodeFixed(b[1..9])), b[9..]))
      case Bytes =>
        var d := DecodeDelimited(b[1..]);
        if d.None? then None else Some((Blob(d.value.0), d.value.1))
      case Message(fields) =>
        var d := DecodeDelimited(b[1..]);
        if d.None? || |fields| > MAX_TAG then None
        else
          var m := DecodeFields(1, fields, d.value.0);
          if m.None? then None else Some((Nested(Some(m.value)), d.value.1))
  }

  function DecodeFields(tag: nat, kinds: seq<Kind>, b: bytes): Option<seq<Value>>
    requires tag + |kinds| <= MAX_TAG + 1
    decreases kinds, 0
  {
    if kinds == [] then (if b == [] then Some([]) else None)
    else
      var f := DecodeField(tag, kinds[0], b);
      if f.None? then None
      else
        var rest := DecodeFields(tag + 1, kinds[1..], f.value.1);
        if rest.None? then None else Some([f.value.0] + rest.value)
  }

  // ---------------------------------------------------------------- what survives the wire

  /** The value a reader gets back: present sub-messages that were left out become absent. */
  function Seen(omitEmpty: bool, kind: Kind, v: Value): Value
    requires Fits(kind, v)
    decreases kind, 1
  {
    if !kind.Message? || v.msg.None? then v
    else if omitEmpty && EncodeFields(omitEmpty, 1, kind.fields, v.msg.value) == [] then Nested(None)
    else Nested(Some(AllSeen(omitEmpty, kind.fields, v.msg.value)))
  }

  function AllSeen(omitEmpty: bool, kinds: seq<Kind>, vs: seq<Value>): seq<Value>
    requires |kinds| <= MAX_TAG && AllFit(kinds, vs)
    decreases kinds, 0
  {
    if kinds == [] then []
    else [Seen(omitEmpty, kinds[0], vs[0])] + AllSeen(omitEmpty, kinds[1..], vs[1..])
  }

  /** A field is left out or starts with its key. */
  lemma StartsWithKey(omitEmpty: bool, tag: nat, kind: Kind, v: Value)
    requires tag <= MAX_TAG && Fits(kind, v)
    ensures var x := EncodeField(omitEmpty, tag, kind, v); x == [] || x[0] == Key(tag, kind)
  {
  }

  /** Fields from `tag` on start with the key of one of them, or are empty. */
  lemma {:induction false} FirstKey(omitEmpty: bool, tag: nat, kinds: seq<Kind>, vs: seq<Value>)
    requires tag + |kinds| <= MAX_TAG + 1 && AllFit(kinds, vs)
    ensures var b := EncodeFields(omitEmpty, tag, kinds, vs);
            b == [] || b[0] / 8 >= tag
    decreases |kinds|
  {
    if kinds != [] {
      StartsWithKey(omitEmpty, tag, kinds[0], vs[0]);
      FirstKey(omitEmpty, tag + 1, kinds[1..], vs[1..]);
    }
  }

  predicate Follows(tag: nat, rest: bytes) {
    rest == [] || rest[0] / 8 > tag
  }

  /** A field that was left out is read as its default. */
  lemma AbsentField(tag: nat, kind: Kind, rest: bytes)
    requires tag <= MAX_TAG && Follows(tag, rest)
    ensures DecodeField(tag, kind, [] + rest) == Some((Default(kind), rest))
  {
    assert [] + rest == rest;
  }

  lemma VarintField(tag: nat, n: u64, rest: bytes)
    requires tag <= MAX_TAG
    ensures DecodeField(tag, Varint, [Key(tag, Varint)] + EncodeVarint(n) + rest) == Some((Number(n), rest))
  {
    VarintRoundTrip(n, rest);
    var b := [Key(tag, Varint)] + EncodeVarint(n) + rest;
    assert b[1..] == EncodeVarint(n) + rest;
  }

  lemma FixedField(tag: nat, n: u64, rest: bytes)
    requires tag <= MAX_TAG
    ensures DecodeField(tag, Fixed64, [Key(tag, Fixed64)] + EncodeFixed(n, 8) + rest) == Some((Number(n), rest))
  {
    Pow256Of8();
    FixedRoundTrip(n, 8);
    var b := [Key(tag, Fixed64)] + EncodeFixed(n, 8) + rest;
    assert b[1..9] == EncodeFixed(n, 8);
    assert b[9..] == rest;
  }

  lemma BytesField(tag: nat, x: bytes, rest: bytes)
    requires tag <= MAX_TAG
    ensures DecodeField(tag, Bytes, [Key(tag, Bytes)] + Delimited(x) + rest) == Some((Blob(x), rest))
  {
    DelimitedRoundTrip(x, rest);
    var b := [Key(tag, Bytes)] + Delimited(x) + rest;
    assert b[1..] == Delimited(x) + rest;
  }

  lemma MessageField(tag: nat, fields: seq<Kind>, body: bytes, m: seq<Value>, rest: bytes)
    requires tag <= MAX_TAG && |fields| <= MAX_TAG
    requires DecodeFields(1, fields, body) == Some(m)
    ensures DecodeField(tag, Message(fields), [Key(tag, Message(fields))] + Delimited(body) + rest) ==
            Some((Nested(Some(m)), rest))
  {
    DelimitedRoundTrip(body, rest);
    var b := [Key(tag, Message(fields))] + Delimited(body) + rest;
    assert b[1..] == Delimited(body) + rest;
  }

  lemma {:induction false} FieldRoundTrip(omitEmpty: bool, tag: nat, kind: Kind, v: Value, rest: bytes)
    requires tag <= MAX_TAG && Fits(kind, v) && Follows(tag, rest)
    ensures DecodeField(tag, kind, EncodeField(omitEmpty, tag, kind, v) + rest) ==
            Some((Seen(omitEmpty, kind, v), rest))
    decreases kind, 1
  {
    AbsentField(tag, kind, rest);
    match kind
    case Varint => VarintField(tag, v.n, rest);
    case Fixed64 => FixedField(tag, v.n, rest);
    case Bytes => BytesField(tag, v.b, rest);
    case Message(fields) =>
      if v.msg.Some? {
        var body := EncodeFields(omitEmpty, 1, fields, v.msg.value);
        FieldsRoundTrip(omitEmpty, 1, fields, v.msg.value);
        MessageField(tag, fields, body, AllSeen(omitEmpty, fields, v.msg.value), rest);
      }
  }

  lemma DecodeFirst(tag: nat, kinds: seq<Kind>, b: bytes, v: Value, rest: bytes, vs: seq<Value>)
    requires kinds != [] && tag + |kinds| <= MAX_TAG + 1
    requires DecodeField(tag, kinds[0], b) == Some((v, rest)) && DecodeFields(tag + 1, kinds[1..], rest) == Some(vs)
    ensures DecodeFields(tag, kinds, b) == Some([v] + vs)
  {
  }

  /** Decoding returns what `AllSeen` says, at any nesting depth. */
  lemma {:induction false} FieldsRoundTrip(omitEmpty: bool, tag: nat, kinds: seq<Kind>, vs: seq<Value>)
    requires 1 <= tag && tag + |kinds| <= MAX_TAG + 1 && AllFit(kinds, vs)
    ensures DecodeFields(tag, kinds, EncodeFields(omitEmpty, tag, kinds, vs)) ==
            Some(AllSeen(omitEmpty, kinds, vs))
    decreases kinds, 0
  {
    if kinds != [] {
      var rest := EncodeFields(omitEmpty, tag + 1, kinds[1..], vs[1..]);
      FirstKey(omitEmpty, tag + 1, kinds[1..], vs[1..]);
      FieldRoundTrip(omitEmpty, tag, kinds[0], vs[0], rest);
      FieldsRoundTrip(omitEmpty, tag + 1, kinds[1..], vs[1..]);
      DecodeFirst(tag, kinds, EncodeField(omitEmpty, tag, kinds[0], vs[0]) + rest, Seen(omitEmpty, kinds[0], vs[0]),
                  rest, AllSeen(omitEmpty, kinds[1..], vs[1..]));
    }
  }

  /** No present sub-message, at any depth, is left out. */
  predicate Lossless(omitEmpty: bool, kind: Kind, v: Value)
    requires Fits(kind, v)
    decreases kind, 1
  {
    kind.Message? && v.msg.Some? ==>
      && (omitEmpty ==> EncodeFields(omitEmpty, 1, kind.fields, v.msg.value) != [])
      && AllLossless(omitEmpty, kind.fields, v.msg.value)
  }

  predicate AllLossless(omitEmpty: bool, kinds: seq<Kind>, vs: seq<Value>)
    requires |kinds| <= MAX_TAG && AllFit(kinds, vs)
    decreases kinds, 0
  {
    forall i :: 0 <= i < |kinds| ==> Lossless(omitEmpty, kinds[i], vs[i])
  }

  /** Only sub-messages can be left out: if there are two of them, side by side, they decide. */
  lemma TwoSubMessages(omitEmpty: bool, kinds: seq<Kind>, vs: seq<Value>, k: nat)
    requires |kinds| <= MAX_TAG && AllFit(kinds, vs) && k + 1 < |kinds|
    requires forall i :: 0 <= i < |kinds| && i != k && i != k + 1 ==> !kinds[i].Message?
    ensures AllLossless(omitEmpty, kinds, vs) <==>
            Lossless(omitEmpty, kinds[k], vs[k]) && Lossless(omitEmpty, kinds[k + 1], vs[k + 1])
  {
  }

  lemma {:induction false} SeenIffLossless(omitEmpty: bool, kind: Kind, v: Value)
    requires Fits(kind, v)
    ensures Seen(omitEmpty, kind, v) == v <==> Lossless(omitEmpty, kind, v)
    decreases kind, 1
  {
    if kind.Message? && v.msg.Some? {
      AllSeenIffLossless(omitEmpty, kind.fields, v.msg.value);
    }
  }

  lemma {:induction false} AllSeenIffLossless(omitEmpty: bool, kinds: seq<Kind>, vs: seq<Value>)
    requires |kinds| <= MAX_TAG && AllFit(kinds, vs)
    ensures AllSeen(omitEmpty, kinds, vs) == vs <==> AllLossless(omitEmpty, kinds, vs)
    decreases kinds, 0
  {
    if kinds != [] {
      SeenIffLossless(omitEmpty, kinds[0], vs[0]);
      AllSeenIffLossless(omitEmpty, kinds[1..], vs[1..]);
      var s := AllSeen(omitEmpty, kinds, vs);
      assert s[0] == Seen(omitEmpty, kinds[0], vs[0]) && s[1..] == AllSeen(omitEmpty, kinds[1..], vs[1..]);
      assert vs == [vs[0]] + vs[1..];
    }
  }

  /** When empty sub-messages are written out, nothing is lost. */
  lemma {:induction false} WritingEmptyIsLossless(kind: Kind, v: Value)
    requires Fits(kind, v)
    ensures Lossless(false, kind, v)
    decreases kind, 1
  {
    if kind.Message? && v.msg.Some? {
      WritingAllEmptyIsLossless(kind.fields, v.msg.value);
    }
  }

  lemma {:induction false} WritingAllEmptyIsLossless(kinds: seq<Kind>, vs: seq<Value>)
    requires |kinds| <= MAX_TAG && AllFit(kinds, vs)
    ensures AllLossless(false, kinds, vs)
    decreases kinds, 0
  {
    forall i | 0 <= i < |kinds| ensures Lossless(false, kinds[i], vs[i]) {
      WritingEmptyIsLossless(kinds[i], vs[i]);
    }
  }

  ghost predicate AllOmitted(omitEmpty: bool, tag: nat, kinds: seq<Kind>, vs: seq<Value>)
    requires tag + |kinds| <= MAX_TAG + 1 && AllFit(kinds, vs)
  {
    forall i :: 0 <= i < |kinds| ==> EncodeField(omitEmpty, tag + i, kinds[i], vs[i]) == []
  }

  lemma AllOmittedSplit(omitEmpty: bool, tag: nat, kinds: seq<Kind>, vs: seq<Value>)
    requires tag + |kinds| <= MAX_TAG + 1 && AllFit(kinds, vs) && kinds != []
    ensures AllOmitted(omitEmpty, tag, kinds, vs) <==>
            EncodeField(omitEmpty, tag, kinds[0], vs[0]) == [] && AllOmitted(omitEmpty, tag + 1, kinds[1..], vs[1..])
  {
  }

  /** A message has no content exactly when every one of its fields is left out. */
  lemma {:induction false} EmptyIffAllOmitted(omitEmpty: bool, tag: nat, kinds: seq<Kind>, vs: seq<Value>)
    requires tag + |kinds| <= MAX_TAG + 1 && AllFit(kinds, vs)
    ensures EncodeFields(omitEmpty, tag, kinds, vs) == [] <==> AllOmitted(omitEmpty, tag, kinds, vs)
    decreases |kinds|
  {
    if kinds != [] {
      EmptyIffAllOmitted(omitEmpty, tag + 1, kinds[1..], vs[1..]);
      AllOmittedSplit(omitEmpty, tag, kinds, vs);
    }
  }

  // ---------------------------------------------------------------- two layouts side by side

  /** What a length-delimited field carries. */
  function Content(omitEmpty: bool, kind: Kind, v: Value): bytes
    requires (kind.Bytes? || kind.Message?) && Fits(kind, v)
  {
    if kind.Bytes? then v.b
    else if v.msg.None? then []
    else EncodeFields(omitEmpty, 1, kind.fields, v.msg.value)
  }

  /** What follows the field with this tag, found without knowing the layout: its key says where it ends. */
  function After(tag: nat, b: bytes): bytes {
    if b == [] || b[0] / 8 != tag then b
    else if b[0] % 8 == 0 then
      var n := DecodeVarint(b[1..]);
      if n.None? then [] else n.value.1
    else if b[0] % 8 == 1 then
      if |b| < 9 then [] else b[9..]
    else
      var d := DecodeDelimited(b[1..]);
      if d.None? then [] else d.value.1
  }

  lemma AfterField(omitEmpty: bool, tag: nat, kind: Kind, v: Value, rest: bytes)
    requires tag <= MAX_TAG && Fits(kind, v) && Follows(tag, rest)
    ensures After(tag, EncodeField(omitEmpty, tag, kind, v) + rest) == rest
  {
    var x := EncodeField(omitEmpty, tag, kind, v);
    if x == [] {
      assert x + rest == rest;
    } else {
      match kind
      case Varint => AfterVarint(tag, v.n, rest);
      case Fixed64 => AfterFixed(tag, v.n, rest);
      case _ =>
        assert x == [tag * 8 + 2] + Delimited(Content(omitEmpty, kind, v));
        AfterDelimited(tag, Content(omitEmpty, kind, v), rest);
    }
  }

  lemma AfterVarint(tag: nat, n: u64, rest: bytes)
    requires tag <= MAX_TAG
    ensures After(tag, [Key(tag, Varint)] + EncodeVarint(n) + rest) == rest
  {
    VarintRoundTrip(n, rest);
    assert ([Key(tag, Varint)] + EncodeVarint(n) + rest)[1..] == EncodeVarint(n) + rest;
  }

  lemma AfterFixed(tag: nat, n: u64, rest: bytes)
    requires tag <= MAX_TAG
    ensures After(tag, [Key(tag, Fixed64)] + EncodeFixed(n, 8) + rest) == rest
  {
    assert ([Key(tag, Fixed64)] + EncodeFixed(n, 8) + rest)[9..] == rest;
  }

  lemma AfterDelimited(tag: nat, x: bytes, rest: bytes)
    requires tag <= MAX_TAG
    ensures After(tag, [tag * 8 + 2] + Delimited(x) + rest) == rest
  {
    DelimitedRoundTrip(x, rest);
    assert ([tag * 8 + 2] + Delimited(x) + rest)[1..] == Delimited(x) + rest;
  }

  function Before(tag: nat, b: bytes): bytes {
    if |After(tag, b)| <= |b| then b[..|b| - |After(tag, b)|] else []
  }

  /** So the first field and the others can be told apart in the bytes alone. */
  lemma FirstField(omitEmpty: bool, tag: nat, ks: seq<Kind>, vs: seq<Value>)
    requires ks != [] && tag + |ks| <= MAX_TAG + 1 && AllFit(ks, vs)
    ensures var b := EncodeFields(omitEmpty, tag, ks, vs);
            && EncodeField(omitEmpty, tag, ks[0], vs[0]) == Before(tag, b)
            && EncodeFields(omitEmpty, tag + 1, ks[1..], vs[1..]) == After(tag, b)
  {
    var x := EncodeField(omitEmpty, tag, ks[0], vs[0]);
    var rest := EncodeFields(omitEmpty, tag + 1, ks[1..], vs[1..]);
    FirstKey(omitEmpty, tag + 1, ks[1..], vs[1..]);
    AfterField(omitEmpty, tag, ks[0], vs[0], rest);
    assert (x + rest)[..|x|] == x;
  }

  ghost predicate SameFields(
    omitEmpty: bool, tag: nat, ks: seq<Kind>, vs: seq<Value>, ls: seq<Kind>, ws: seq<Value>)
    requires |ks| == |ls| && tag + |ks| <= MAX_TAG + 1 && AllFit(ks, vs) && AllFit(ls, ws)
  {
    forall i :: 0 <= i < |ks| ==>
      EncodeField(omitEmpty, tag + i, ks[i], vs[i]) == EncodeField(omitEmpty, tag + i, ls[i], ws[i])
  }

  lemma SameFieldsJoin(omitEmpty: bool, tag: nat, ks: seq<Kind>, vs: seq<Value>, ls: seq<Kind>, ws: seq<Value>)
    requires |ks| == |ls| > 0 && tag + |ks| <= MAX_TAG + 1 && AllFit(ks, vs) && AllFit(ls, ws)
    requires EncodeField(omitEmpty, tag, ks[0], vs[0]) == EncodeField(omitEmpty, tag, ls[0], ws[0])
    requires SameFields(omitEmpty, tag + 1, ks[1..], vs[1..], ls[1..], ws[1..])
    ensures SameFields(omitEmpty, tag, ks, vs, ls, ws)
  {
    forall i | 0 < i < |ks|
      ensures EncodeField(omitEmpty, tag + i, ks[i], vs[i]) == EncodeField(omitEmpty, tag + i, ls[i], ws[i])
    {
      var j := i - 1;
      assert ks[1..][j] == ks[i] && vs[1..][j] == vs[i] && ls[1..][j] == ls[i] && ws[1..][j] == ws[i];
      assert tag + 1 + j == tag + i;
    }
  }

  /** Bytes that two layouts share are shared field by field, whatever the kinds of the fields. */
  lemma {:induction false} FieldsAgree(
    omitEmpty: bool, tag: nat, ks: seq<Kind>, vs: seq<Value>, ls: seq<Kind>, ws: seq<Value>)
    requires |ks| == |ls| && tag + |ks| <= MAX_TAG + 1 && AllFit(ks, vs) && AllFit(ls, ws)
    requires EncodeFields(omitEmpty, tag, ks, vs) == EncodeFields(omitEmpty, tag, ls, ws)
    ensures SameFields(omitEmpty, tag, ks, vs, ls, ws)
    decreases |ks|
  {
    if ks != [] {
      FirstField(omitEmpty, tag, ks, vs);
      FirstField(omitEmpty, tag, ls, ws);
      FieldsAgree(omitEmpty, tag + 1, ks[1..], vs[1..], ls[1..], ws[1..]);
      SameFieldsJoin(omitEmpty, tag, ks, vs, ls, ws);
    }
  }

  /** Equal scalar fields hold the same value, or are of different kinds and both left out. */
  lemma ScalarFieldsAgree(omitEmpty: bool, tag: nat, k: Kind, v: Value, l: Kind, w: Value)
    requires tag <= MAX_TAG && Fits(k, v) && Fits(l, w) && !k.Message? && !l.Message?
    requires EncodeField(omitEmpty, tag, k, v) == EncodeField(omitEmpty, tag, l, w)
    ensures if k == l then v == w else v == Default(k) && w == Default(l)
  {
    if k == l {
      FieldRoundTrip(omitEmpty, tag, k, v, []);
      FieldRoundTrip(omitEmpty, tag, k, w, []);
    } else {
      StartsWithKey(omitEmpty, tag, k, v);
      StartsWithKey(omitEmpty, tag, l, w);
    }
  }

  /** Equal sub-message fields, neither of them left out while present, have equal bodies. */
  lemma MessageFieldsAgree(omitEmpty: bool, tag: nat, k: Kind, v: Value, l: Kind, w: Value)
    requires tag <= MAX_TAG && k.Message? && l.Message? && Fits(k, v) && Fits(l, w)
    requires EncodeField(omitEmpty, tag, k, v) == EncodeField(omitEmpty, tag, l, w)
    requires Lossless(omitEmpty, k, v) && Lossless(omitEmpty, l, w)
    ensures v.msg.Some? <==> w.msg.Some?
    ensures v.msg.Some? ==>
              EncodeFields(omitEmpty, 1, k.fields, v.msg.value) == EncodeFields(omitEmpty, 1, l.fields, w.msg.value)
  {
    if v.msg.Some? && w.msg.Some? {
      var x, y := EncodeField(omitEmpty, tag, k, v), EncodeField(omitEmpty, tag, l, w);
      assert x[1..] == Delimited(Content(omitEmpty, k, v)) && y[1..] == Delimited(Content(omitEmpty, l, w));
      DelimitedInjective(Content(omitEmpty, k, v), Content(omitEmpty, l, w));
    }
  }

  /** Layouts whose sub-messages sit in the same places; their scalar fields may be of different kinds. */
  predicate SameShape(k: Kind, l: Kind) {
    match (k, l)
    case (Message(ks), Message(ls)) => AllSameShape(ks, ls)
    case _ => !k.Message? && !l.Message?
  }

  predicate AllSameShape(ks: seq<Kind>, ls: seq<Kind>) {
    |ks| == |ls| && forall i :: 0 <= i < |ks| ==> SameShape(ks[i], ls[i])
  }

  /** The same value, or the zero value in fields of different kinds. */
  predicate Alike(k: Kind, v: Value, l: Kind, w: Value)
    requires Fits(k, v) && Fits(l, w) && SameShape(k, l)
    decreases k, 1
  {
    if k.Message? then
      v.msg.Some? == w.msg.Some? && (v.msg.Some? ==> AllAlike(k.fields, v.msg.value, l.fields, w.msg.value))
    else if k == l then v == w
    else v == Default(k) && w == Default(l)
  }

  predicate AllAlike(ks: seq<Kind>, vs: seq<Value>, ls: seq<Kind>, ws: seq<Value>)
    requires AllFit(ks, vs) && AllFit(ls, ws) && AllSameShape(ks, ls)
    decreases ks, 0
  {
    forall i :: 0 <= i < |ks| ==> Alike(ks[i], vs[i], ls[i], ws[i])
  }

  lemma {:induction false} FieldsAlike(omitEmpty: bool, tag: nat, k: Kind, v: Value, l: Kind, w: Value)
    requires tag <= MAX_TAG && Fits(k, v) && Fits(l, w) && SameShape(k, l)
    requires Lossless(omitEmpty, k, v) && Lossless(omitEmpty, l, w)
    requires EncodeField(omitEmpty, tag, k, v) == EncodeField(omitEmpty, tag, l, w)
    ensures Alike(k, v, l, w)
    decreases k, 1
  {
    if k.Message? {
      MessageFieldsAgree(omitEmpty, tag, k, v, l, w);
      if v.msg.Some? {
        MessagesAlike(omitEmpty, k.fields, v.msg.value, l.fields, w.msg.value);
      }
    } else {
      ScalarFieldsAgree(omitEmpty, tag, k, v, l, w);
    }
  }

  /** Bytes that two layouts of one shape share stand for values that differ at most in zeros. */
  lemma {:induction false} MessagesAlike(
    omitEmpty: bool, ks: seq<Kind>, vs: seq<Value>, ls: seq<Kind>, ws: seq<Value>)
    requires |ks| <= MAX_TAG && AllFit(ks, vs) && AllFit(ls, ws) && AllSameShape(ks, ls)
    requires AllLossless(omitEmpty, ks, vs) && AllLossless(omitEmpty, ls, ws)
    requires EncodeFields(omitEmpty, 1, ks, vs) == EncodeFields(omitEmpty, 1, ls, ws)
    ensures AllAlike(ks, vs, ls, ws)
    decreases ks, 0
  {
    FieldsAgree(omitEmpty, 1, ks, vs, ls, ws);
    forall i | 0 <= i < |ks| ensures Alike(ks[i], vs[i], ls[i], ws[i]) {
      FieldsAlike(omitEmpty, 1 + i, ks[i], vs[i], ls[i], ws[i]);
    }
  }

  // ---------------------------------------------------------------- length-delimited messages

  /** `encode_length_delimited`. */
  function Encode(omitEmpty: bool, kinds: seq<Kind>, vs: seq<Value>): bytes
    requires |kinds| <= MAX_TAG && AllFit(kinds, vs)
  {
    Delimited(EncodeFields(omitEmpty, 1, kinds, vs))
  }

  function Decode(kinds: seq<Kind>, b: bytes): Option<seq<Value>>
    requires |kinds| <= MAX_TAG
  {
    var d := DecodeDelimited(b);
    if d.None? || d.value.1 != [] then None else DecodeFields(1, kinds, d.value.0)
  }

  /** A message is read back exactly as written if and only if none of its sub-messages is left out. */
  lemma RoundTrip(omitEmpty: bool, kinds: seq<Kind>, vs: seq<Value>)
    requires |kinds| <= MAX_TAG && AllFit(kinds, vs)
    ensures Decode(kinds, Encode(omitEmpty, kinds, vs)) == Some(AllSeen(omitEmpty, kinds, vs))
    ensures Decode(kinds, Encode(omitEmpty, kinds, vs)) == Some(vs) <==> AllLossless(omitEmpty, kinds, vs)
  {
    var body := EncodeFields(omitEmpty, 1, kinds, vs);
    DelimitedRoundTrip(body, []);
    assert Delimited(body) + [] == Delimited(body);
    FieldsRoundTrip(omitEmpty, 1, kinds, vs);
    AllSeenIffLossless(omitEmpty, kinds, vs);
  }

  /** Messages of one kind that share their bytes are seen as the same message. */
  lemma EncodingInjective(omitEmpty: bool, kinds: seq<Kind>, vs: seq<Value>, ws: seq<Value>)
    requires |kinds| <= MAX_TAG && AllFit(kinds, vs) && AllFit(kinds, ws)
    requires Encode(omitEmpty, kinds, vs) == Encode(omitEmpty, kinds, ws)
    ensures AllSeen(omitEmpty, kinds, vs) == AllSeen(omitEmpty, kinds, ws)
    ensures AllLossless(omitEmpty, kinds, vs) && AllLossless(omitEmpty, kinds, ws) ==> vs == ws
  {
    RoundTrip(omitEmpty, kinds, vs);
    RoundTrip(omitEmpty, kinds, ws);
  }
}
