/**
 * The bytes that get signed: canonical votes and proposals in the Protobuf layout (Tendermint
 * 0.34) and in the Amino layout (older versions), and the proof that they cannot be confused.
 */
module SignBytes {
  import opened Base
  import opened Wire
  import opened Messages

  // ---------------------------------------------------------------- layouts

  const TIME: seq<Kind> := [Varint, Varint]

  /** Amino puts the hash first, Protobuf the total. */
  function PartsLayout(protobuf: bool): seq<Kind> {
    if protobuf then [Varint, Bytes] else [Bytes, Varint]
  }

  function BlockLayout(protobuf: bool): seq<Kind> {
    [Bytes, Message(PartsLayout(protobuf))]
  }

  /** Height and round are `sfixed64`; a Protobuf proposal has its POL round as a varint. */
  function Layout(protobuf: bool, vote: bool): seq<Kind> {
    if vote then
      [Varint, Fixed64, Fixed64, Message(BlockLayout(protobuf)), Message(TIME), Bytes]
    else
      [Varint, Fixed64, Fixed64, if protobuf then Varint else Fixed64,
       Message(BlockLayout(protobuf)), Message(TIME), Bytes]
  }

  // ---------------------------------------------------------------- values

  /** Signed numbers travel as their 64-bit two's complement. */
  function Signed(x: i64): Value {
    Number(AsU64(x))
  }

  function PartsValues(protobuf: bool, p: CanonicalParts): seq<Value> {
    if protobuf then [Signed(p.total), Blob(p.hash)] else [Blob(p.hash), Signed(p.total)]
  }

  function BlockValues(protobuf: bool, b: CanonicalBlockId): seq<Value> {
    [Blob(b.hash), Nested(if b.parts.None? then None else Some(PartsValues(protobuf, b.parts.value)))]
  }

  function TimeValues(t: TimeMsg): seq<Value> {
    [Signed(t.seconds), Signed(t.nanos)]
  }

  function BlockField(protobuf: bool, b: Option<CanonicalBlockId>): Value {
    Nested(if b.None? then None else Some(BlockValues(protobuf, b.value)))
  }

  function TimeField(t: Option<TimeMsg>): Value {
    Nested(if t.None? then None else Some(TimeValues(t.value)))
  }

  function Values(protobuf: bool, c: Canonical): seq<Value> {
    match c
    case CanonicalVote(voteType, height, round, blockId, timestamp, chainId) =>
      [Signed(voteType), Signed(height), Signed(round), BlockField(protobuf, blockId), TimeField(timestamp),
       Blob(chainId)]
    case CanonicalProposal(msgType, height, round, polRound, blockId, timestamp, chainId) =>
      [Signed(msgType), Signed(height), Signed(round), Signed(polRound), BlockField(protobuf, blockId),
       TimeField(timestamp), Blob(chainId)]
  }

  lemma SubMessagesFit(protobuf: bool, b: Option<CanonicalBlockId>, t: Option<TimeMsg>)
    ensures Fits(Message(BlockLayout(protobuf)), BlockField(protobuf, b))
    ensures Fits(Message(TIME), TimeField(t))
  {
    if b.Some? && b.value.parts.Some? {
      assert AllFit(PartsLayout(protobuf), PartsValues(protobuf, b.value.parts.value));
    }
    if b.Some? {
      assert AllFit(BlockLayout(protobuf), BlockValues(protobuf, b.value));
    }
    if t.Some? {
      assert AllFit(TIME, TimeValues(t.value));
    }
  }

  lemma ValuesFit(protobuf: bool, c: Canonical)
    ensures |Layout(protobuf, c.CanonicalVote?)| <= MAX_TAG
    ensures AllFit(Layout(protobuf, c.CanonicalVote?), Values(protobuf, c))
  {
    SubMessagesFit(protobuf, c.blockId, c.timestamp);
  }

  // ---------------------------------------------------------------- bytes

  /** The fields of a canonical message. */
  function Body(omitEmpty: bool, protobuf: bool, c: Canonical): bytes {
    ValuesFit(protobuf, c);
    EncodeFields(omitEmpty, 1, Layout(protobuf, c.CanonicalVote?), Values(protobuf, c))
  }

  /** `encode_length_delimited` of a canonical message. */
  function Serialize(omitEmpty: bool, protobuf: bool, c: Canonical): bytes {
    Delimited(Body(omitEmpty, protobuf, c))
  }

  /** `sign_bytes`: what a session signs for a request that holds a message. */
  function SignBytesOf(omitEmpty: bool, r: Request, chainId: ChainId, protobuf: bool): bytes
    requires Present(r)
  {
    Serialize(omitEmpty, protobuf, CanonicalOf(r, chainId, protobuf))
  }

  // ---------------------------------------------------------------- when nothing is left out

  predicate FilledParts(p: CanonicalParts) {
    p.hash != [] || p.total != 0
  }

  predicate FilledBlock(b: CanonicalBlockId) {
    b.hash != [] || b.parts.Some?
  }

  predicate FilledBlockId(b: Option<CanonicalBlockId>) {
    b.Some? ==> FilledBlock(b.value) && (b.value.parts.Some? ==> FilledParts(b.value.parts.value))
  }

  predicate FilledTime(t: Option<TimeMsg>) {
    t.Some? ==> t.value != TimeMsg(0, 0)
  }

  /** Every sub-message that is present has some content. */
  predicate Filled(c: Canonical) {
    FilledBlockId(c.blockId) && FilledTime(c.timestamp)
  }

  lemma PartsLossless(protobuf: bool, p: CanonicalParts)
    ensures AllFit(PartsLayout(protobuf), PartsValues(protobuf, p))
    ensures AllLossless(true, PartsLayout(protobuf), PartsValues(protobuf, p))
    ensures EncodeFields(true, 1, PartsLayout(protobuf), PartsValues(protobuf, p)) != [] <==> FilledParts(p)
  {
    var ks, vs := PartsLayout(protobuf), PartsValues(protobuf, p);
    assert AllFit(ks, vs);
    EmptyIffAllOmitted(true, 1, ks, vs);
    assert EncodeField(true, 1 + 0, ks[0], vs[0]) == [] && EncodeField(true, 1 + 1, ks[1], vs[1]) == []
      <==> !FilledParts(p);
  }

  lemma TimeLossless(t: Option<TimeMsg>)
    ensures Fits(Message(TIME), TimeField(t))
    ensures Lossless(true, Message(TIME), TimeField(t)) <==> FilledTime(t)
  {
  }

  lemma PartsFieldLossless(protobuf: bool, b: CanonicalBlockId)
    ensures var (k, v) := (BlockLayout(protobuf)[1], BlockValues(protobuf, b)[1]);
            && Fits(k, v)
            && (Lossless(true, k, v) <==> (b.parts.Some? ==> FilledParts(b.parts.value)))
            && (EncodeField(true, 2, k, v) == [] <==> !(b.parts.Some? && FilledParts(b.parts.value)))
  {
    if b.parts.Some? {
      PartsLossless(protobuf, b.parts.value);
    }
  }

  lemma BlockLossless(protobuf: bool, b: Option<CanonicalBlockId>)
    ensures Fits(Message(BlockLayout(protobuf)), BlockField(protobuf, b))
    ensures Lossless(true, Message(BlockLayout(protobuf)), BlockField(protobuf, b)) <==> FilledBlockId(b)
  {
    SubMessagesFit(protobuf, b, None);
    if b.Some? {
      var ks, vs := BlockLayout(protobuf), BlockValues(protobuf, b.value);
      PartsFieldLossless(protobuf, b.value);
      EmptyIffAllOmitted(true, 1, ks, vs);
      assert EncodeField(true, 1 + 0, ks[0], vs[0]) == [] <==> b.value.hash == [];
      assert EncodeField(true, 1 + 1, ks[1], vs[1]) == EncodeField(true, 2, ks[1], vs[1]);
      assert AllLossless(true, ks, vs) <==> Lossless(true, ks[1], vs[1]);
    }
  }

  /** Where the two sub-messages of a canonical message are. */
  lemma SubMessagePlaces(protobuf: bool, c: Canonical, k: nat)
    requires k == if c.CanonicalVote? then 3 else 4
    ensures var ks, vs := Layout(protobuf, c.CanonicalVote?), Values(protobuf, c);
            && |ks| == |vs| == k + 3 <= MAX_TAG
            && ks[k] == Message(BlockLayout(protobuf)) && vs[k] == BlockField(protobuf, c.blockId)
            && ks[k + 1] == Message(TIME) && vs[k + 1] == TimeField(c.timestamp)
            && forall i :: 0 <= i < |ks| && i != k && i != k + 1 ==> !ks[i].Message?
  {
  }

  /** Amino votes lose nothing on the wire exactly when their sub-messages are absent or have content. */
  lemma FilledIffLossless(protobuf: bool, c: Canonical)
    ensures AllFit(Layout(protobuf, c.CanonicalVote?), Values(protobuf, c))
    ensures |Layout(protobuf, c.CanonicalVote?)| <= MAX_TAG
    ensures AllLossless(true, Layout(protobuf, c.CanonicalVote?), Values(protobuf, c)) <==> Filled(c)
  {
    var k := if c.CanonicalVote? then 3 else 4;
    ValuesFit(protobuf, c);
    SubMessagePlaces(protobuf, c, k);
    TwoSubMessages(true, Layout(protobuf, c.CanonicalVote?), Values(protobuf, c), k);
    BlockLossless(protobuf, c.blockId);
    TimeLossless(c.timestamp);
  }

  // ---------------------------------------------------------------- unique decodability

  /** A reader of the signed bytes gets the canonical message back, and only from Filled ones if empties are dropped. */
  lemma SignBytesDecode(omitEmpty: bool, protobuf: bool, c: Canonical)
    ensures |Layout(protobuf, c.CanonicalVote?)| <= MAX_TAG
    ensures Decode(Layout(protobuf, c.CanonicalVote?), Serialize(omitEmpty, protobuf, c)) == Some(Values(protobuf, c))
            <==> (omitEmpty ==> Filled(c))
  {
    var ks, vs := Layout(protobuf, c.CanonicalVote?), Values(protobuf, c);
    FilledIffLossless(protobuf, c);
    RoundTrip(omitEmpty, ks, vs);
    if !omitEmpty {
      WritingAllEmptyIsLossless(ks, vs);
    }
  }

  /** Both encodings nest alike; they order the part-set header and store the POL round differently. */
  lemma LayoutsHaveOneShape(protobufA: bool, protobufB: bool, vote: bool)
    ensures SameShape(Message(PartsLayout(protobufA)), Message(PartsLayout(protobufB)))
    ensures SameShape(Message(BlockLayout(protobufA)), Message(BlockLayout(protobufB)))
    ensures AllSameShape(Layout(protobufA, vote), Layout(protobufB, vote))
  {
    assert AllSameShape(PartsLayout(protobufA), PartsLayout(protobufB));
    assert AllSameShape(BlockLayout(protobufA), BlockLayout(protobufB));
    assert SameShape(Message(TIME), Message(TIME));
  }

  /** Two's complement loses nothing on 64-bit numbers, and zero is zero in every kind of field. */
  lemma NumbersAlike(k: Kind, x: i64, l: Kind, y: i64)
    requires (k.Varint? || k.Fixed64?) && (l.Varint? || l.Fixed64?) && Alike(k, Signed(x), l, Signed(y))
    ensures x == y
  {
  }

  /** Between the two encodings only part-set headers without content are alike. */
  lemma PartsAlike(protobufA: bool, p: CanonicalParts, protobufB: bool, q: CanonicalParts)
    requires AllFit(PartsLayout(protobufA), PartsValues(protobufA, p))
    requires AllFit(PartsLayout(protobufB), PartsValues(protobufB, q))
    requires AllSameShape(PartsLayout(protobufA), PartsLayout(protobufB))
    requires AllAlike(PartsLayout(protobufA), PartsValues(protobufA, p),
                      PartsLayout(protobufB), PartsValues(protobufB, q))
    ensures p == q
  {
    var ks, vs, ls, ws :=
      PartsLayout(protobufA), PartsValues(protobufA, p), PartsLayout(protobufB), PartsValues(protobufB, q);
    assert Alike(ks[0], vs[0], ls[0], ws[0]) && Alike(ks[1], vs[1], ls[1], ws[1]);
  }

  lemma BlockFieldsAlike(protobufA: bool, a: Option<CanonicalBlockId>, protobufB: bool, b: Option<CanonicalBlockId>)
    requires Fits(Message(BlockLayout(protobufA)), BlockField(protobufA, a))
    requires Fits(Message(BlockLayout(protobufB)), BlockField(protobufB, b))
    requires SameShape(Message(BlockLayout(protobufA)), Message(BlockLayout(protobufB)))
    requires Alike(Message(BlockLayout(protobufA)), BlockField(protobufA, a),
                   Message(BlockLayout(protobufB)), BlockField(protobufB, b))
    ensures a == b
  {
    if a.Some? {
      var ks, vs := BlockLayout(protobufA), BlockValues(protobufA, a.value);
      var ls, ws := BlockLayout(protobufB), BlockValues(protobufB, b.value);
      assert Alike(ks[0], vs[0], ls[0], ws[0]) && Alike(ks[1], vs[1], ls[1], ws[1]);
      if a.value.parts.Some? {
        PartsAlike(protobufA, a.value.parts.value, protobufB, b.value.parts.value);
      }
    }
  }

  lemma TimeFieldsAlike(a: Option<TimeMsg>, b: Option<TimeMsg>)
    requires Fits(Message(TIME), TimeField(a)) && Fits(Message(TIME), TimeField(b))
    requires SameShape(Message(TIME), Message(TIME))
    requires Alike(Message(TIME), TimeField(a), Message(TIME), TimeField(b))
    ensures a == b
  {
    if a.Some? {
      var vs, ws := TimeValues(a.value), TimeValues(b.value);
      assert Alike(TIME[0], vs[0], TIME[0], ws[0]) && Alike(TIME[1], vs[1], TIME[1], ws[1]);
      NumbersAlike(Varint, a.value.seconds, Varint, b.value.seconds);
      NumbersAlike(Varint, a.value.nanos, Varint, b.value.nanos);
    }
  }

  /** Every field of the one message is alike to that of the other. */
  ghost predicate CanonicalsAlike(protobufA: bool, a: Canonical, protobufB: bool, b: Canonical)
    requires a.CanonicalVote? == b.CanonicalVote?
  {
    ValuesFit(protobufA, a);
    ValuesFit(protobufB, b);
    LayoutsHaveOneShape(protobufA, protobufB, a.CanonicalVote?);
    AllAlike(Layout(protobufA, a.CanonicalVote?), Values(protobufA, a),
             Layout(protobufB, b.CanonicalVote?), Values(protobufB, b))
  }

  lemma FieldAlike(protobufA: bool, a: Canonical, protobufB: bool, b: Canonical, i: nat)
    requires a.CanonicalVote? == b.CanonicalVote? && i < if a.CanonicalVote? then 6 else 7
    ensures var ks, vs := Layout(protobufA, a.CanonicalVote?), Values(protobufA, a);
            var ls, ws := Layout(protobufB, b.CanonicalVote?), Values(protobufB, b);
            && Fits(ks[i], vs[i]) && Fits(ls[i], ws[i]) && SameShape(ks[i], ls[i])
            && (CanonicalsAlike(protobufA, a, protobufB, b) ==> Alike(ks[i], vs[i], ls[i], ws[i]))
  {
    ValuesFit(protobufA, a);
    ValuesFit(protobufB, b);
    LayoutsHaveOneShape(protobufA, protobufB, a.CanonicalVote?);
  }

  /** A number in front of the block ID; a POL round of two kinds can only be zero. */
  lemma NumberAlike(protobufA: bool, a: Canonical, x: i64, protobufB: bool, b: Canonical, y: i64, i: nat)
    requires a.CanonicalVote? == b.CanonicalVote? && i < if a.CanonicalVote? then 3 else 4
    ensures CanonicalsAlike(protobufA, a, protobufB, b) ==>
              (Values(protobufA, a)[i] == Signed(x) && Values(protobufB, b)[i] == Signed(y) ==> x == y)
  {
    FieldAlike(protobufA, a, protobufB, b, i);
    var k, l := Layout(protobufA, a.CanonicalVote?)[i], Layout(protobufB, b.CanonicalVote?)[i];
    if Alike(k, Signed(x), l, Signed(y)) {
      NumbersAlike(k, x, l, y);
    }
  }

  lemma PrefixAlike(protobufA: bool, a: Canonical, protobufB: bool, b: Canonical)
    requires a.CanonicalVote? == b.CanonicalVote?
    ensures CanonicalsAlike(protobufA, a, protobufB, b) ==>
              && a.height == b.height && a.round == b.round
              && (a.CanonicalVote? ==> a.voteType == b.voteType)
              && (a.CanonicalProposal? ==> a.msgType == b.msgType && a.polRound == b.polRound)
  {
    NumberAlike(protobufA, a, a.height, protobufB, b, b.height, 1);
    NumberAlike(protobufA, a, a.round, protobufB, b, b.round, 2);
    if a.CanonicalVote? {
      NumberAlike(protobufA, a, a.voteType, protobufB, b, b.voteType, 0);
    } else {
      NumberAlike(protobufA, a, a.msgType, protobufB, b, b.msgType, 0);
      NumberAlike(protobufA, a, a.polRound, protobufB, b, b.polRound, 3);
    }
  }

  lemma BlockIdAlike(protobufA: bool, a: Canonical, protobufB: bool, b: Canonical)
    requires a.CanonicalVote? == b.CanonicalVote?
    ensures CanonicalsAlike(protobufA, a, protobufB, b) ==> a.blockId == b.blockId
  {
    FieldAlike(protobufA, a, protobufB, b, if a.CanonicalVote? then 3 else 4);
    LayoutsHaveOneShape(protobufA, protobufB, a.CanonicalVote?);
    if Alike(Message(BlockLayout(protobufA)), BlockField(protobufA, a.blockId),
             Message(BlockLayout(protobufB)), BlockField(protobufB, b.blockId)) {
      BlockFieldsAlike(protobufA, a.blockId, protobufB, b.blockId);
    }
  }

  /** The fields after the block ID. */
  lemma SuffixAlike(protobufA: bool, a: Canonical, protobufB: bool, b: Canonical)
    requires a.CanonicalVote? == b.CanonicalVote?
    ensures CanonicalsAlike(protobufA, a, protobufB, b) ==> a.timestamp == b.timestamp && a.chainId == b.chainId
  {
    var k := if a.CanonicalVote? then 4 else 5;
    FieldAlike(protobufA, a, protobufB, b, k);
    if Alike(Message(TIME), TimeField(a.timestamp), Message(TIME), TimeField(b.timestamp)) {
      TimeFieldsAlike(a.timestamp, b.timestamp);
    }
    FieldAlike(protobufA, a, protobufB, b, k + 1);
  }

  lemma CanonicalLossless(omitEmpty: bool, protobuf: bool, c: Canonical)
    requires omitEmpty ==> Filled(c)
    ensures AllFit(Layout(protobuf, c.CanonicalVote?), Values(protobuf, c))
    ensures |Layout(protobuf, c.CanonicalVote?)| <= MAX_TAG
    ensures AllLossless(omitEmpty, Layout(protobuf, c.CanonicalVote?), Values(protobuf, c))
  {
    FilledIffLossless(protobuf, c);
    if !omitEmpty {
      WritingAllEmptyIsLossless(Layout(protobuf, c.CanonicalVote?), Values(protobuf, c));
    }
  }

  /**
   * Distinct canonical messages of one kind never share their sign bytes, not even one in the Protobuf
   * and one in the Amino encoding.
   */
  lemma SignBytesInjective(omitEmpty: bool, protobufA: bool, a: Canonical, protobufB: bool, b: Canonical)
    requires a.CanonicalVote? == b.CanonicalVote?
    requires omitEmpty ==> Filled(a) && Filled(b)
    requires Serialize(omitEmpty, protobufA, a) == Serialize(omitEmpty, protobufB, b)
    ensures a == b
  {
    CanonicalLossless(omitEmpty, protobufA, a);
    CanonicalLossless(omitEmpty, protobufB, b);
    LayoutsHaveOneShape(protobufA, protobufB, a.CanonicalVote?);
    DelimitedInjective(Body(omitEmpty, protobufA, a), Body(omitEmpty, protobufB, b));
    MessagesAlike(omitEmpty, Layout(protobufA, a.CanonicalVote?), Values(protobufA, a),
                  Layout(protobufB, b.CanonicalVote?), Values(protobufB, b));
    PrefixAlike(protobufA, a, protobufB, b);
    BlockIdAlike(protobufA, a, protobufB, b);
    SuffixAlike(protobufA, a, protobufB, b);
  }

  /** The body of a canonical message with a one-byte type starts with that type. */
  lemma TypeComesFirst(omitEmpty: bool, protobuf: bool, c: Canonical, t: i64)
    requires 0 < t < 128
    requires t == if c.CanonicalVote? then c.voteType else c.msgType
    ensures var body := Body(omitEmpty, protobuf, c); |body| >= 2 && body[0] == 0x08 && body[1] == t
  {
    ValuesFit(protobuf, c);
    var ks, vs := Layout(protobuf, c.CanonicalVote?), Values(protobuf, c);
    assert EncodeField(omitEmpty, 1, ks[0], vs[0]) == [0x08, t];
  }

  /** Equal sign bytes belong to messages of one type. */
  lemma SameBytesSameType(
    omitEmpty: bool, protobufA: bool, a: Canonical, s: u32, protobufB: bool, b: Canonical, t: u32)
    requires 0 < s < 128 && s == if a.CanonicalVote? then a.voteType else a.msgType
    requires 0 < t < 128 && t == if b.CanonicalVote? then b.voteType else b.msgType
    requires Serialize(omitEmpty, protobufA, a) == Serialize(omitEmpty, protobufB, b)
    ensures s == t
  {
    TypeComesFirst(omitEmpty, protobufA, a, s);
    TypeComesFirst(omitEmpty, protobufB, b, t);
    DelimitedInjective(Body(omitEmpty, protobufA, a), Body(omitEmpty, protobufB, b));
  }

  /** The type code decides between votes and proposals. */
  lemma TypeOfCanonical(r: Request, chainId: ChainId, protobuf: bool)
    requires Validate(r).None?
    ensures MsgType(r).Some? && 0 < MsgType(r).value.ToU32() < 128
    ensures var c := CanonicalOf(r, chainId, protobuf);
            && (c.CanonicalVote? <==> MsgType(r).value != Propose)
            && MsgType(r).value.ToU32() == if c.CanonicalVote? then c.voteType else c.msgType
  {
  }

  /** Two validated requests with the same sign bytes, in whatever encodings, ask for the same canonical message. */
  lemma SameBytesSameMessage(omitEmpty: bool, protobufA: bool, a: Request, chainA: ChainId,
                             protobufB: bool, b: Request, chainB: ChainId)
    requires Validate(a).None? && Validate(b).None?
    requires omitEmpty ==>
               Filled(CanonicalOf(a, chainA, protobufA)) && Filled(CanonicalOf(b, chainB, protobufB))
    requires SignBytesOf(omitEmpty, a, chainA, protobufA) == SignBytesOf(omitEmpty, b, chainB, protobufB)
    ensures CanonicalOf(a, chainA, protobufA) == CanonicalOf(b, chainB, protobufB)
  {
    var x, y := CanonicalOf(a, chainA, protobufA), CanonicalOf(b, chainB, protobufB);
    TypeOfCanonical(a, chainA, protobufA);
    TypeOfCanonical(b, chainB, protobufB);
    SameBytesSameType(omitEmpty, protobufA, x, MsgType(a).value.ToU32(), protobufB, y, MsgType(b).value.ToU32());
    StepIdentifiesType(MsgType(a).value, MsgType(b).value);
    SignBytesInjective(omitEmpty, protobufA, x, protobufB, y);
  }

  // ---------------------------------------------------------------- the source's own test vectors

  const ZERO_TIME_BYTES: bytes := [0x08, 0x80, 0x92, 0xb8, 0xc3, 0x98, 0xfe, 0xff, 0xff, 0xff, 0x01]

  /** Amino vote without a block ID and with the default timestamp. */
  function PlainVote(voteType: i64, height: i64, round: i64, chainId: ChainId): Canonical {
    CanonicalVote(voteType, height, round, None, Some(ZERO_TIME), chainId)
  }

  function TypeBytes(voteType: u8): bytes {
    if voteType == 0 then [] else [0x08, voteType]
  }

  function FixedBytes(key: u8, n: u8): bytes {
    if n == 0 then [] else [key, n, 0, 0, 0, 0, 0, 0, 0]
  }

  function ChainBytes(chainId: ChainId): bytes
    requires |chainId| < 128
  {
    if chainId == [] then [] else [0x32, |chainId|] + chainId
  }

  lemma FixedFieldBytes(omitEmpty: bool, tag: nat, n: u8)
    requires tag <= MAX_TAG
    ensures EncodeField(omitEmpty, tag, Fixed64, Signed(n)) == FixedBytes(tag * 8 + 1, n)
  {
    SmallFixed(n);
  }

  lemma ChainFieldBytes(omitEmpty: bool, chainId: ChainId)
    requires |chainId| < 128
    ensures EncodeField(omitEmpty, 6, Bytes, Blob(chainId)) == ChainBytes(chainId)
  {
  }

  lemma SmallFixed(n: u8)
    ensures EncodeFixed(n, 8) == [n, 0, 0, 0, 0, 0, 0, 0]
  {
    assert EncodeFixed(0, 7) == [0, 0, 0, 0, 0, 0, 0];
  }

  lemma ZeroTimeBytes(omitEmpty: bool)
    ensures AllFit(TIME, TimeValues(ZERO_TIME))
    ensures EncodeFields(omitEmpty, 1, TIME, TimeValues(ZERO_TIME)) == ZERO_TIME_BYTES
  {
  }

  lemma TimeFieldBytes(omitEmpty: bool)
    ensures Fits(Message(TIME), TimeField(Some(ZERO_TIME)))
    ensures EncodeField(omitEmpty, 5, Message(TIME), TimeField(Some(ZERO_TIME))) == [0x2a, 0x0b] + ZERO_TIME_BYTES
  {
    ZeroTimeBytes(omitEmpty);
    assert Delimited(ZERO_TIME_BYTES) == [0x0b] + ZERO_TIME_BYTES;
  }

  /** The six fields of such a vote. */
  function PlainFields(voteType: u8, height: u8, round: u8, chainId: ChainId): seq<bytes>
    requires |chainId| < 128
  {
    [TypeBytes(voteType), FixedBytes(0x11, height), FixedBytes(0x19, round), [],
     [0x2a, 0x0b] + ZERO_TIME_BYTES, ChainBytes(chainId)]
  }

  lemma PlainFieldBytes(omitEmpty: bool, voteType: u8, height: u8, round: u8, chainId: ChainId, i: nat)
    requires voteType < 128 && |chainId| < 128 && i < 6
    ensures var c := PlainVote(voteType, height, round, chainId);
            && Fits(Layout(false, c.CanonicalVote?)[i], Values(false, c)[i])
            && EncodeField(omitEmpty, 1 + i, Layout(false, c.CanonicalVote?)[i], Values(false, c)[i]) ==
               PlainFields(voteType, height, round, chainId)[i]
  {
    match i
    case 1 => FixedFieldBytes(omitEmpty, 2, height);
    case 2 => FixedFieldBytes(omitEmpty, 3, round);
    case 4 => TimeFieldBytes(omitEmpty);
    case 5 => ChainFieldBytes(omitEmpty, chainId);
    case _ =>
  }

  /** The encoder reproduces the byte strings the repository's own tests expect. */
  lemma VoteVectors(omitEmpty: bool, voteType: u8, height: u8, round: u8, chainId: ChainId)
    requires voteType < 128 && |chainId| < 128
    ensures Body(omitEmpty, false, PlainVote(voteType, height, round, chainId)) ==
            Concat(PlainFields(voteType, height, round, chainId))
  {
    var c := PlainVote(voteType, height, round, chainId);
    ValuesFit(false, c);
    forall i | 0 <= i < 6
      ensures EncodeField(omitEmpty, 1 + i, Layout(false, c.CanonicalVote?)[i], Values(false, c)[i]) ==
              PlainFields(voteType, height, round, chainId)[i]
    {
      PlainFieldBytes(omitEmpty, voteType, height, round, chainId, i);
    }
    FieldsConcat(omitEmpty, 1, Layout(false, c.CanonicalVote?), Values(false, c),
                 PlainFields(voteType, height, round, chainId));
  }

  /** `CanonicalVote::new(Vote::default(), "")`, length prefix included. */
  lemma DefaultVoteVector(omitEmpty: bool)
    ensures Serialize(omitEmpty, false, PlainVote(0, 0, 0, [])) == [0x0d] + ([0x2a, 0x0b] + ZERO_TIME_BYTES)
  {
    VoteVectors(omitEmpty, 0, 0, 0, []);
    var body := [0x2a, 0x0b] + ZERO_TIME_BYTES;
    assert Concat(PlainFields(0, 0, 0, [])) == body && |body| == 13;
    assert EncodeVarint(13) == [0x0d];
  }
}
