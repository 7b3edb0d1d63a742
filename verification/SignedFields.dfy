/**
 * Which value of a vote or proposal a reader finds where in the signed bytes: field numbers and wire
 * types as the message definitions of both encodings give them (src/amino_types/{vote,proposal,
 * block_id,time}.rs and Tendermint's `canonical.proto`).
 */
module SignedFields {
  import opened Base
  import opened Messages
  import opened Wire
  import opened WireReader
  import B = SignBytes

  // ---------------------------------------------------------------- what should be found

  /** A number in its 64-bit two's complement; zero is left out. */
  function Varint64(x: i64): Option<Raw> {
    if x == 0 then None else Some(RawVarint(AsU64(x)))
  }

  function SFixed64(x: i64): Option<Raw> {
    if x == 0 then None else Some(RawFixed(AsU64(x)))
  }

  function Text(b: bytes): Option<Raw> {
    if b == [] then None else Some(RawBytes(b))
  }

  /** Part-set header: total then hash in Protobuf, hash then total in Amino. */
  predicate ShowsParts(protobuf: bool, b: bytes, p: CanonicalParts) {
    && Get(b, 1) == (if protobuf then Varint64(p.total) else Text(p.hash))
    && Get(b, 2) == (if protobuf then Text(p.hash) else Varint64(p.total))
    && From(b, 3) == []
  }

  /** An encoder that drops empty sub-messages drops one with neither hash nor total. */
  predicate ShowsPartsField(omitEmpty: bool, protobuf: bool, raw: Option<Raw>, p: Option<CanonicalParts>) {
    if p.None? || (omitEmpty && p.value == CanonicalParts(0, [])) then raw == None
    else raw.Some? && raw.value.RawBytes? && ShowsParts(protobuf, raw.value.b, p.value)
  }

  /** Block ID: the hash at 1, the part-set header at 2. */
  predicate ShowsBlock(omitEmpty: bool, protobuf: bool, raw: Option<Raw>, b: Option<CanonicalBlockId>) {
    if b.None? || (omitEmpty && b.value.hash == [] && b.value.parts in {None, Some(CanonicalParts(0, []))})
    then raw == None
    else
      && raw.Some? && raw.value.RawBytes?
      && Get(raw.value.b, 1) == Text(b.value.hash)
      && ShowsPartsField(omitEmpty, protobuf, Get(raw.value.b, 2), b.value.parts)
      && From(raw.value.b, 3) == []
  }

  /** Timestamp: seconds at 1, nanoseconds at 2. */
  predicate ShowsTime(omitEmpty: bool, raw: Option<Raw>, t: Option<TimeMsg>) {
    if t.None? || (omitEmpty && t.value == TimeMsg(0, 0)) then raw == None
    else
      && raw.Some? && raw.value.RawBytes?
      && Get(raw.value.b, 1) == Varint64(t.value.seconds)
      && Get(raw.value.b, 2) == Varint64(t.value.nanos)
      && From(raw.value.b, 3) == []
  }

  predicate ShowsVote(omitEmpty: bool, protobuf: bool, b: bytes, c: Canonical)
    requires c.CanonicalVote?
  {
    && Get(b, 1) == Varint64(c.voteType)
    && Get(b, 2) == SFixed64(c.height)
    && Get(b, 3) == SFixed64(c.round)
    && ShowsBlock(omitEmpty, protobuf, Get(b, 4), c.blockId)
    && ShowsTime(omitEmpty, Get(b, 5), c.timestamp)
    && Get(b, 6) == Text(c.chainId)
    && From(b, 7) == []
  }

  /** A proposal has its POL round at 4, a varint in Protobuf and fixed in Amino. */
  predicate ShowsProposal(omitEmpty: bool, protobuf: bool, b: bytes, c: Canonical)
    requires c.CanonicalProposal?
  {
    && Get(b, 1) == Varint64(c.msgType)
    && Get(b, 2) == SFixed64(c.height)
    && Get(b, 3) == SFixed64(c.round)
    && Get(b, 4) == (if protobuf then Varint64(c.polRound) else SFixed64(c.polRound))
    && ShowsBlock(omitEmpty, protobuf, Get(b, 5), c.blockId)
    && ShowsTime(omitEmpty, Get(b, 6), c.timestamp)
    && Get(b, 7) == Text(c.chainId)
    && From(b, 8) == []
  }

  // ---------------------------------------------------------------- proof

  /** Messages of two fields, which all sub-messages are. */
  lemma TwoFieldsFound(omitEmpty: bool, ks: seq<Kind>, vs: seq<Value>)
    requires |ks| == 2 && AllFit(ks, vs)
    ensures var b := EncodeFields(omitEmpty, 1, ks, vs);
            var (x, y) := (RawOf(omitEmpty, ks[0], vs[0]), RawOf(omitEmpty, ks[1], vs[1]));
            Get(b, 1) == x && Get(b, 2) == y && From(b, 3) == [] && (b == [] <==> x.None? && y.None?)
  {
    GetsField(omitEmpty, ks, vs, 0);
    GetsField(omitEmpty, ks, vs, 1);
    GetsNoMore(omitEmpty, ks, vs);
    EmptyIffAllOmitted(omitEmpty, 1, ks, vs);
    OmittedIffNotFound(omitEmpty, 1 + 0, ks[0], vs[0]);
    OmittedIffNotFound(omitEmpty, 1 + 1, ks[1], vs[1]);
  }

  lemma OmittedIffNotFound(omitEmpty: bool, tag: nat, kind: Kind, v: Value)
    requires tag <= MAX_TAG && Fits(kind, v)
    ensures EncodeField(omitEmpty, tag, kind, v) == [] <==> RawOf(omitEmpty, kind, v).None?
  {
  }

  lemma PartsFound(omitEmpty: bool, protobuf: bool, p: CanonicalParts)
    ensures AllFit(B.PartsLayout(protobuf), B.PartsValues(protobuf, p))
    ensures var b := EncodeFields(omitEmpty, 1, B.PartsLayout(protobuf), B.PartsValues(protobuf, p));
            ShowsParts(protobuf, b, p) && (b == [] <==> p == CanonicalParts(0, []))
  {
    var ks, vs := B.PartsLayout(protobuf), B.PartsValues(protobuf, p);
    assert AllFit(ks, vs);
    TwoFieldsFound(omitEmpty, ks, vs);
  }

  lemma PartsFieldFound(omitEmpty: bool, protobuf: bool, b: CanonicalBlockId)
    ensures var (k, v) := (B.BlockLayout(protobuf)[1], B.BlockValues(protobuf, b)[1]);
            Fits(k, v) && ShowsPartsField(omitEmpty, protobuf, RawOf(omitEmpty, k, v), b.parts)
  {
    if b.parts.Some? {
      PartsFound(omitEmpty, protobuf, b.parts.value);
    }
  }

  lemma BlockFound(omitEmpty: bool, protobuf: bool, b: Option<CanonicalBlockId>)
    ensures Fits(Message(B.BlockLayout(protobuf)), B.BlockField(protobuf, b))
    ensures ShowsBlock(omitEmpty, protobuf,
                       RawOf(omitEmpty, Message(B.BlockLayout(protobuf)), B.BlockField(protobuf, b)), b)
  {
    B.SubMessagesFit(protobuf, b, None);
    if b.Some? {
      var ks, vs := B.BlockLayout(protobuf), B.BlockValues(protobuf, b.value);
      TwoFieldsFound(omitEmpty, ks, vs);
      PartsFieldFound(omitEmpty, protobuf, b.value);
      var raw := RawOf(omitEmpty, ks[1], vs[1]);
      assert RawOf(omitEmpty, ks[0], vs[0]) == Text(b.value.hash);
      assert raw.None? <==> b.value.parts.None? || (omitEmpty && b.value.parts.value == CanonicalParts(0, []));
    }
  }

  lemma TimeFound(omitEmpty: bool, t: Option<TimeMsg>)
    ensures Fits(Message(B.TIME), B.TimeField(t))
    ensures ShowsTime(omitEmpty, RawOf(omitEmpty, Message(B.TIME), B.TimeField(t)), t)
  {
    B.SubMessagesFit(false, None, t);
    if t.Some? {
      TwoFieldsFound(omitEmpty, B.TIME, B.TimeValues(t.value));
    }
  }

  /** The field at index `i` of a canonical message. */
  lemma FieldFound(omitEmpty: bool, protobuf: bool, c: Canonical, i: nat)
    requires i < if c.CanonicalVote? then 6 else 7
    ensures Fits(B.Layout(protobuf, c.CanonicalVote?)[i], B.Values(protobuf, c)[i])
    ensures Get(B.Body(omitEmpty, protobuf, c), 1 + i) ==
            RawOf(omitEmpty, B.Layout(protobuf, c.CanonicalVote?)[i], B.Values(protobuf, c)[i])
  {
    B.ValuesFit(protobuf, c);
    GetsField(omitEmpty, B.Layout(protobuf, c.CanonicalVote?), B.Values(protobuf, c), i);
  }

  lemma NothingElseFound(omitEmpty: bool, protobuf: bool, c: Canonical, n: nat)
    requires n == if c.CanonicalVote? then 6 else 7
    ensures From(B.Body(omitEmpty, protobuf, c), 1 + n) == []
  {
    B.ValuesFit(protobuf, c);
    GetsNoMore(omitEmpty, B.Layout(protobuf, c.CanonicalVote?), B.Values(protobuf, c));
  }

  lemma TypeFound(omitEmpty: bool, protobuf: bool, c: Canonical)
    ensures Get(B.Body(omitEmpty, protobuf, c), 1) == Varint64(if c.CanonicalVote? then c.voteType else c.msgType)
  {
    FieldFound(omitEmpty, protobuf, c, 0);
  }

  lemma HeightFound(omitEmpty: bool, protobuf: bool, c: Canonical)
    ensures Get(B.Body(omitEmpty, protobuf, c), 2) == SFixed64(c.height)
  {
    FieldFound(omitEmpty, protobuf, c, 1);
  }

  lemma RoundFound(omitEmpty: bool, protobuf: bool, c: Canonical)
    ensures Get(B.Body(omitEmpty, protobuf, c), 3) == SFixed64(c.round)
  {
    FieldFound(omitEmpty, protobuf, c, 2);
  }

  lemma PolRoundFound(omitEmpty: bool, protobuf: bool, c: Canonical)
    requires c.CanonicalProposal?
    ensures Get(B.Body(omitEmpty, protobuf, c), 4) ==
            if protobuf then Varint64(c.polRound) else SFixed64(c.polRound)
  {
    FieldFound(omitEmpty, protobuf, c, 3);
  }

  lemma SuffixFound(omitEmpty: bool, protobuf: bool, c: Canonical, k: nat)
    requires k == if c.CanonicalVote? then 4 else 5
    ensures var b := B.Body(omitEmpty, protobuf, c);
            && ShowsBlock(omitEmpty, protobuf, Get(b, k), c.blockId)
            && ShowsTime(omitEmpty, Get(b, k + 1), c.timestamp)
            && Get(b, k + 2) == Text(c.chainId)
            && From(b, k + 3) == []
  {
    FieldFound(omitEmpty, protobuf, c, k - 1);
    BlockFound(omitEmpty, protobuf, c.blockId);
    FieldFound(omitEmpty, protobuf, c, k);
    TimeFound(omitEmpty, c.timestamp);
    FieldFound(omitEmpty, protobuf, c, k + 1);
    NothingElseFound(omitEmpty, protobuf, c, k + 2);
  }

  /** Every value of a canonical vote is found at its own field number, and nothing else is there. */
  lemma VoteOnTheWire(omitEmpty: bool, protobuf: bool, c: Canonical)
    requires c.CanonicalVote?
    ensures ShowsVote(omitEmpty, protobuf, B.Body(omitEmpty, protobuf, c), c)
  {
    TypeFound(omitEmpty, protobuf, c);
    HeightFound(omitEmpty, protobuf, c);
    RoundFound(omitEmpty, protobuf, c);
    SuffixFound(omitEmpty, protobuf, c, 4);
  }

  /** The same for a canonical proposal. */
  lemma ProposalOnTheWire(omitEmpty: bool, protobuf: bool, c: Canonical)
    requires c.CanonicalProposal?
    ensures ShowsProposal(omitEmpty, protobuf, B.Body(omitEmpty, protobuf, c), c)
  {
    TypeFound(omitEmpty, protobuf, c);
    HeightFound(omitEmpty, protobuf, c);
    RoundFound(omitEmpty, protobuf, c);
    PolRoundFound(omitEmpty, protobuf, c);
    SuffixFound(omitEmpty, protobuf, c, 5);
  }

  /** What a session signs is the length of one such body, then the body. */
  lemma SignBytesOnTheWire(omitEmpty: bool, r: Request, chainId: ChainId, protobuf: bool) returns (body: bytes)
    requires Present(r)
    ensures DecodeDelimited(B.SignBytesOf(omitEmpty, r, chainId, protobuf)) == Some((body, []))
    ensures var c := CanonicalOf(r, chainId, protobuf);
            if r.SignVote? then c.CanonicalVote? && ShowsVote(omitEmpty, protobuf, body, c)
            else c.CanonicalProposal? && ShowsProposal(omitEmpty, protobuf, body, c)
  {
    var c := CanonicalOf(r, chainId, protobuf);
    body := B.Body(omitEmpty, protobuf, c);
    DelimitedRoundTrip(body, []);
    assert Delimited(body) + [] == Delimited(body);
    if r.SignVote? {
      VoteOnTheWire(omitEmpty, protobuf, c);
    } else {
      ProposalOnTheWire(omitEmpty, protobuf, c);
    }
  }
}
