/**
 * Conversions between Protobuf requests and responses and the KMS's own message types
 * (src/rpc.rs, src/amino_types/block_id.rs).
 */
module Rpc {
  import opened Base
  import opened Messages

  datatype ProtoParts = ProtoParts(total: u32, hash: bytes)
  datatype ProtoBlockId = ProtoBlockId(hash: bytes, parts: Option<ProtoParts>)

  datatype ProtoVote = ProtoVote(
    voteType: i32, height: i64, round: i32, blockId: Option<ProtoBlockId>, timestamp: Option<TimeMsg>,
    validatorAddress: bytes, validatorIndex: i32, signature: bytes)

  datatype ProtoProposal = ProtoProposal(
    msgType: i32, height: i64, round: i32, polRound: i32, blockId: Option<ProtoBlockId>,
    timestamp: Option<TimeMsg>, signature: bytes)

  /** The two signing requests among the Protobuf privval messages. */
  datatype ProtoRequest = ProtoSignVote(vote: Option<ProtoVote>) | ProtoSignProposal(proposal: Option<ProtoProposal>)

  /** `RemoteError::double_sign`. */
  datatype RemoteError = DoubleSignError(height: nat)

  /** Responses inside the KMS and on the Protobuf wire. */
  datatype Response =
    | SignedVote(vote: Option<Vote>, err: Option<RemoteError>)
    | SignedProposal(proposal: Option<Proposal>, err: Option<RemoteError>)

  datatype ProtoResponse =
    | ProtoSignedVote(vote: Option<ProtoVote>, error: Option<RemoteError>)
    | ProtoSignedProposal(proposal: Option<ProtoProposal>, error: Option<RemoteError>)

  // ---------------------------------------------------------------- requests in

  function ReadBlockId(b: ProtoBlockId): BlockIdMsg {
    BlockIdMsg(b.hash, if b.parts.None? then None else Some(PartsHeader(b.parts.value.total, b.parts.value.hash)))
  }

  function ReadVote(v: ProtoVote): Vote {
    Vote(AsU32(v.voteType), v.height, v.round,
         if v.blockId.None? then None else Some(ReadBlockId(v.blockId.value)),
         v.timestamp, v.validatorAddress, v.validatorIndex, v.signature)
  }

  function ReadProposal(p: ProtoProposal): Proposal {
    Proposal(AsU32(p.msgType), p.height, p.round, p.polRound,
             if p.blockId.None? then None else Some(ReadBlockId(p.blockId.value)),
             p.timestamp, p.signature)
  }

  function Read(q: ProtoRequest): Request {
    match q
    case ProtoSignVote(v) => SignVote(if v.None? then None else Some(ReadVote(v.value)))
    case ProtoSignProposal(p) => SignProposal(if p.None? then None else Some(ReadProposal(p.value)))
  }

  // ---------------------------------------------------------------- responses out

  /** `build_response`: the error instead of the message, if there is one. */
  function BuildResponse(r: Request, error: Option<RemoteError>): Response {
    match r
    case SignVote(v) => if error.Some? then SignedVote(None, error) else SignedVote(v, None)
    case SignProposal(p) => if error.Some? then SignedProposal(None, error) else SignedProposal(p, None)
  }

  function WriteBlockId(b: BlockIdMsg): ProtoBlockId {
    ProtoBlockId(
      b.hash,
      if b.parts.None? then None else Some(ProtoParts(AsU32(b.parts.value.total), b.parts.value.hash)))
  }

  function WriteVote(v: Vote): ProtoVote {
    ProtoVote(AsI32(v.voteType), v.height, AsI32(v.round),
              if v.blockId.None? then None else Some(WriteBlockId(v.blockId.value)),
              v.timestamp, v.validatorAddress, AsI32(v.validatorIndex), v.signature)
  }

  function WriteProposal(p: Proposal): ProtoProposal {
    ProtoProposal(AsI32(p.msgType), p.height, AsI32(p.round), AsI32(p.polRound),
                  if p.blockId.None? then None else Some(WriteBlockId(p.blockId.value)),
                  p.timestamp, p.signature)
  }

  /** The Protobuf branch of `Response::encode`; it never fills in the error field. */
  function Write(r: Response): ProtoResponse {
    match r
    case SignedVote(v, _) => ProtoSignedVote(if v.None? then None else Some(WriteVote(v.value)), None)
    case SignedProposal(p, _) => ProtoSignedProposal(if p.None? then None else Some(WriteProposal(p.value)), None)
  }

  // ---------------------------------------------------------------- round trip

  /** The response a validator expects: its own message with only the signature filled in. */
  function Expected(q: ProtoRequest, signature: bytes): ProtoResponse {
    match q
    case ProtoSignVote(v) =>
      ProtoSignedVote(if v.None? then None else Some(v.value.(signature := signature)), None)
    case ProtoSignProposal(p) =>
      ProtoSignedProposal(if p.None? then None else Some(p.value.(signature := signature)), None)
  }

  lemma BlockIdRoundTrip(b: ProtoBlockId)
    ensures WriteBlockId(ReadBlockId(b)) == b
  {
  }

  /** Reading, signing and answering returns every field of the request unchanged, casts and all. */
  lemma SignedRoundTrip(q: ProtoRequest, signature: bytes)
    ensures Write(BuildResponse(WithSignature(Read(q), signature), None)) == Expected(q, signature)
  {
  }

  /**
   * Inside the KMS, and on the older wire format, a response carries either the message and no error,
   * or the error and no message, and is of the request's own kind.
   */
  lemma ResponseCarriesOneThing(r: Request, error: Option<RemoteError>)
    ensures var resp := BuildResponse(r, error);
            && (r.SignVote? ==>
                  resp.SignedVote? && resp.err == error && resp.vote == if error.Some? then None else r.vote)
            && (r.SignProposal? ==>
                  resp.SignedProposal? && resp.err == error &&
                  resp.proposal == if error.Some? then None else r.proposal)
  {
  }

  /** Over Protobuf a refused request is answered with neither a message nor an error. */
  lemma RefusalLosesError(r: Request, e: RemoteError)
    ensures Write(BuildResponse(r, Some(e))) ==
            if r.SignVote? then ProtoSignedVote(None, None) else ProtoSignedProposal(None, None)
  {
  }

  /** Block totals of Protobuf requests fit the record: only the shape of the ID can make it unrepresentable. */
  lemma ProtobufRepresentable(q: ProtoRequest)
    requires Present(Read(q))
    ensures RepresentableRequest(true, Read(q)) <==>
            var b := BlockIdOf(Read(q));
            || b.None?
            || b.value.hash == []
            || (&& |b.value.hash| == SHA256_HASH_SIZE
                && b.value.parts.Some?
                && |b.value.parts.value.hash| == SHA256_HASH_SIZE
                && b.value.parts.value.total != 0)
  {
    var proto := match q { case ProtoSignVote(v) => v.value.blockId case ProtoSignProposal(p) => p.value.blockId };
    var b := BlockIdOf(Read(q));
    assert b == if proto.None? then None else Some(ReadBlockId(proto.value));
    if b.Some? && b.value.parts.Some? {
      var total := b.value.parts.value.total;
      assert total == proto.value.parts.value.total;
      assert AsU32(total) == total;
    }
  }

  /** The signed block ID repeats the one on the wire, an empty hash counting as none. */
  predicate SignsBlockId(c: Option<CanonicalBlockId>, b: Option<ProtoBlockId>) {
    && (c.None? <==> b.None? || b.value.hash == [])
    && (c.Some? ==>
          && c.value.hash == b.value.hash
          && (c.value.parts.None? <==> b.value.parts.None?)
          && (c.value.parts.Some? ==>
                c.value.parts.value.total == b.value.parts.value.total &&
                c.value.parts.value.hash == b.value.parts.value.hash))
  }

  predicate SignsVote(c: Canonical, v: ProtoVote, chainId: ChainId) {
    && c.CanonicalVote? && SignsBlockId(c.blockId, v.blockId)
    && c.voteType == v.voteType && c.height == v.height && c.round == v.round
    && c.timestamp == v.timestamp && c.chainId == chainId
  }

  predicate SignsProposal(c: Canonical, p: ProtoProposal, chainId: ChainId) {
    && c.CanonicalProposal? && SignsBlockId(c.blockId, p.blockId)
    && c.height == p.height && c.round == p.round && c.polRound == p.polRound
    && c.timestamp == p.timestamp && c.chainId == chainId
  }

  /** No cast on the way from the wire to the canonical vote changes a value. */
  lemma ProtobufVoteIsSignedAsSent(v: ProtoVote, chainId: ChainId)
    ensures SignsVote(CanonicalOf(Read(ProtoSignVote(Some(v))), chainId, true), v, chainId)
  {
  }

  /**
   * Nor does one on the way to the canonical proposal, POL round included; the type code signed is
   * that of a proposal, which is the one sent exactly if the message type passes validation.
   */
  lemma ProtobufProposalIsSignedAsSent(p: ProtoProposal, chainId: ChainId)
    ensures
      var r := Read(ProtoSignProposal(Some(p)));
      var c := CanonicalOf(r, chainId, true);
      && SignsProposal(c, p, chainId)
      && (c.msgType == p.msgType <==> Validate(r) != Some(InvalidMessageType))
  {
  }
}
