/**
 * Signing requests, their validation, the consensus state the KMS reads out of them and the
 * canonical message it signs (src/amino_types/{vote,proposal,block_id,signature,validate}.rs).
 */
module Messages {
  import opened Base
  import C = Consensus

  type ChainId = bytes

  datatype ProtocolVersion = V0_34 | V0_33 | Legacy {
    predicate IsProtobuf() {
      !(V0_33? || Legacy?)
    }
  }

  datatype SignedMsgType = PreVote | PreCommit | Propose {
    function ToU32(): u32 {
      match this
      case PreVote => 0x01
      case PreCommit => 0x02
      case Propose => 0x20
    }

    /** The step `parse_request` puts into the consensus state. */
    function Step(): int {
      match this
      case Propose => 0
      case PreVote => 1
      case PreCommit => 2
    }
  }

  datatype TimeMsg = TimeMsg(seconds: i64, nanos: i32)
  datatype PartsHeader = PartsHeader(total: i64, hash: bytes)
  datatype BlockIdMsg = BlockIdMsg(hash: bytes, parts: Option<PartsHeader>)

  datatype Vote = Vote(
    voteType: u32, height: i64, round: i64, blockId: Option<BlockIdMsg>, timestamp: Option<TimeMsg>,
    validatorAddress: bytes, validatorIndex: i64, signature: bytes)

  datatype Proposal = Proposal(
    msgType: u32, height: i64, round: i64, polRound: i64, blockId: Option<BlockIdMsg>,
    timestamp: Option<TimeMsg>, signature: bytes)

  /** `SignVoteRequest` and `SignProposalRequest`. */
  datatype Request = SignVote(vote: Option<Vote>) | SignProposal(proposal: Option<Proposal>)

  datatype ValidationError =
    | InvalidMessageType | MissingConsensusMessage | NegativeHeight | NegativeRound | NegativePolRound
    | NegativeValidatorIndex | InvalidValidatorAddressSize | InvalidHashSize | NegativeTotal

  const SHA256_HASH_SIZE := 32
  const VALIDATOR_ADDR_SIZE := 20

  // ---------------------------------------------------------------- accessors

  predicate Present(r: Request) {
    match r
    case SignVote(v) => v.Some?
    case SignProposal(p) => p.Some?
  }

  function Height(r: Request): Option<i64> {
    match r
    case SignVote(v) => if v.Some? then Some(v.value.height) else None
    case SignProposal(p) => if p.Some? then Some(p.value.height) else None
  }

  /** The round as it is signed: in full. */
  function FullRound(r: Request): i64
    requires Present(r)
  {
    match r
    case SignVote(v) => v.value.round
    case SignProposal(p) => p.value.round
  }

  function BlockIdOf(r: Request): Option<BlockIdMsg>
    requires Present(r)
  {
    match r
    case SignVote(v) => v.value.blockId
    case SignProposal(p) => p.value.blockId
  }

  function WithBlockId(r: Request, b: Option<BlockIdMsg>): Request
    requires Present(r)
  {
    match r
    case SignVote(v) => SignVote(Some(v.value.(blockId := b)))
    case SignProposal(p) => SignProposal(Some(p.value.(blockId := b)))
  }

  /** `set_signature`. */
  function WithSignature(r: Request, signature: bytes): Request {
    match r
    case SignVote(v) => if v.Some? then SignVote(Some(v.value.(signature := signature))) else r
    case SignProposal(p) => if p.Some? then SignProposal(Some(p.value.(signature := signature))) else r
  }

  function VoteMsgType(v: Vote): Option<SignedMsgType> {
    if v.voteType == PreVote.ToU32() then Some(PreVote)
    else if v.voteType == PreCommit.ToU32() then Some(PreCommit)
    else None
  }

  function MsgType(r: Request): Option<SignedMsgType> {
    match r
    case SignVote(v) => if v.Some? then VoteMsgType(v.value) else None
    case SignProposal(_) => Some(Propose)
  }

  // ---------------------------------------------------------------- validation

  function ValidateParts(p: PartsHeader): Option<ValidationError> {
    if p.total < 0 then Some(NegativeTotal)
    else if p.hash != [] && |p.hash| != SHA256_HASH_SIZE then Some(InvalidHashSize)
    else None
  }

  function ValidateBlockId(b: BlockIdMsg): Option<ValidationError> {
    if b.hash != [] && |b.hash| != SHA256_HASH_SIZE then Some(InvalidHashSize)
    else if b.parts.Some? then ValidateParts(b.parts.value)
    else None
  }

  function ValidateVote(v: Vote): Option<ValidationError> {
    if VoteMsgType(v).None? then Some(InvalidMessageType)
    else if v.height < 0 then Some(NegativeHeight)
    else if v.round < 0 then Some(NegativeRound)
    else if v.validatorIndex < 0 then Some(NegativeValidatorIndex)
    else if |v.validatorAddress| != VALIDATOR_ADDR_SIZE then Some(InvalidValidatorAddressSize)
    else if v.blockId.Some? then ValidateBlockId(v.blockId.value)
    else None
  }

  /** The block ID of a proposal is not validated. */
  function ValidateProposal(p: Proposal): Option<ValidationError> {
    if p.msgType != Propose.ToU32() then Some(InvalidMessageType)
    else if p.height < 0 then Some(NegativeHeight)
    else if p.round < 0 then Some(NegativeRound)
    else if p.polRound < -1 then Some(NegativePolRound)
    else None
  }

  /** The shape of a block ID in a vote: hashes empty or of SHA-256 size, no negative total. */
  predicate ProperHash(h: bytes) {
    |h| == 0 || |h| == SHA256_HASH_SIZE
  }

  predicate ProperBlockId(b: BlockIdMsg) {
    ProperHash(b.hash) && (b.parts.Some? ==> ProperHash(b.parts.value.hash) && 0 <= b.parts.value.total)
  }

  function Validate(r: Request): Option<ValidationError> {
    match r
    case SignVote(v) => if v.Some? then ValidateVote(v.value) else Some(MissingConsensusMessage)
    case SignProposal(p) => if p.Some? then ValidateProposal(p.value) else Some(MissingConsensusMessage)
  }

  /** A request passes validation exactly if it holds a message whose every field is in range. */
  lemma ValidationExact(r: Request)
    ensures Validate(r).None? <==>
            && Present(r)
            && 0 <= Height(r).value && 0 <= FullRound(r)
            && (match r
                case SignVote(v) =>
                  && v.value.voteType in {PreVote.ToU32(), PreCommit.ToU32()}
                  && 0 <= v.value.validatorIndex && |v.value.validatorAddress| == VALIDATOR_ADDR_SIZE
                  && (v.value.blockId.Some? ==> ProperBlockId(v.value.blockId.value))
                case SignProposal(p) => p.value.msgType == Propose.ToU32() && -1 <= p.value.polRound)
    ensures Validate(r) == Some(MissingConsensusMessage) <==> !Present(r)
  {
  }

  /** The message and the type are in order, the height and the round are not negative. */
  predicate CommonFieldsOk(r: Request) {
    && Present(r) && 0 <= Height(r).value && 0 <= FullRound(r)
    && match r {
         case SignVote(v) => v.value.voteType in {1, 2}
         case SignProposal(p) => p.value.msgType == 32
       }
  }

  /** The error names the first field, in the order type, height, round and the rest, that is out of range. */
  lemma FirstFaultReported(r: Request)
    ensures Present(r) && !CommonFieldsOk(r) ==>
              Validate(r) == Some(
                if !(match r {
                       case SignVote(v) => v.value.voteType in {1, 2}
                       case SignProposal(p) => p.value.msgType == 32
                     }) then InvalidMessageType
                else if Height(r).value < 0 then NegativeHeight
                else NegativeRound)
    ensures CommonFieldsOk(r) && r.SignProposal? && Validate(r).Some? ==> Validate(r) == Some(NegativePolRound)
    ensures CommonFieldsOk(r) && r.SignVote? && Validate(r).Some? ==>
              var (v, e) := (r.vote.value, Validate(r).value);
              && (e == NegativeValidatorIndex <==> v.validatorIndex < 0)
              && (e == InvalidValidatorAddressSize <==> v.validatorIndex >= 0 && |v.validatorAddress| != 20)
              && (e == InvalidHashSize || e == NegativeTotal <==> v.validatorIndex >= 0 && |v.validatorAddress| == 20)
              && (e == NegativeTotal <==>
                  && v.validatorIndex >= 0 && |v.validatorAddress| == 20
                  && ProperHash(v.blockId.value.hash) && v.blockId.value.parts.value.total < 0)
  {
  }

  // ---------------------------------------------------------------- consensus state of a request

  /** `block::parts::Header::new` on a SHA-256 hash: a zero total with a hash is rejected. */
  function ParseParts(p: PartsHeader): Option<C.PartSetHeader> {
    if |p.hash| == SHA256_HASH_SIZE && AsU32(p.total) != 0
    then Some(C.PartSetHeader(AsU32(p.total), p.hash))
    else None
  }

  function ParseBlockId(b: BlockIdMsg): Option<C.BlockId> {
    if |b.hash| != SHA256_HASH_SIZE || b.parts.None? then None
    else
      var parts := ParseParts(b.parts.value);
      if parts.None? then None else Some(C.BlockId(b.hash, parts.value))
  }

  /** `From<&block::Id> for BlockId`: the message form of a recorded ID. */
  function FromBlockId(id: C.BlockId): BlockIdMsg {
    BlockIdMsg(id.hash, Some(PartsHeader(id.parts.total, id.parts.hash)))
  }

  /** The IDs that can be recorded at all: two SHA-256 hashes and a nonzero total. */
  predicate Recordable(id: C.BlockId) {
    |id.hash| == SHA256_HASH_SIZE && |id.parts.hash| == SHA256_HASH_SIZE && id.parts.total != 0
  }

  /** Parsing inverts the conversion on recordable IDs, and yields nothing else. */
  lemma ParseInvertsConversion(id: C.BlockId, b: BlockIdMsg)
    ensures ParseBlockId(FromBlockId(id)) == Some(id) <==> Recordable(id)
    ensures ParseBlockId(b) == Some(id) ==>
              && Recordable(id)
              && b.parts.Some?
              && FromBlockId(id) == b.(parts := Some(b.parts.value.(total := AsU32(b.parts.value.total))))
  {
  }

  /** A block ID that does not parse is recorded as nil. */
  function StateBlockId(b: Option<BlockIdMsg>): Option<C.BlockId> {
    if b.None? then None else ParseBlockId(b.value)
  }

  /** The state of a present message, before `parse_request` fixes the step; absent for negative heights. */
  function ConsensusState(r: Request): Option<C.State> {
    if !Present(r) || Height(r).value < 0 then None
    else
      var placeholder := if r.SignVote? then 6 else 3;
      Some(C.State(Height(r).value, AsU16(FullRound(r)), placeholder, StateBlockId(BlockIdOf(r))))
  }

  datatype Parsed = Parsed(msgType: SignedMsgType, state: C.State)

  /** `parse_request`; `None` stands for its two protocol errors. */
  function ParseRequest(r: Request): Option<Parsed> {
    if MsgType(r).None? || ConsensusState(r).None? then None
    else
      var t := MsgType(r).value;
      Some(Parsed(t, ConsensusState(r).value.(step := t.Step())))
  }

  /** After validation nothing downstream can fail: the unwraps, the parse, the step. */
  lemma ValidationSuffices(r: Request)
    requires Validate(r).None?
    ensures Present(r)
    ensures ParseRequest(r).Some?
    ensures var p := ParseRequest(r).value;
            && p.state.step == p.msgType.Step()
            && p.state.height == Height(r).value
            && p.state.round == FullRound(r) % TWO_16
            && (r.SignProposal? <==> p.msgType == Propose)
            && (r.SignVote? ==> r.vote.value.voteType == p.msgType.ToU32())
            && (r.SignProposal? ==> r.proposal.value.msgType == p.msgType.ToU32())
            && (r.SignVote? ==> p.state.step == r.vote.value.voteType && p.state.step in {1, 2})
            && (r.SignProposal? ==> p.state.step == 0 && r.proposal.value.msgType == 32)
            && p.state.blockId == StateBlockId(BlockIdOf(r))
  {
  }

  /** Step and wire code determine the message type, and the message type them. */
  lemma StepIdentifiesType(a: SignedMsgType, b: SignedMsgType)
    ensures a == b <==> a.Step() == b.Step()
    ensures a == b <==> a.ToU32() == b.ToU32()
  {
  }

  // ---------------------------------------------------------------- canonical messages

  datatype CanonicalParts = CanonicalParts(total: i64, hash: bytes)
  datatype CanonicalBlockId = CanonicalBlockId(hash: bytes, parts: Option<CanonicalParts>)

  /** `CanonicalVote` and `CanonicalProposal`, in either encoding. */
  datatype Canonical =
    | CanonicalVote(voteType: i64, height: i64, round: i64, blockId: Option<CanonicalBlockId>,
                    timestamp: Option<TimeMsg>, chainId: ChainId)
    | CanonicalProposal(msgType: i64, height: i64, round: i64, polRound: i64,
                        blockId: Option<CanonicalBlockId>, timestamp: Option<TimeMsg>, chainId: ChainId)

  /** Protobuf drops a block ID with an empty hash and narrows the total; Amino signs both as they are. */
  function CanonicalBlock(protobuf: bool, b: Option<BlockIdMsg>): Option<CanonicalBlockId> {
    if b.None? || (protobuf && b.value.hash == []) then None
    else
      var parts := b.value.parts;
      Some(CanonicalBlockId(
        b.value.hash,
        if parts.None? then None
        else Some(CanonicalParts(if protobuf then AsU32(parts.value.total) else parts.value.total, parts.value.hash))))
  }

  /** `CanonicalVote::new` fills in a missing timestamp (year one); nothing else does. */
  const ZERO_TIME := TimeMsg(-62_135_596_800, 0)

  function CanonicalOf(r: Request, chainId: ChainId, protobuf: bool): Canonical
    requires Present(r)
  {
    match r
    case SignVote(v) =>
      CanonicalVote(
        if protobuf then AsI32(v.value.voteType) else v.value.voteType,
        v.value.height, v.value.round, CanonicalBlock(protobuf, v.value.blockId),
        if !protobuf && v.value.timestamp.None? then Some(ZERO_TIME) else v.value.timestamp,
        chainId)
    case SignProposal(p) =>
      CanonicalProposal(
        Propose.ToU32(), p.value.height, p.value.round, p.value.polRound,
        CanonicalBlock(protobuf, p.value.blockId), p.value.timestamp, chainId)
  }

  /** What is signed is the request's own type, height, full round and block, for the session's chain. */
  lemma CanonicalCarriesRequest(r: Request, chainId: ChainId, protobuf: bool)
    requires Validate(r).None?
    ensures var c := CanonicalOf(r, chainId, protobuf);
            && c.chainId == chainId
            && c.height == Height(r).value
            && c.round == FullRound(r)
            && (c.CanonicalVote? ==> c.voteType == MsgType(r).value.ToU32())
            && (c.CanonicalProposal? ==> c.msgType == MsgType(r).value.ToU32())
            && (ParseRequest(r).value.state.blockId.Some? ==>
                  c.blockId.Some? &&
                  c.blockId.value.hash == ParseRequest(r).value.state.blockId.value.hash &&
                  c.blockId.value.parts.Some? &&
                  c.blockId.value.parts.value.hash == ParseRequest(r).value.state.blockId.value.parts.hash &&
                  AsU32(c.blockId.value.parts.value.total) == ParseRequest(r).value.state.blockId.value.parts.total)
  {
  }

  /** An Amino block ID is signed as sent, with its full 64-bit total, an empty hash included. */
  predicate SignsAminoBlock(c: Option<CanonicalBlockId>, b: Option<BlockIdMsg>) {
    && (c.None? <==> b.None?)
    && (c.Some? ==>
          && c.value.hash == b.value.hash
          && (c.value.parts.None? <==> b.value.parts.None?)
          && (c.value.parts.Some? ==>
                c.value.parts.value.total == b.value.parts.value.total &&
                c.value.parts.value.hash == b.value.parts.value.hash))
  }

  /** Every field of an Amino vote is signed as sent; a missing timestamp becomes the year one. */
  lemma AminoVoteIsSignedAsSent(v: Vote, chainId: ChainId)
    ensures var c := CanonicalOf(SignVote(Some(v)), chainId, false);
            && c.CanonicalVote? && c.voteType == v.voteType && c.height == v.height && c.round == v.round
            && SignsAminoBlock(c.blockId, v.blockId) && c.chainId == chainId
            && c.timestamp.Some?
            && (v.timestamp.Some? ==> c.timestamp == v.timestamp)
            && (v.timestamp.None? ==> c.timestamp.value == TimeMsg(-62_135_596_800, 0))
  {
  }

  /** So is every field of an Amino proposal, the POL round included; a missing timestamp stays missing. */
  lemma AminoProposalIsSignedAsSent(p: Proposal, chainId: ChainId)
    ensures var c := CanonicalOf(SignProposal(Some(p)), chainId, false);
            && c.CanonicalProposal? && c.msgType == 0x20 && c.height == p.height && c.round == p.round
            && c.polRound == p.polRound && c.timestamp == p.timestamp
            && SignsAminoBlock(c.blockId, p.blockId) && c.chainId == chainId
  {
  }

  /** Equal up to the timestamp, and up to the proof-of-lock round of a proposal. */
  predicate SameExceptTime(a: Canonical, b: Canonical) {
    match (a, b)
    case (CanonicalVote(type1, height1, round1, block1, _, chain1),
          CanonicalVote(type2, height2, round2, block2, _, chain2)) =>
      (type1, height1, round1, block1, chain1) == (type2, height2, round2, block2, chain2)
    case (CanonicalProposal(type1, height1, round1, _, block1, _, chain1),
          CanonicalProposal(type2, height2, round2, _, block2, _, chain2)) =>
      (type1, height1, round1, block1, chain1) == (type2, height2, round2, block2, chain2)
    case _ => false
  }

  // ---------------------------------------------------------------- when the state stands for the message

  /**
   * The recorded state tells this block ID apart from others: it is signed as nil, or it
   * parses and its total is signed as recorded.
   */
  predicate Representable(protobuf: bool, b: Option<BlockIdMsg>) {
    || CanonicalBlock(protobuf, b).None?
    || (ParseBlockId(b.value).Some? && (protobuf || 0 <= b.value.parts.value.total < TWO_32))
  }

  predicate RepresentableRequest(protobuf: bool, r: Request)
    requires Present(r)
  {
    Representable(protobuf, BlockIdOf(r))
  }

  /** Two requests that differ at most in what the record cannot see, the timestamp and the POL round. */
  predicate SameSlot(a: Request, b: Request)
    requires Present(a) && Present(b)
  {
    && ParseRequest(a).Some?
    && ParseRequest(a) == ParseRequest(b)
    && FullRound(a) == FullRound(b)
  }

  /**
   * The recorded block ID determines the signed one, whatever the casts dropped, even when the two
   * requests came in over different encodings.
   */
  lemma StateDeterminesCanonical(a: Request, b: Request, chainId: ChainId, protobufA: bool, protobufB: bool)
    requires Validate(a).None? && Validate(b).None? && SameSlot(a, b)
    requires RepresentableRequest(protobufA, a) && RepresentableRequest(protobufB, b)
    ensures SameExceptTime(CanonicalOf(a, chainId, protobufA), CanonicalOf(b, chainId, protobufB))
  {
  }

  /** The representable request the record cannot tell from `r`. */
  function Companion(r: Request): Request
    requires Present(r)
  {
    var b := BlockIdOf(r);
    if StateBlockId(b).None? then WithBlockId(r, None)
    else WithBlockId(r, Some(b.value.(parts := Some(b.value.parts.value.(total := AsU32(b.value.parts.value.total))))))
  }

  lemma CompanionInSlot(r: Request, protobuf: bool)
    requires Validate(r).None?
    ensures Validate(Companion(r)).None?
    ensures SameSlot(Companion(r), r)
    ensures RepresentableRequest(protobuf, Companion(r))
    ensures CanonicalBlock(protobuf, BlockIdOf(Companion(r))) == CanonicalBlock(protobuf, BlockIdOf(r))
            <==> RepresentableRequest(protobuf, r)
  {
  }

  /**
   * The exact condition: a validated request never clashes with a representable request in the
   * same slot if and only if it is representable itself.
   */
  lemma RepresentableIsExact(r: Request, chainId: ChainId, protobuf: bool)
    requires Validate(r).None?
    ensures RepresentableRequest(protobuf, r) <==>
            forall f: Request ::
              Validate(f).None? && RepresentableRequest(protobuf, f) && SameSlot(f, r) ==>
                SameExceptTime(CanonicalOf(f, chainId, protobuf), CanonicalOf(r, chainId, protobuf))
  {
    if RepresentableRequest(protobuf, r) {
      forall f: Request | Validate(f).None? && RepresentableRequest(protobuf, f) && SameSlot(f, r)
        ensures SameExceptTime(CanonicalOf(f, chainId, protobuf), CanonicalOf(r, chainId, protobuf))
      {
        StateDeterminesCanonical(f, r, chainId, protobuf, protobuf);
      }
    } else {
      CompanionInSlot(r, protobuf);
      assert !SameExceptTime(CanonicalOf(Companion(r), chainId, protobuf), CanonicalOf(r, chainId, protobuf));
    }
  }

  // ---------------------------------------------------------------- truncated rounds

  /** The 16 bits of the round that the record keeps. */
  function LowRound(r: Request): nat
    requires Present(r)
  {
    FullRound(r) % TWO_16
  }

  /** Which of the blocks of 65536 rounds the round lies in. */
  function RoundBlock(r: Request): int
    requires Present(r)
  {
    FullRound(r) / TWO_16
  }

  /** What the record compares of two requests of one height. */
  predicate Admits(a: Request, b: Request)
    requires Validate(a).None? && Validate(b).None? && Present(a) && Present(b) && MsgType(a).Some? && MsgType(b).Some?
  {
    var (stepA, stepB) := (MsgType(a).value.Step(), MsgType(b).value.Step());
    var (idA, idB) := (StateBlockId(BlockIdOf(a)), StateBlockId(BlockIdOf(b)));
    || LowRound(a) < LowRound(b)
    || (&& LowRound(a) == LowRound(b) && stepA <= stepB
        && (idA == idB || (stepA < stepB && (idA.None? || idB.None?))))
  }

  /**
   * Two requests of one height, with any rounds: the second is let through after the first according
   * to the low 16 bits of the rounds alone. So a lower full round is let through exactly when it lies
   * in an earlier block of 65536 and its low bits pass, and a higher one is refused exactly when it
   * lies in a later block and its low bits do not.
   */
  lemma RoundsComparedModulo(a: Request, b: Request)
    requires Validate(a).None? && Validate(b).None? && Height(a) == Height(b)
    ensures Present(a) && Present(b) && ParseRequest(a).Some? && ParseRequest(b).Some?
    ensures C.Check(ParseRequest(a).value.state, ParseRequest(b).value.state).None? <==> Admits(a, b)
    ensures FullRound(b) < FullRound(a) ==>
              (C.Check(ParseRequest(a).value.state, ParseRequest(b).value.state).None? <==>
               RoundBlock(b) < RoundBlock(a) && Admits(a, b))
    ensures FullRound(a) < FullRound(b) ==>
              (C.Check(ParseRequest(a).value.state, ParseRequest(b).value.state).Some? <==>
               RoundBlock(a) < RoundBlock(b) && !Admits(a, b))
  {
  }

  // ---------------------------------------------------------------- honest validators

  /** The states of a list of requests that all parse. */
  ghost function StatesOf(requests: seq<Request>): seq<C.State>
    requires forall i :: 0 <= i < |requests| ==> ParseRequest(requests[i]).Some?
  {
    seq(|requests|, i requires 0 <= i < |requests| => ParseRequest(requests[i]).value.state)
  }

  /** (height, full round, step) advances from `a` to `b`. */
  predicate Advances(a: Request, b: Request)
    requires Present(a) && Present(b) && MsgType(a).Some? && MsgType(b).Some?
  {
    var (h, k) := (Height(a).value, Height(b).value);
    h < k || (h == k && (FullRound(a) < FullRound(b) ||
                         (FullRound(a) == FullRound(b) && MsgType(a).value.Step() < MsgType(b).value.Step())))
  }

  /** Within one round, neighbouring requests do not name two blocks. */
  predicate Agrees(a: Request, b: Request)
    requires Present(a) && Present(b)
  {
    Height(a) == Height(b) && FullRound(a) == FullRound(b) &&
    StateBlockId(BlockIdOf(a)).Some? && StateBlockId(BlockIdOf(b)).Some? ==>
      StateBlockId(BlockIdOf(a)) == StateBlockId(BlockIdOf(b))
  }

  /** Valid requests from height 1 on, in rounds below 65536, always advancing and agreeing. */
  ghost predicate HonestRequests(requests: seq<Request>) {
    && (forall i :: 0 <= i < |requests| ==>
          Validate(requests[i]).None? && Present(requests[i]) && MsgType(requests[i]).Some? &&
          Height(requests[i]).value >= 1 && FullRound(requests[i]) < TWO_16)
    && (forall i :: 0 < i < |requests| ==>
          Advances(requests[i - 1], requests[i]) && Agrees(requests[i - 1], requests[i]))
  }

  /** Their states advance and agree as well. */
  lemma HonestStates(requests: seq<Request>)
    requires HonestRequests(requests)
    ensures forall i :: 0 <= i < |requests| ==> ParseRequest(requests[i]).Some?
    ensures C.Honest(StatesOf(requests))
  {
    forall i | 0 <= i < |requests| ensures ParseRequest(requests[i]).Some? {
      ValidationSuffices(requests[i]);
    }
    var states := StatesOf(requests);
    forall i | 0 < i < |states|
      ensures C.Before(states[i - 1], states[i])
      ensures C.SameRound(states[i - 1], states[i]) ==> !C.Conflicting(states[i - 1], states[i])
    {
      ValidationSuffices(requests[i - 1]);
      ValidationSuffices(requests[i]);
      assert Advances(requests[i - 1], requests[i]) && Agrees(requests[i - 1], requests[i]);
    }
  }

  /** Such requests, however many, are all accepted by a fresh record. */
  lemma HonestRequestsNeverRefused(requests: seq<Request>)
    requires HonestRequests(requests)
    ensures forall i :: 0 <= i < |requests| ==> ParseRequest(requests[i]).Some?
    ensures C.Replay(C.INITIAL, StatesOf(requests)).Some?
  {
    HonestStates(requests);
    C.HonestValidatorNeverRefused(StatesOf(requests));
  }

  /** A proposal for round zero of this height that names a block. */
  predicate FirstProposal(r: Request, height: nat)
    requires Present(r)
  {
    r.SignProposal? && Height(r).value == height && FullRound(r) == 0 && StateBlockId(BlockIdOf(r)).Some?
  }

  /**
   * A record that a hook has moved to some height accepts such requests from that height on exactly if
   * they do not begin with the first proposal of that very height, which it takes for a double sign.
   */
  lemma HonestRequestsAfterHook(height: nat, requests: seq<Request>)
    requires HonestRequests(requests) && requests != [] && Height(requests[0]).value >= height
    ensures forall i :: 0 <= i < |requests| ==> ParseRequest(requests[i]).Some?
    ensures C.Replay(C.State(height, 0, 0, None), StatesOf(requests)).Some? <==> !FirstProposal(requests[0], height)
    ensures FirstProposal(requests[0], height) ==>
              C.Check(C.State(height, 0, 0, None), ParseRequest(requests[0]).value.state) == Some(C.DoubleSign)
  {
    HonestStates(requests);
    ValidationSuffices(requests[0]);
    C.HonestAfterBlank(height, StatesOf(requests));
  }
}
