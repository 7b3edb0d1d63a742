/** A session with one validator: what it does with a signing request (src/session.rs). */
module Session {
  import opened Base
  import opened Messages
  import opened Rpc
  import C = Consensus
  import R = Record
  import B = SignBytes
  import ChainState
  import KeyRing

  datatype Config = Config(chainId: ChainId, maxHeight: Option<nat>, protocol: ProtocolVersion)

  /** Why a session returns an error, which ends it. */
  datatype SignError =
    | Invalid(reason: ValidationError)
    | ExceedMaxHeight
    | ProtocolError
    | StateFailure(cause: C.StateError)
    | KeyFailure

  predicate WithinStopHeight(config: Config, r: Request) {
    config.maxHeight.Some? && Height(r).Some? ==> Height(r).value <= config.maxHeight.value
  }

  /** Everything that is checked before the chain state is locked: validation, stop height, parsing. */
  function Vet(config: Config, r: Request): (v: Result<Parsed, SignError>)
    ensures v.Ok? <==> Validate(r).None? && WithinStopHeight(config, r)
    ensures v.Ok? ==> Present(r) && ParseRequest(r) == Some(v.value) && v.value.state.step == v.value.msgType.Step()
  {
    if Validate(r).Some? then Err(Invalid(Validate(r).value))
    else if !WithinStopHeight(config, r) then Err(ExceedMaxHeight)
    else
      ValidationSuffices(r);
      if ParseRequest(r).None? then Err(ProtocolError) else Ok(ParseRequest(r).value)
  }

  /** What a whole `sign` call does to the chain's record when no other session interferes. */
  function RecordAfter(config: Config, rec: R.Record, r: Request, syncOk: bool): R.Record
    requires rec.mem.Some?
  {
    match Vet(config, r)
    case Ok(p) => R.Update(rec, p.state, syncOk)
    case Err(_) => rec
  }

  /** What a whole `sign` call returns. */
  function Answer(config: Config, omitEmpty: bool, mem: C.State, r: Request, syncOk: bool,
                  signer: Option<KeyRing.Signer>): Result<Response, SignError>
  {
    match Vet(config, r)
    case Err(e) => Err(e)
    case Ok(p) =>
      match R.UpdateError(mem, p.state, syncOk)
      case Some(DoubleSign) => Ok(BuildResponse(r, Some(DoubleSignError(p.state.height))))
      case Some(e) => Err(StateFailure(e))
      case None =>
        if signer.None? then Err(KeyFailure)
        else
          match signer.value.sign(B.SignBytesOf(omitEmpty, r, config.chainId, config.protocol.IsProtobuf()))
          case None => Err(KeyFailure)
          case Some(sig) => Ok(BuildResponse(WithSignature(r, sig), None))
  }

  /** A response that carries a message, which is the only kind that carries a signature. */
  predicate Carries(resp: Response) {
    match resp
    case SignedVote(v, _) => v.Some?
    case SignedProposal(p, _) => p.Some?
  }

  /**
   * A message comes back only for a vetted request whose state the record accepted and stored;
   * any refusal short of a failed write leaves the record as it was.
   */
  lemma AnswerOnlyAfterGrant(config: Config, omitEmpty: bool, rec: R.Record, r: Request, syncOk: bool,
                             signer: Option<KeyRing.Signer>)
    requires rec.mem.Some?
    ensures
      var a := Answer(config, omitEmpty, rec.mem.value, r, syncOk, signer);
      var rec' := RecordAfter(config, rec, r, syncOk);
      && (a.Ok? && Carries(a.value) ==>
            && syncOk
            && Validate(r).None? && WithinStopHeight(config, r)
            && ParseRequest(r).Some?
            && rec'.mem == rec'.disk == Some(ParseRequest(r).value.state)
            && rec'.log == rec.log + [R.Entry(ParseRequest(r).value.state, true)])
      && (Vet(config, r).Err? || C.Check(rec.mem.value, Vet(config, r).value.state).Some? ==>
            rec' == rec && (a.Ok? ==> !Carries(a.value)))
  {
  }

  // ---------------------------------------------------------------- the answer, spelled out

  /** The request gets as far as the chain's record. */
  predicate InOrder(config: Config, r: Request) {
    Validate(r).None? && WithinStopHeight(config, r) && Present(r) && ParseRequest(r).Some?
  }

  /** The signer's signature over the bytes of the request, if it makes one. */
  function SignatureBy(signer: Option<KeyRing.Signer>, omitEmpty: bool, config: Config, r: Request): Option<bytes>
    requires Present(r)
  {
    if signer.None? then None
    else signer.value.sign(B.SignBytesOf(omitEmpty, r, config.chainId, config.protocol.IsProtobuf()))
  }

  /** The request itself, with this signature and no error. */
  predicate CarriesSigned(resp: Response, r: Request, sig: bytes) {
    match r
    case SignVote(v) => v.Some? && resp == SignedVote(Some(v.value.(signature := sig)), None)
    case SignProposal(p) => p.Some? && resp == SignedProposal(Some(p.value.(signature := sig)), None)
  }

  /** No message, and a double-sign error for the height of the request. */
  predicate CarriesRefusal(resp: Response, r: Request) {
    match r
    case SignVote(v) =>
      v.Some? && v.value.height >= 0 && resp == SignedVote(None, Some(DoubleSignError(v.value.height)))
    case SignProposal(p) =>
      p.Some? && p.value.height >= 0 && resp == SignedProposal(None, Some(DoubleSignError(p.value.height)))
  }

  /** Of the record's round and not behind it, but for another block: at the same step, or with two blocks named. */
  predicate DoubleSigns(mem: C.State, state: C.State) {
    && C.SameRound(mem, state) && mem.step <= state.step && mem.blockId != state.blockId
    && (mem.step == state.step || (mem.blockId.Some? && state.blockId.Some?))
  }

  /** The record takes the request, and the disk and the key work. */
  predicate GetsSignature(config: Config, omitEmpty: bool, mem: C.State, r: Request, syncOk: bool,
                          signer: Option<KeyRing.Signer>)
  {
    && InOrder(config, r) && C.Admissible(mem, ParseRequest(r).value.state)
    && syncOk && SignatureBy(signer, omitEmpty, config, r).Some?
  }

  predicate GetsRefusal(config: Config, mem: C.State, r: Request) {
    InOrder(config, r) && DoubleSigns(mem, ParseRequest(r).value.state)
  }

  /** A `sign` call succeeds exactly with a signature or with the report of a double sign. */
  predicate RightResponse(config: Config, omitEmpty: bool, mem: C.State, r: Request, syncOk: bool,
                          signer: Option<KeyRing.Signer>, a: Result<Response, SignError>)
  {
    && (GetsSignature(config, omitEmpty, mem, r, syncOk, signer) <==> a.Ok? && Carries(a.value))
    && (GetsSignature(config, omitEmpty, mem, r, syncOk, signer) ==>
          CarriesSigned(a.value, r, SignatureBy(signer, omitEmpty, config, r).value))
    && (GetsRefusal(config, mem, r) <==> a.Ok? && !Carries(a.value))
    && (GetsRefusal(config, mem, r) ==> CarriesRefusal(a.value, r))
  }

  /** The error it fails with otherwise. */
  predicate RightError(config: Config, omitEmpty: bool, mem: C.State, r: Request, syncOk: bool,
                       signer: Option<KeyRing.Signer>, e: SignError)
  {
    if Validate(r).Some? then e == Invalid(Validate(r).value)
    else if !WithinStopHeight(config, r) then e == ExceedMaxHeight
    else
      && InOrder(config, r)
      && var state := ParseRequest(r).value.state;
         match e {
           case StateFailure(HeightRegression) => state.height < mem.height
           case StateFailure(RoundRegression) => state.height == mem.height && state.round < mem.round
           case StateFailure(StepRegression) => C.SameRound(mem, state) && state.step < mem.step
           case StateFailure(SyncError) => C.Admissible(mem, state) && !syncOk
           case KeyFailure => C.Admissible(mem, state) && syncOk && SignatureBy(signer, omitEmpty, config, r).None?
           case _ => false
         }
  }

  lemma AnswerIsExact(config: Config, omitEmpty: bool, mem: C.State, r: Request, syncOk: bool,
                      signer: Option<KeyRing.Signer>)
    ensures RightResponse(config, omitEmpty, mem, r, syncOk, signer, Answer(config, omitEmpty, mem, r, syncOk, signer))
  {
  }

  lemma ErrorIsExact(config: Config, omitEmpty: bool, mem: C.State, r: Request, syncOk: bool,
                     signer: Option<KeyRing.Signer>)
    ensures var a := Answer(config, omitEmpty, mem, r, syncOk, signer);
            a.Err? ==> RightError(config, omitEmpty, mem, r, syncOk, signer, a.error)
  {
  }

  class Session {
    const config: Config
    const state: ChainState.SigningState
    const keyring: KeyRing.KeyRing

    constructor (config: Config, state: ChainState.SigningState, keyring: KeyRing.KeyRing)
      ensures this.config == config && this.state == state && this.keyring == keyring
    {
      this.config := config;
      this.state := state;
      this.keyring := keyring;
    }

    /** The signer of the only key in the keyring. */
    ghost function Signer(): Option<KeyRing.Signer>
      reads keyring
    {
      match KeyRing.OnlyKey(keyring.ed25519Keys)
      case Some(k) => Some(keyring.ed25519Keys[k])
      case None => None
    }

    /** `check_max_height`. */
    method CheckMaxHeight(request: Request) returns (ok: bool)
      ensures ok <==> WithinStopHeight(config, request)
      ensures ok <==>
              || config.maxHeight.None? || !Present(request)
              || Height(request).value <= config.maxHeight.value
    {
      ok := true;
      if config.maxHeight.Some? {
        var height := Height(request);
        if height.Some? && height.value > config.maxHeight.value {
          ok := false;
        }
      }
    }

    /** `update_consensus_state`: a double sign is an answer for the validator, any other refusal an error. */
    method UpdateConsensusState(request: Request, syncOk: bool) returns (r: Result<Option<RemoteError>, SignError>)
      requires state.Valid()
      modifies state`consensusState, state.file
      ensures state.Valid()
      ensures ParseRequest(request).None? ==> r == Err(ProtocolError) && state.Record() == old(state.Record())
      ensures ParseRequest(request).Some? ==>
                var next := ParseRequest(request).value.state;
                && state.Record() == R.Update(old(state.Record()), next, syncOk)
                && r == match R.UpdateError(old(state.consensusState), next, syncOk) {
                          case None => Ok(None)
                          case Some(DoubleSign) => Ok(Some(DoubleSignError(next.height)))
                          case Some(e) => Err(StateFailure(e))
                        }
    {
      var parsed := ParseRequest(request);
      if parsed.None? {
        return Err(ProtocolError);
      }
      var update := state.UpdateConsensusState(parsed.value.state, syncOk);
      if update.Ok? {
        return Ok(None);
      }
      if update.error == C.DoubleSign {
        return Ok(Some(DoubleSignError(parsed.value.state.height)));
      }
      return Err(StateFailure(update.error));
    }

    /** `sign`: the steps in the order the code takes them. */
    method Sign(request: Request, omitEmpty: bool, syncOk: bool) returns (r: Result<Response, SignError>)
      requires state.Valid() && keyring.Valid()
      modifies state`consensusState, state.file
      ensures state.Valid()
      ensures state.Record() == RecordAfter(config, old(state.Record()), request, syncOk)
      ensures r == Answer(config, omitEmpty, old(state.consensusState), request, syncOk, Signer())
    {
      var invalid := Validate(request);
      if invalid.Some? {
        return Err(Invalid(invalid.value));
      }
      var ok := CheckMaxHeight(request);
      if !ok {
        return Err(ExceedMaxHeight);
      }
      ValidationSuffices(request);
      var update := UpdateConsensusState(request, syncOk);
      if update.Err? {
        return Err(update.error);
      }
      if update.value.Some? {
        return Ok(BuildResponse(request, update.value));
      }
      var toSign := B.SignBytesOf(omitEmpty, request, config.chainId, config.protocol.IsProtobuf());
      var signature := keyring.SignEd25519(None, toSign);
      if signature.Err? {
        return Err(KeyFailure);
      }
      // The log line after signing parses the request once more and unwraps the result.
      assert ParseRequest(request).Some?;
      r := Ok(BuildResponse(WithSignature(request, signature.value), None));
    }

    /**
     * `handle_request` for the older protocols, between decoding the request and encoding the
     * response: the validator gets its message signed, or the report of a double sign, or the session
     * ends with the error that applies.
     */
    method HandleAmino(request: Request, omitEmpty: bool, syncOk: bool) returns (r: Result<Response, SignError>)
      requires state.Valid() && keyring.Valid() && !config.protocol.IsProtobuf()
      modifies state`consensusState, state.file
      ensures state.Valid()
      ensures state.Record() == RecordAfter(config, old(state.Record()), request, syncOk)
      ensures RightResponse(config, omitEmpty, old(state.consensusState), request, syncOk, Signer(), r)
      ensures r.Err? ==> RightError(config, omitEmpty, old(state.consensusState), request, syncOk, Signer(), r.error)
    {
      AnswerIsExact(config, omitEmpty, state.consensusState, request, syncOk, Signer());
      ErrorIsExact(config, omitEmpty, state.consensusState, request, syncOk, Signer());
      r := Sign(request, omitEmpty, syncOk);
    }

    /**
     * `handle_request` for the Protobuf protocol: the validator gets back its own message, signed
     * over its canonical bytes by the advertised key, exactly if the record takes it and disk and key
     * work; an empty response exactly for a double sign; and otherwise the session ends.
     */
    method HandleRequest(q: ProtoRequest, syncOk: bool) returns (r: Result<ProtoResponse, SignError>)
      requires state.Valid() && keyring.Valid() && config.protocol.IsProtobuf()
      modifies state`consensusState, state.file
      ensures state.Valid()
      ensures state.Record() == RecordAfter(config, old(state.Record()), Read(q), syncOk)
      ensures r.Ok? <==>
              || GetsSignature(config, false, old(state.consensusState), Read(q), syncOk, Signer())
              || GetsRefusal(config, old(state.consensusState), Read(q))
      ensures GetsSignature(config, false, old(state.consensusState), Read(q), syncOk, Signer()) ==>
                r == Ok(Expected(q, SignatureBy(Signer(), false, config, Read(q)).value))
      ensures GetsRefusal(config, old(state.consensusState), Read(q)) ==>
                r == Ok(if q.ProtoSignVote? then ProtoSignedVote(None, None) else ProtoSignedProposal(None, None))
      ensures r.Err? ==> RightError(config, false, old(state.consensusState), Read(q), syncOk, Signer(), r.error)
    {
      var request := Read(q);
      AnswerIsExact(config, false, state.consensusState, request, syncOk, Signer());
      ErrorIsExact(config, false, state.consensusState, request, syncOk, Signer());
      if GetsSignature(config, false, state.consensusState, request, syncOk, Signer()) {
        SignedRoundTrip(q, SignatureBy(Signer(), false, config, request).value);
      }
      var response := Sign(request, false, syncOk);
      r := match response {
        case Ok(resp) => Ok(Write(resp))
        case Err(e) => Err(e)
      };
    }
  }
}
