/** What the transition system guarantees in every reachable state, and exactly when. */
module Safety {
  import opened Base
  import opened Messages
  import opened Kms
  import opened Serving
  import C = Consensus
  import R = Record
  import S = Session

  predicate OnChain(k: Kms, i: int, c: ChainId) {
    0 <= i < |k.signed| && k.signed[i].config.chainId == c
  }

  // ---------------------------------------------------------------- double signing

  /** No two signatures of a chain sit at one height, round and step with different block IDs. */
  lemma NoDoubleSign(k: Kms, c: ChainId, i: nat, j: nat)
    requires Reachable(k) && OnChain(k, i, c) && OnChain(k, j, c)
    requires C.SamePosition(k.signed[i].parsed.state, k.signed[j].parsed.state)
    ensures k.signed[i].parsed.state.blockId == k.signed[j].parsed.state.blockId
  {
    ReachableInv(k);
    assert SignatureOk(k, k.signed[i]) && SignatureOk(k, k.signed[j]);
    R.NoDoubleGrant(k.chains[c], k.signed[i].ticket, k.signed[j].ticket);
  }

  /** Every signature was durable before it was made: the disk is at or past it, memory at or past the disk. */
  lemma PersistedBeforeSigned(k: Kms, c: ChainId, i: nat)
    requires Reachable(k) && OnChain(k, i, c)
    ensures c in k.chains && k.chains[c].disk.Some?
    ensures C.Covers(k.signed[i].parsed.state, k.chains[c].disk.value)
    ensures k.chains[c].mem.Some? ==> C.Covers(k.chains[c].disk.value, k.chains[c].mem.value)
  {
    ReachableInv(k);
    assert SignatureOk(k, k.signed[i]);
    R.GrantsArePersisted(k.chains[c], k.signed[i].ticket);
  }

  /** A proposal and a prevote, or a prevote and a precommit, of one round never name two blocks. */
  lemma AdjacentMessagesAgree(k: Kms, c: ChainId, i: nat, j: nat)
    requires Reachable(k) && OnChain(k, i, c) && OnChain(k, j, c)
    requires C.SameRound(k.signed[i].parsed.state, k.signed[j].parsed.state)
    requires (k.signed[i].parsed.msgType == Propose && k.signed[j].parsed.msgType == PreVote)
             || (k.signed[i].parsed.msgType == PreVote && k.signed[j].parsed.msgType == PreCommit)
    ensures !C.Conflicting(k.signed[i].parsed.state, k.signed[j].parsed.state)
  {
    ReachableInv(k);
    assert SignatureOk(k, k.signed[i]) && SignatureOk(k, k.signed[j]);
    R.AdjacentStepsAgree(k.chains[c], k.signed[i].ticket, k.signed[j].ticket);
  }

  /**
   * If a proposal and a precommit of one round name two blocks, the record accepted a nil prevote
   * of that round after granting the one and before granting the other.
   */
  lemma ProposalPrecommitConflict(k: Kms, c: ChainId, i: nat, j: nat) returns (m: nat)
    requires Reachable(k) && OnChain(k, i, c) && OnChain(k, j, c)
    requires C.SameRound(k.signed[i].parsed.state, k.signed[j].parsed.state)
    requires k.signed[i].parsed.msgType == Propose && k.signed[j].parsed.msgType == PreCommit
    requires C.Conflicting(k.signed[i].parsed.state, k.signed[j].parsed.state)
    ensures k.signed[i].ticket < m < k.signed[j].ticket
    ensures c in k.chains && m < |k.chains[c].log|
    ensures k.chains[c].log[m].state == k.signed[i].parsed.state.(step := PreVote.Step(), blockId := None)
  {
    ReachableInv(k);
    assert SignatureOk(k, k.signed[i]) && SignatureOk(k, k.signed[j]);
    m := R.ConflictCrossesNilPrevote(k.chains[c], k.signed[i].ticket, k.signed[j].ticket);
  }

  /** Nothing above a session's stop height is signed through that session. */
  lemma StopHeightRespected(k: Kms, i: nat)
    requires Reachable(k) && i < |k.signed| && k.signed[i].config.maxHeight.Some?
    ensures Present(k.signed[i].req)
    ensures Height(k.signed[i].req).value <= k.signed[i].config.maxHeight.value
  {
    ReachableInv(k);
    assert SignatureOk(k, k.signed[i]);
  }

  /** Each signature used up a grant of its own, given for exactly its state. */
  lemma OneSignaturePerGrant(k: Kms, i: nat, j: nat)
    requires Reachable(k) && i < |k.signed| && j < |k.signed| && i != j
    ensures GrantAt(k, k.signed[i].config.chainId, k.signed[i].ticket, k.signed[i].parsed.state)
    ensures k.signed[i].config.chainId == k.signed[j].config.chainId ==> k.signed[i].ticket != k.signed[j].ticket
  {
    ReachableInv(k);
    assert SignatureOk(k, k.signed[i]);
    assert !SameGrant(k.signed[i], k.signed[j]);
  }

  // ---------------------------------------------------------------- from states to messages

  predicate SameVote(g: Signature, h: Signature)
    requires Present(g.req) && Present(h.req)
  {
    && g.config.chainId == h.config.chainId
    && g.parsed.msgType == h.parsed.msgType
    && Height(g.req) == Height(h.req)
    && FullRound(g.req) == FullRound(h.req)
  }

  predicate IsProtobuf(g: Signature) {
    g.config.protocol.IsProtobuf()
  }

  /**
   * Messages of one type, height and full round that a chain signs are the same message, up to
   * timestamp and POL round, although the record holds only part of them. The sessions that signed
   * them may use different encodings.
   */
  lemma SignedMessagesAgree(k: Kms, i: nat, j: nat)
    requires Reachable(k) && i < |k.signed| && j < |k.signed|
    requires Present(k.signed[i].req) && Present(k.signed[j].req)
    requires SameVote(k.signed[i], k.signed[j])
    requires RepresentableRequest(IsProtobuf(k.signed[i]), k.signed[i].req)
    requires RepresentableRequest(IsProtobuf(k.signed[j]), k.signed[j].req)
    ensures SameExceptTime(k.signed[i].message, k.signed[j].message)
  {
    ReachableInv(k);
    var g, h := k.signed[i], k.signed[j];
    assert SignatureOk(k, g) && SignatureOk(k, h);
    ValidationSuffices(g.req);
    ValidationSuffices(h.req);
    NoDoubleSign(k, g.config.chainId, i, j);
    StateDeterminesCanonical(g.req, h.req, g.config.chainId, IsProtobuf(g), IsProtobuf(h));
  }

  // ---------------------------------------------------------------- in which order messages can be signed

  /** On this chain `a` was granted before `b`, and both were signed. */
  ghost predicate SignedBefore(k: Kms, c: ChainId, a: Request, b: Request) {
    exists i, j :: OnChain(k, i, c) && OnChain(k, j, c) && Precedes(k.signed[i], a, k.signed[j], b)
  }

  predicate Precedes(g: Signature, a: Request, h: Signature, b: Request) {
    g.req == a && h.req == b && g.ticket < h.ticket
  }

  /** Reachable, and for a height above zero even on chains that had no state file to begin with. */
  ghost predicate ReachableAt(k: Kms, height: nat) {
    Reachable(k) && (height > 0 ==> ReachableFromNothing(k))
  }

  /** A record that accepts `s` and, for a height above zero, is that of a new chain. */
  function StartFor(s: C.State): (start: C.State)
    ensures C.Check(start, s).None?
  {
    if s.height > 0 then C.INITIAL else s
  }

  /** The record takes the second after the first, and both are signed. */
  lemma SignedPair(config: S.Config, a: Request, b: Request) returns (k: Kms)
    requires S.Vet(config, a).Ok? && S.Vet(config, b).Ok?
    requires C.Check(S.Vet(config, a).value.state, S.Vet(config, b).value.state).None?
    ensures ReachableAt(k, Height(a).value) && |k.signed| == 2
    ensures SignedFor(k.signed[0], config, a, 0) && SignedFor(k.signed[1], config, b, 1)
  {
    var requests := [a, b];
    var (s, t) := (S.Vet(config, a).value.state, S.Vet(config, b).value.state);
    assert StatesOf(requests) == [s, t];
    ReplayTwo(StartFor(s), s, t);
    AcceptedRunReachable(config, StartFor(s), requests);
    k := Run(OneSession(config, StartFor(s)), ServeAll(0, requests));
    assert SignedFor(k.signed[0 + 0], config, requests[0], 0 + 0);
    assert SignedFor(k.signed[0 + 1], config, requests[1], 0 + 1);
  }

  lemma ReplayTwo(mem: C.State, s: C.State, t: C.State)
    requires C.Check(mem, s).None? && C.Check(s, t).None?
    ensures C.Replay(mem, [s, t]).Some?
  {
    assert [s, t][1..] == [t] && [t][1..] == [];
    assert C.Replay(s, [t]).Some?;
  }

  /** A valid nil prevote for the height and round of a request. */
  function NilPrevote(r: Request): Request
    requires Present(r)
  {
    var address := seq(VALIDATOR_ADDR_SIZE, _ => 0);
    SignVote(Some(Vote(PreVote.ToU32(), Height(r).value, FullRound(r), None, None, address, 0, [])))
  }

  lemma NilPrevoteVetted(config: S.Config, r: Request)
    requires S.Vet(config, r).Ok?
    ensures S.Vet(config, NilPrevote(r)).Ok?
    ensures S.Vet(config, NilPrevote(r)).value.state ==
            S.Vet(config, r).value.state.(step := PreVote.Step(), blockId := None)
  {
    ValidationSuffices(r);
    ValidationSuffices(NilPrevote(r));
  }

  /**
   * A proposal and a precommit of one round, whatever two blocks they name, are both signed when a nil
   * prevote comes between them.
   */
  lemma SignedAcrossNil(config: S.Config, a: Request, b: Request) returns (k: Kms)
    requires S.Vet(config, a).Ok? && S.Vet(config, b).Ok?
    requires C.SameRound(S.Vet(config, a).value.state, S.Vet(config, b).value.state)
    requires S.Vet(config, a).value.msgType == Propose && S.Vet(config, b).value.msgType == PreCommit
    ensures ReachableAt(k, Height(a).value) && |k.signed| == 3
    ensures SignedFor(k.signed[0], config, a, 0) && SignedFor(k.signed[2], config, b, 2)
  {
    var nil := NilPrevote(a);
    var requests := [a, nil, b];
    NilPrevoteVetted(config, a);
    var (s, m, t) := (S.Vet(config, a).value.state, S.Vet(config, nil).value.state, S.Vet(config, b).value.state);
    assert StatesOf(requests) == [s, m, t];
    assert C.Replay(StartFor(s), [s, m, t]).Some? by {
      assert [s, m, t][1..] == [m, t];
      ReplayTwo(s, m, t);
    }
    AcceptedRunReachable(config, StartFor(s), requests);
    k := Run(OneSession(config, StartFor(s)), ServeAll(0, requests));
    assert SignedFor(k.signed[0 + 0], config, requests[0], 0 + 0);
    assert SignedFor(k.signed[0 + 2], config, requests[2], 0 + 2);
  }

  /** Two requests whose states cover each other in this order can be signed in it. */
  lemma SignedIfCovered(config: S.Config, a: Request, b: Request) returns (k: Kms)
    requires S.Vet(config, a).Ok? && S.Vet(config, b).Ok?
    requires C.Covers(S.Vet(config, a).value.state, S.Vet(config, b).value.state)
    ensures ReachableAt(k, Height(a).value) && SignedBefore(k, config.chainId, a, b)
  {
    var c := config.chainId;
    if C.Admissible(S.Vet(config, a).value.state, S.Vet(config, b).value.state) {
      k := SignedPair(config, a, b);
      assert Precedes(k.signed[0], a, k.signed[1], b);
      assert OnChain(k, 0, c) && OnChain(k, 1, c);
    } else {
      StepIdentifiesType(S.Vet(config, a).value.msgType, Propose);
      StepIdentifiesType(S.Vet(config, b).value.msgType, PreCommit);
      k := SignedAcrossNil(config, a, b);
      assert Precedes(k.signed[0], a, k.signed[2], b);
      assert OnChain(k, 0, c) && OnChain(k, 2, c);
    }
  }

  lemma CoveredIfSigned(k: Kms, config: S.Config, a: Request, b: Request)
    requires S.Vet(config, a).Ok? && S.Vet(config, b).Ok?
    requires Reachable(k) && SignedBefore(k, config.chainId, a, b)
    ensures C.Covers(S.Vet(config, a).value.state, S.Vet(config, b).value.state)
  {
    var c := config.chainId;
    ReachableInv(k);
    var i, j :| OnChain(k, i, c) && OnChain(k, j, c) && Precedes(k.signed[i], a, k.signed[j], b);
    assert SignatureOk(k, k.signed[i]) && SignatureOk(k, k.signed[j]);
    R.GrantsInOrder(k.chains[c], k.signed[i].ticket, k.signed[j].ticket);
  }

  /**
   * Exactly which pairs can be signed in which order, over all runs of a session's chain: `a` before
   * `b` if and only if the recorded state of `b` covers that of `a`. From height 1 on, the same over
   * the runs of a chain that starts without a state file.
   */
  lemma SigningOrderIsExact(config: S.Config, a: Request, b: Request)
    requires S.Vet(config, a).Ok? && S.Vet(config, b).Ok?
    ensures C.Covers(S.Vet(config, a).value.state, S.Vet(config, b).value.state) <==>
            exists k: Kms :: Reachable(k) && SignedBefore(k, config.chainId, a, b)
    ensures C.Covers(S.Vet(config, a).value.state, S.Vet(config, b).value.state) <==>
            exists k: Kms :: ReachableAt(k, Height(a).value) && SignedBefore(k, config.chainId, a, b)
  {
    if C.Covers(S.Vet(config, a).value.state, S.Vet(config, b).value.state) {
      var k := SignedIfCovered(config, a, b);
      assert Reachable(k) && SignedBefore(k, config.chainId, a, b);
    }
    forall k: Kms | Reachable(k) && SignedBefore(k, config.chainId, a, b)
      ensures C.Covers(S.Vet(config, a).value.state, S.Vet(config, b).value.state)
    {
      CoveredIfSigned(k, config, a, b);
    }
  }

  /**
   * Full rounds can go back: of two requests of one height, that of the higher round can be signed
   * first and that of the lower round later exactly when the lower lies in an earlier block of 65536
   * rounds and, by its low 16 bits, is still not behind. From height 1 on this needs no state file.
   */
  lemma RoundRegressionIsExact(config: S.Config, a: Request, b: Request)
    requires S.Vet(config, a).Ok? && S.Vet(config, b).Ok?
    requires Height(a) == Height(b) && FullRound(b) < FullRound(a)
    ensures RoundBlock(b) < RoundBlock(a) && C.Covers(S.Vet(config, a).value.state, S.Vet(config, b).value.state) <==>
            exists k: Kms :: Reachable(k) && SignedBefore(k, config.chainId, a, b)
    ensures LowRound(a) < LowRound(b) ==>
              exists k: Kms :: ReachableAt(k, Height(a).value) && SignedBefore(k, config.chainId, a, b)
  {
    ValidationSuffices(a);
    ValidationSuffices(b);
    SigningOrderIsExact(config, a, b);
  }

  /**
   * But within one block of 65536 they never do: taken in the order of their grants, the signed rounds
   * of a height do not go back as long as they lie in one block, and their low 16 bits not at all.
   */
  lemma SignedRoundsInOrder(k: Kms, c: ChainId, i: nat, j: nat)
    requires Reachable(k) && OnChain(k, i, c) && OnChain(k, j, c) && k.signed[i].ticket <= k.signed[j].ticket
    ensures Present(k.signed[i].req) && Present(k.signed[j].req)
    ensures Height(k.signed[i].req).value <= Height(k.signed[j].req).value
    ensures Height(k.signed[i].req) == Height(k.signed[j].req) ==>
              && LowRound(k.signed[i].req) <= LowRound(k.signed[j].req)
              && (RoundBlock(k.signed[i].req) == RoundBlock(k.signed[j].req) ==>
                    FullRound(k.signed[i].req) <= FullRound(k.signed[j].req))
  {
    ReachableInv(k);
    assert SignatureOk(k, k.signed[i]) && SignatureOk(k, k.signed[j]);
    ValidationSuffices(k.signed[i].req);
    ValidationSuffices(k.signed[j].req);
    R.GrantsInOrder(k.chains[c], k.signed[i].ticket, k.signed[j].ticket);
  }

  /**
   * Seen before the call: after a proposal was signed, a precommit of its round for another block
   * passes the check exactly when the record is at that round's nil prevote or already at this
   * precommit.
   */
  lemma ConflictingPrecommitSigned(k: Kms, c: ChainId, i: nat, next: C.State)
    requires Reachable(k) && OnChain(k, i, c) && Up(k, c)
    requires k.signed[i].parsed.msgType == Propose && next.step == PreCommit.Step()
    requires C.SameRound(k.signed[i].parsed.state, next) && C.Conflicting(k.signed[i].parsed.state, next)
    ensures C.Check(k.chains[c].mem.value, next).None? <==>
            k.chains[c].mem.value == next || k.chains[c].mem.value == next.(step := PreVote.Step(), blockId := None)
  {
    ReachableInv(k);
    assert SignatureOk(k, k.signed[i]);
    R.ConflictingPrecommitAccepted(k.chains[c], k.signed[i].ticket, next);
  }

  // ---------------------------------------------------------------- the exact condition on messages

  /** Two signatures of the chain for one type, height and full round whose messages differ in substance. */
  ghost predicate Clash(k: Kms, c: ChainId) {
    exists i, j :: OnChain(k, i, c) && OnChain(k, j, c) && Clashing(k.signed[i], k.signed[j])
  }

  predicate Clashing(g: Signature, h: Signature) {
    Present(g.req) && Present(h.req) && SameVote(g, h) && !SameExceptTime(g.message, h.message)
  }

  /**
   * On this chain only requests that are representable in the encoding of their own session were
   * signed, and `r` itself in the given encoding.
   */
  ghost predicate OnlySigned(k: Kms, c: ChainId, protobuf: bool, r: Request) {
    forall i :: OnChain(k, i, c) ==>
      && Present(k.signed[i].req)
      && (|| RepresentableRequest(IsProtobuf(k.signed[i]), k.signed[i].req)
          || (k.signed[i].req == r && IsProtobuf(k.signed[i]) == protobuf))
  }

  /** A request that is not representable can be signed together with one that is, and clash with it. */
  lemma UnrepresentableClashes(c: ChainId, protobuf: bool, r: Request) returns (k: Kms)
    requires Validate(r).None? && !RepresentableRequest(protobuf, r)
    ensures ReachableAt(k, Height(r).value) && OnlySigned(k, c, protobuf, r) && Clash(k, c)
  {
    var config := S.Config(c, None, if protobuf then V0_34 else Legacy);
    ValidationSuffices(r);
    CompanionInSlot(r, protobuf);
    var f := Companion(r);
    k := SignedPair(config, r, f);
    ClashingPair(r, f, c, protobuf);
    assert OnChain(k, 0, c) && OnChain(k, 1, c) && Clashing(k.signed[0], k.signed[1]);
  }

  lemma ClashingPair(r: Request, f: Request, c: ChainId, protobuf: bool)
    requires Validate(r).None? && Validate(f).None? && SameSlot(f, r)
    requires CanonicalBlock(protobuf, BlockIdOf(f)) != CanonicalBlock(protobuf, BlockIdOf(r))
    ensures Height(r) == Height(f) && FullRound(r) == FullRound(f) && MsgType(r) == MsgType(f)
    ensures !SameExceptTime(CanonicalOf(r, c, protobuf), CanonicalOf(f, c, protobuf))
  {
  }

  lemma RepresentableNeverClashes(k: Kms, c: ChainId, protobuf: bool, r: Request)
    requires Present(r) && RepresentableRequest(protobuf, r)
    requires Reachable(k) && OnlySigned(k, c, protobuf, r)
    ensures !Clash(k, c)
  {
    if Clash(k, c) {
      var i, j :| OnChain(k, i, c) && OnChain(k, j, c) && Clashing(k.signed[i], k.signed[j]);
      SignedMessagesAgree(k, i, j);
      assert false;
    }
  }

  /**
   * Exactly when one more request is safe: a validated request can be signed alongside any
   * representable requests, in any run and any mix of encodings, without two messages ever clashing,
   * if and only if its own block ID is representable. From height 1 on, chains that start without a
   * state file are no safer.
   */
  lemma MessageSafetyIsExact(c: ChainId, protobuf: bool, r: Request)
    requires Validate(r).None?
    ensures Present(r)
    ensures RepresentableRequest(protobuf, r) <==>
            forall k: Kms :: Reachable(k) && OnlySigned(k, c, protobuf, r) ==> !Clash(k, c)
    ensures RepresentableRequest(protobuf, r) <==>
            forall k: Kms :: ReachableAt(k, Height(r).value) && OnlySigned(k, c, protobuf, r) ==> !Clash(k, c)
  {
    if RepresentableRequest(protobuf, r) {
      forall k: Kms | Reachable(k) && OnlySigned(k, c, protobuf, r) ensures !Clash(k, c) {
        RepresentableNeverClashes(k, c, protobuf, r);
      }
    } else {
      var k := UnrepresentableClashes(c, protobuf, r);
      assert Reachable(k) && OnlySigned(k, c, protobuf, r) && Clash(k, c);
    }
  }
}
