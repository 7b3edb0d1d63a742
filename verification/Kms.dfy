/**
 * The whole KMS as a transition system: any number of chains, any number of concurrent sessions
 * per chain, failing disk writes, failing signers and connections, dying and respawning sessions,
 * process crashes, restarts and state hooks (src/session.rs, src/client.rs, src/chain.rs).
 *
 * A session validates, then updates the chain's record under its lock, and signs only after the
 * lock has been released; between any two of its steps the other sessions may take theirs.
 */
module Kms {
  import opened Base
  import opened Messages
  import C = Consensus
  import R = Record
  import S = Session

  /** Where a session is in handling a request. `ticket` is the index of its grant in the chain's log. */
  datatype Phase =
    | Idle
    | Received(req: Request)
    | Vetted(req: Request, parsed: Parsed)
    | Granted(req: Request, parsed: Parsed, ticket: nat)
    | Answering

  datatype SessionState = SessionState(config: S.Config, phase: Phase)

  /** A signature that a session produced, whether or not anyone ever received it. */
  datatype Signature = Signature(
    session: nat, config: S.Config, req: Request, parsed: Parsed, ticket: nat, message: Canonical)

  datatype Kms = Kms(chains: map<ChainId, R.Record>, sessions: map<nat, SessionState>, signed: seq<Signature>)

  datatype Step =
    | Boot(chain: ChainId, hook: R.Hook, syncOk: bool)
    | Open(sid: nat, config: S.Config)
    | Receive(sid: nat, req: Request)
    | Vet(sid: nat)
    | Update(sid: nat, syncOk: bool)
    | Sign(sid: nat, signature: Option<bytes>)
    | Respond(sid: nat, ok: bool)
    | Die(sid: nat)
    | Crash

  // ---------------------------------------------------------------- transitions

  predicate Up(k: Kms, c: ChainId) {
    c in k.chains && k.chains[c].mem.Some?
  }

  function SetPhase(k: Kms, sid: nat, phase: Phase): Kms
    requires sid in k.sessions
  {
    k.(sessions := k.sessions[sid := k.sessions[sid].(phase := phase)])
  }

  function Drop(k: Kms, sid: nat): Kms {
    k.(sessions := k.sessions - {sid})
  }

  /** The critical section: check, write and read the verdict in one atomic step. */
  function UpdateStep(k: Kms, sid: nat, syncOk: bool): Kms
    requires sid in k.sessions && k.sessions[sid].phase.Vetted? && Up(k, k.sessions[sid].config.chainId)
  {
    var s := k.sessions[sid];
    var c := s.config.chainId;
    var next := s.phase.parsed.state;
    var k' := k.(chains := k.chains[c := R.Update(k.chains[c], next, syncOk)]);
    match R.UpdateError(k.chains[c].mem.value, next, syncOk)
    case None => SetPhase(k', sid, Granted(s.phase.req, s.phase.parsed, |k.chains[c].log|))
    case Some(DoubleSign) => SetPhase(k', sid, Answering)
    case Some(_) => Drop(k', sid)
  }

  function SignStep(k: Kms, sid: nat, signature: Option<bytes>): Kms
    requires sid in k.sessions && k.sessions[sid].phase.Granted? && Present(k.sessions[sid].phase.req)
  {
    var s := k.sessions[sid];
    if signature.None? then Drop(k, sid)
    else
      var message := CanonicalOf(s.phase.req, s.config.chainId, s.config.protocol.IsProtobuf());
      var g := Signature(sid, s.config, s.phase.req, s.phase.parsed, s.phase.ticket, message);
      SetPhase(k.(signed := k.signed + [g]), sid, Answering)
  }

  predicate Enabled(k: Kms, step: Step) {
    match step
    case Boot(c, _, _) => c in k.chains && k.chains[c].mem.None?
    case Open(sid, config) => sid !in k.sessions && Up(k, config.chainId)
    case Receive(sid, _) => sid in k.sessions && k.sessions[sid].phase.Idle?
    case Vet(sid) => sid in k.sessions && k.sessions[sid].phase.Received?
    case Update(sid, _) => sid in k.sessions && k.sessions[sid].phase.Vetted? && Up(k, k.sessions[sid].config.chainId)
    case Sign(sid, _) => sid in k.sessions && k.sessions[sid].phase.Granted? && Present(k.sessions[sid].phase.req)
    case Respond(sid, _) => sid in k.sessions && k.sessions[sid].phase.Answering?
    case Die(_) => true
    case Crash => true
  }

  /** One step; a step that is not enabled does nothing. */
  function Apply(k: Kms, step: Step): Kms {
    if !Enabled(k, step) then k
    else
      match step
      case Boot(c, hook, syncOk) => k.(chains := k.chains[c := R.Boot(k.chains[c], hook, syncOk)])
      case Open(sid, config) => k.(sessions := k.sessions[sid := SessionState(config, Idle)])
      case Receive(sid, req) => SetPhase(k, sid, Received(req))
      case Vet(sid) =>
        var s := k.sessions[sid];
        (match S.Vet(s.config, s.phase.req)
         case Ok(p) => SetPhase(k, sid, Vetted(s.phase.req, p))
         case Err(_) => Drop(k, sid))
      case Update(sid, syncOk) => UpdateStep(k, sid, syncOk)
      case Sign(sid, signature) => SignStep(k, sid, signature)
      case Respond(sid, ok) => if ok then SetPhase(k, sid, Idle) else Drop(k, sid)
      case Die(sid) => Drop(k, sid)
      case Crash => Kms(map c | c in k.chains :: R.Crash(k.chains[c]), map[], k.signed)
  }

  function Run(k: Kms, steps: seq<Step>): Kms
    decreases |steps|
  {
    if steps == [] then k else Run(Apply(k, steps[0]), steps[1..])
  }

  /** Before the first process run: state files in any condition, nothing signed yet. */
  ghost predicate Init(k: Kms) {
    && k.sessions == map[]
    && k.signed == []
    && forall c :: c in k.chains ==> k.chains[c].mem.None? && k.chains[c].log == []
  }

  ghost predicate Reachable(k: Kms) {
    exists k0, steps :: Init(k0) && Run(k0, steps) == k
  }

  /** Reachable even if no chain had a state file to begin with. */
  ghost predicate ReachableFromNothing(k: Kms) {
    exists k0, steps :: Init(k0) && NoFiles(k0) && Run(k0, steps) == k
  }

  ghost predicate NoFiles(k: Kms) {
    forall c :: c in k.chains ==> k.chains[c].disk.None?
  }

  // ---------------------------------------------------------------- invariant

  predicate VettedFor(config: S.Config, req: Request, p: Parsed) {
    S.Vet(config, req) == Ok(p)
  }

  predicate GrantAt(k: Kms, c: ChainId, ticket: nat, state: C.State) {
    c in k.chains && R.Granted(k.chains[c].log, ticket) && k.chains[c].log[ticket].state == state
  }

  ghost predicate SessionOk(k: Kms, s: SessionState) {
    && Up(k, s.config.chainId)
    && match s.phase {
         case Vetted(req, p) => VettedFor(s.config, req, p)
         case Granted(req, p, ticket) =>
           VettedFor(s.config, req, p) && GrantAt(k, s.config.chainId, ticket, p.state)
         case _ => true
       }
  }

  ghost predicate SignatureOk(k: Kms, g: Signature) {
    && VettedFor(g.config, g.req, g.parsed)
    && GrantAt(k, g.config.chainId, g.ticket, g.parsed.state)
    && g.message == CanonicalOf(g.req, g.config.chainId, g.config.protocol.IsProtobuf())
  }

  /** Does the session hold this grant, not having used it yet? */
  predicate Holds(s: SessionState, c: ChainId, ticket: nat) {
    s.config.chainId == c && s.phase.Granted? && s.phase.ticket == ticket
  }

  /** No grant is held by two sessions, used twice, or held after it was used. */
  ghost predicate GrantsUsedOnce(k: Kms) {
    && (forall x, y, c, t | x in k.sessions && y in k.sessions ::
          Holds(k.sessions[x], c, t) && Holds(k.sessions[y], c, t) ==> x == y)
    && (forall x, i | x in k.sessions && 0 <= i < |k.signed| ::
          !Holds(k.sessions[x], k.signed[i].config.chainId, k.signed[i].ticket))
    && (forall i, j | 0 <= i < |k.signed| && 0 <= j < |k.signed| :: SameGrant(k.signed[i], k.signed[j]) ==> i == j)
  }

  predicate SameGrant(g: Signature, h: Signature) {
    g.config.chainId == h.config.chainId && g.ticket == h.ticket
  }

  ghost predicate Inv(k: Kms) {
    && (forall c :: c in k.chains ==> R.Inv(k.chains[c]))
    && (forall x :: x in k.sessions ==> SessionOk(k, k.sessions[x]))
    && (forall i :: 0 <= i < |k.signed| ==> SignatureOk(k, k.signed[i]))
    && GrantsUsedOnce(k)
  }

  lemma InitInv(k: Kms)
    requires Init(k)
    ensures Inv(k)
  {
  }

  // ---------------------------------------------------------------- preservation, step by step

  /** `k'` differs from `k` by one chain whose record stays up and only extends its history. */
  ghost predicate ChainMoved(k: Kms, k': Kms, c: ChainId) {
    && c in k.chains && k'.chains.Keys == k.chains.Keys
    && (forall d :: d in k.chains && d != c ==> k'.chains[d] == k.chains[d])
    && k.chains[c].log <= k'.chains[c].log
    && (k.chains[c].mem.Some? ==> k'.chains[c].mem.Some?)
  }

  lemma SessionOkMoves(k: Kms, k': Kms, c: ChainId, s: SessionState)
    requires ChainMoved(k, k', c) && SessionOk(k, s)
    ensures SessionOk(k', s)
  {
  }

  lemma SignatureOkMoves(k: Kms, k': Kms, c: ChainId, g: Signature)
    requires ChainMoved(k, k', c) && SignatureOk(k, g)
    ensures SignatureOk(k', g)
  {
  }

  lemma BootKeepsInv(k: Kms, c: ChainId, hook: R.Hook, syncOk: bool)
    requires Inv(k) && Enabled(k, Boot(c, hook, syncOk))
    ensures Inv(Apply(k, Boot(c, hook, syncOk)))
  {
  }

  /** A session moves to a phase that holds no grant, or disappears. */
  lemma PhaseKeepsInv(k: Kms, sid: nat, s: SessionState)
    requires Inv(k) && SessionOk(k, s) && !s.phase.Granted?
    ensures Inv(k.(sessions := k.sessions[sid := s]))
  {
  }

  lemma DropKeepsInv(k: Kms, sid: nat)
    requires Inv(k)
    ensures Inv(Drop(k, sid))
  {
  }

  lemma CrashKeepsInv(k: Kms)
    requires Inv(k)
    ensures Inv(Apply(k, Crash))
  {
  }

  /** The record moves on; every session and signature keeps what it had. */
  lemma RecordMoveKeepsInv(k: Kms, c: ChainId, next: C.State, syncOk: bool)
    requires Inv(k) && Up(k, c)
    ensures Inv(k.(chains := k.chains[c := R.Update(k.chains[c], next, syncOk)]))
  {
    var k' := k.(chains := k.chains[c := R.Update(k.chains[c], next, syncOk)]);
    R.UpdateInv(k.chains[c], next, syncOk);
    assert ChainMoved(k, k', c);
    forall x | x in k'.sessions ensures SessionOk(k', k'.sessions[x]) {
      SessionOkMoves(k, k', c, k.sessions[x]);
    }
    forall i | 0 <= i < |k'.signed| ensures SignatureOk(k', k'.signed[i]) {
      SignatureOkMoves(k, k', c, k.signed[i]);
    }
  }

  /** No ticket in circulation is as high as the length of the log it points into. */
  lemma TicketsAreOld(k: Kms, c: ChainId)
    requires Inv(k) && c in k.chains
    ensures forall x :: x in k.sessions ==> !Holds(k.sessions[x], c, |k.chains[c].log|)
    ensures forall i :: 0 <= i < |k.signed| ==>
              !(k.signed[i].config.chainId == c && k.signed[i].ticket == |k.chains[c].log|)
  {
  }

  /** Handing a fresh grant to the session that asked for it. */
  lemma GrantKeepsInv(k: Kms, sid: nat, s: SessionState)
    requires Inv(k) && SessionOk(k, s) && s.phase.Granted?
    requires forall x :: x in k.sessions ==> !Holds(k.sessions[x], s.config.chainId, s.phase.ticket)
    requires forall i :: 0 <= i < |k.signed| ==>
               !(k.signed[i].config.chainId == s.config.chainId && k.signed[i].ticket == s.phase.ticket)
    ensures Inv(k.(sessions := k.sessions[sid := s]))
  {
  }

  lemma UpdateKeepsInv(k: Kms, sid: nat, syncOk: bool)
    requires Inv(k) && Enabled(k, Update(sid, syncOk))
    ensures Inv(Apply(k, Update(sid, syncOk)))
  {
    var s := k.sessions[sid];
    var c := s.config.chainId;
    var next := s.phase.parsed.state;
    var k1 := k.(chains := k.chains[c := R.Update(k.chains[c], next, syncOk)]);
    assert SessionOk(k, s);
    RecordMoveKeepsInv(k, c, next, syncOk);
    match R.UpdateError(k.chains[c].mem.value, next, syncOk) {
      case None =>
        TicketsAreOld(k, c);
        var s' := s.(phase := Granted(s.phase.req, s.phase.parsed, |k.chains[c].log|));
        assert SessionOk(k1, s');
        GrantKeepsInv(k1, sid, s');
      case Some(DoubleSign) =>
        PhaseKeepsInv(k1, sid, s.(phase := Answering));
      case Some(_) =>
        DropKeepsInv(k1, sid);
    }
  }

  /** A signature takes over a grant that no session holds and no other signature has used. */
  lemma SignatureKeepsInv(k: Kms, g: Signature)
    requires Inv(k) && SignatureOk(k, g)
    requires forall x :: x in k.sessions ==> !Holds(k.sessions[x], g.config.chainId, g.ticket)
    requires forall i :: 0 <= i < |k.signed| ==> !SameGrant(k.signed[i], g)
    ensures Inv(k.(signed := k.signed + [g]))
  {
  }

  lemma SignKeepsInv(k: Kms, sid: nat, signature: Option<bytes>)
    requires Inv(k) && Enabled(k, Sign(sid, signature))
    ensures Inv(Apply(k, Sign(sid, signature)))
  {
    if signature.None? {
      DropKeepsInv(k, sid);
    } else {
      var s := k.sessions[sid];
      assert SessionOk(k, s);
      // The session lets go of its grant, then the signature takes it over.
      var k1 := SetPhase(k, sid, Answering);
      PhaseKeepsInv(k, sid, s.(phase := Answering));
      var message := CanonicalOf(s.phase.req, s.config.chainId, s.config.protocol.IsProtobuf());
      var g := Signature(sid, s.config, s.phase.req, s.phase.parsed, s.phase.ticket, message);
      assert Holds(s, g.config.chainId, g.ticket);
      assert forall x :: x in k1.sessions && x != sid ==> k1.sessions[x] == k.sessions[x];
      SignatureKeepsInv(k1, g);
      assert Apply(k, Sign(sid, signature)) == k1.(signed := k1.signed + [g]);
    }
  }

  /** Every step of every session, of the disk, of the hook and of a crash keeps the invariant. */
  lemma StepKeepsInv(k: Kms, step: Step)
    requires Inv(k)
    ensures Inv(Apply(k, step))
  {
    if Enabled(k, step) {
      match step {
        case Boot(c, hook, syncOk) => BootKeepsInv(k, c, hook, syncOk);
        case Open(sid, config) => PhaseKeepsInv(k, sid, SessionState(config, Idle));
        case Receive(sid, req) =>
          assert SessionOk(k, k.sessions[sid]);
          PhaseKeepsInv(k, sid, k.sessions[sid].(phase := Received(req)));
        case Vet(sid) =>
          var s := k.sessions[sid];
          assert SessionOk(k, s);
          match S.Vet(s.config, s.phase.req) {
            case Ok(p) => PhaseKeepsInv(k, sid, s.(phase := Vetted(s.phase.req, p)));
            case Err(_) => DropKeepsInv(k, sid);
          }
        case Update(sid, syncOk) => UpdateKeepsInv(k, sid, syncOk);
        case Sign(sid, signature) => SignKeepsInv(k, sid, signature);
        case Respond(sid, ok) =>
          assert SessionOk(k, k.sessions[sid]);
          PhaseKeepsInv(k, sid, k.sessions[sid].(phase := Idle));
          DropKeepsInv(k, sid);
        case Die(sid) => DropKeepsInv(k, sid);
        case Crash => CrashKeepsInv(k);
      }
    }
  }

  lemma {:induction false} RunKeepsInv(k: Kms, steps: seq<Step>)
    requires Inv(k)
    ensures Inv(Run(k, steps))
    decreases |steps|
  {
    if steps != [] {
      StepKeepsInv(k, steps[0]);
      RunKeepsInv(Apply(k, steps[0]), steps[1..]);
    }
  }

  lemma ReachableInv(k: Kms)
    requires Reachable(k)
    ensures Inv(k)
  {
    var k0, steps :| Init(k0) && Run(k0, steps) == k;
    InitInv(k0);
    RunKeepsInv(k0, steps);
  }
}
