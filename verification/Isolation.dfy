/** Refused requests leave no trace in any later state, and chains do not affect one another. */
module Isolation {
  import opened Base
  import opened Messages
  import opened Kms
  import C = Consensus
  import R = Record
  import S = Session

  // ---------------------------------------------------------------- refusals

  /** A session whose next step will be refused: by vetting, by the stop height or by the record. */
  predicate Doomed(k: Kms, sid: nat) {
    && sid in k.sessions
    && var s := k.sessions[sid];
       || (s.phase.Received? && S.Vet(s.config, s.phase.req).Err?)
       || (s.phase.Vetted? && Up(k, s.config.chainId) &&
           C.Check(k.chains[s.config.chainId].mem.value, s.phase.parsed.state).Some?)
  }

  /** Only a double sign is reported to the validator; any other refusal ends the session. */
  predicate RefusedAsDoubleSign(k: Kms, sid: nat)
    requires Doomed(k, sid)
  {
    var s := k.sessions[sid];
    s.phase.Vetted? && C.Check(k.chains[s.config.chainId].mem.value, s.phase.parsed.state) == Some(C.DoubleSign)
  }

  function RefusingStep(k: Kms, sid: nat, syncOk: bool): Step
    requires Doomed(k, sid)
  {
    if k.sessions[sid].phase.Received? then Vet(sid) else Update(sid, syncOk)
  }

  /** The session is gone, waiting for a request, or about to answer one. */
  predicate Quiet(k: Kms, sid: nat) {
    sid in k.sessions ==> k.sessions[sid].phase.Idle? || k.sessions[sid].phase.Answering?
  }

  ghost predicate ReceivesNothing(steps: seq<Step>, sid: nat) {
    forall i :: 0 <= i < |steps| ==> !(steps[i].Receive? && steps[i].sid == sid)
  }

  /** `signed'` adds signatures to `signed`, none of them by this session. */
  ghost predicate NoneFrom(signed: seq<Signature>, signed': seq<Signature>, sid: nat) {
    signed <= signed' && forall i :: |signed| <= i < |signed'| ==> signed'[i].session != sid
  }

  lemma QuietStep(k: Kms, step: Step, sid: nat)
    requires Quiet(k, sid) && !(step.Receive? && step.sid == sid)
    ensures Quiet(Apply(k, step), sid) && NoneFrom(k.signed, Apply(k, step).signed, sid)
  {
  }

  lemma {:induction false} QuietRun(k: Kms, steps: seq<Step>, sid: nat)
    requires Quiet(k, sid) && ReceivesNothing(steps, sid)
    ensures Quiet(Run(k, steps), sid) && NoneFrom(k.signed, Run(k, steps).signed, sid)
    decreases |steps|
  {
    if steps != [] {
      QuietStep(k, steps[0], sid);
      QuietRun(Apply(k, steps[0]), steps[1..], sid);
    }
  }

  /**
   * A refusal changes no record and produces no signature, and in no later state, until the session
   * receives its next request, has it signed anything or can it touch a record: whatever the other
   * sessions do, and even if the session dies and is opened again.
   */
  lemma {:induction false} RefusalLeavesNoTrace(k: Kms, sid: nat, syncOk: bool, steps: seq<Step>)
    requires Doomed(k, sid) && ReceivesNothing(steps, sid)
    ensures
      var refused := Apply(k, RefusingStep(k, sid, syncOk));
      var k' := Run(refused, steps);
      && refused.chains == k.chains
      && (sid in refused.sessions <==> RefusedAsDoubleSign(k, sid))
      && (sid in refused.sessions ==> refused.sessions[sid] == k.sessions[sid].(phase := Answering))
      && (forall x :: x != sid ==> (x in refused.sessions <==> x in k.sessions))
      && (forall x :: x != sid && x in k.sessions ==> refused.sessions[x] == k.sessions[x])
      && NoneFrom(k.signed, k'.signed, sid)
      && (forall ok :: !Enabled(k', Update(sid, ok)))
      && (forall signature :: !Enabled(k', Sign(sid, signature)))
  {
    var refused := Apply(k, RefusingStep(k, sid, syncOk));
    assert refused.signed == k.signed;
    QuietRun(refused, steps, sid);
  }

  // ---------------------------------------------------------------- one chain by itself

  /** The signatures of one chain, in order. */
  function SignedOn(signed: seq<Signature>, d: ChainId): seq<Signature> {
    if signed == [] then []
    else
      var last := signed[|signed| - 1];
      SignedOn(signed[..|signed| - 1], d) + if last.config.chainId == d then [last] else []
  }

  /** What the KMS would be if `d` were its only chain. */
  function Project(k: Kms, d: ChainId): Kms {
    Kms(map c | c in k.chains && c == d :: k.chains[c],
        map x | x in k.sessions && k.sessions[x].config.chainId == d :: k.sessions[x],
        SignedOn(k.signed, d))
  }

  /** The steps that happen on chain `d`; a crash happens on all. */
  predicate Concerns(k: Kms, step: Step, d: ChainId) {
    match step
    case Boot(c, _, _) => c == d
    case Open(_, config) => config.chainId == d
    case Crash => true
    case _ => step.sid in k.sessions && k.sessions[step.sid].config.chainId == d
  }

  /** The part of a run that happens on chain `d`. */
  function Relevant(k: Kms, steps: seq<Step>, d: ChainId): seq<Step>
    decreases |steps|
  {
    if steps == [] then []
    else
      (if Enabled(k, steps[0]) && Concerns(k, steps[0], d) then [steps[0]] else [])
      + Relevant(Apply(k, steps[0]), steps[1..], d)
  }

  lemma SignedOnAppend(signed: seq<Signature>, g: Signature, d: ChainId)
    ensures SignedOn(signed + [g], d) == SignedOn(signed, d) + if g.config.chainId == d then [g] else []
  {
    assert (signed + [g])[..|signed|] == signed;
  }

  /** A session's new phase shows in the projection to its own chain and in no other. */
  lemma PhaseProjects(k: Kms, sid: nat, phase: Phase, d: ChainId)
    requires sid in k.sessions
    ensures Project(SetPhase(k, sid, phase), d) ==
            if k.sessions[sid].config.chainId == d then SetPhase(Project(k, d), sid, phase) else Project(k, d)
  {
  }

  lemma DropProjects(k: Kms, sid: nat, d: ChainId)
    ensures Project(Drop(k, sid), d) == Drop(Project(k, d), sid)
    ensures !(sid in k.sessions && k.sessions[sid].config.chainId == d) ==> Project(Drop(k, sid), d) == Project(k, d)
  {
    assert Project(Drop(k, sid), d).sessions == Drop(Project(k, d), sid).sessions;
  }

  lemma UpdateProjects(k: Kms, sid: nat, syncOk: bool, d: ChainId)
    requires Enabled(k, Update(sid, syncOk))
    ensures Project(UpdateStep(k, sid, syncOk), d) ==
            if k.sessions[sid].config.chainId == d then UpdateStep(Project(k, d), sid, syncOk) else Project(k, d)
  {
    var s := k.sessions[sid];
    var c := s.config.chainId;
    var k' := k.(chains := k.chains[c := R.Update(k.chains[c], s.phase.parsed.state, syncOk)]);
    assert Project(k', d) ==
      if c == d then Project(k, d).(chains := Project(k, d).chains[c := k'.chains[c]]) else Project(k, d);
    PhaseProjects(k', sid, Granted(s.phase.req, s.phase.parsed, |k.chains[c].log|), d);
    PhaseProjects(k', sid, Answering, d);
    DropProjects(k', sid, d);
  }

  lemma SignProjects(k: Kms, sid: nat, signature: Option<bytes>, d: ChainId)
    requires Enabled(k, Sign(sid, signature))
    ensures Project(SignStep(k, sid, signature), d) ==
            if k.sessions[sid].config.chainId == d then SignStep(Project(k, d), sid, signature) else Project(k, d)
  {
    DropProjects(k, sid, d);
    if signature.Some? {
      var k' := SignStep(k, sid, signature);
      var g := k'.signed[|k.signed|];
      SignedOnAppend(k.signed, g, d);
      PhaseProjects(k.(signed := k.signed + [g]), sid, Answering, d);
    }
  }

  lemma CrashProjects(k: Kms, d: ChainId)
    ensures Project(Apply(k, Crash), d) == Apply(Project(k, d), Crash)
  {
    assert Project(Apply(k, Crash), d).chains == Apply(Project(k, d), Crash).chains;
  }

  lemma BootProjects(k: Kms, c: ChainId, hook: R.Hook, syncOk: bool, d: ChainId)
    requires Enabled(k, Boot(c, hook, syncOk))
    ensures Project(Apply(k, Boot(c, hook, syncOk)), d) ==
            if c == d then Apply(Project(k, d), Boot(c, hook, syncOk)) else Project(k, d)
  {
    var k' := Apply(k, Boot(c, hook, syncOk));
    assert Project(k', d).chains ==
      if c == d then Apply(Project(k, d), Boot(c, hook, syncOk)).chains else Project(k, d).chains;
  }

  lemma OpenProjects(k: Kms, sid: nat, config: S.Config, d: ChainId)
    requires Enabled(k, Open(sid, config))
    ensures Project(Apply(k, Open(sid, config)), d) ==
            if config.chainId == d then Apply(Project(k, d), Open(sid, config)) else Project(k, d)
  {
    var k' := Apply(k, Open(sid, config));
    assert Project(k', d).sessions ==
      if config.chainId == d then Apply(Project(k, d), Open(sid, config)).sessions else Project(k, d).sessions;
  }

  /** What one step does to a chain depends on that chain alone. */
  lemma StepProjects(k: Kms, step: Step, d: ChainId)
    ensures Project(Apply(k, step), d) ==
            if Enabled(k, step) && Concerns(k, step, d) then Apply(Project(k, d), step) else Project(k, d)
  {
    if Enabled(k, step) {
      match step {
        case Boot(c, hook, syncOk) => BootProjects(k, c, hook, syncOk, d);
        case Open(sid, config) => OpenProjects(k, sid, config, d);
        case Receive(sid, req) => PhaseProjects(k, sid, Received(req), d);
        case Vet(sid) => VetProjects(k, sid, d);
        case Update(sid, syncOk) => UpdateProjects(k, sid, syncOk, d);
        case Sign(sid, signature) => SignProjects(k, sid, signature, d);
        case Respond(sid, ok) =>
          PhaseProjects(k, sid, Idle, d);
          DropProjects(k, sid, d);
        case Die(sid) => DropProjects(k, sid, d);
        case Crash => CrashProjects(k, d);
      }
    }
  }

  lemma VetProjects(k: Kms, sid: nat, d: ChainId)
    requires Enabled(k, Vet(sid))
    ensures Project(Apply(k, Vet(sid)), d) ==
            if k.sessions[sid].config.chainId == d then Apply(Project(k, d), Vet(sid)) else Project(k, d)
  {
    var s := k.sessions[sid];
    match S.Vet(s.config, s.phase.req)
    case Ok(p) => PhaseProjects(k, sid, Vetted(s.phase.req, p), d);
    case Err(_) => DropProjects(k, sid, d);
  }

  /**
   * Chains are independent: in every run, the record, the sessions and the signatures of one chain
   * are what they would be had only that chain's own steps happened.
   */
  lemma {:induction false} ChainsAreIndependent(k: Kms, steps: seq<Step>, d: ChainId)
    ensures Project(Run(k, steps), d) == Run(Project(k, d), Relevant(k, steps, d))
    decreases |steps|
  {
    if steps != [] {
      var k1 := Apply(k, steps[0]);
      StepProjects(k, steps[0], d);
      ChainsAreIndependent(k1, steps[1..], d);
      if Enabled(k, steps[0]) && Concerns(k, steps[0], d) {
        assert Relevant(k, steps, d) == [steps[0]] + Relevant(k1, steps[1..], d);
      } else {
        assert Relevant(k, steps, d) == Relevant(k1, steps[1..], d);
      }
    }
  }

  /** So each chain of a reachable system is a reachable system of its own. */
  lemma ProjectionReachable(k: Kms, d: ChainId)
    requires Reachable(k)
    ensures Reachable(Project(k, d))
  {
    var k0, steps :| Init(k0) && Run(k0, steps) == k;
    ChainsAreIndependent(k0, steps, d);
    assert Init(Project(k0, d));
  }
}
