/** Whole requests as runs of the transition system: what does get signed. */
module Serving {
  import opened Base
  import opened Messages
  import opened Kms
  import C = Consensus
  import R = Record
  import S = Session

  // ---------------------------------------------------------------- whole requests as runs

  lemma {:induction false} RunConcat(k: Kms, a: seq<Step>, b: seq<Step>)
    ensures Run(k, a + b) == Run(Run(k, a), b)
    decreases |a|
  {
    if a == [] {
      assert a + b == b;
    } else {
      assert (a + b)[0] == a[0] && (a + b)[1..] == a[1..] + b;
      RunConcat(Apply(k, a[0]), a[1..], b);
    }
  }

  function Serve(sid: nat, req: Request, syncOk: bool, signature: Option<bytes>): seq<Step> {
    [Receive(sid, req), Vet(sid), Update(sid, syncOk), Sign(sid, signature), Respond(sid, true)]
  }

  lemma RunOne(k: Kms, steps: seq<Step>)
    requires steps != []
    ensures Run(k, steps) == Run(Apply(k, steps[0]), steps[1..])
  {
  }

  lemma RunFive(k: Kms, a: Step, b: Step, c: Step, d: Step, e: Step)
    ensures Run(k, [a, b, c, d, e]) == Apply(Apply(Apply(Apply(Apply(k, a), b), c), d), e)
  {
    var k1 := Apply(k, a);
    var k2 := Apply(k1, b);
    var k3 := Apply(k2, c);
    var k4 := Apply(k3, d);
    RunOne(k, [a, b, c, d, e]);
    assert [a, b, c, d, e][1..] == [b, c, d, e];
    RunOne(k1, [b, c, d, e]);
    assert [b, c, d, e][1..] == [c, d, e];
    RunOne(k2, [c, d, e]);
    assert [c, d, e][1..] == [d, e];
    RunOne(k3, [d, e]);
    assert [d, e][1..] == [e];
    RunOne(k4, [e]);
  }

  /** The signature that serving `req` adds. */
  function SignatureFor(k: Kms, sid: nat, req: Request): Signature
    requires sid in k.sessions && S.Vet(k.sessions[sid].config, req).Ok? && Up(k, k.sessions[sid].config.chainId)
  {
    var config := k.sessions[sid].config;
    Signature(sid, config, req, S.Vet(config, req).value, |k.chains[config.chainId].log|,
              CanonicalOf(req, config.chainId, config.protocol.IsProtobuf()))
  }

  /** The session goes on after a signature and after the report of a double sign; any other outcome ends it. */
  predicate KeepsSession(config: S.Config, mem: C.State, req: Request, syncOk: bool, signature: Option<bytes>) {
    && S.Vet(config, req).Ok?
    && var e := R.UpdateError(mem, S.Vet(config, req).value.state, syncOk);
       e == Some(C.DoubleSign) || (e.None? && signature.Some?)
  }

  /**
   * An undisturbed `sign` call is a run of the system, and moves the record as the sequential
   * specification of the session says.
   */
  lemma SequentialSignIsARun(k: Kms, sid: nat, req: Request, syncOk: bool, signature: Option<bytes>)
    requires sid in k.sessions && k.sessions[sid].phase.Idle? && Up(k, k.sessions[sid].config.chainId)
    ensures
      var config := k.sessions[sid].config;
      var c := config.chainId;
      var k' := Run(k, Serve(sid, req, syncOk, signature));
      && k'.chains == k.chains[c := S.RecordAfter(config, k.chains[c], req, syncOk)]
      && k'.signed == k.signed + (
           if S.Vet(config, req).Ok? &&
              R.UpdateError(k.chains[c].mem.value, S.Vet(config, req).value.state, syncOk).None? &&
              signature.Some?
           then [SignatureFor(k, sid, req)] else [])
      && k'.sessions == (if KeepsSession(config, k.chains[c].mem.value, req, syncOk, signature)
                         then k.sessions else k.sessions - {sid})
  {
    var s := k.sessions[sid];
    var c := s.config.chainId;
    RunFive(k, Receive(sid, req), Vet(sid), Update(sid, syncOk), Sign(sid, signature), Respond(sid, true));
    var k1 := Apply(k, Receive(sid, req));
    assert k1 == k.(sessions := k.sessions[sid := s.(phase := Received(req))]);
    var k2 := Apply(k1, Vet(sid));
    assert k.chains[c := k.chains[c]] == k.chains;
    if S.Vet(s.config, req).Err? {
      assert k2 == k.(sessions := k.sessions - {sid});
    } else {
      var p := S.Vet(s.config, req).value;
      assert k2 == k.(sessions := k.sessions[sid := s.(phase := Vetted(req, p))]);
      ServeVetted(k, k2, sid, req, p, syncOk, signature);
    }
  }

  /** The second half of the above: from the vetted request on. */
  lemma ServeVetted(k: Kms, k2: Kms, sid: nat, req: Request, p: Parsed, syncOk: bool, signature: Option<bytes>)
    requires sid in k.sessions && k.sessions[sid].phase.Idle? && Up(k, k.sessions[sid].config.chainId)
    requires S.Vet(k.sessions[sid].config, req) == Ok(p)
    requires k2 == k.(sessions := k.sessions[sid := k.sessions[sid].(phase := Vetted(req, p))])
    ensures
      var c := k.sessions[sid].config.chainId;
      var k' := Apply(Apply(Apply(k2, Update(sid, syncOk)), Sign(sid, signature)), Respond(sid, true));
      && k'.chains == k.chains[c := R.Update(k.chains[c], p.state, syncOk)]
      && k'.signed == k.signed + (
           if R.UpdateError(k.chains[c].mem.value, p.state, syncOk).None? && signature.Some?
           then [SignatureFor(k, sid, req)] else [])
      && k'.sessions == (if KeepsSession(k.sessions[sid].config, k.chains[c].mem.value, req, syncOk, signature)
                         then k.sessions else k.sessions - {sid})
  {
    var c := k.sessions[sid].config.chainId;
    var k3 := Apply(k2, Update(sid, syncOk));
    var e := R.UpdateError(k.chains[c].mem.value, p.state, syncOk);
    assert k3.chains == k.chains[c := R.Update(k.chains[c], p.state, syncOk)] && k3.signed == k.signed;
    if e.None? {
      assert k3.sessions[sid].phase == Granted(req, p, |k.chains[c].log|);
    } else if e == Some(C.DoubleSign) {
      assert k3.sessions[sid].phase == Answering;
    } else {
      assert sid !in k3.sessions;
    }
  }

  /** The system that has one chain, whose record is at `state`, and one idle session. */
  function OneSession(config: S.Config, state: C.State): Kms {
    Kms(map[config.chainId := R.Record(Some(state), Some(state), [])], map[0 := SessionState(config, Idle)], [])
  }

  /** The same before the process starts, with or without a state file. */
  function BeforeStart(config: S.Config, disk: Option<C.State>): Kms {
    Kms(map[config.chainId := R.Record(None, disk, [])], map[], [])
  }

  lemma OneSessionStarts(config: S.Config, state: C.State, disk: Option<C.State>, steps: seq<Step>)
    requires disk == Some(state) || (disk.None? && state == C.INITIAL)
    ensures Init(BeforeStart(config, disk))
    ensures Run(BeforeStart(config, disk), [Boot(config.chainId, R.NoHook, true), Open(0, config)] + steps) ==
            Run(OneSession(config, state), steps)
  {
    var c := config.chainId;
    var k0 := BeforeStart(config, disk);
    var boot, open := Boot(c, R.NoHook, true), Open(0, config);
    assert Apply(k0, boot).chains == map[c := R.Record(Some(state), Some(state), [])];
    assert [boot, open][1..] == [open];
    assert Run(Apply(k0, boot), [open]) == Apply(Apply(k0, boot), open);
    assert Run(k0, [boot, open]) == OneSession(config, state);
    RunConcat(k0, [boot, open], steps);
  }

  /** Any state file can be the first, so a record may start anywhere; without one it starts at the beginning. */
  lemma OneSessionReachable(config: S.Config, state: C.State, steps: seq<Step>)
    ensures Reachable(Run(OneSession(config, state), steps))
    ensures state == C.INITIAL ==> ReachableFromNothing(Run(OneSession(config, state), steps))
  {
    OneSessionStarts(config, state, Some(state), steps);
    if state == C.INITIAL {
      OneSessionStarts(config, state, None, steps);
      assert NoFiles(BeforeStart(config, None));
    }
  }

  // ---------------------------------------------------------------- honest validators are served

  /** One session serves the requests one after the other, with a working disk and signer. */
  function ServeAll(sid: nat, requests: seq<Request>): seq<Step> {
    if requests == [] then [] else Serve(sid, requests[0], true, Some([])) + ServeAll(sid, requests[1..])
  }

  ghost predicate AllVetted(config: S.Config, requests: seq<Request>) {
    forall i :: 0 <= i < |requests| ==> S.Vet(config, requests[i]).Ok?
  }

  /** From index `n` on, the signatures are those for `requests`, in order, on grants from `ticket` on. */
  ghost predicate SignedInOrder(signed: seq<Signature>, n: nat, ticket: nat, config: S.Config, requests: seq<Request>) {
    && |signed| == n + |requests|
    && forall i :: 0 <= i < |requests| ==> SignedFor(signed[n + i], config, requests[i], ticket + i)
  }

  predicate SignedFor(g: Signature, config: S.Config, req: Request, ticket: nat) {
    && g.config == config && g.req == req && g.ticket == ticket
    && S.Vet(config, req) == Ok(g.parsed)
    && g.message == CanonicalOf(req, config.chainId, config.protocol.IsProtobuf())
  }

  /** Serving one request that the record accepts. */
  lemma ServeOne(k: Kms, sid: nat, req: Request)
    requires sid in k.sessions && k.sessions[sid].phase.Idle? && Up(k, k.sessions[sid].config.chainId)
    requires S.Vet(k.sessions[sid].config, req).Ok?
    requires C.Check(k.chains[k.sessions[sid].config.chainId].mem.value,
                     S.Vet(k.sessions[sid].config, req).value.state).None?
    ensures
      var config := k.sessions[sid].config;
      var k1 := Run(k, Serve(sid, req, true, Some([])));
      && k1.sessions == k.sessions
      && Up(k1, config.chainId)
      && k1.chains[config.chainId].mem == Some(S.Vet(config, req).value.state)
      && |k1.chains[config.chainId].log| == |k.chains[config.chainId].log| + 1
      && |k1.signed| == |k.signed| + 1 && k.signed <= k1.signed
      && SignedFor(k1.signed[|k.signed|], config, req, |k.chains[config.chainId].log|)
  {
    SequentialSignIsARun(k, sid, req, true, Some([]));
  }

  lemma OrderJoins(
    signed1: seq<Signature>, signed': seq<Signature>, n: nat, ticket: nat, config: S.Config, requests: seq<Request>)
    requires requests != [] && |signed1| == n + 1 && signed1 <= signed'
    requires SignedFor(signed1[n], config, requests[0], ticket)
    requires SignedInOrder(signed', n + 1, ticket + 1, config, requests[1..])
    ensures SignedInOrder(signed', n, ticket, config, requests)
  {
    forall i | 0 <= i < |requests| ensures SignedFor(signed'[n + i], config, requests[i], ticket + i) {
      if i > 0 {
        assert SignedFor(signed'[n + 1 + (i - 1)], config, requests[1..][i - 1], ticket + 1 + (i - 1));
      }
    }
  }

  /** The record would take these requests in this order, starting from `mem`. */
  ghost predicate WouldAccept(config: S.Config, mem: C.State, requests: seq<Request>) {
    AllVetted(config, requests) && C.Replay(mem, StatesOf(requests)).Some?
  }

  lemma WouldAcceptFirst(config: S.Config, mem: C.State, requests: seq<Request>)
    requires requests != [] && WouldAccept(config, mem, requests)
    ensures S.Vet(config, requests[0]).Ok?
    ensures C.Check(mem, S.Vet(config, requests[0]).value.state).None?
    ensures WouldAccept(config, S.Vet(config, requests[0]).value.state, requests[1..])
  {
    assert StatesOf(requests)[1..] == StatesOf(requests[1..]);
  }

  /** If the record would take the requests in this order, each of them is signed. */
  lemma {:induction false} AcceptedRequestsAreSigned(k: Kms, sid: nat, requests: seq<Request>)
    requires sid in k.sessions && k.sessions[sid].phase.Idle? && Up(k, k.sessions[sid].config.chainId)
    requires WouldAccept(k.sessions[sid].config, k.chains[k.sessions[sid].config.chainId].mem.value, requests)
    ensures k.signed <= Run(k, ServeAll(sid, requests)).signed
    ensures SignedInOrder(Run(k, ServeAll(sid, requests)).signed, |k.signed|,
                          |k.chains[k.sessions[sid].config.chainId].log|, k.sessions[sid].config, requests)
    decreases |requests|
  {
    if requests != [] {
      var config := k.sessions[sid].config;
      WouldAcceptFirst(config, k.chains[config.chainId].mem.value, requests);
      ServeOne(k, sid, requests[0]);
      var first, others := Serve(sid, requests[0], true, Some([])), ServeAll(sid, requests[1..]);
      var k1 := Run(k, first);
      AcceptedRequestsAreSigned(k1, sid, requests[1..]);
      RunConcat(k, first, others);
      assert Run(k, ServeAll(sid, requests)) == Run(k1, others);
      OrderJoins(k1.signed, Run(k1, others).signed, |k.signed|, |k.chains[config.chainId].log|, config, requests);
    }
  }

  /**
   * Requests that a record at `mem` would take in this order are the signatures of a reachable state;
   * on a chain without a state file, if `mem` is the initial state.
   */
  lemma {:induction false} AcceptedRunReachable(config: S.Config, mem: C.State, requests: seq<Request>)
    requires WouldAccept(config, mem, requests)
    ensures
      var k := Run(OneSession(config, mem), ServeAll(0, requests));
      && Reachable(k) && (mem == C.INITIAL ==> ReachableFromNothing(k))
      && SignedInOrder(k.signed, 0, 0, config, requests)
  {
    AcceptedRequestsAreSigned(OneSession(config, mem), 0, requests);
    OneSessionReachable(config, mem, ServeAll(0, requests));
  }

  /** An honest validator on a fresh chain gets every one of its requests signed, in order. */
  lemma HonestValidatorIsServed(config: S.Config, requests: seq<Request>)
    requires HonestRequests(requests)
    requires forall i :: 0 <= i < |requests| ==> S.WithinStopHeight(config, requests[i])
    ensures
      var k := Run(OneSession(config, C.INITIAL), ServeAll(0, requests));
      ReachableFromNothing(k) && SignedInOrder(k.signed, 0, 0, config, requests)
  {
    HonestRequestsNeverRefused(requests);
    AcceptedRunReachable(config, C.INITIAL, requests);
  }

  /** One chain whose hook has moved memory to `height` while the file is at `disk`, and one idle session. */
  function AfterHookSession(config: S.Config, disk: C.State, height: nat): Kms {
    Kms(map[config.chainId := R.Record(Some(C.State(height, 0, 0, None)), Some(disk), [])],
        map[0 := SessionState(config, Idle)], [])
  }

  /**
   * A hook that brings a stale state file up to date costs an honest validator nothing: from the hook's
   * height on it gets every request signed, unless it begins with the first proposal of that height.
   */
  lemma HonestValidatorAfterHook(config: S.Config, disk: C.State, height: nat, requests: seq<Request>)
    requires disk.height < height < disk.height + 9000
    requires HonestRequests(requests) && requests != [] && Height(requests[0]).value >= height
    requires !FirstProposal(requests[0], height)
    requires forall i :: 0 <= i < |requests| ==> S.WithinStopHeight(config, requests[i])
    ensures
      var start := [Boot(config.chainId, R.Output(height), true), Open(0, config)];
      var k := Run(BeforeStart(config, Some(disk)), start + ServeAll(0, requests));
      SignedInOrder(k.signed, 0, 0, config, requests)
  {
    HookStarts(config, disk, height, ServeAll(0, requests));
    HonestRequestsAfterHook(height, requests);
    AcceptedRequestsAreSigned(AfterHookSession(config, disk, height), 0, requests);
  }

  lemma HookStarts(config: S.Config, disk: C.State, height: nat, steps: seq<Step>)
    requires disk.height < height < disk.height + 9000
    ensures var start := [Boot(config.chainId, R.Output(height), true), Open(0, config)];
            Run(BeforeStart(config, Some(disk)), start + steps) == Run(AfterHookSession(config, disk, height), steps)
  {
    var k0, k1 := BeforeStart(config, Some(disk)), AfterHookSession(config, disk, height);
    var boot, open := Boot(config.chainId, R.Output(height), true), Open(0, config);
    assert Apply(k0, boot).chains == k1.chains;
    assert [boot, open][1..] == [open];
    assert Run(Apply(k0, boot), [open]) == Apply(Apply(k0, boot), open);
    assert Run(k0, [boot, open]) == k1;
    RunConcat(k0, [boot, open], steps);
  }

  // ---------------------------------------------------------------- interleaving is real

  lemma RunThree(k: Kms, a: Step, b: Step, c: Step)
    ensures Run(k, [a, b, c]) == Apply(Apply(Apply(k, a), b), c)
  {
    RunOne(k, [a, b, c]);
    assert [a, b, c][1..] == [b, c];
    RunOne(Apply(k, a), [b, c]);
    assert [b, c][1..] == [c];
    RunOne(Apply(Apply(k, a), b), [c]);
  }

  /**
   * A session that was granted first may sign last: signatures leave the KMS out of the order of
   * their positions, and safety does not depend on that order.
   */
  lemma SignaturesLeaveOutOfOrder(k: Kms, x: nat, y: nat, a: Request, b: Request) returns (k': Kms)
    requires x in k.sessions && y in k.sessions && x != y
    requires k.sessions[x].phase.Idle? && k.sessions[y].phase.Idle? && k.sessions[x].config == k.sessions[y].config
    requires Up(k, k.sessions[x].config.chainId)
    requires S.Vet(k.sessions[x].config, a).Ok? && S.Vet(k.sessions[x].config, b).Ok?
    requires C.Check(k.chains[k.sessions[x].config.chainId].mem.value, S.Vet(k.sessions[x].config, a).value.state).None?
    requires C.Check(S.Vet(k.sessions[x].config, a).value.state, S.Vet(k.sessions[x].config, b).value.state).None?
    ensures k' == Run(k, [Receive(x, a), Vet(x), Update(x, true)] + Serve(y, b, true, Some([])) + [Sign(x, Some([]))])
    ensures |k'.signed| == |k.signed| + 2
    ensures k'.signed[|k.signed|].req == b && k'.signed[|k.signed| + 1].req == a
    ensures k'.signed[|k.signed| + 1].ticket < k'.signed[|k.signed|].ticket
  {
    var config := k.sessions[x].config;
    var c := config.chainId;
    var first, last := [Receive(x, a), Vet(x), Update(x, true)], [Sign(x, Some([]))];
    var serve := Serve(y, b, true, Some([]));
    RunThree(k, Receive(x, a), Vet(x), Update(x, true));
    var k1 := Run(k, first);
    var p := S.Vet(config, a).value;
    assert k1.sessions == k.sessions[x := SessionState(config, Granted(a, p, |k.chains[c].log|))];
    assert k1.chains == k.chains[c := R.Update(k.chains[c], p.state, true)] && k1.signed == k.signed;
    SequentialSignIsARun(k1, y, b, true, Some([]));
    var k2 := Run(k1, serve);
    assert k2.signed == k.signed + [SignatureFor(k1, y, b)] && k2.sessions == k1.sessions;
    k' := Apply(k2, Sign(x, Some([])));
    RunOne(k2, last);
    RunConcat(k, first, serve);
    RunConcat(k, first + serve, last);
  }
}
