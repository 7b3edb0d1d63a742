/**
 * The transaction signer's sequence numbers: broadcasting with up to three attempts, the persisted
 * counter, lost replies, and what is left of it all after the process dies and restarts
 * (src/tx_signer.rs, src/tx_signer/sequence_file.rs).
 */
module TxSequence {
  import opened Base
  import M = SignMsg

  const MAX_SEQUENCE := TWO_64 - 1

  datatype LastTx = NoTx | Response | Error

  /** What becomes of the write to the sequence file; the process may die on either side of it. */
  datatype Write = Completes | Fails | DiesBefore | DiesAfter

  /**
   * What happens outside the signer during one attempt. `accepted` is CheckTx's verdict at the node,
   * which the signer does not learn when the reply is lost or when the process dies waiting for it.
   */
  datatype Net =
    | KeyFails
    | DiesSigning
    | NoReply(accepted: bool)
    | DiesWaiting(accepted: bool)
    | Replies(checkOk: bool, deliverOk: bool, write: Write)

  /** CheckTx's verdict on the transaction, whether or not anyone heard of it. */
  predicate NodeAccepts(net: Net) {
    match net
    case NoReply(accepted) => accepted
    case DiesWaiting(accepted) => accepted
    case Replies(checkOk, _, _) => checkOk
    case _ => false
  }

  /**
   * A transaction that went out: its number, the stored number at that time, the node's verdict, and
   * whether the signer received that verdict.
   */
  datatype Broadcast = Broadcast(sequence: u64, stored: u64, tx: M.SignMsg, accepted: bool, answered: bool)

  /**
   * `stored` is the number in memory, `disk` the one in the sequence file. `alive` ends with the
   * process, by a panic or otherwise. `sent` and `earlier` are the broadcasts of this process and of
   * its predecessors; no operation reads them.
   */
  datatype Tx = Tx(stored: u64, disk: u64, last: LastTx, alive: bool, sent: seq<Broadcast>, earlier: seq<Broadcast>)

  /** `Ended`: the process died or panicked. */
  datatype Outcome = Done | Failed | Ended

  // ---------------------------------------------------------------- specification

  /** Storing the next number once a reply said that CheckTx accepted. */
  function Stored(t: Tx, sequence: u64, deliverOk: bool, write: Write): (Tx, Outcome) {
    if sequence == MAX_SEQUENCE then (t.(alive := false), Ended)
    else
      var t' := t.(stored := sequence + 1);
      match write
      case Completes => (t'.(disk := sequence + 1), if deliverOk then Done else Failed)
      case Fails => (t', Failed)
      case DiesBefore => (t'.(alive := false), Ended)
      case DiesAfter => (t'.(disk := sequence + 1, alive := false), Ended)
  }

  /** `broadcast_tx` of an authorized (or rejected) message at `sequence`. */
  function Attempt(t: Tx, m: M.SignMsg, allowed: bool, sequence: u64, net: Net): (Tx, Outcome) {
    if !allowed || net.KeyFails? then (t, Failed)
    else if net.DiesSigning? then (t.(alive := false), Ended)
    else
      var t1 := t.(sent := t.sent + [Broadcast(sequence, t.stored, m, NodeAccepts(net), net.Replies?)]);
      match net
      case DiesWaiting(_) => (t1.(alive := false), Ended)
      case NoReply(_) => (t1.(last := Error), Failed)
      case Replies(checkOk, deliverOk, write) =>
        var t2 := t1.(last := Response);
        if checkOk then Stored(t2, sequence, deliverOk, write) else (t2, Failed)
  }

  /** The second and third attempt, each one number further on. */
  function Retry(t: Tx, ms: seq<M.SignMsg>, allowed: bool, sequence: u64, nets: seq<Net>): Tx
    requires |ms| == |nets|
    decreases |ms|
  {
    if ms == [] then t
    else if sequence == MAX_SEQUENCE then t.(alive := false)
    else
      var (t', outcome) := Attempt(t, ms[0], allowed, sequence + 1, nets[0]);
      if outcome.Failed? then Retry(t', ms[1..], allowed, sequence + 1, nets[1..]) else t'
  }

  /** `request_and_sign_tx` once a transaction for this chain has been obtained and parsed. */
  function Poll(t: Tx, ms: seq<M.SignMsg>, allowed: bool, nets: seq<Net>): Tx
    requires |ms| == |nets| == 3
  {
    if !t.alive then t
    else
      var (t', outcome) := Attempt(t, ms[0], allowed, t.stored, nets[0]);
      if outcome.Failed? && !t.last.Response? then Retry(t', ms[1..], allowed, t.stored, nets[1..]) else t'
  }

  /** A new process opens the sequence file; the old one may have died at any point of a poll. */
  function Restart(t: Tx): Tx {
    Tx(t.disk, t.disk, NoTx, true, [], t.earlier + t.sent)
  }

  function Everything(t: Tx): seq<Broadcast> {
    t.earlier + t.sent
  }

  /** A signer that has just opened its sequence file for the first time. */
  function Fresh(sequence: u64): Tx {
    Tx(sequence, sequence, NoTx, true, [], [])
  }

  datatype Action = PollAction(ms: seq<M.SignMsg>, allowed: bool, nets: seq<Net>) | RestartAction

  predicate ProperAction(a: Action) {
    a.PollAction? ==> |a.ms| == |a.nets| == 3
  }

  predicate WellFormed(actions: seq<Action>) {
    forall i :: 0 <= i < |actions| ==> ProperAction(actions[i])
  }

  predicate PollsOnly(actions: seq<Action>) {
    WellFormed(actions) && forall i :: 0 <= i < |actions| ==> actions[i].PollAction?
  }

  function Do(t: Tx, a: Action): Tx
    requires ProperAction(a)
  {
    match a
    case PollAction(ms, allowed, nets) => Poll(t, ms, allowed, nets)
    case RestartAction => Restart(t)
  }

  function Run(t: Tx, actions: seq<Action>): Tx
    requires WellFormed(actions)
    decreases |actions|
  {
    if actions == [] then t else Run(Do(t, actions[0]), actions[1..])
  }

  // ---------------------------------------------------------------- what the signer can tell

  /** As far as the signer can tell, CheckTx may have accepted this one: it said so, or it said nothing. */
  predicate Unresolved(b: Broadcast) {
    b.answered ==> b.accepted
  }

  /** The signer was told that CheckTx accepted this one. */
  predicate Known(b: Broadcast) {
    b.answered && b.accepted
  }

  /** Every broadcast that may have been accepted lies below `n`. */
  ghost predicate Settled(log: seq<Broadcast>, n: int) {
    forall i :: 0 <= i < |log| && Unresolved(log[i]) ==> log[i].sequence < n
  }

  /** Every broadcast whose acceptance was reported lies below `n`. */
  ghost predicate KnownBelow(log: seq<Broadcast>, n: int) {
    forall i :: 0 <= i < |log| && Known(log[i]) ==> log[i].sequence < n
  }

  /** CheckTx accepted a transaction with this number. */
  ghost predicate Spent(log: seq<Broadcast>, n: int) {
    exists i :: 0 <= i < |log| && log[i].accepted && log[i].sequence == n
  }

  // ---------------------------------------------------------------- one poll

  /** Strictly increasing numbers from index `n` on. */
  ghost predicate Increasing(log: seq<Broadcast>, n: nat) {
    forall i, j :: n <= i < j < |log| ==> log[i].sequence < log[j].sequence
  }

  /** Whatever went out is one of the given messages, and those were allowed. */
  ghost predicate OnlyAllowed(t: Tx, t': Tx, ms: seq<M.SignMsg>, allowed: bool) {
    && (|t.sent| < |t'.sent| ==> allowed)
    && forall i :: |t.sent| <= i < |t'.sent| ==> t'.sent[i].tx in ms
  }

  /** What attempts at the numbers `from` to `to` do to the counters and to the broadcasts. */
  ghost predicate Advances(t: Tx, t': Tx, from: int, to: int) {
    && t'.disk <= t'.stored
    && t.stored <= t'.stored && (t'.stored == t.stored || t'.stored <= to + 1)
    && t.disk <= t'.disk
    && t.sent <= t'.sent && |t'.sent| <= |t.sent| + (to - from + 1)
    && t'.earlier == t.earlier
    && Increasing(t'.sent, |t.sent|)
    && (forall i :: |t.sent| <= i < |t'.sent| ==>
          from <= t'.sent[i].sequence <= to && t'.sent[i].stored <= t'.sent[i].sequence <= t'.sent[i].stored + 2)
    && (t'.alive ==> forall i :: |t.sent| <= i < |t'.sent| && Known(t'.sent[i]) ==> t'.sent[i].sequence < t'.stored)
  }

  lemma AttemptAdvances(t: Tx, m: M.SignMsg, allowed: bool, sequence: u64, net: Net)
    requires t.alive && t.disk <= t.stored <= sequence <= t.stored + 2
    ensures var (t', outcome) := Attempt(t, m, allowed, sequence, net);
            && Advances(t, t', sequence, sequence)
            && (outcome.Ended? <==> !t'.alive)
            && OnlyAllowed(t, t', [m], allowed)
  {
  }

  lemma AdvancesJoin(t: Tx, t1: Tx, t': Tx, from: int, mid: int, to: int)
    requires from <= mid <= to && t1.alive
    requires Advances(t, t1, from, mid) && Advances(t1, t', mid + 1, to)
    ensures Advances(t, t', from, to)
  {
    forall i, j | |t.sent| <= i < j < |t'.sent| ensures t'.sent[i].sequence < t'.sent[j].sequence {
      if i < |t1.sent| {
        assert t'.sent[i] == t1.sent[i];
        assert j < |t1.sent| ==> t'.sent[j] == t1.sent[j];
      }
    }
    forall i | |t.sent| <= i < |t'.sent|
      ensures from <= t'.sent[i].sequence <= to
      ensures t'.sent[i].stored <= t'.sent[i].sequence <= t'.sent[i].stored + 2
      ensures t'.alive && Known(t'.sent[i]) ==> t'.sent[i].sequence < t'.stored
    {
      assert i < |t1.sent| ==> t'.sent[i] == t1.sent[i];
    }
  }

  lemma OnlyAllowedJoins(t: Tx, t1: Tx, t': Tx, ms: seq<M.SignMsg>, allowed: bool)
    requires ms != [] && t.sent <= t1.sent <= t'.sent
    requires OnlyAllowed(t, t1, [ms[0]], allowed) && OnlyAllowed(t1, t', ms[1..], allowed)
    ensures OnlyAllowed(t, t', ms, allowed)
  {
  }

  /** The retries of one poll: consecutive numbers, at most one broadcast each. */
  lemma {:induction false} RetryAdvances(
    t: Tx, ms: seq<M.SignMsg>, allowed: bool, sequence: u64, nets: seq<Net>, n: u64)
    requires |ms| == |nets| && t.alive && t.disk <= t.stored
    requires n <= t.stored <= sequence + 1 && sequence + |ms| == n + 2
    ensures Advances(t, Retry(t, ms, allowed, sequence, nets), sequence + 1, n + 2)
    ensures OnlyAllowed(t, Retry(t, ms, allowed, sequence, nets), ms, allowed)
    decreases |ms|
  {
    if ms != [] && sequence != MAX_SEQUENCE {
      var (t1, outcome) := Attempt(t, ms[0], allowed, sequence + 1, nets[0]);
      AttemptAdvances(t, ms[0], allowed, sequence + 1, nets[0]);
      if outcome.Failed? {
        RetryAdvances(t1, ms[1..], allowed, sequence + 1, nets[1..], n);
        AdvancesJoin(t, t1, Retry(t, ms, allowed, sequence, nets), sequence + 1, sequence + 1, n + 2);
      }
      OnlyAllowedJoins(t, t1, Retry(t, ms, allowed, sequence, nets), ms, allowed);
    }
  }

  /**
   * One polling call, whatever the key, the node, the network and the disk do and wherever the process
   * dies: at most three broadcasts, at increasing numbers from the stored one to two past it, of
   * allowed messages only; the counter rises by at most three and passes every acceptance it hears of.
   */
  lemma PollAdvances(t: Tx, ms: seq<M.SignMsg>, allowed: bool, nets: seq<Net>)
    requires |ms| == |nets| == 3 && t.disk <= t.stored
    ensures Advances(t, Poll(t, ms, allowed, nets), t.stored, t.stored + 2)
    ensures OnlyAllowed(t, Poll(t, ms, allowed, nets), ms, allowed)
  {
    if t.alive {
      var (t1, outcome) := Attempt(t, ms[0], allowed, t.stored, nets[0]);
      AttemptAdvances(t, ms[0], allowed, t.stored, nets[0]);
      if outcome.Failed? && !t.last.Response? {
        RetryAdvances(t1, ms[1..], allowed, t.stored, nets[1..], t.stored);
        AdvancesJoin(t, t1, Poll(t, ms, allowed, nets), t.stored, t.stored, t.stored + 2);
      }
      OnlyAllowedJoins(t, t1, Poll(t, ms, allowed, nets), ms, allowed);
    }
  }

  /** In every run the file holds at most the number in memory, and the history only grows. */
  lemma {:induction false} RunExtends(t: Tx, actions: seq<Action>)
    requires WellFormed(actions) && t.disk <= t.stored
    ensures Run(t, actions).disk <= Run(t, actions).stored
    ensures Everything(t) <= Everything(Run(t, actions))
    decreases |actions|
  {
    if actions != [] {
      var t1 := Do(t, actions[0]);
      if actions[0].PollAction? {
        PollAdvances(t, actions[0].ms, actions[0].allowed, actions[0].nets);
      }
      assert Everything(t) <= Everything(t1);
      RunExtends(t1, actions[1..]);
    }
  }

  // ---------------------------------------------------------------- reported acceptances

  ghost predicate KnownNeverAgain(log: seq<Broadcast>) {
    forall i, j :: 0 <= i < j < |log| && Known(log[i]) ==> log[i].sequence < log[j].sequence
  }

  /** Each restart of the run finds a file that is past every acceptance the signers were told of. */
  ghost predicate StoredBeforeRestarts(t: Tx, actions: seq<Action>)
    requires WellFormed(actions)
    decreases |actions|
  {
    actions == [] || (&& (actions[0].RestartAction? ==> KnownBelow(Everything(t), t.disk))
                      && StoredBeforeRestarts(Do(t, actions[0]), actions[1..]))
  }

  ghost predicate KnownInv(t: Tx) {
    t.disk <= t.stored && KnownNeverAgain(Everything(t)) && (t.alive ==> KnownBelow(Everything(t), t.stored))
  }

  lemma PollKeepsKnownInv(t: Tx, ms: seq<M.SignMsg>, allowed: bool, nets: seq<Net>)
    requires |ms| == |nets| == 3 && KnownInv(t)
    ensures KnownInv(Poll(t, ms, allowed, nets))
  {
    PollAdvances(t, ms, allowed, nets);
    if t.alive {
      var t' := Poll(t, ms, allowed, nets);
      var log, log' := Everything(t), Everything(t');
      assert forall i :: 0 <= i < |log| ==> log'[i] == log[i];
      assert forall i :: |log| <= i < |log'| ==> log'[i] == t'.sent[i - |t.earlier|];
    }
  }

  lemma {:induction false} RunKeepsKnownInv(t: Tx, actions: seq<Action>)
    requires WellFormed(actions) && KnownInv(t) && StoredBeforeRestarts(t, actions)
    ensures KnownInv(Run(t, actions))
    decreases |actions|
  {
    if actions != [] {
      match actions[0] {
        case PollAction(ms, allowed, nets) => PollKeepsKnownInv(t, ms, allowed, nets);
        case RestartAction => assert Everything(Restart(t)) == Everything(t);
      }
      RunKeepsKnownInv(Do(t, actions[0]), actions[1..]);
    }
  }

  /**
   * A number whose acceptance was reported to the signer is never broadcast again: within a process
   * without any condition, and across restarts that find the file past all such numbers.
   */
  lemma ReportedNumbersNeverReused(sequence: u64, actions: seq<Action>, i: nat, j: nat)
    requires WellFormed(actions) && StoredBeforeRestarts(Fresh(sequence), actions)
    requires i < j < |Everything(Run(Fresh(sequence), actions))|
    requires Known(Everything(Run(Fresh(sequence), actions))[i])
    ensures var log := Everything(Run(Fresh(sequence), actions)); log[i].sequence < log[j].sequence
  {
    RunKeepsKnownInv(Fresh(sequence), actions);
  }

  lemma {:induction false} PollsNeedNoCondition(t: Tx, actions: seq<Action>)
    requires PollsOnly(actions)
    ensures StoredBeforeRestarts(t, actions)
    decreases |actions|
  {
    if actions != [] {
      PollsNeedNoCondition(Do(t, actions[0]), actions[1..]);
    }
  }

  // ---------------------------------------------------------------- acceptances at the node

  ghost predicate NeverAgain(log: seq<Broadcast>) {
    forall i, j :: 0 <= i < j < |log| && log[i].accepted ==> log[i].sequence < log[j].sequence
  }

  /** Each poll of the run starts with a counter, and each restart with a file, past everything unresolved. */
  ghost predicate SettledRun(t: Tx, actions: seq<Action>)
    requires WellFormed(actions)
    decreases |actions|
  {
    actions == [] || (&& Settled(Everything(t), if actions[0].PollAction? then t.stored else t.disk)
                      && SettledRun(Do(t, actions[0]), actions[1..]))
  }

  lemma {:induction false} SettledRunNeverAgain(t: Tx, actions: seq<Action>)
    requires WellFormed(actions) && t.disk <= t.stored && NeverAgain(Everything(t)) && SettledRun(t, actions)
    ensures NeverAgain(Everything(Run(t, actions)))
    decreases |actions|
  {
    if actions != [] {
      var t' := Do(t, actions[0]);
      if actions[0].PollAction? {
        PollAdvances(t, actions[0].ms, actions[0].allowed, actions[0].nets);
        var log, log' := Everything(t), Everything(t');
        assert forall i :: 0 <= i < |log| ==> log'[i] == log[i];
        assert forall i :: |log| <= i < |log'| ==> log'[i] == t'.sent[i - |t.earlier|];
      } else {
        assert Everything(t') == Everything(t);
      }
      SettledRunNeverAgain(t', actions[1..]);
    }
  }

  /**
   * No number that CheckTx accepted, reported or not, is broadcast again in a run whose polls and
   * restarts each start past everything that may have been accepted.
   */
  lemma NoSequenceReused(sequence: u64, actions: seq<Action>, i: nat, j: nat)
    requires WellFormed(actions) && SettledRun(Fresh(sequence), actions)
    requires i < j < |Everything(Run(Fresh(sequence), actions))|
    requires Everything(Run(Fresh(sequence), actions))[i].accepted
    ensures var log := Everything(Run(Fresh(sequence), actions)); log[i].sequence < log[j].sequence
  {
    SettledRunNeverAgain(Fresh(sequence), actions);
  }

  // ---------------------------------------------------------------- the exact condition

  /** The same history to the signer: only verdicts it never received may differ. */
  ghost predicate SameLog(a: seq<Broadcast>, b: seq<Broadcast>) {
    && |a| == |b|
    && forall i :: 0 <= i < |a| ==> b[i] == a[i] || (!a[i].answered && b[i] == a[i].(accepted := b[i].accepted))
  }

  ghost predicate SameView(t: Tx, t': Tx) {
    && SameLog(t.sent, t'.sent) && SameLog(t.earlier, t'.earlier)
    && t' == t.(sent := t'.sent, earlier := t'.earlier)
  }

  /** The run broadcasts a number that CheckTx had accepted before the run began. */
  ghost predicate Reuses(t: Tx, actions: seq<Action>)
    requires WellFormed(actions)
  {
    var log, log' := Everything(t), Everything(Run(t, actions));
    exists j :: |log| <= j < |log'| && Spent(log, log'[j].sequence)
  }

  /** A history that looks settled is settled whatever the node did with the unanswered broadcasts. */
  lemma SettledInEveryWorld(t: Tx, t': Tx, n: int)
    requires SameView(t, t') && Settled(Everything(t), n)
    ensures forall i :: 0 <= i < |Everything(t')| && Everything(t')[i].accepted ==> Everything(t')[i].sequence < n
  {
    var log, log' := Everything(t), Everything(t');
    forall i | 0 <= i < |log'| && log'[i].accepted ensures log'[i].sequence < n {
      if i < |t.earlier| {
        assert log'[i] == t'.earlier[i] && log[i] == t.earlier[i];
      } else {
        assert log'[i] == t'.sent[i - |t.earlier|] && log[i] == t.sent[i - |t.earlier|];
      }
      assert Unresolved(log[i]);
    }
  }

  /** Polls stay at or above the counter. */
  lemma {:induction false} PollsStayAbove(t: Tx, actions: seq<Action>)
    requires PollsOnly(actions) && t.disk <= t.stored
    ensures var log, log' := Everything(t), Everything(Run(t, actions));
            log <= log' && forall j :: |log| <= j < |log'| ==> t.stored <= log'[j].sequence
    decreases |actions|
  {
    if actions != [] {
      var t1 := Do(t, actions[0]);
      PollAdvances(t, actions[0].ms, actions[0].allowed, actions[0].nets);
      PollsStayAbove(t1, actions[1..]);
      var log, log1, log' := Everything(t), Everything(t1), Everything(Run(t, actions));
      forall j | |log| <= j < |log'| ensures t.stored <= log'[j].sequence {
        if j < |log1| {
          assert log'[j] == log1[j] == t1.sent[j - |t.earlier|];
        }
      }
    }
  }

  const ALL_WELL := Replies(true, true, Completes)

  function GoodPoll(ms: seq<M.SignMsg>): Action {
    PollAction(ms, true, [ALL_WELL, ALL_WELL, ALL_WELL])
  }

  /** Polls that succeed bring the counter to any higher number, and that number goes out. */
  lemma {:induction false} EveryNumberComesUp(t: Tx, ms: seq<M.SignMsg>, n: u64)
    requires |ms| == 3 && t.alive && t.disk <= t.stored <= n
    ensures var actions := seq(n - t.stored + 1, _ => GoodPoll(ms));
            var log, log' := Everything(t), Everything(Run(t, actions));
            PollsOnly(actions) && |log| <= |log'| - 1 && log'[|log'| - 1].sequence == n
    decreases n - t.stored
  {
    var actions := seq(n - t.stored + 1, _ => GoodPoll(ms));
    var t1 := Do(t, actions[0]);
    assert t1.sent[|t.sent|].sequence == t.stored && |t1.sent| == |t.sent| + 1;
    if t.stored == n {
      assert actions[1..] == [];
    } else {
      assert actions[1..] == seq(n - t1.stored + 1, _ => GoodPoll(ms));
      EveryNumberComesUp(t1, ms, n);
    }
  }

  /** The world in which the node accepted everything it did not answer. */
  function Resolve(log: seq<Broadcast>): seq<Broadcast> {
    seq(|log|, i requires 0 <= i < |log| => if log[i].answered then log[i] else log[i].(accepted := true))
  }

  function Worst(t: Tx): Tx {
    t.(sent := Resolve(t.sent), earlier := Resolve(t.earlier))
  }

  lemma UnresolvedIsSpentInWorst(t: Tx, n: int)
    requires !Settled(Everything(t), n)
    ensures SameView(t, Worst(t))
    ensures exists u: u64 :: n <= u && Spent(Everything(Worst(t)), u)
  {
    var log, log' := Everything(t), Everything(Worst(t));
    var i :| 0 <= i < |log| && Unresolved(log[i]) && n <= log[i].sequence;
    assert log'[i].accepted && log'[i].sequence == log[i].sequence;
    assert Spent(log', log[i].sequence);
  }

  /**
   * However a running signer goes on polling, it will not broadcast a number that CheckTx has already
   * accepted, whatever the node did with unanswered broadcasts, if and only if its counter is past
   * every number it was told was accepted or got no answer for. This speaks of the past only: see
   * `PollingCleanIffSettled` for numbers accepted later.
   */
  lemma PollingSafeIffSettled(t: Tx, ms: seq<M.SignMsg>)
    requires t.alive && t.disk <= t.stored && |ms| == 3
    ensures Settled(Everything(t), t.stored) <==>
            forall t', actions | SameView(t, t') && PollsOnly(actions) :: !Reuses(t', actions)
  {
    if Settled(Everything(t), t.stored) {
      forall t', actions | SameView(t, t') && PollsOnly(actions) ensures !Reuses(t', actions) {
        SettledInEveryWorld(t, t', t.stored);
        PollsStayAbove(t', actions);
      }
    } else {
      var w, actions := UnsettledReuses(t, ms);
    }
  }

  /** Some world, and some polls that are all answered, in which an accepted number goes out again. */
  lemma UnsettledReuses(t: Tx, ms: seq<M.SignMsg>) returns (w: Tx, actions: seq<Action>)
    requires t.alive && t.disk <= t.stored && |ms| == 3 && !Settled(Everything(t), t.stored)
    ensures SameView(t, w) && AllAnswered(actions) && Reuses(w, actions)
  {
    w := Worst(t);
    UnresolvedIsSpentInWorst(t, t.stored);
    var u: u64 :| t.stored <= u && Spent(Everything(w), u);
    EveryNumberComesUp(w, ms, u);
    actions := seq(u - t.stored + 1, _ => GoodPoll(ms));
  }

  /** No broadcast ever goes below the number in the file, over any polls, deaths and restarts. */
  lemma {:induction false} RunStaysAboveFile(t: Tx, actions: seq<Action>)
    requires WellFormed(actions) && t.disk <= t.stored
    ensures var log, log' := Everything(t), Everything(Run(t, actions));
            log <= log' && forall j :: |log| <= j < |log'| ==> t.disk <= log'[j].sequence
    decreases |actions|
  {
    if actions != [] {
      var t1 := Do(t, actions[0]);
      var log, log1, log' := Everything(t), Everything(t1), Everything(Run(t, actions));
      if actions[0].PollAction? {
        PollAdvances(t, actions[0].ms, actions[0].allowed, actions[0].nets);
        assert forall j :: |log| <= j < |log1| ==> log1[j] == t1.sent[j - |t.earlier|];
      } else {
        assert log1 == log;
      }
      RunStaysAboveFile(t1, actions[1..]);
      assert forall j :: |log| <= j < |log1| ==> log'[j] == log1[j];
    }
  }

  /**
   * No future at all, with any polls and any restarts at any point, leads to the broadcast of a number
   * that has already been accepted, if and only if the file is past every number that was reported
   * accepted or got no answer.
   */
  lemma RestartSafeIffSettled(t: Tx, ms: seq<M.SignMsg>)
    requires t.disk <= t.stored && |ms| == 3
    ensures Settled(Everything(t), t.disk) <==>
            forall t', actions | SameView(t, t') && WellFormed(actions) :: !Reuses(t', actions)
  {
    if Settled(Everything(t), t.disk) {
      forall t', actions | SameView(t, t') && WellFormed(actions) ensures !Reuses(t', actions) {
        SettledInEveryWorld(t, t', t.disk);
        RunStaysAboveFile(t', actions);
      }
    } else {
      var w := Worst(t);
      UnresolvedIsSpentInWorst(t, t.disk);
      var u: u64 :| t.disk <= u && Spent(Everything(w), u);
      assert Everything(Restart(w)) == Everything(w);
      EveryNumberComesUp(Restart(w), ms, u);
      var polls := seq(u - t.disk + 1, _ => GoodPoll(ms));
      var actions := [RestartAction] + polls;
      assert actions[1..] == polls;
      assert Run(w, actions) == Run(Restart(w), polls);
      assert Reuses(w, actions);
    }
  }

  // ---------------------------------------------------------------- numbers accepted from now on

  /** Polls in which every broadcast is answered, whatever else goes wrong. */
  predicate AllAnswered(actions: seq<Action>) {
    && PollsOnly(actions)
    && forall i, j :: 0 <= i < |actions| && 0 <= j < 3 ==> !Silent(actions[i].nets[j])
  }

  predicate Silent(net: Net) {
    net.NoReply? || net.DiesWaiting?
  }

  /** From index `n` on, every broadcast is above every number accepted before it, old or new. */
  ghost predicate CleanFrom(log: seq<Broadcast>, n: nat) {
    forall i, j :: 0 <= i < j < |log| && n <= j && log[i].accepted ==> log[i].sequence < log[j].sequence
  }

  ghost predicate AcceptedBelow(log: seq<Broadcast>, n: int) {
    forall i :: 0 <= i < |log| && log[i].accepted ==> log[i].sequence < n
  }

  ghost predicate AnsweredFrom(log: seq<Broadcast>, n: nat) {
    forall i :: n <= i < |log| ==> log[i].answered
  }

  lemma {:induction false} RetryAnswered(
    t: Tx, ms: seq<M.SignMsg>, allowed: bool, sequence: u64, nets: seq<Net>, n: nat)
    requires |ms| == |nets| && n <= |t.sent| && AnsweredFrom(t.sent, n)
    requires forall j :: 0 <= j < |nets| ==> !Silent(nets[j])
    ensures AnsweredFrom(Retry(t, ms, allowed, sequence, nets).sent, n)
    decreases |ms|
  {
    if ms != [] && sequence != MAX_SEQUENCE {
      var (t1, outcome) := Attempt(t, ms[0], allowed, sequence + 1, nets[0]);
      if outcome.Failed? {
        RetryAnswered(t1, ms[1..], allowed, sequence + 1, nets[1..], n);
      }
    }
  }

  lemma PollAnswered(t: Tx, ms: seq<M.SignMsg>, allowed: bool, nets: seq<Net>)
    requires |ms| == |nets| == 3 && forall j :: 0 <= j < 3 ==> !Silent(nets[j])
    ensures AnsweredFrom(Poll(t, ms, allowed, nets).sent, |t.sent|)
  {
    if t.alive {
      var (t1, outcome) := Attempt(t, ms[0], allowed, t.stored, nets[0]);
      if outcome.Failed? && !t.last.Response? {
        RetryAnswered(t1, ms[1..], allowed, t.stored, nets[1..], |t.sent|);
      }
    }
  }

  /** One such poll adds clean broadcasts and leaves the counter past everything accepted. */
  lemma PollStaysClean(t: Tx, a: Action, n: nat)
    requires a.PollAction? && ProperAction(a) && (forall j :: 0 <= j < 3 ==> !Silent(a.nets[j]))
    requires t.disk <= t.stored && CleanFrom(Everything(t), n) && (t.alive ==> AcceptedBelow(Everything(t), t.stored))
    ensures var t' := Do(t, a);
            && t'.disk <= t'.stored && CleanFrom(Everything(t'), n)
            && (t'.alive ==> AcceptedBelow(Everything(t'), t'.stored))
  {
    if t.alive {
      var t' := Do(t, a);
      PollAdvances(t, a.ms, a.allowed, a.nets);
      PollAnswered(t, a.ms, a.allowed, a.nets);
      var log, log' := Everything(t), Everything(t');
      assert forall i :: 0 <= i < |log| ==> log'[i] == log[i];
      assert forall i :: |log| <= i < |log'| ==> log'[i] == t'.sent[i - |t.earlier|];
    }
  }

  lemma {:induction false} AnsweredRunStaysClean(t: Tx, actions: seq<Action>, n: nat)
    requires AllAnswered(actions)
    requires t.disk <= t.stored && CleanFrom(Everything(t), n) && (t.alive ==> AcceptedBelow(Everything(t), t.stored))
    ensures CleanFrom(Everything(Run(t, actions)), n)
    decreases |actions|
  {
    if actions != [] {
      PollStaysClean(t, actions[0], n);
      AnsweredRunStaysClean(Do(t, actions[0]), actions[1..], n);
    }
  }

  lemma ReuseIsNotClean(t: Tx, actions: seq<Action>)
    requires WellFormed(actions) && t.disk <= t.stored && Reuses(t, actions)
    ensures !CleanFrom(Everything(Run(t, actions)), |Everything(t)|)
  {
    RunExtends(t, actions);
    var log, log' := Everything(t), Everything(Run(t, actions));
    var j :| |log| <= j < |log'| && Spent(log, log'[j].sequence);
    var i :| 0 <= i < |log| && log[i].accepted && log[i].sequence == log'[j].sequence;
    assert log'[i] == log[i];
  }

  /**
   * Numbers accepted from now on included: as long as every broadcast is answered, each broadcast of
   * every further polling is above all numbers accepted before it, if and only if the counter is past
   * every number reported accepted or left unanswered. A broadcast without an answer ends the
   * guarantee, since the counter then no longer is (`LostReplyReuses`).
   */
  lemma PollingCleanIffSettled(t: Tx, ms: seq<M.SignMsg>)
    requires t.alive && t.disk <= t.stored && |ms| == 3
    ensures Settled(Everything(t), t.stored) <==>
            forall t', actions | SameView(t, t') && AllAnswered(actions) ::
              CleanFrom(Everything(Run(t', actions)), |Everything(t')|)
  {
    if Settled(Everything(t), t.stored) {
      forall t', actions | SameView(t, t') && AllAnswered(actions)
        ensures CleanFrom(Everything(Run(t', actions)), |Everything(t')|)
      {
        SettledInEveryWorld(t, t', t.stored);
        AnsweredRunStaysClean(t', actions, |Everything(t')|);
      }
    } else {
      var w, actions := UnsettledReuses(t, ms);
      ReuseIsNotClean(w, actions);
    }
  }

  /**
   * The three conditions in every state of every run, unsafe restarts and deaths included: for polling
   * on and for any future, as to numbers already accepted, and for polling on with every broadcast
   * answered, as to all numbers.
   */
  lemma ReuseIsExact(sequence: u64, actions: seq<Action>, ms: seq<M.SignMsg>)
    requires WellFormed(actions) && |ms| == 3
    ensures var t := Run(Fresh(sequence), actions);
            && (t.alive ==>
                  (Settled(Everything(t), t.stored) <==>
                   forall t', more | SameView(t, t') && PollsOnly(more) :: !Reuses(t', more)))
            && (t.alive ==>
                  (Settled(Everything(t), t.stored) <==>
                   forall t', more | SameView(t, t') && AllAnswered(more) ::
                     CleanFrom(Everything(Run(t', more)), |Everything(t')|)))
            && (Settled(Everything(t), t.disk) <==>
                forall t', more | SameView(t, t') && WellFormed(more) :: !Reuses(t', more))
  {
    var t := Run(Fresh(sequence), actions);
    RunExtends(Fresh(sequence), actions);
    if t.alive {
      PollingSafeIffSettled(t, ms);
      PollingCleanIffSettled(t, ms);
    }
    RestartSafeIffSettled(t, ms);
  }

  // ---------------------------------------------------------------- how soon a number is reused

  ghost predicate UnresolvedIn(log: seq<Broadcast>, lo: int, hi: int) {
    exists i :: 0 <= i < |log| && Unresolved(log[i]) && lo <= log[i].sequence <= hi
  }

  ghost predicate UnresolvedUpTo(log: seq<Broadcast>, hi: int) {
    forall i :: 0 <= i < |log| && Unresolved(log[i]) ==> log[i].sequence <= hi
  }

  /** Either the file is up to date, or something unresolved is within reach of three attempts from it. */
  ghost predicate Near(t: Tx) {
    && t.disk <= t.stored
    && UnresolvedUpTo(Everything(t), t.stored + 2)
    && if Settled(Everything(t), t.disk) then t.stored == t.disk else UnresolvedIn(Everything(t), t.disk, t.disk + 2)
  }

  lemma UnresolvedInExtends(log: seq<Broadcast>, b: Broadcast, lo: int, hi: int)
    ensures UnresolvedIn(log, lo, hi) ==> UnresolvedIn(log + [b], lo, hi)
    ensures Unresolved(b) && lo <= b.sequence <= hi ==> UnresolvedIn(log + [b], lo, hi)
    ensures !Unresolved(b) ==> (Settled(log + [b], lo) <==> Settled(log, lo))
  {
    var log' := log + [b];
    if UnresolvedIn(log, lo, hi) {
      var i :| 0 <= i < |log| && Unresolved(log[i]) && lo <= log[i].sequence <= hi;
      assert log'[i] == log[i];
    }
    assert log'[|log|] == b;
    if Settled(log', lo) {
      assert forall i :: 0 <= i < |log| ==> log'[i] == log[i];
    }
  }

  /** A broadcast that was not answered, or that the process did not live to store. */
  lemma UnstoredStaysNear(t: Tx, t': Tx, b: Broadcast)
    requires Near(t) && Everything(t') == Everything(t) + [b] && t'.disk == t.disk && t.stored <= t'.stored
    requires Unresolved(b) && t.stored <= b.sequence <= t.stored + 2
    ensures Near(t')
  {
    var log, log' := Everything(t), Everything(t');
    assert log'[|log|] == b && forall i :: 0 <= i < |log| ==> log'[i] == log[i];
    UnresolvedInExtends(log, b, t.disk, t.disk + 2);
    assert !Settled(log', t.disk);
  }

  /** A broadcast that CheckTx turned down. */
  lemma RejectedStaysNear(t: Tx, t': Tx, b: Broadcast)
    requires Near(t) && Everything(t') == Everything(t) + [b] && t'.disk == t.disk && t'.stored == t.stored
    requires !Unresolved(b)
    ensures Near(t')
  {
    UnresolvedInExtends(Everything(t), b, t.disk, t.disk + 2);
  }

  /** A broadcast that CheckTx accepted and whose successor was written to the file. */
  lemma StoredStaysNear(t: Tx, t': Tx, b: Broadcast)
    requires Near(t) && Everything(t') == Everything(t) + [b] && t'.disk == t'.stored == b.sequence + 1
    requires t.stored <= b.sequence
    ensures Near(t')
  {
    var log, log' := Everything(t), Everything(t');
    assert log'[|log|] == b && forall i :: 0 <= i < |log| ==> log'[i] == log[i];
    if !Settled(log', t'.disk) {
      var i :| 0 <= i < |log'| && Unresolved(log'[i]) && t'.disk <= log'[i].sequence;
    }
  }

  lemma AttemptStaysNear(t: Tx, m: M.SignMsg, allowed: bool, sequence: u64, net: Net)
    requires Near(t) && t.alive && t.stored <= sequence <= t.stored + 2
    ensures Near(Attempt(t, m, allowed, sequence, net).0)
  {
    var t' := Attempt(t, m, allowed, sequence, net).0;
    if allowed && !net.KeyFails? && !net.DiesSigning? {
      var b := Broadcast(sequence, t.stored, m, NodeAccepts(net), net.Replies?);
      assert Everything(t') == Everything(t) + [b];
      if !Unresolved(b) {
        RejectedStaysNear(t, t', b);
      } else if t'.disk == t.disk {
        UnstoredStaysNear(t, t', b);
      } else {
        StoredStaysNear(t, t', b);
      }
    }
  }

  lemma {:induction false} RetryStaysNear(
    t: Tx, ms: seq<M.SignMsg>, allowed: bool, sequence: u64, nets: seq<Net>, n: u64)
    requires |ms| == |nets| && Near(t) && t.alive && n <= t.stored <= sequence + 1 && sequence + |ms| == n + 2
    ensures Near(Retry(t, ms, allowed, sequence, nets))
    decreases |ms|
  {
    if ms != [] && sequence != MAX_SEQUENCE {
      var (t1, outcome) := Attempt(t, ms[0], allowed, sequence + 1, nets[0]);
      AttemptAdvances(t, ms[0], allowed, sequence + 1, nets[0]);
      AttemptStaysNear(t, ms[0], allowed, sequence + 1, nets[0]);
      if outcome.Failed? {
        RetryStaysNear(t1, ms[1..], allowed, sequence + 1, nets[1..], n);
      }
    }
  }

  lemma PollStaysNear(t: Tx, ms: seq<M.SignMsg>, allowed: bool, nets: seq<Net>)
    requires |ms| == |nets| == 3 && Near(t)
    ensures Near(Poll(t, ms, allowed, nets))
  {
    if t.alive {
      var (t1, outcome) := Attempt(t, ms[0], allowed, t.stored, nets[0]);
      AttemptAdvances(t, ms[0], allowed, t.stored, nets[0]);
      AttemptStaysNear(t, ms[0], allowed, t.stored, nets[0]);
      if outcome.Failed? && !t.last.Response? {
        RetryStaysNear(t1, ms[1..], allowed, t.stored, nets[1..], t.stored);
      }
    }
  }

  /** Each restart of the run was safe. */
  ghost predicate SafeRestarts(t: Tx, actions: seq<Action>)
    requires WellFormed(actions)
    decreases |actions|
  {
    actions == [] || (&& (actions[0].RestartAction? ==> Settled(Everything(t), t.disk))
                      && SafeRestarts(Do(t, actions[0]), actions[1..]))
  }

  lemma {:induction false} RunStaysNear(t: Tx, actions: seq<Action>)
    requires WellFormed(actions) && Near(t) && SafeRestarts(t, actions)
    ensures Near(Run(t, actions))
    decreases |actions|
  {
    if actions != [] {
      match actions[0] {
        case PollAction(ms, allowed, nets) => PollStaysNear(t, ms, allowed, nets);
        case RestartAction => assert Everything(Restart(t)) == Everything(t);
      }
      RunStaysNear(Do(t, actions[0]), actions[1..]);
    }
  }

  /** `d` attempts without a reply, then one that goes well. */
  function FailThenAnswer(d: nat): seq<Net> {
    seq(3, i => if i < d then NoReply(false) else ALL_WELL)
  }

  predicate AnswersAt(nets: seq<Net>, d: nat) {
    d < |nets| && nets[d] == ALL_WELL && forall i :: 0 <= i < d ==> nets[i] == NoReply(false)
  }

  lemma {:induction false} RetryReaches(t: Tx, ms: seq<M.SignMsg>, sequence: u64, nets: seq<Net>, d: nat)
    requires |ms| == |nets| && AnswersAt(nets, d) && sequence + 1 + d <= MAX_SEQUENCE
    ensures var t' := Retry(t, ms, true, sequence, nets);
            && t'.earlier == t.earlier && t.sent <= t'.sent
            && |t'.sent| == |t.sent| + d + 1 && t'.sent[|t.sent| + d].sequence == sequence + 1 + d
    decreases d
  {
    if d > 0 {
      var (t', outcome) := Attempt(t, ms[0], true, sequence + 1, nets[0]);
      assert AnswersAt(nets[1..], d - 1);
      RetryReaches(t', ms[1..], sequence + 1, nets[1..], d - 1);
    }
  }

  lemma PollReaches(t: Tx, ms: seq<M.SignMsg>, d: nat)
    requires |ms| == 3 && d <= 2 && t.alive && t.last == NoTx && t.sent == [] && t.stored + d <= MAX_SEQUENCE
    ensures var t' := Poll(t, ms, true, FailThenAnswer(d));
            t'.earlier == t.earlier && d < |t'.sent| && t'.sent[d].sequence == t.stored + d
  {
    var nets := FailThenAnswer(d);
    if d > 0 {
      var (t1, outcome) := Attempt(t, ms[0], true, t.stored, nets[0]);
      assert AnswersAt(nets[1..], d - 1);
      RetryReaches(t1, ms[1..], t.stored, nets[1..], d - 1);
    }
  }

  /** After any run whose restarts were safe, an unsafe one may reuse a number in the very next poll. */
  lemma UnsafeRestartReusesAtOnce(sequence: u64, actions: seq<Action>, ms: seq<M.SignMsg>)
    returns (w: Tx, nets: seq<Net>)
    requires WellFormed(actions) && SafeRestarts(Fresh(sequence), actions) && |ms| == 3
    requires !Settled(Everything(Run(Fresh(sequence), actions)), Run(Fresh(sequence), actions).disk)
    ensures SameView(Run(Fresh(sequence), actions), w) && |nets| == 3
    ensures Reuses(w, [RestartAction, PollAction(ms, true, nets)])
  {
    var t := Run(Fresh(sequence), actions);
    RunStaysNear(Fresh(sequence), actions);
    var log := Everything(t);
    var i :| 0 <= i < |log| && Unresolved(log[i]) && t.disk <= log[i].sequence <= t.disk + 2;
    w := Worst(t);
    var d := log[i].sequence - t.disk;
    nets := FailThenAnswer(d);
    PollReaches(Restart(w), ms, d);
    var poll := PollAction(ms, true, nets);
    assert [RestartAction, poll][1..] == [poll] && [poll][1..] == [];
    var t' := Poll(Restart(w), ms, true, nets);
    assert Run(w, [RestartAction, poll]) == t' by {
      assert Run(Restart(w), [poll]) == Run(t', []);
    }
    assert Everything(w)[i].accepted && Everything(w)[i].sequence == log[i].sequence;
    assert Spent(Everything(w), log[i].sequence);
    assert Everything(t')[|Everything(w)| + d] == t'.sent[d];
  }

  // ---------------------------------------------------------------- the ways a number gets reused

  lemma TwoActions(t: Tx, a: Action, b: Action)
    requires ProperAction(a) && ProperAction(b)
    ensures Run(t, [a, b]) == Do(Do(t, a), b)
  {
    assert [a, b][1..] == [b] && [b][1..] == [];
    assert Run(Do(t, a), [b]) == Run(Do(Do(t, a), b), []);
  }

  lemma ThreeActions(t: Tx, a: Action, b: Action, c: Action)
    requires ProperAction(a) && ProperAction(b) && ProperAction(c)
    ensures Run(t, [a, b, c]) == Do(Do(Do(t, a), b), c)
  {
    assert [a, b, c][1..] == [b, c];
    TwoActions(Do(t, a), b, c);
  }

  /**
   * The node accepts, the reply is lost, and the same process broadcasts the number again. Closer to
   * the limit the retries overflow and end the process first.
   */
  lemma LostReplyReuses(sequence: u64, ms: seq<M.SignMsg>)
    requires |ms| == 3 && sequence + 2 <= MAX_SEQUENCE
    ensures var lost := PollAction(ms, true, [NoReply(true), KeyFails, KeyFails]);
            var log := Everything(Run(Fresh(sequence), [lost, GoodPoll(ms)]));
            |log| == 2 && log[0].accepted && log[0].sequence == log[1].sequence == sequence
  {
    var lost := PollAction(ms, true, [NoReply(true), KeyFails, KeyFails]);
    TwoActions(Fresh(sequence), lost, GoodPoll(ms));
    var (t, _) := Attempt(Fresh(sequence), ms[0], true, sequence, NoReply(true));
    var nets: seq<Net> := [KeyFails, KeyFails];
    assert nets[1..] == [KeyFails];
    assert Retry(t, ms[1..][1..], true, sequence + 1, nets[1..]) == t by {
      assert Retry(t, ms[1..][1..][1..], true, sequence + 2, nets[1..][1..]) == t;
    }
    assert lost.nets[1..] == nets;
    assert Do(Fresh(sequence), lost) == t;
  }

  /** What may happen to an accepted transaction so that the file keeps its number. */
  predicate LeavesFile(net: Net, sequence: u64) {
    || net == NoReply(true)
    || net == DiesWaiting(true)
    || (net.Replies? && net.checkOk && (net.write.Fails? || net.write.DiesBefore? || sequence == MAX_SEQUENCE))
  }

  /**
   * One accepted broadcast followed by a restart and another poll: the number goes out again exactly
   * when the first attempt left the file as it was. The process dying before the write is enough, with
   * every write there ever was completed; so is a counter at its limit, where no write is attempted.
   */
  lemma RestartReusesIffFileLeft(sequence: u64, ms: seq<M.SignMsg>, net: Net)
    requires |ms| == 3 && NodeAccepts(net)
    ensures var first := PollAction(ms, true, [net, KeyFails, KeyFails]);
            var log := Everything(Run(Fresh(sequence), [first, RestartAction, GoodPoll(ms)]));
            && |log| == 2 && log[0].accepted && log[0].sequence == sequence
            && (log[1].sequence == sequence <==> LeavesFile(net, sequence))
  {
    var first := PollAction(ms, true, [net, KeyFails, KeyFails]);
    ThreeActions(Fresh(sequence), first, RestartAction, GoodPoll(ms));
    AcceptedOnce(sequence, ms, net);
    GoodPollSends(Restart(Do(Fresh(sequence), first)), ms);
  }

  lemma GoodPollSends(t: Tx, ms: seq<M.SignMsg>)
    requires |ms| == 3 && t.alive
    ensures var t' := Do(t, GoodPoll(ms));
            t'.earlier == t.earlier && t'.sent == t.sent + [Broadcast(t.stored, t.stored, ms[0], true, true)]
  {
  }

  lemma AcceptedOnce(sequence: u64, ms: seq<M.SignMsg>, net: Net)
    requires |ms| == 3 && NodeAccepts(net)
    ensures var t := Do(Fresh(sequence), PollAction(ms, true, [net, KeyFails, KeyFails]));
            && t.earlier == [] && t.sent == [Broadcast(sequence, sequence, ms[0], true, net.Replies?)]
            && (t.disk == sequence <==> LeavesFile(net, sequence))
  {
    var nets: seq<Net> := [net, KeyFails, KeyFails];
    var (t, _) := Attempt(Fresh(sequence), ms[0], true, sequence, net);
    NoKeyNoBroadcast(t, ms[1..], sequence, nets[1..]);
  }

  /** Retries that cannot sign change nothing but, at the limit, end the process. */
  lemma {:induction false} NoKeyNoBroadcast(t: Tx, ms: seq<M.SignMsg>, sequence: u64, nets: seq<Net>)
    requires |ms| == |nets| && forall i :: 0 <= i < |nets| ==> nets[i].KeyFails?
    ensures var t' := Retry(t, ms, true, sequence, nets); t'.(alive := t.alive) == t
    decreases |ms|
  {
    if ms != [] && sequence != MAX_SEQUENCE {
      NoKeyNoBroadcast(t, ms[1..], sequence + 1, nets[1..]);
    }
  }
}
