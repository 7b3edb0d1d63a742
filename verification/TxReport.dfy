/**
 * What exactly one polling call of the transaction signer does, in closed form: which of its three
 * attempts are made and broadcast, what is stored, and what is remembered (src/tx_signer.rs).
 */
module TxReport {
  import opened Base
  import opened TxSequence
  import M = SignMsg

  /** The transaction is broadcast. */
  predicate GoesOut(allowed: bool, net: Net) {
    allowed && !net.KeyFails? && !net.DiesSigning?
  }

  /** The signer hears that CheckTx accepted. */
  predicate Heard(allowed: bool, net: Net) {
    allowed && net.Replies? && net.checkOk
  }

  /** The attempt fails and the process lives on. */
  predicate FailsAlive(allowed: bool, sequence: int, net: Net) {
    || !allowed || net.KeyFails? || net.NoReply?
    || (net.Replies? && !net.checkOk)
    || (net.Replies? && sequence < MAX_SEQUENCE && (net.write.Fails? || (net.write.Completes? && !net.deliverOk)))
  }

  /** The process ends in the attempt. */
  predicate EndsIn(allowed: bool, sequence: int, net: Net) {
    && allowed
    && (|| net.DiesSigning? || net.DiesWaiting?
        || (net.Replies? && net.checkOk && (sequence >= MAX_SEQUENCE || net.write.DiesBefore? || net.write.DiesAfter?)))
  }

  /** The next number reaches the file. */
  predicate Writes(allowed: bool, sequence: int, net: Net) {
    Heard(allowed, net) && sequence < MAX_SEQUENCE && (net.write.Completes? || net.write.DiesAfter?)
  }

  /** What the signer remembers of the last transaction: a response of either kind, or an error. */
  function LastAfter(last: LastTx, allowed: bool, net: Net): LastTx {
    if !GoesOut(allowed, net) then last
    else match net
      case NoReply(_) => Error
      case Replies(_, _, _) => Response
      case _ => last
  }

  /** The first attempt failed, and the last transaction before it had not got a response. */
  predicate RetryDue(t: Tx, allowed: bool, nets: seq<Net>)
    requires |nets| == 3
  {
    FailsAlive(allowed, t.stored, nets[0]) && t.last != Response
  }

  predicate SecondTried(t: Tx, allowed: bool, nets: seq<Net>)
    requires |nets| == 3
  {
    RetryDue(t, allowed, nets) && t.stored < MAX_SEQUENCE
  }

  predicate ThirdTried(t: Tx, allowed: bool, nets: seq<Net>)
    requires |nets| == 3
  {
    SecondTried(t, allowed, nets) && FailsAlive(allowed, t.stored + 1, nets[1]) && t.stored + 1 < MAX_SEQUENCE
  }

  /** A retry is due, but the number cannot grow. */
  predicate Overflows(t: Tx, allowed: bool, nets: seq<Net>)
    requires |nets| == 3
  {
    || (RetryDue(t, allowed, nets) && t.stored == MAX_SEQUENCE)
    || (SecondTried(t, allowed, nets) && FailsAlive(allowed, t.stored + 1, nets[1]) && t.stored + 1 == MAX_SEQUENCE)
  }

  predicate AllFail(t: Tx, allowed: bool, nets: seq<Net>)
    requires |nets| == 3
  {
    ThirdTried(t, allowed, nets) && FailsAlive(allowed, t.stored + 2, nets[2])
  }

  /** What goes out in one attempt. */
  function Out(tried: bool, allowed: bool, net: Net, sequence: int, stored: u64, m: M.SignMsg): seq<Broadcast>
    requires tried ==> 0 <= sequence < TWO_64
  {
    if tried && GoesOut(allowed, net) then [Broadcast(sequence, stored, m, NodeAccepts(net), net.Replies?)] else []
  }

  /** The number in memory when the second and the third attempt are made. */
  function StoredBeforeSecond(t: Tx, allowed: bool, nets: seq<Net>): int
    requires |nets| == 3
  {
    if Heard(allowed, nets[0]) && t.stored < MAX_SEQUENCE then t.stored + 1 else t.stored
  }

  function StoredBeforeThird(t: Tx, allowed: bool, nets: seq<Net>): int
    requires |nets| == 3
  {
    if SecondTried(t, allowed, nets) && Heard(allowed, nets[1]) && t.stored + 1 < MAX_SEQUENCE then t.stored + 2
    else StoredBeforeSecond(t, allowed, nets)
  }

  /**
   * One polling call, spelled out: which of the three messages go out at which number, what is then
   * stored in memory and on disk, what is remembered of the last transaction, and whether the process
   * lives. A second attempt is made exactly if the first failed, the process lives, the last
   * transaction before the call had not got a response, and the number can still grow.
   */
  ghost predicate Reported(t: Tx, t': Tx, ms: seq<M.SignMsg>, allowed: bool, nets: seq<Net>)
    requires |ms| == |nets| == 3
  {
    var (n, second, third) := (t.stored, SecondTried(t, allowed, nets), ThirdTried(t, allowed, nets));
    var (stored1, stored2) := (StoredBeforeSecond(t, allowed, nets), StoredBeforeThird(t, allowed, nets));
    && t'.earlier == t.earlier
    && t'.sent == t.sent + (Out(true, allowed, nets[0], n, n, ms[0]) +
                            Out(second, allowed, nets[1], n + 1, stored1, ms[1]) +
                            Out(third, allowed, nets[2], n + 2, stored2, ms[2]))
    && t'.stored == (if third && Heard(allowed, nets[2]) && n + 2 < MAX_SEQUENCE then n + 3 else stored2)
    && t'.disk == (if third && Writes(allowed, n + 2, nets[2]) then n + 3
                   else if second && Writes(allowed, n + 1, nets[1]) then n + 2
                   else if Writes(allowed, n, nets[0]) then n + 1
                   else t.disk)
    && t'.last == (var last1 := LastAfter(t.last, allowed, nets[0]);
                   var last2 := if second then LastAfter(last1, allowed, nets[1]) else last1;
                   if third then LastAfter(last2, allowed, nets[2]) else last2)
    && (t'.alive <==>
        && !EndsIn(allowed, n, nets[0])
        && !(second && EndsIn(allowed, n + 1, nets[1]))
        && !(third && EndsIn(allowed, n + 2, nets[2]))
        && !Overflows(t, allowed, nets))
  }

  /** One attempt, spelled out. */
  lemma AttemptReported(t: Tx, m: M.SignMsg, allowed: bool, sequence: u64, net: Net)
    ensures var (t', outcome) := Attempt(t, m, allowed, sequence, net);
            && t'.earlier == t.earlier
            && t'.sent == t.sent + Out(true, allowed, net, sequence, t.stored, m)
            && t'.stored == (if Heard(allowed, net) && sequence < MAX_SEQUENCE then sequence + 1 else t.stored)
            && t'.disk == (if Writes(allowed, sequence, net) then sequence + 1 else t.disk)
            && t'.last == LastAfter(t.last, allowed, net)
            && (t'.alive <==> t.alive && !EndsIn(allowed, sequence, net))
            && (outcome.Failed? <==> FailsAlive(allowed, sequence, net))
            && (outcome.Ended? <==> EndsIn(allowed, sequence, net))
  {
  }

  /** An attempt that may not be made. */
  function Step(tried: bool, t: Tx, m: M.SignMsg, allowed: bool, sequence: int, net: Net): Tx
    requires tried ==> 0 <= sequence < TWO_64
  {
    if tried then Attempt(t, m, allowed, sequence, net).0 else t
  }

  /** What such an attempt does. */
  ghost predicate Does(tried: bool, t: Tx, t': Tx, m: M.SignMsg, allowed: bool, sequence: int, net: Net)
    requires tried ==> 0 <= sequence < TWO_64
  {
    && t'.earlier == t.earlier
    && t'.sent == t.sent + Out(tried, allowed, net, sequence, t.stored, m)
    && t'.stored == (if tried && Heard(allowed, net) && sequence < MAX_SEQUENCE then sequence + 1 else t.stored)
    && t'.disk == (if tried && Writes(allowed, sequence, net) then sequence + 1 else t.disk)
    && t'.last == (if tried then LastAfter(t.last, allowed, net) else t.last)
    && (t'.alive <==> t.alive && !(tried && EndsIn(allowed, sequence, net)))
  }

  lemma StepDoes(tried: bool, t: Tx, m: M.SignMsg, allowed: bool, sequence: int, net: Net) returns (t': Tx)
    requires tried ==> 0 <= sequence < TWO_64
    ensures t' == Step(tried, t, m, allowed, sequence, net)
    ensures Does(tried, t, t', m, allowed, sequence, net)
  {
    t' := Step(tried, t, m, allowed, sequence, net);
    if tried {
      AttemptReported(t, m, allowed, sequence, net);
    }
  }

  /** One retry; the addition panics at the limit. */
  function Next(t: Tx, m: M.SignMsg, allowed: bool, sequence: u64, net: Net): (Tx, Outcome) {
    if sequence == MAX_SEQUENCE then (t.(alive := false), Ended) else Attempt(t, m, allowed, sequence + 1, net)
  }

  lemma TwoRetries(t: Tx, ms: seq<M.SignMsg>, allowed: bool, sequence: u64, nets: seq<Net>)
    requires |ms| == |nets| == 3
    ensures var (t1, o) := Next(t, ms[1], allowed, sequence, nets[1]);
            Retry(t, ms[1..], allowed, sequence, nets[1..]) ==
            if o.Failed? && sequence < MAX_SEQUENCE then Next(t1, ms[2], allowed, sequence + 1, nets[2]).0 else t1
  {
    var (t1, o) := Next(t, ms[1], allowed, sequence, nets[1]);
    if o.Failed? {
      assert ms[1..][1..] == [ms[2]] && nets[1..][1..] == [nets[2]];
      var t2 := Next(t1, ms[2], allowed, sequence + 1, nets[2]).0;
      assert Retry(t1, [ms[2]], allowed, sequence + 1, [nets[2]]) == t2;
    }
  }

  /** How the two retries end. */
  lemma RetriesEnd(t: Tx, ms: seq<M.SignMsg>, allowed: bool, sequence: u64, nets: seq<Net>)
    requires |ms| == |nets| == 3 && t.alive
    ensures var (t1, o1) := Next(t, ms[1], allowed, sequence, nets[1]);
            && (o1.Ended? <==> !t1.alive)
            && (o1.Failed? && sequence < MAX_SEQUENCE ==>
                  var (t2, o2) := Next(t1, ms[2], allowed, sequence + 1, nets[2]);
                  (o2.Ended? <==> !t2.alive) && (o2.Failed? <==> BothFail(allowed, sequence, nets)))
            && (!o1.Failed? ==> !BothFail(allowed, sequence, nets))
  {
    if sequence < MAX_SEQUENCE {
      var (t1, _) := Next(t, ms[1], allowed, sequence, nets[1]);
      AttemptReported(t, ms[1], allowed, sequence + 1, nets[1]);
      if sequence + 1 < MAX_SEQUENCE {
        AttemptReported(t1, ms[2], allowed, sequence + 2, nets[2]);
      }
    }
  }

  predicate BothFail(allowed: bool, sequence: u64, nets: seq<Net>)
    requires |nets| == 3
  {
    && sequence + 1 < MAX_SEQUENCE
    && FailsAlive(allowed, sequence + 1, nets[1]) && FailsAlive(allowed, sequence + 2, nets[2])
  }

  lemma PollInSteps(t: Tx, t1: Tx, t2: Tx, t3: Tx, ms: seq<M.SignMsg>, allowed: bool, nets: seq<Net>)
    requires |ms| == |nets| == 3 && t.alive
    requires t1 == Step(true, t, ms[0], allowed, t.stored, nets[0])
    requires t2 == Step(SecondTried(t, allowed, nets), t1, ms[1], allowed, t.stored + 1, nets[1])
    requires t3 == Step(ThirdTried(t, allowed, nets), t2, ms[2], allowed, t.stored + 2, nets[2])
    ensures Poll(t, ms, allowed, nets) == if Overflows(t, allowed, nets) then t3.(alive := false) else t3
  {
    AttemptReported(t, ms[0], allowed, t.stored, nets[0]);
    if RetryDue(t, allowed, nets) {
      TwoRetries(t1, ms, allowed, t.stored, nets);
      assert Poll(t, ms, allowed, nets) == Retry(t1, ms[1..], allowed, t.stored, nets[1..]);
      if t.stored < MAX_SEQUENCE {
        AttemptReported(t1, ms[1], allowed, t.stored + 1, nets[1]);
      }
    } else {
      assert Poll(t, ms, allowed, nets) == t1 == t2 == t3;
    }
  }

  lemma ReportJoins(t: Tx, t1: Tx, t2: Tx, t3: Tx, ms: seq<M.SignMsg>, allowed: bool, nets: seq<Net>)
    requires |ms| == |nets| == 3 && t.alive
    requires Does(true, t, t1, ms[0], allowed, t.stored, nets[0])
    requires Does(SecondTried(t, allowed, nets), t1, t2, ms[1], allowed, t.stored + 1, nets[1])
    requires Does(ThirdTried(t, allowed, nets), t2, t3, ms[2], allowed, t.stored + 2, nets[2])
    ensures Reported(t, if Overflows(t, allowed, nets) then t3.(alive := false) else t3, ms, allowed, nets)
  {
    assert t1.stored == StoredBeforeSecond(t, allowed, nets);
    assert t2.stored == StoredBeforeThird(t, allowed, nets);
  }

  lemma PollReported(t: Tx, ms: seq<M.SignMsg>, allowed: bool, nets: seq<Net>)
    requires |ms| == |nets| == 3 && t.alive
    ensures Reported(t, Poll(t, ms, allowed, nets), ms, allowed, nets)
  {
    var t1 := StepDoes(true, t, ms[0], allowed, t.stored, nets[0]);
    var t2 := StepDoes(SecondTried(t, allowed, nets), t1, ms[1], allowed, t.stored + 1, nets[1]);
    var t3 := StepDoes(ThirdTried(t, allowed, nets), t2, ms[2], allowed, t.stored + 2, nets[2]);
    PollInSteps(t, t1, t2, t3, ms, allowed, nets);
    ReportJoins(t, t1, t2, t3, ms, allowed, nets);
  }

  /** Some new broadcast has this number. */
  ghost predicate SentAt(t: Tx, t': Tx, sequence: int) {
    exists i :: |t.sent| <= i < |t'.sent| && t'.sent[i].sequence == sequence
  }

  /**
   * The rule of the speculative retries: the next number goes out exactly if the first attempt failed
   * in a living process, the last transaction before the call had not got a response, and the key
   * signs; the number after that exactly if the second attempt failed too. After a response nothing is
   * sent but the first attempt.
   */
  lemma RetriesExactly(t: Tx, ms: seq<M.SignMsg>, allowed: bool, nets: seq<Net>)
    requires |ms| == |nets| == 3 && t.alive
    ensures var t' := Poll(t, ms, allowed, nets);
            && (SentAt(t, t', t.stored) <==> GoesOut(allowed, nets[0]))
            && (SentAt(t, t', t.stored + 1) <==>
                && t.last != Response && FailsAlive(allowed, t.stored, nets[0]) && t.stored < MAX_SEQUENCE
                && GoesOut(allowed, nets[1]))
            && (SentAt(t, t', t.stored + 2) <==>
                && t.last != Response && FailsAlive(allowed, t.stored, nets[0])
                && FailsAlive(allowed, t.stored + 1, nets[1]) && t.stored + 1 < MAX_SEQUENCE
                && GoesOut(allowed, nets[2]))
            && (t.last == Response ==> |t'.sent| <= |t.sent| + 1)
  {
    PollReported(t, ms, allowed, nets);
    var t' := Poll(t, ms, allowed, nets);
    var (second, third) := (SecondTried(t, allowed, nets), ThirdTried(t, allowed, nets));
    var x := Out(true, allowed, nets[0], t.stored, t.stored, ms[0]);
    var y := Out(second, allowed, nets[1], t.stored + 1, StoredBeforeSecond(t, allowed, nets), ms[1]);
    var z := Out(third, allowed, nets[2], t.stored + 2, StoredBeforeThird(t, allowed, nets), ms[2]);
    NewNumbers(t, t', x, y, z, t.stored);
  }

  lemma NewNumbers(t: Tx, t': Tx, x: seq<Broadcast>, y: seq<Broadcast>, z: seq<Broadcast>, n: int)
    requires t'.sent == t.sent + (x + y + z) && |x| <= 1 && |y| <= 1 && |z| <= 1
    requires (x != [] ==> x[0].sequence == n) && (y != [] ==> y[0].sequence == n + 1)
    requires z != [] ==> z[0].sequence == n + 2
    ensures SentAt(t, t', n) <==> x != []
    ensures SentAt(t, t', n + 1) <==> y != []
    ensures SentAt(t, t', n + 2) <==> z != []
  {
    if x != [] {
      assert t'.sent[|t.sent|] == x[0];
    }
    if y != [] {
      assert t'.sent[|t.sent| + |x|] == y[0];
    }
    if z != [] {
      assert t'.sent[|t.sent| + |x| + |y|] == z[0];
    }
  }
}
