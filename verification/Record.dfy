/**
 * The double-sign record of one chain: what is in memory, what is on disk, and the history
 * of every state that was ever accepted into memory. Updates, failed disk writes, crashes,
 * reloads and height hooks are transitions of this record.
 */
module Record {
  import opened Base
  import opened Consensus

  /** A state that passed the check; `synced` says whether the write to disk succeeded too. */
  datatype Entry = Entry(state: State, synced: bool)

  /**
   * `mem` is absent while the process is down; `disk` is absent before the state file is first
   * written. `log` is history: it survives crashes and no operation reads it.
   */
  datatype Record = Record(mem: Option<State>, disk: Option<State>, log: seq<Entry>)

  /** What a configured state hook did at start-up. */
  datatype Hook = NoHook | Failed(failClosed: bool) | Output(height: nat)

  const BLOCK_HEIGHT_SANITY_LIMIT := 9000

  /** A granted entry: accepted and durable, so its message may be signed. */
  predicate Granted(log: seq<Entry>, i: int) {
    0 <= i < |log| && log[i].synced
  }

  // ---------------------------------------------------------------- transitions

  /** `State::update_consensus_state`: check, overwrite memory, then write the file. */
  function Update(r: Record, next: State, syncOk: bool): Record
    requires r.mem.Some?
  {
    if Check(r.mem.value, next).Some? then r
    else
      r.(mem := Some(next),
         disk := if syncOk then Some(next) else r.disk,
         log := r.log + [Entry(next, syncOk)])
  }

  /** What `update_consensus_state` returns to the session. */
  function UpdateError(mem: State, next: State, syncOk: bool): Option<StateError> {
    var e := Check(mem, next);
    if e.Some? then e else if syncOk then None else Some(SyncError)
  }

  /** `State::update_from_hook_output`: jump to the hook's height, in memory only, never back and never far. */
  function AfterHook(s: State, height: nat): (s': State)
    ensures s' != s <==> s.height < height < s.height + 9000
    ensures s' != s ==> s'.height == height && s'.round == 0 && s'.step == 0 && s'.blockId.None? && EarlierRound(s, s')
    ensures Covers(s, s')
  {
    if height > s.height && height - s.height < BLOCK_HEIGHT_SANITY_LIMIT
    then State(height, 0, 0, None)
    else s
  }

  /** Does `Chain::from_config` come up? It does not if a hook fails closed or the first write fails. */
  predicate Boots(r: Record, hook: Hook, syncOk: bool) {
    (r.disk.None? ==> syncOk) && (hook.Failed? ==> !hook.failClosed)
  }

  /**
   * `Chain::from_config`: read the file, or create it with the initial state, then apply the hook.
   * The file stays created even if the hook then fails closed.
   */
  function Boot(r: Record, hook: Hook, syncOk: bool): Record {
    var disk := if r.disk.None? && syncOk then Some(INITIAL) else r.disk;
    if !Boots(r, hook, syncOk) then r.(disk := disk)
    else
      var s := disk.value;
      r.(disk := disk, mem := Some(if hook.Output? then AfterHook(s, hook.height) else s))
  }

  function Crash(r: Record): Record {
    r.(mem := None)
  }

  // ---------------------------------------------------------------- the inductive invariant

  /** In the granted entry's round, a state at a later step was itself accepted after that entry. */
  ghost predicate AcceptedSince(log: seq<Entry>, i: nat, s: State)
    requires i < |log|
  {
    SameRound(log[i].state, s) && log[i].state.step < s.step ==>
      exists k :: i < k < |log| && log[k].state == s
  }

  /** Strictly between entry `i` and position `s` of the same round, nil was accepted. */
  ghost predicate NilBetween(log: seq<Entry>, i: nat, s: State)
    requires i < |log|
  {
    exists k :: i < k < |log| && NilStep(log[i].state, log[k].state, s)
  }

  predicate NilStep(a: State, m: State, s: State) {
    m.blockId.None? && SameRound(a, m) && a.step < m.step < s.step
  }

  /** A conflict with the granted entry in its own round is separated from it by an accepted nil. */
  ghost predicate ConflictNeedsNil(log: seq<Entry>, i: nat, s: State)
    requires i < |log|
  {
    SameRound(log[i].state, s) && Conflicting(log[i].state, s) ==> NilBetween(log, i, s)
  }

  /** How a state held in memory or on disk relates to a granted entry. */
  ghost predicate Remembers(log: seq<Entry>, i: nat, s: State)
    requires i < |log|
  {
    Covers(log[i].state, s) && AcceptedSince(log, i, s) && ConflictNeedsNil(log, i, s)
  }

  ghost predicate RemembersAll(log: seq<Entry>, s: State) {
    forall i :: Granted(log, i) ==> Remembers(log, i, s)
  }

  /** Every two granted entries are ordered as they were granted, and agree. */
  ghost predicate GrantsConsistent(log: seq<Entry>) {
    forall i, j :: Granted(log, i) && Granted(log, j) && i < j ==>
      Covers(log[i].state, log[j].state) && ConflictNeedsNil(log[..j], i, log[j].state)
  }

  ghost predicate Inv(r: Record) {
    && (r.mem.Some? ==> r.disk.Some? && Covers(r.disk.value, r.mem.value))
    && (r.mem.Some? ==> RemembersAll(r.log, r.mem.value))
    && (r.disk.Some? ==> RemembersAll(r.log, r.disk.value))
    && (r.disk.None? ==> forall i :: !Granted(r.log, i))
    && GrantsConsistent(r.log)
  }

  // ---------------------------------------------------------------- preservation

  lemma RemembersExtends(log: seq<Entry>, e: Entry, i: nat, s: State)
    requires i < |log| && Remembers(log, i, s)
    ensures Remembers(log + [e], i, s)
  {
    var log' := log + [e];
    if SameRound(log[i].state, s) && log[i].state.step < s.step {
      var k :| i < k < |log| && log[k].state == s;
      assert log'[k].state == s;
    }
    if SameRound(log[i].state, s) && Conflicting(log[i].state, s) {
      var k :| i < k < |log| && NilStep(log[i].state, log[k].state, s);
      assert NilStep(log'[i].state, log'[k].state, s);
    }
  }

  /** The step from one record to the next keeps faith with an older grant. */
  lemma AcceptKeepsConflictNeedsNil(log: seq<Entry>, i: nat, mem: State, next: State)
    requires i < |log| && Remembers(log, i, mem) && Admissible(mem, next)
    ensures ConflictNeedsNil(log, i, next)
  {
  }

  lemma AcceptRemembers(log: seq<Entry>, i: nat, mem: State, next: State, synced: bool)
    requires i < |log| && Remembers(log, i, mem) && Admissible(mem, next)
    ensures Covers(log[i].state, next)
    ensures ConflictNeedsNil(log, i, next)
    ensures Remembers(log + [Entry(next, synced)], i, next)
  {
    AdmissibleCovers(mem, next);
    CoversTransitive(log[i].state, mem, next);
    AcceptKeepsConflictNeedsNil(log, i, mem, next);
    var log' := log + [Entry(next, synced)];
    assert log'[|log|].state == next;
    if SameRound(log[i].state, next) && Conflicting(log[i].state, next) {
      var k :| i < k < |log| && NilStep(log[i].state, log[k].state, next);
      assert NilStep(log'[i].state, log'[k].state, next);
    }
  }

  lemma UpdateRemembers(r: Record, next: State, syncOk: bool)
    requires Inv(r) && r.mem.Some? && Admissible(r.mem.value, next)
    ensures RemembersAll(r.log + [Entry(next, syncOk)], next)
    ensures !syncOk ==> RemembersAll(r.log + [Entry(next, syncOk)], r.disk.value)
  {
    var e := Entry(next, syncOk);
    var log' := r.log + [e];
    forall i | Granted(log', i)
      ensures Remembers(log', i, next)
      ensures !syncOk ==> Remembers(log', i, r.disk.value)
    {
      if i < |r.log| {
        assert Granted(r.log, i);
        AcceptRemembers(r.log, i, r.mem.value, next, syncOk);
        RemembersExtends(r.log, e, i, r.disk.value);
      }
    }
  }

  lemma UpdateGrantsConsistent(r: Record, next: State, syncOk: bool)
    requires Inv(r) && r.mem.Some? && Admissible(r.mem.value, next)
    ensures GrantsConsistent(r.log + [Entry(next, syncOk)])
  {
    var log' := r.log + [Entry(next, syncOk)];
    forall i, j | Granted(log', i) && Granted(log', j) && i < j
      ensures Covers(log'[i].state, log'[j].state) && ConflictNeedsNil(log'[..j], i, log'[j].state)
    {
      assert Granted(r.log, i);
      if j < |r.log| {
        assert Granted(r.log, j);
        assert log'[..j] == r.log[..j];
      } else {
        assert log'[..j] == r.log;
        AcceptRemembers(r.log, i, r.mem.value, next, syncOk);
      }
    }
  }

  /** Granting, refusing and failing to sync all keep the invariant. */
  lemma UpdateInv(r: Record, next: State, syncOk: bool)
    requires Inv(r) && r.mem.Some?
    ensures Inv(Update(r, next, syncOk))
  {
    if Check(r.mem.value, next).None? {
      AdmissibleCovers(r.mem.value, next);
      CoversTransitive(r.disk.value, r.mem.value, next);
      UpdateRemembers(r, next, syncOk);
      UpdateGrantsConsistent(r, next, syncOk);
    }
  }

  /** Reloading from disk, with or without a hook whose jump is never written, keeps it too. */
  lemma BootInv(r: Record, hook: Hook, syncOk: bool)
    requires Inv(r)
    ensures Inv(Boot(r, hook, syncOk))
  {
  }

  /** A hook may also be applied while memory is ahead of the disk. */
  lemma HookInv(r: Record, height: nat)
    requires Inv(r) && r.mem.Some?
    ensures Inv(r.(mem := Some(AfterHook(r.mem.value, height))))
  {
    var s := AfterHook(r.mem.value, height);
    CoversTransitive(r.disk.value, r.mem.value, s);
    forall i | Granted(r.log, i) ensures Remembers(r.log, i, s) {
      assert Remembers(r.log, i, r.mem.value);
    }
  }

  lemma CrashInv(r: Record)
    requires Inv(r)
    ensures Inv(Crash(r))
  {
  }

  // ---------------------------------------------------------------- consequences

  /** Grants follow the order of their positions, across every crash and restart. */
  lemma GrantsInOrder(r: Record, i: nat, j: nat)
    requires Inv(r) && Granted(r.log, i) && Granted(r.log, j) && i <= j
    ensures Covers(r.log[i].state, r.log[j].state)
  {
  }

  /** No two grants at one height, round and step name different blocks (nil included). */
  lemma NoDoubleGrant(r: Record, i: nat, j: nat)
    requires Inv(r) && Granted(r.log, i) && Granted(r.log, j)
    requires SamePosition(r.log[i].state, r.log[j].state)
    ensures r.log[i].state == r.log[j].state
  {
  }

  /** Everything granted is at or below the disk, and the disk at or below memory. */
  lemma GrantsArePersisted(r: Record, i: nat)
    requires Inv(r) && Granted(r.log, i)
    ensures r.disk.Some? && Covers(r.log[i].state, r.disk.value)
    ensures r.mem.Some? ==> Covers(r.disk.value, r.mem.value) && Covers(r.log[i].state, r.mem.value)
  {
  }

  /**
   * One record stands in for the whole history: what passes the check against it
   * contradicts nothing ever granted, however many crashes lie in between.
   */
  lemma LastRecordSuffices(r: Record, next: State, i: nat)
    requires Inv(r) && r.mem.Some? && Check(r.mem.value, next).None? && Granted(r.log, i)
    ensures Covers(r.log[i].state, next)
    ensures SamePosition(r.log[i].state, next) ==> r.log[i].state == next
  {
  }

  /** Adjacent steps of a round (proposal and prevote, prevote and precommit) never name two blocks. */
  lemma AdjacentStepsAgree(r: Record, i: nat, j: nat)
    requires Inv(r) && Granted(r.log, i) && Granted(r.log, j)
    requires SameRound(r.log[i].state, r.log[j].state)
    requires -1 <= r.log[i].state.step - r.log[j].state.step <= 1
    ensures !Conflicting(r.log[i].state, r.log[j].state)
  {
  }

  /**
   * A proposal (step 0) and a precommit (step 2) of one round name two blocks only if the record
   * accepted a nil prevote between the two grants.
   */
  lemma ConflictCrossesNilPrevote(r: Record, i: nat, j: nat) returns (k: nat)
    requires Inv(r) && Granted(r.log, i) && Granted(r.log, j)
    requires SameRound(r.log[i].state, r.log[j].state)
    requires r.log[i].state.step == 0 && r.log[j].state.step == 2
    requires Conflicting(r.log[i].state, r.log[j].state)
    ensures i < k < j
    ensures r.log[k].state == r.log[i].state.(step := 1, blockId := None)
  {
    if j <= i {
      GrantsInOrder(r, j, i);
    }
    assert ConflictNeedsNil(r.log[..j], i, r.log[j].state);
    k :| i < k < j && NilStep(r.log[i].state, r.log[..j][k].state, r.log[j].state);
  }

  /**
   * Seen before the call: a precommit that names another block than a granted proposal of its round
   * passes the check exactly when the record is at the nil prevote of that round, or already at this
   * very precommit.
   */
  lemma ConflictingPrecommitAccepted(r: Record, i: nat, next: State)
    requires Inv(r) && r.mem.Some? && Granted(r.log, i)
    requires SameRound(r.log[i].state, next) && r.log[i].state.step == 0 && next.step == 2
    requires Conflicting(r.log[i].state, next)
    ensures Check(r.mem.value, next).None? <==>
            r.mem.value == next || r.mem.value == next.(step := 1, blockId := None)
  {
    assert Remembers(r.log, i, r.mem.value);
  }

  /** And that one exception does occur: a run that grants A, accepts nil and grants B. */
  lemma ConflictAcrossNilHappens(h: nat, round: nat, a: BlockId, b: BlockId, nilSynced: bool) returns (r: Record)
    requires h > 0 && a != b
    ensures
      var r0 := Boot(Record(None, None, []), NoHook, true);
      var r1 := Update(r0, State(h, round, 0, Some(a)), true);
      var r2 := Update(r1, State(h, round, 1, None), nilSynced);
      r == Update(r2, State(h, round, 2, Some(b)), true)
    ensures Granted(r.log, 0) && Granted(r.log, 2) && Conflicting(r.log[0].state, r.log[2].state)
  {
    var r0 := Boot(Record(None, None, []), NoHook, true);
    var r1 := Update(r0, State(h, round, 0, Some(a)), true);
    var r2 := Update(r1, State(h, round, 1, None), nilSynced);
    r := Update(r2, State(h, round, 2, Some(b)), true);
  }

  /** A request whose only trouble was the disk is granted when it is made again, and only then becomes durable. */
  lemma SyncFailureIsRetryable(r: Record, next: State)
    requires r.mem.Some? && Check(r.mem.value, next).None?
    ensures
      var failed := Update(r, next, false);
      var again := Update(failed, next, true);
      && UpdateError(r.mem.value, next, false) == Some(SyncError) && failed.disk == r.disk && failed.mem == Some(next)
      && !Granted(failed.log, |r.log|)
      && UpdateError(failed.mem.value, next, true) == None
      && again.disk == again.mem == Some(next)
      && Granted(again.log, |r.log| + 1)
  {
  }

  /** After a crash the last durable request is granted again, with the file unchanged. */
  lemma RestartRegrants(r: Record)
    requires Inv(r) && r.disk.Some?
    ensures
      var up := Boot(Crash(r), NoHook, true);
      && UpdateError(up.mem.value, r.disk.value, true) == None
      && Update(up, r.disk.value, true).disk == r.disk
  {
  }
}
