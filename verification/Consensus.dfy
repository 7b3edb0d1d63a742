/**
 * The last-signed consensus state of a chain and the check that decides whether
 * a new state may replace it (src/chain/state.rs).
 */
module Consensus {
  import opened Base

  /** `block::parts::Header` and `block::Id` of the tendermint crate, compared field by field. */
  datatype PartSetHeader = PartSetHeader(total: u32, hash: bytes)
  datatype BlockId = BlockId(hash: bytes, parts: PartSetHeader)

  /** `consensus::State`: one position in the consensus protocol and the block it names, if any. */
  datatype State = State(height: nat, round: nat, step: int, blockId: Option<BlockId>)

  datatype StateError = HeightRegression | RoundRegression | StepRegression | DoubleSign | SyncError

  const INITIAL := State(0, 0, 0, None)

  // ---------------------------------------------------------------- order on positions

  predicate SameRound(a: State, b: State) {
    a.height == b.height && a.round == b.round
  }

  predicate SamePosition(a: State, b: State) {
    SameRound(a, b) && a.step == b.step
  }

  /** (height, round) of `a` is lexicographically smaller than that of `b`. */
  predicate EarlierRound(a: State, b: State) {
    a.height < b.height || (a.height == b.height && a.round < b.round)
  }

  /** (height, round, step) of `a` is lexicographically at most that of `b`. */
  predicate NotAfter(a: State, b: State) {
    EarlierRound(a, b) || (SameRound(a, b) && a.step <= b.step)
  }

  /** (height, round, step) of `a` is lexicographically smaller than that of `b`. */
  predicate Before(a: State, b: State) {
    NotAfter(a, b) && !SamePosition(a, b)
  }

  /** Both states name a block and the blocks differ. */
  predicate Conflicting(a: State, b: State) {
    a.blockId.Some? && b.blockId.Some? && a.blockId != b.blockId
  }

  /**
   * The declarative form of the check: `next` opens a later round, or stays in the
   * round without going back a step and either names the same block (or none) again,
   * or moves to a later step with at least one of the two naming no block.
   */
  predicate Admissible(last: State, next: State) {
    || EarlierRound(last, next)
    || (&& SameRound(last, next)
        && last.step <= next.step
        && (|| last.blockId == next.blockId
            || (last.step < next.step && (last.blockId.None? || next.blockId.None?))))
  }

  /** The nested comparisons of `State::update_consensus_state`, in the order the code makes them. */
  function Check(last: State, next: State): (e: Option<StateError>)
    ensures e.None? <==> Admissible(last, next)
    ensures e == Some(DoubleSign) <==>
            NotAfter(last, next) && SameRound(last, next) && last.blockId != next.blockId &&
            (Conflicting(last, next) || last.step == next.step)
    ensures e.Some? && e != Some(DoubleSign) <==> Before(next, last)
    ensures e == Some(HeightRegression) <==> next.height < last.height
    ensures e == Some(RoundRegression) <==> next.height == last.height && next.round < last.round
    ensures e == Some(StepRegression) <==> SameRound(last, next) && next.step < last.step
    ensures e != Some(SyncError)
  {
    if next.height < last.height then
      Some(HeightRegression)
    else if next.height == last.height then
      if next.round < last.round then
        Some(RoundRegression)
      else if next.round == last.round then
        if next.step < last.step then
          Some(StepRegression)
        else if next.blockId != last.blockId &&
                ((next.blockId.Some? && last.blockId.Some?) || next.step == last.step) then
          Some(DoubleSign)
        else
          None
      else
        None
    else
      None
  }

  // ---------------------------------------------------------------- what one record remembers

  /**
   * `b` supersedes `a`: it is not earlier, it agrees with `a` at the same position, and
   * one step later in the same round it does not name a different block.
   * `Admissible` is not transitive (a block, then nil, then another block is accepted step by
   * step); this is the strongest consequence of it that is.
   */
  predicate Covers(a: State, b: State) {
    && NotAfter(a, b)
    && (SamePosition(a, b) ==> a.blockId == b.blockId)
    && (SameRound(a, b) && b.step == a.step + 1 ==> !Conflicting(a, b))
  }

  lemma CoversTransitive(a: State, b: State, c: State)
    requires Covers(a, b) && Covers(b, c)
    ensures Covers(a, c)
  {
  }

  lemma AdmissibleCovers(last: State, next: State)
    requires Admissible(last, next)
    ensures Covers(last, next)
  {
  }

  /** Acceptance really is not transitive: the reason the stronger relation is needed. */
  lemma AdmissibleNotTransitive(h: nat, r: nat, a: BlockId, b: BlockId)
    requires a != b
    ensures Admissible(State(h, r, 0, Some(a)), State(h, r, 1, None))
    ensures Admissible(State(h, r, 1, None), State(h, r, 2, Some(b)))
    ensures !Admissible(State(h, r, 0, Some(a)), State(h, r, 2, Some(b)))
  {
  }

  // ---------------------------------------------------------------- runs of the check

  /** Every state of the run was accepted against the one before it. */
  ghost predicate AcceptedRun(run: seq<State>) {
    forall i :: 0 < i < |run| ==> Check(run[i - 1], run[i]).None?
  }

  /** Later states of an accepted run supersede all earlier ones, not only their neighbour. */
  lemma {:induction false} AcceptedRunCovers(run: seq<State>, i: nat, j: nat)
    requires AcceptedRun(run)
    requires i <= j < |run|
    ensures Covers(run[i], run[j])
    decreases j
  {
    if i < j {
      AcceptedRunCovers(run, i, j - 1);
      AdmissibleCovers(run[j - 1], run[j]);
      CoversTransitive(run[i], run[j - 1], run[j]);
    }
  }

  /** Positions never go back, and one position carries one block ID, anywhere in a run. */
  lemma AcceptedRunOneBlockPerPosition(run: seq<State>)
    requires AcceptedRun(run)
    ensures forall i, j :: 0 <= i <= j < |run| ==> NotAfter(run[i], run[j])
    ensures forall i, j :: 0 <= i < |run| && 0 <= j < |run| && SamePosition(run[i], run[j]) ==>
                             run[i].blockId == run[j].blockId
  {
    forall i, j | 0 <= i <= j < |run|
      ensures Covers(run[i], run[j])
    {
      AcceptedRunCovers(run, i, j);
    }
  }

  /** Feed requests to the record one by one; `None` as soon as one is refused. */
  function Replay(last: State, requests: seq<State>): (r: Option<State>)
    decreases |requests|
  {
    if requests == [] then Some(last)
    else if Check(last, requests[0]).Some? then None
    else Replay(requests[0], requests[1..])
  }

  /** A validator that always moves forward and sticks to its block within a round. */
  ghost predicate Honest(requests: seq<State>) {
    forall i :: 0 < i < |requests| ==>
      && Before(requests[i - 1], requests[i])
      && (SameRound(requests[i - 1], requests[i]) ==> !Conflicting(requests[i - 1], requests[i]))
  }

  /** A run of strictly advancing requests is fully granted exactly when it is honest. */
  lemma {:induction false} HonestRunsGranted(last: State, requests: seq<State>)
    requires forall i :: 0 < i < |requests| ==> Before(requests[i - 1], requests[i])
    requires requests != [] ==> Before(last, requests[0])
    ensures Replay(last, requests).Some? <==> Honest([last] + requests)
    ensures Replay(last, requests).Some? ==>
              Replay(last, requests).value == ([last] + requests)[|requests|]
    decreases |requests|
  {
    if requests != [] {
      var rest := requests[1..];
      var whole := [last] + requests;
      assert [requests[0]] + rest == requests;
      forall i | 0 < i < |rest| ensures Before(rest[i - 1], rest[i]) {
        assert rest[i - 1] == requests[i] && rest[i] == requests[i + 1];
      }
      if rest != [] {
        assert rest[0] == requests[1];
      }
      HonestRunsGranted(requests[0], rest);
      assert whole[0] == last && whole[1] == requests[0];
      if Check(last, requests[0]).None? && Honest(requests) {
        forall i | 0 < i < |whole|
          ensures Before(whole[i - 1], whole[i])
          ensures SameRound(whole[i - 1], whole[i]) ==> !Conflicting(whole[i - 1], whole[i])
        {
          if i > 1 {
            assert whole[i - 1] == requests[i - 2] && whole[i] == requests[i - 1];
          }
        }
      }
      if Honest(whole) {
        forall i | 0 < i < |requests|
          ensures Before(requests[i - 1], requests[i])
          ensures SameRound(requests[i - 1], requests[i]) ==> !Conflicting(requests[i - 1], requests[i])
        {
          assert whole[i] == requests[i - 1] && whole[i + 1] == requests[i];
        }
      }
    }
  }

  /** From a fresh state file, honest requests at heights of at least 1 are never refused. */
  lemma HonestValidatorNeverRefused(requests: seq<State>)
    requires Honest(requests)
    requires requests != [] ==> requests[0].height >= 1
    ensures Replay(INITIAL, requests).Some?
    ensures requests != [] ==> Replay(INITIAL, requests).value == requests[|requests| - 1]
  {
  }

  /**
   * From a blank state at some height, as a hook leaves it, honest requests from that height on are all
   * granted if and only if they do not begin with a block at the blank position itself: there the
   * record holds nil, and a block counts as a double sign.
   */
  lemma HonestAfterBlank(height: nat, requests: seq<State>)
    requires Honest(requests) && requests != []
    requires requests[0].height >= height && requests[0].step >= 0
    ensures Replay(State(height, 0, 0, None), requests).Some? <==>
            !(SamePosition(requests[0], State(height, 0, 0, None)) && requests[0].blockId.Some?)
    ensures Replay(State(height, 0, 0, None), requests).Some? ==>
              Replay(State(height, 0, 0, None), requests).value == requests[|requests| - 1]
  {
    var blank := State(height, 0, 0, None);
    if SamePosition(requests[0], blank) {
      if requests[0].blockId.None? {
        assert requests == [requests[0]] + requests[1..];
        HonestRunsGranted(requests[0], requests[1..]);
      }
    } else {
      HonestRunsGranted(blank, requests);
    }
  }

  /** Repeating the last request any number of times is granted and leaves the record as it is. */
  lemma {:induction false} RepeatsGranted(last: State, n: nat)
    ensures Replay(last, seq(n, _ => last)) == Some(last)
  {
    if n > 0 {
      assert seq(n, _ => last)[1..] == seq(n - 1, _ => last);
      RepeatsGranted(last, n - 1);
    }
  }
}
