/** The double-sign state of a chain as the running process holds it (src/chain/state.rs, src/chain.rs). */
module ChainState {
  import opened Base
  import opened Consensus
  import R = Record

  /** What `read_to_string` and the JSON parser make of the state file. */
  datatype Contents = Missing | Unreadable | Garbled | Json(state: State)

  /** The state file. `history` records every state accepted for this chain, in every process run. */
  class StateFile {
    var contents: Contents
    ghost var history: seq<R.Entry>

    constructor (contents: Contents)
      ensures this.contents == contents && history == []
    {
      this.contents := contents;
      history := [];
    }

    ghost function OnDisk(): Option<State>
      reads this
    {
      if contents.Json? then Some(contents.state) else None
    }

    /** The chain's record while no process is running. */
    ghost function Down(): R.Record
      reads this
    {
      R.Record(None, OnDisk(), history)
    }

    /** Write to a temporary file and rename it over the state file: all or nothing. */
    method Replace(state: State, ok: bool) returns (written: bool)
      modifies this`contents
      ensures written == ok
      ensures contents == if ok then Json(state) else old(contents)
    {
      if ok {
        contents := Json(state);
      }
      written := ok;
    }
  }

  datatype LoadError = ParseError | IoError | HookError

  class SigningState {
    var consensusState: State
    const file: StateFile

    ghost function Record(): R.Record
      reads this, file
    {
      R.Record(Some(consensusState), file.OnDisk(), file.history)
    }

    /** The object holds the strengthened invariant of its chain. */
    ghost predicate Valid()
      reads this, file
    {
      R.Inv(Record())
    }

    constructor (state: State, file: StateFile)
      ensures consensusState == state && this.file == file
    {
      consensusState := state;
      this.file := file;
    }

    /** `sync_to_disk`; `ok` is what the file system did. */
    method SyncToDisk(ok: bool) returns (written: bool)
      modifies file`contents
      ensures written == ok
      ensures file.contents == if ok then Json(consensusState) else old(file.contents)
    {
      written := file.Replace(consensusState, ok);
    }

    /**
     * `update_consensus_state`. The record changes as `Record.Update` says and keeps its invariant;
     * success means that the accepted state is in memory and on disk.
     */
    method UpdateConsensusState(next: State, syncOk: bool) returns (r: Result<(), StateError>)
      requires Valid()
      modifies this`consensusState, file
      ensures Valid()
      ensures Record() == R.Update(old(Record()), next, syncOk)
      ensures r == match R.UpdateError(old(consensusState), next, syncOk) {
                     case None => Ok(())
                     case Some(e) => Err(e)
                   }
      ensures r.Ok? ==>
                && consensusState == next && file.contents == Json(next)
                && R.Granted(file.history, |old(file.history)|)
                && file.history[|old(file.history)|].state == next
      ensures r.Err? && r.error != SyncError ==>
                consensusState == old(consensusState) && file.contents == old(file.contents) &&
                file.history == old(file.history)
    {
      R.UpdateInv(Record(), next, syncOk);
      if next.height < consensusState.height {
        return Err(HeightRegression);
      } else if next.height == consensusState.height {
        if next.round < consensusState.round {
          return Err(RoundRegression);
        } else if next.round == consensusState.round {
          if next.step < consensusState.step {
            return Err(StepRegression);
          }
          if next.blockId != consensusState.blockId &&
             ((next.blockId.Some? && consensusState.blockId.Some?) || next.step == consensusState.step) {
            return Err(DoubleSign);
          }
        }
      }
      consensusState := next;
      file.history := file.history + [R.Entry(next, syncOk)];
      var written := SyncToDisk(syncOk);
      if !written {
        return Err(SyncError);
      }
      return Ok(());
    }

    /** `update_from_hook_output`: memory may jump ahead of the disk, never back. */
    method UpdateFromHookOutput(height: nat)
      requires Valid()
      modifies this`consensusState
      ensures Valid()
      ensures consensusState == R.AfterHook(old(consensusState), height)
      ensures old(consensusState).height < height < old(consensusState).height + 9000 ==>
                && consensusState.height == height && consensusState.round == 0 && consensusState.step == 0
                && consensusState.blockId.None?
      ensures height <= old(consensusState).height || old(consensusState).height + 9000 <= height ==>
                consensusState == old(consensusState)
      ensures Covers(old(consensusState), consensusState)
    {
      R.HookInv(Record(), height);
      if height > consensusState.height {
        var delta := height - consensusState.height;
        if delta < R.BLOCK_HEIGHT_SANITY_LIMIT {
          consensusState := State(height, 0, 0, None);
        }
      }
    }
  }

  /** `State::load_state`, creating the file with the initial state if there is none. */
  method LoadState(file: StateFile, syncOk: bool) returns (r: Result<SigningState, LoadError>)
    requires R.Inv(file.Down())
    modifies file`contents
    ensures old(file.contents).Json? ==> r.Ok? && file.contents == old(file.contents)
    ensures old(file.contents).Missing? ==>
              (r.Ok? <==> syncOk) && file.contents == if syncOk then Json(INITIAL) else Missing
    ensures old(file.contents).Unreadable? || old(file.contents).Garbled? ==>
              r.Err? && file.contents == old(file.contents)
    ensures r.Ok? ==>
              && fresh(r.value) && r.value.file == file && r.value.Valid()
              && file.contents == Json(r.value.consensusState)
              && r.value.Record() == R.Boot(old(file.Down()), R.NoHook, syncOk)
    ensures R.Inv(file.Down())
  {
    R.BootInv(file.Down(), R.NoHook, syncOk);
    match file.contents
    case Json(state) =>
      var s := new SigningState(state, file);
      r := Ok(s);
    case Missing =>
      var s := new SigningState(INITIAL, file);
      var written := s.SyncToDisk(syncOk);
      r := if written then Ok(s) else Err(IoError);
    case Garbled =>
      r := Err(ParseError);
    case Unreadable =>
      r := Err(IoError);
  }

  /**
   * `Chain::from_config`: load, then run the hook. A chain comes up with its invariant whatever the
   * previous process left behind, or does not come up; the record moves as `Record.Boot` says.
   */
  method FromConfig(file: StateFile, hook: R.Hook, syncOk: bool) returns (r: Result<SigningState, LoadError>)
    requires R.Inv(file.Down())
    modifies file`contents
    ensures R.Inv(file.Down())
    ensures r.Ok? ==>
              && fresh(r.value) && r.value.file == file && r.value.Valid()
              && R.Boots(old(file.Down()), hook, syncOk)
              && r.value.Record() == R.Boot(old(file.Down()), hook, syncOk)
    ensures old(file.contents).Json? || old(file.contents).Missing? ==>
              (r.Ok? <==> R.Boots(old(file.Down()), hook, syncOk)) &&
              file.OnDisk() == R.Boot(old(file.Down()), hook, syncOk).disk
    ensures r.Ok? <==>
            (old(file.contents).Json? || (old(file.contents).Missing? && syncOk)) && hook != R.Failed(true)
    ensures r.Ok? ==>
              var loaded := if old(file.contents).Json? then old(file.contents).state else INITIAL;
              && file.contents == Json(loaded)
              && r.value.consensusState ==
                 if hook.Output? && loaded.height < hook.height < loaded.height + 9000
                 then State(hook.height, 0, 0, None) else loaded
  {
    r := LoadState(file, syncOk);
    if r.Ok? {
      match hook
      case NoHook =>
      case Output(height) =>
        r.value.UpdateFromHookOutput(height);
      case Failed(failClosed) =>
        if failClosed {
          r := Err(HookError);
        }
    }
  }

  /**
   * However the process goes down, the state file alone carries the invariant into the next one: the
   * restarted chain is the crashed record, booted.
   */
  method CrashAndRestart(s: SigningState, hook: R.Hook, syncOk: bool) returns (r: Result<SigningState, LoadError>)
    requires s.Valid()
    modifies s.file`contents
    ensures r.Ok? <==> R.Boots(R.Crash(old(s.Record())), hook, syncOk)
    ensures r.Ok? ==> r.value.Valid() && r.value.Record() == R.Boot(R.Crash(old(s.Record())), hook, syncOk)
    ensures s.file.contents == old(s.file.contents)
  {
    R.CrashInv(s.Record());
    r := FromConfig(s.file, hook, syncOk);
  }
}
