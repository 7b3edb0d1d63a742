/** The transaction signer as a running object (src/tx_signer.rs, src/tx_signer/sequence_file.rs). */
module TxSigner {
  import opened Base
  import opened TxSequence
  import opened TxReport
  import M = SignMsg

  datatype Contents = Missing | Unreadable | Garbled | Json(sequence: u64)

  /** The file on disk, with the broadcasts of all processes that have used it. */
  class DiskFile {
    var contents: Contents
    ghost var history: seq<Broadcast>

    constructor (contents: Contents)
      ensures this.contents == contents && history == []
    {
      this.contents := contents;
      history := [];
    }
  }

  /** A process's handle on the file: the number in memory. */
  class SequenceFile {
    var sequence: u64
    const file: DiskFile

    constructor (sequence: u64, file: DiskFile)
      ensures this.sequence == sequence && this.file == file
    {
      this.sequence := sequence;
      this.file := file;
    }

    /** `persist`: memory first, then the file; a failed write is not rolled back. */
    method Persist(newValue: u64, write: Write) returns (written: bool)
      modifies this`sequence, file`contents
      ensures written == (write.Completes? || write.DiesAfter?)
      ensures sequence == newValue
      ensures file.contents == if written then Json(newValue) else old(file.contents)
    {
      sequence := newValue;
      written := write.Completes? || write.DiesAfter?;
      if written {
        file.contents := Json(newValue);
      }
    }
  }

  /** `SequenceFile::open`: a missing file is created at zero. */
  method Open(file: DiskFile, syncOk: bool) returns (r: Option<SequenceFile>)
    modifies file`contents
    ensures r.Some? <==> old(file.contents).Json? || (old(file.contents).Missing? && syncOk)
    ensures r.None? ==> file.contents == old(file.contents)
    ensures r.Some? ==>
              && fresh(r.value) && r.value.file == file && file.contents == Json(r.value.sequence)
              && r.value.sequence == if old(file.contents).Json? then old(file.contents).sequence else 0
  {
    match file.contents {
      case Json(sequence) =>
        var f := new SequenceFile(sequence, file);
        r := Some(f);
      case Missing =>
        if syncOk {
          file.contents := Json(0);
          var f := new SequenceFile(0, file);
          r := Some(f);
        } else {
          r := None;
        }
      case _ =>
        r := None;
    }
  }

  /** What the transaction source answers. */
  datatype Source = Unreachable | Nothing | Offers(req: M.TxRequest)

  /** The messages of the three possible attempts. */
  ghost function Messages(schema: M.Schema, req: M.TxRequest, sequence: nat): (ms: seq<M.SignMsg>)
    requires M.Parses(schema, req.msgs)
    ensures |ms| == 3
  {
    [M.Build(schema, req, sequence), M.Build(schema, req, sequence + 1), M.Build(schema, req, sequence + 2)]
  }

  /** A request leads to signing only if it is for this chain and all its messages parse. */
  ghost predicate Signable(chainId: string, schema: M.Schema, source: Source) {
    source.Offers? && source.req.chainId == chainId && M.Parses(schema, source.req.msgs)
  }

  class TxSigner {
    const chainId: string
    const schema: M.Schema
    const acl: set<M.TypeName>
    const seqFile: SequenceFile
    var lastTx: LastTx
    ghost var alive: bool
    ghost var sent: seq<Broadcast>
    ghost var earlier: seq<Broadcast>

    /** The file is in use, and its history is that of this process and its predecessors. */
    ghost predicate Valid()
      reads this, seqFile, seqFile.file
    {
      seqFile.file.contents.Json? && seqFile.file.history == earlier + sent
    }

    ghost function View(): Tx
      requires Valid()
      reads this, seqFile, seqFile.file
    {
      Tx(seqFile.sequence, seqFile.file.contents.sequence, lastTx, alive, sent, earlier)
    }

    /** A signer over a sequence file that has just been opened, whatever was sent before. */
    constructor (chainId: string, schema: M.Schema, acl: set<M.TypeName>, seqFile: SequenceFile)
      requires seqFile.file.contents == Json(seqFile.sequence)
      ensures this.acl == acl && this.schema == schema && this.chainId == chainId && this.seqFile == seqFile
      ensures Valid() && View() == Tx(seqFile.sequence, seqFile.sequence, NoTx, true, [], seqFile.file.history)
    {
      this.chainId := chainId;
      this.schema := schema;
      this.acl := acl;
      this.seqFile := seqFile;
      lastTx := NoTx;
      alive := true;
      sent := [];
      earlier := seqFile.file.history;
    }

    /** `broadcast_tx`: authorize and sign, broadcast, then store the next number if CheckTx accepted. */
    method BroadcastTx(m: M.SignMsg, sequence: u64, net: Net) returns (o: Outcome)
      requires Valid() && m.msgTypes == M.TypesOf(m.msgs)
      modifies this`lastTx, this`alive, this`sent, seqFile`sequence, seqFile.file
      ensures Valid() && (View(), o) == Attempt(old(View()), m, M.Allowed(m, acl), sequence, net)
    {
      var authorized := M.Authorize(m, acl);
      if !authorized || net.KeyFails? {
        return Failed;
      }
      if net.DiesSigning? {
        alive := false;
        return Ended;
      }
      ghost var b := Broadcast(sequence, seqFile.sequence, m, NodeAccepts(net), net.Replies?);
      sent := sent + [b];
      seqFile.file.history := seqFile.file.history + [b];
      if net.DiesWaiting? {
        alive := false;
        return Ended;
      }
      if net.NoReply? {
        lastTx := Error;
        return Failed;
      }
      lastTx := Response;
      if !net.checkOk {
        return Failed;
      }
      if sequence == MAX_SEQUENCE {
        alive := false;
        return Ended;
      }
      var written := seqFile.Persist(sequence + 1, net.write);
      if net.write.DiesBefore? || net.write.DiesAfter? {
        alive := false;
        return Ended;
      }
      return if written && net.deliverOk then Done else Failed;
    }

    /**
     * `request_and_sign_tx`. Only allowed messages of the offered transaction go out, and the
     * counters move as `Poll` says: never back, and by at most three.
     */
    method RequestAndSignTx(source: Source, nets: seq<Net>) returns (o: Outcome)
      requires |nets| == 3 && alive && Valid() && View().disk <= View().stored
      modifies this`lastTx, this`alive, this`sent, seqFile`sequence, seqFile.file
      ensures Valid() && View().disk <= View().stored
      ensures !Signable(chainId, schema, source) ==> View() == old(View())
      ensures Signable(chainId, schema, source) ==>
                var ms := Messages(schema, source.req, old(seqFile.sequence));
                View() == Poll(old(View()), ms, M.Allowed(ms[0], acl), nets)
      ensures Signable(chainId, schema, source) ==>
                var ms := Messages(schema, source.req, old(seqFile.sequence));
                && Reported(old(View()), View(), ms, M.Allowed(ms[0], acl), nets)
                && (o.Ended? <==> !alive)
                && (o.Failed? <==> AllFail(old(View()), M.Allowed(ms[0], acl), nets))
      ensures !Signable(chainId, schema, source) ==> o == if source.Nothing? then Done else Failed
      ensures old(sent) <= sent && |sent| <= |old(sent)| + 3
      ensures old(seqFile.sequence) <= seqFile.sequence <= old(seqFile.sequence) + 3
      ensures forall i :: |old(sent)| <= i < |sent| ==> M.Allowed(sent[i].tx, acl)
    {
      if !source.Offers? || source.req.chainId != chainId {
        return if source.Nothing? then Done else Failed;
      }
      var req := source.req;
      var seqNo := seqFile.sequence;
      var first := M.New(schema, req, seqNo);
      if first.None? {
        return Failed;
      }
      ghost var ms := Messages(schema, req, seqNo);
      ghost var allowed := M.Allowed(first.value, acl);
      PollAdvances(View(), ms, allowed, nets);
      PollReported(View(), ms, allowed, nets);
      ghost var t0 := View();
      SameRights(schema, req, seqNo, acl);
      var retryOnFailure := !lastTx.Response?;

      AttemptReported(t0, ms[0], allowed, seqNo, nets[0]);
      o := BroadcastTx(first.value, seqNo, nets[0]);
      if !o.Failed? || !retryOnFailure {
        // A failure that is not retried is logged and forgotten.
        return if o.Failed? then Done else o;
      }
      o := RetryTwice(req, seqNo, nets);
      assert View() == Poll(old(View()), ms, allowed, nets);
    }

    /** The two speculative retries. */
    method RetryTwice(req: M.TxRequest, seqNo: u64, nets: seq<Net>) returns (o: Outcome)
      requires |nets| == 3 && Valid() && M.Parses(schema, req.msgs)
      modifies this`lastTx, this`alive, this`sent, seqFile`sequence, seqFile.file
      ensures Valid()
      ensures var ms := Messages(schema, req, seqNo);
              View() == Retry(old(View()), ms[1..], M.Allowed(ms[0], acl), seqNo, nets[1..])
      ensures old(alive) ==>
                var allowed := M.Allowed(Messages(schema, req, seqNo)[0], acl);
                && (o.Ended? <==> !alive)
                && (o.Failed? <==> BothFail(allowed, seqNo, nets))
    {
      ghost var ms := Messages(schema, req, seqNo);
      ghost var allowed := M.Allowed(ms[0], acl);
      SameRights(schema, req, seqNo, acl);
      TwoRetries(View(), ms, allowed, seqNo, nets);
      if alive {
        RetriesEnd(View(), ms, allowed, seqNo, nets);
      }
      assert M.Allowed(ms[1], acl) == allowed && M.Allowed(ms[2], acl) == allowed;
      o := NextAttempt(req, seqNo, nets[1]);
      assert (View(), o) == Next(old(View()), ms[1], allowed, seqNo, nets[1]);
      if o.Failed? {
        o := NextAttempt(req, seqNo + 1, nets[2]);
      }
    }

    /** One retry, a number further on; the addition panics at the limit. */
    method NextAttempt(req: M.TxRequest, seqNo: u64, net: Net) returns (o: Outcome)
      requires Valid() && M.Parses(schema, req.msgs)
      modifies this`lastTx, this`alive, this`sent, seqFile`sequence, seqFile.file
      ensures Valid() && (o.Failed? ==> seqNo < MAX_SEQUENCE)
      ensures var m := M.Build(schema, req, seqNo + 1);
              (View(), o) == Next(old(View()), m, M.Allowed(m, acl), seqNo, net)
    {
      if seqNo == MAX_SEQUENCE {
        alive := false;
        return Ended;
      }
      var m := M.New(schema, req, seqNo + 1);
      o := BroadcastTx(m.value, seqNo + 1, net);
    }
  }

  /**
   * The process is gone, at whatever point, and a new one opens the same file with the same
   * configuration: what it knows of the past is what the file says.
   */
  method StartAgain(s: TxSigner) returns (r: TxSigner)
    requires s.Valid()
    modifies s.seqFile.file`contents
    ensures r.Valid() && r.View() == Restart(old(s.View()))
    ensures r.chainId == s.chainId && r.schema == s.schema && r.acl == s.acl
    ensures fresh(r) && fresh(r.seqFile) && r.seqFile.file == s.seqFile.file
  {
    var seqFile := Open(s.seqFile.file, true);
    r := new TxSigner(s.chainId, s.schema, s.acl, seqFile.value);
  }

  /** The messages of all attempts have the same types, so the access list treats them alike. */
  lemma SameRights(schema: M.Schema, req: M.TxRequest, seqNo: nat, acl: set<M.TypeName>)
    requires M.Parses(schema, req.msgs)
    ensures var ms := Messages(schema, req, seqNo);
            forall i :: 0 <= i < 3 ==> M.Allowed(ms[i], acl) == M.Allowed(ms[0], acl)
  {
  }
}
