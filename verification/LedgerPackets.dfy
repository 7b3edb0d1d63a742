/** Sending a message to a Ledger device in packets (src/keyring/providers/ledgertm/client.rs). */
module LedgerPackets {
  import opened Base

  const CLA: u8 := 0x56
  const INS_SIGN_ED25519: u8 := 0x02
  const CHUNK_SIZE := 250

  datatype Command = Command(cla: u8, ins: u8, p1: u8, p2: u8, length: u8, data: bytes)
  datatype Answer = Answer(data: bytes, retcode: nat)
  datatype LedgerError = InvalidMessageSize | InvalidEmptyMessage | Transport | NoSignature | InvalidSignature

  function ChunkCount(n: nat): nat {
    (n + CHUNK_SIZE - 1) / CHUNK_SIZE
  }

  function Join(packets: seq<Command>): bytes {
    if packets == [] then [] else Join(packets[..|packets| - 1]) + packets[|packets| - 1].data
  }

  /** The `i`-th packet (from zero) of a message that takes `count` packets. */
  predicate PacketOk(p: Command, i: nat, count: nat) {
    && p.cla == 0x56 && p.ins == 0x02
    && p.p1 == i + 1 && p.p2 == count && p.length == |p.data|
    && 1 <= |p.data| <= 250
    && (i + 1 < count ==> |p.data| == 250)
  }

  /** A prefix of the packets of `message`, in order, carrying a prefix of its bytes. */
  ghost predicate Sends(packets: seq<Command>, message: bytes) {
    && |packets| <= ChunkCount(|message|) <= 255
    && (forall i :: 0 <= i < |packets| ==> PacketOk(packets[i], i, ChunkCount(|message|)))
    && Join(packets) <= message
  }

  function Min(a: int, b: int): int {
    if a < b then a else b
  }

  /** How many bytes the first `i` packets carry. */
  function Upto(i: nat, message: bytes): nat {
    Min(i * CHUNK_SIZE, |message|)
  }

  /** The packets numbered 1 to `i`, complete and carrying the beginning of the message. */
  ghost predicate SentFirst(packets: seq<Command>, i: nat, message: bytes) {
    && |packets| == i
    && (forall j :: 0 <= j < i ==> PacketOk(packets[j], j, ChunkCount(|message|)))
    && Join(packets) == message[..Upto(i, message)]
  }

  /** The `i`-th packet: `chunks` cuts the message into pieces that are full except for the last. */
  function Packet(i: nat, message: bytes): Command
    requires i < ChunkCount(|message|) <= 255
  {
    var chunk := message[Upto(i, message)..Upto(i + 1, message)];
    Command(CLA, INS_SIGN_ED25519, AsU8(i + 1), AsU8(ChunkCount(|message|)), AsU8(|chunk|), chunk)
  }

  lemma JoinSnoc(packets: seq<Command>, p: Command)
    ensures Join(packets + [p]) == Join(packets) + p.data
  {
  }

  lemma PacketIsOk(i: nat, message: bytes)
    requires i < ChunkCount(|message|) <= 255
    ensures PacketOk(Packet(i, message), i, ChunkCount(|message|))
  {
  }

  /** One more packet. */
  lemma SendsNext(packets: seq<Command>, i: nat, message: bytes)
    requires i < ChunkCount(|message|) <= 255 && SentFirst(packets, i, message)
    ensures SentFirst(packets + [Packet(i, message)], i + 1, message)
  {
    PacketIsOk(i, message);
    var p := Packet(i, message);
    JoinSnoc(packets, p);
    assert message[..Upto(i, message)] + p.data == message[..Upto(i + 1, message)];
  }

  lemma SentAll(packets: seq<Command>, message: bytes)
    requires SentFirst(packets, ChunkCount(|message|), message)
    ensures Join(packets) == message
  {
    assert Upto(ChunkCount(|message|), message) == |message|;
    assert message[..|message|] == message;
  }

  /** The first `n` packets are answered. */
  ghost predicate Answered(answers: nat -> Option<Answer>, n: nat) {
    forall i :: 0 <= i < n ==> answers(i).Some?
  }

  /** What the last answer means once all packets have been answered. */
  function Verdict(last: Answer): Result<bytes, LedgerError> {
    if |last.data| == 64 then Ok(last.data)
    else if |last.data| == 0 && last.retcode == 0x9000 then Err(NoSignature)
    else Err(InvalidSignature)
  }

  /**
   * `sign`: `answers` is what the device says to the packets, `None` being a transport error.
   * Empty and oversized messages are refused before anything is sent. Otherwise packets go out until
   * one is not answered; if all are, they reassemble to the message and the last answer decides: 64
   * bytes are the signature, whatever the return code.
   */
  method Sign(message: bytes, answers: nat -> Option<Answer>)
    returns (r: Result<bytes, LedgerError>, packets: seq<Command>)
    ensures r == Err(InvalidMessageSize) <==> |message| > 63750
    ensures r == Err(InvalidEmptyMessage) <==> |message| == 0
    ensures |message| > 63750 || |message| == 0 ==> packets == []
    ensures 1 <= |message| <= 63750 ==> Sends(packets, message) && packets != []
    ensures r == Err(Transport) <==>
            1 <= |message| <= 63750 && !Answered(answers, ChunkCount(|message|))
    ensures r == Err(Transport) ==> Answered(answers, |packets| - 1) && answers(|packets| - 1).None?
    ensures 1 <= |message| <= 63750 && Answered(answers, ChunkCount(|message|)) ==>
              && |packets| == ChunkCount(|message|) && Join(packets) == message
              && r == Verdict(answers(ChunkCount(|message|) - 1).value)
    ensures r.Ok? <==>
            && 1 <= |message| <= 63750 && Answered(answers, ChunkCount(|message|))
            && |answers(ChunkCount(|message|) - 1).value.data| == 64
  {
    PacketLimit(|message|);
    packets := [];
    var count := ChunkCount(|message|);
    if count > 255 {
      return Err(InvalidMessageSize), packets;
    }
    if count == 0 {
      return Err(InvalidEmptyMessage), packets;
    }
    var response := Answer([], 0);
    for i := 0 to count
      invariant SentFirst(packets, i, message)
      invariant i > 0 ==> answers(i - 1) == Some(response)
      invariant Answered(answers, i)
    {
      var chunk := message[i * CHUNK_SIZE..Min((i + 1) * CHUNK_SIZE, |message|)];
      var command := Command(CLA, INS_SIGN_ED25519, AsU8(i + 1), AsU8(count), AsU8(|chunk|), chunk);
      assert command == Packet(i, message);
      SendsNext(packets, i, message);
      packets := packets + [command];
      if answers(i).None? {
        return Err(Transport), packets;
      }
      response := answers(i).value;
    }
    SentAll(packets, message);
    if response.data == [] && response.retcode == 0x9000 {
      return Err(NoSignature), packets;
    }
    if |response.data| != 64 {
      return Err(InvalidSignature), packets;
    }
    r := Ok(response.data);
  }

  /** Every accepted length fits the one-byte packet counter, and no refused one does. */
  lemma PacketLimit(n: nat)
    ensures ChunkCount(n) <= 255 <==> n <= 63750
    ensures ChunkCount(n) == 0 <==> n == 0
  {
  }
}
