# Tendermint KMS, verified

A Dafny model of the Tendermint Key Management System: the double-signing protection with its
sessions, state files, crashes and hooks; the way from a wire request to the signed bytes; the
transaction signer with its sequence numbers and block schedule; and three smaller algorithms
(derivation paths, Ledger packets, the keyring's only key).

`dafny verify dfyconfig.toml` checks everything.

## What is modelled

**The record of a chain** (`Consensus`, `Record`, `ChainState`). A chain remembers one consensus
state, in memory and in a file. A new state is checked against memory, written to memory, then
written to the file; the message may be signed only if that write succeeded. Memory can run ahead
of the file after a failed write and after a height hook, and falls back to the file in a crash.
`Record` is the value-level transition system with the history of accepted states; `ChainState`
holds the classes that update fields and file in place and are proved against it. The acceptance
check is not transitive (a block, then nil, then another block goes through step by step), so the
invariant rests on `Covers`, a transitive consequence of the check.

**The whole KMS** (`Session`, `Kms`, `Safety`, `Serving`, `Isolation`). `Session` is one `sign` call
as the code performs it. `Kms` takes the call apart at every point where another thread can run: any
number of chains and sessions, with failing disks, signers and connections, dying and respawning
sessions, crashes, restarts and hooks in any order. `Safety` states what holds in every reachable
state, `Serving` what does get signed, `Isolation` that refused requests leave nothing behind and
that chains do not affect one another.

**Messages and bytes** (`Messages`, `Rpc`, `Wire`, `WireReader`, `SignBytes`, `SignedFields`). Requests, their validation, the
state read out of them, the canonical message and its bytes, for the Protobuf protocol (v0.34) and
for the Amino protocols (v0.33 and before). `Wire` is a generic codec; canonical votes and
proposals are instances of it. `WireReader` reads such bytes without knowing their layout, and
`SignedFields` says which value it finds at which field number.

**The transaction signer** (`SignMsg`, `TxSequence`, `TxReport`, `TxSigner`, `BlockScheduler`). `TxSequence` has the
counter in memory and in the file, and every broadcast with two separate facts: whether CheckTx
accepted it at the node, and whether the signer was told. Replies get lost, writes fail, and the
process may die while signing, while waiting for a reply and on either side of the write.
`TxReport` spells out what one polling call does. `TxSigner` holds the objects proved against both, `BlockScheduler` the polling loop.

**Smaller pieces** (`DerivationPath`, `LedgerPackets`, `KeyRing`).

Outcomes of I/O are parameters: whether a write succeeded, what a hook printed, what a node, a
Ledger device or a signing provider answered. Panics of the original (overflow, zero interval,
unsupported key kind) are explicit results.

Assumptions: the state and sequence files of two chains are different files and are not deleted or edited from
outside; renaming a file is atomic; reading back a state file gives the state that was written;
signing is an arbitrary function; `block::parts::Header::new` rejects a zero total with a hash and
`block::Height` holds exactly the non-negative `i64` values; Protobuf canonical messages have the field tags
of Tendermint's `canonical.proto`.

## Where the code and the expectation part

- *Two messages for one slot.* The record keeps a parsed block ID, the signature covers the block
  ID as sent. A vote whose 32-byte hash comes without a usable part-set header is valid, recorded
  as nil and signed with its hash; a proposal's block ID is not validated at all; Amino messages
  sign the full 64-bit total of which the record keeps 32 bits. `Safety.MessageSafetyIsExact` gives
  the exact condition (`Representable`), `Safety.UnrepresentableClashes` a run for every request
  outside it, `Rpc.ProtobufRepresentable` the condition in terms of a Protobuf request.
- *Rounds.* The record keeps 16 bits of the round, and only those are compared. This refuses too much
  (round 65536 after round 1) and lets too much through: round 6 is signed after round 65541 of the
  same height. `Messages.RoundsComparedModulo` has the exact rule for any two rounds,
  `Safety.RoundRegressionIsExact` says over all runs when a lower full round can follow a higher one,
  `Safety.SignedRoundsInOrder` what is left: within a block of 65536 rounds they never go back.
- *Conflicting proposal and precommit.* Two different blocks in one round are possible, but only
  across an accepted nil prevote (`Safety.ProposalPrecommitConflict`). Before the call this shows in the
  record: the conflicting precommit passes exactly when the record is at that nil prevote, or at the
  precommit itself (`Safety.ConflictingPrecommitSigned`); `Safety.SignedAcrossNil` signs both. The nil
  prevote need not have been signed: it may have failed to reach the disk.
- *The first proposal after a hook.* A hook that moves a chain to a height leaves nil recorded at round
  0, step 0 of it. A proposal for exactly that position is then refused as a double sign; every other
  honest sequence from that height on is granted (`Messages.HonestRequestsAfterHook`).
- *Reused sequence numbers.* A number whose acceptance was reported is not broadcast again by the same
  process. An accepted number can still go out twice: when the reply was lost
  (`TxSequence.LostReplyReuses`), and after a restart when the process died before the write, the write
  failed, or the counter was at its limit, where the addition panics and nothing is written
  (`TxSequence.RestartReusesIffFileLeft`). `TxSequence.ReuseIsExact` has the exact conditions, in terms of
  what the signer was told: for a number already accepted never to go out again, over further polls and
  over any future with restarts, and for no accepted number to go out again, old or new, as long as
  every further broadcast is answered. A broadcast without an answer ends that last guarantee.
- *Empty sub-messages.* Whether the Amino encoder writes a present but empty sub-message is not
  visible in the repository; `SignBytes.SignBytesDecode` covers both cases and says which messages
  stay decodable.

## Model

| member | source | states |
|---|---|---|
| Consensus.Check | src/chain/state.rs:71-116 | The nested comparisons accept exactly when (height, round) grows, or is equal with the step not smaller and equal block IDs or a larger step with one ID nil; height, round and step regressions are each reported exactly for the first of the three that falls, and a double sign exactly for a conflict at a position that did not regress. |
| Consensus.AdmissibleNotTransitive | src/chain/state.rs:99-104 | Block A at step 0, nil at step 1 and block B at step 2 are accepted one after the other although B is not acceptable after A. |
| Consensus.AcceptedRunCovers | src/chain/state.rs:66-129 | In a run of accepted states every later state supersedes every earlier one. |
| Consensus.AcceptedRunOneBlockPerPosition | src/chain/state.rs:66-129 | Positions of a run never go back and equal positions anywhere in it carry equal block IDs. |
| Consensus.HonestRunsGranted | src/chain/state.rs:66-129 | A strictly advancing list of states is granted in full if and only if neighbours of one round do not name two blocks. |
| Consensus.HonestValidatorNeverRefused | src/chain/state.rs:166-180 | From the initial state, an honest list of any length at heights of at least 1 is granted in full and leaves its last state recorded. |
| Consensus.HonestAfterBlank | src/chain/state.rs:99-144 | From a blank state at some height, an honest list from that height on is granted in full if and only if it does not begin with a block at the blank position itself. |
| Consensus.RepeatsGranted | src/chain/state.rs:66-129 | The last request may be repeated any number of times; the record stays as it is. |
| Record.AfterHook | src/chain/state.rs:132-163 | A hook moves the record exactly for heights above the current one by less than 9000, to the hook's height with round 0, step 0 and no block, which supersedes the old state. |
| Record.UpdateInv | src/chain/state.rs:118-128 | Granting, refusing and failing to write keep the invariant between memory, file and all grants ever made. |
| Record.BootInv | src/chain.rs:35-62 | Reloading from the file, with or without a hook that is never written, keeps it as well. |
| Record.HookInv | src/chain/state.rs:132-163 | So does a hook applied at any time, even while memory is ahead of the file. |
| Record.GrantsInOrder | src/chain/state.rs:66-129 | Grants supersede each other in the order they were made, across crashes. |
| Record.NoDoubleGrant | src/chain/state.rs:66-129 | Two grants at one height, round and step are for the same state. |
| Record.GrantsArePersisted | src/chain/state.rs:118-128 | Every grant is at or below the file and the file at or below memory, with equal IDs at equal positions. |
| Record.LastRecordSuffices | src/chain/state.rs:71-118 | What passes the check against the one record contradicts nothing granted in the whole history. |
| Record.AdjacentStepsAgree | src/chain/state.rs:99-104 | Grants of neighbouring steps of a round never name two blocks. |
| Record.ConflictCrossesNilPrevote | src/chain/state.rs:99-104 | A proposal and a precommit that name two blocks have an accepted nil prevote between their grants. |
| Record.ConflictingPrecommitAccepted | src/chain/state.rs:99-104 | After a granted proposal, a precommit of its round for another block passes the check exactly when the record is at the nil prevote of that round or already at this precommit. |
| Record.ConflictAcrossNilHappens | src/chain/state.rs:99-104 | Such a run exists, whether or not the nil prevote reached the disk. |
| Record.SyncFailureIsRetryable | src/chain/state.rs:118-128 | A request refused only by a failed write is not granted then, and is granted when repeated. |
| Record.RestartRegrants | src/chain/state.rs:31-56 | After a crash the last durable request is granted again. |
| ChainState.StateFile.Replace | src/chain/state.rs:196-198 | The file is replaced completely or left as it was. |
| ChainState.SigningState.SyncToDisk | src/chain/state.rs:183-206 | On success the file holds the state in memory, on failure its old contents. |
| ChainState.SigningState.UpdateConsensusState | src/chain/state.rs:66-129 | The object keeps the invariant, changes as the record's transition says, reports the matching error; success means memory and file hold the new state, a refusal changes nothing. |
| ChainState.SigningState.UpdateFromHookOutput | src/chain/state.rs:132-163 | The object keeps the invariant; memory jumps to (hook's height, 0, 0, nil) for heights above it by less than 9000 and stays otherwise. |
| ChainState.LoadState | src/chain/state.rs:31-56 | A readable file is loaded, a missing one created with the initial state, anything else refused; the result satisfies the invariant. |
| ChainState.FromConfig | src/chain.rs:35-62 | A chain comes up exactly when the file can be read or created and no hook fails closed; memory is then what the file says, moved by the hook's output if there is one and it is in range; it satisfies the invariant. |
| ChainState.CrashAndRestart | src/chain.rs:35-62 | A chain brought up from the file of a crashed process is the crashed record, booted; it fails only if a hook fails closed. |
| Messages.ValidationExact | src/amino_types/vote.rs:271-295 | A request passes validation exactly if it holds a message of a known type with height, round and indices in range and, for votes, a 20-byte address and a block ID with hashes that are empty or 32 bytes long. |
| Messages.FirstFaultReported | src/amino_types/vote.rs:271-295 | The error names the first field out of range, in the order type, height, round, and then POL round or index, address and block ID. |
| Messages.ValidationSuffices | src/session.rs:264-283 | After validation the message is present, parsing succeeds, and the state has the message's height, the low 16 bits of its round, its parsed block ID and the step of its type: 0 for a proposal (code 32), 1 for a prevote (code 1), 2 for a precommit (code 2). |
| Messages.StepIdentifiesType | src/amino_types/signature.rs:41-49 | Steps and numeric codes each determine the message type. |
| Messages.ParseInvertsConversion | src/amino_types/block_id.rs:35-58 | Parsing inverts the conversion from a block ID exactly on IDs with two 32-byte hashes and a nonzero total. |
| Messages.CanonicalCarriesRequest | src/amino_types/vote.rs:197-226 | The canonical message has the request's type, height, full round and recorded block, and the session's chain ID. |
| Messages.AminoVoteIsSignedAsSent | src/amino_types/vote.rs:146-177 | The canonical Amino vote repeats every field, the full 64-bit total included; a missing timestamp becomes the year one. |
| Messages.AminoProposalIsSignedAsSent | src/amino_types/proposal.rs:139-162 | The canonical Amino proposal repeats every field, POL round included, with type code 32; a missing timestamp stays missing. |
| Messages.StateDeterminesCanonical | src/amino_types/vote.rs:241-262 | For block IDs representable in their own encodings, requests with the same recorded state and full round have the same canonical message up to timestamp and POL round, even if one is Protobuf and the other Amino. |
| Messages.CompanionInSlot | src/amino_types/block_id.rs:35-50 | Every validated request has a representable one the record cannot tell from it, with the same signed block exactly if it is representable itself. |
| Messages.RepresentableIsExact | src/amino_types/proposal.rs:179-200 | A validated request agrees with all representable ones of its slot if and only if it is representable. |
| Messages.RoundsComparedModulo | src/amino_types/vote.rs:248 | Of two valid requests of one height, with any rounds, the second is accepted exactly if its low 16 bits are larger, or equal with step and block ID as the check demands; so a lower full round is accepted exactly when it lies in an earlier block of 65536 and passes by its low bits, and a higher one refused exactly when it lies in a later block and does not. |
| Messages.HonestRequestsNeverRefused | src/chain/state.rs:166-180 | Valid requests from height 1 on in rounds below 65536 that advance and agree are all accepted by a fresh record. |
| Messages.HonestRequestsAfterHook | src/chain/state.rs:132-163 | After a hook has moved the record, honest requests from its height on are accepted if and only if they do not begin with the first proposal of that very height, which is refused as a double sign. |
| Rpc.BlockIdRoundTrip | src/amino_types/block_id.rs:60-84 | A Protobuf block ID survives the conversion in and out. |
| Rpc.SignedRoundTrip | src/rpc.rs:48-80 | Reading a request, signing it and writing the response returns the original message with only the signature changed. |
| Rpc.ResponseCarriesOneThing | src/amino_types/vote.rs:119-133 | A response is of the request's kind and carries the message and no error, or exactly the given error and no message. |
| Rpc.RefusalLosesError | src/rpc.rs:127-157 | A refusal reaches a Protobuf validator with neither message nor error. |
| Rpc.ProtobufRepresentable | src/rpc.rs:48-80 | A Protobuf request is representable exactly if its block ID is absent, has an empty hash, or has two 32-byte hashes and a nonzero total. |
| Rpc.ProtobufVoteIsSignedAsSent | src/rpc.rs:50-62 | The canonical vote repeats every field of the Protobuf vote; no cast on the way changes a value. |
| Rpc.ProtobufProposalIsSignedAsSent | src/rpc.rs:66-77 | The canonical proposal repeats every field of the Protobuf proposal, POL round included; the type code is the one sent exactly if it passes validation. |
| KeyRing.KeyRing.AddEd25519 | src/keyring.rs:77-105 | Succeeds exactly for a consensus key not yet present, reports a duplicate exactly otherwise, panics for account keys; entries stay filed under their signer's public key, even after a reported duplicate. |
| KeyRing.KeyRing.DefaultEd25519Pubkey | src/keyring.rs:108-116 | Returns the only key, and fails exactly if there is not exactly one. |
| KeyRing.KeyRing.SignEd25519 | src/keyring.rs:154-176 | Without a key the only key's signer signs, no key and several keys are different errors; with a key its own signer does. |
| KeyRing.RegistrationRuns | src/chain/registry.rs:40-55 | After any registrations the keys are exactly the consensus public keys offered, each mapped to a signer with that key. |
| KeyRing.LastSignerWins | src/keyring.rs:77-105 | Of several signers offered with one key the last is kept. |
| KeyRing.AdvertisedKeyIsTheOnlyOne | src/keyring.rs:108-116 | A key is advertised exactly when it was registered and all consensus signers registered share it. |
| Session.Vet | src/session.rs:126-134 | A request gets past the first checks exactly if it is valid and within the stop height; parsing it then succeeds. |
| Session.AnswerOnlyAfterGrant | src/session.rs:144-164 | A message comes back only after its state was accepted and stored; a refusal leaves the record alone and returns no message. |
| Session.Session.CheckMaxHeight | src/session.rs:169-187 | Passes exactly if no stop height is configured, there is no message, or its height does not exceed the stop height. |
| Session.AnswerIsExact | src/session.rs:126-165 | A call returns the request with exactly the only key's signature over its bytes if and only if it is valid, within the stop height, admissible, stored, and that key signs; it returns a double-sign error for the request's height if and only if the request is in order and names another block at the record's step or two blocks within its round. |
| Session.ErrorIsExact | src/session.rs:126-224 | Every other call fails, with the error that applies: the validation error, the stop height, the kind of regression, the failed write or the failed key. |
| Session.Session.UpdateConsensusState | src/session.rs:191-224 | The record changes as its transition says; a double sign is returned as a report for the request's height, any other refusal as an error. |
| Session.Session.Sign | src/session.rs:126-165 | The call moves the chain's record and answers as specified, keeps the invariant, and none of its unwraps can fail. |
| Session.Session.HandleAmino | src/session.rs:99-123 | For the older protocols, between decoding and encoding: the signed message, the double-sign report or the error, each exactly when it applies. |
| Session.Session.HandleRequest | src/session.rs:99-123 | A Protobuf validator gets its own message signed over its canonical bytes by the only key if and only if the request is in order, admissible, stored and the key signs; an empty response exactly for a double sign; otherwise the error that applies. |
| Kms.UpdateKeepsInv | src/session.rs:191-224 | The critical section keeps the system invariant for grants, refusals and failed writes. |
| Kms.SignKeepsInv | src/session.rs:149-164 | Signing after the lock is released keeps the system invariant, however many other sessions ran in between. |
| Kms.StepKeepsInv | src/client.rs:67-86 | Every step keeps the system invariant, including session death, respawn, crash and restart. |
| Kms.RunKeepsInv | src/client.rs:67-106 | So does every finite run. |
| Kms.ReachableInv | src/client.rs:67-106 | Every state reachable from state files in any condition satisfies the invariant. |
| Safety.NoDoubleSign | src/session.rs:126-165 | No two signatures ever produced on a chain have the same height, round and step but different block IDs. |
| Safety.PersistedBeforeSigned | src/chain/state.rs:118-128 | The file is at or past every signature, memory at or past the file. |
| Safety.AdjacentMessagesAgree | src/session.rs:276-280 | A signed proposal and prevote, or prevote and precommit, of a round never name two blocks. |
| Safety.ProposalPrecommitConflict | src/session.rs:276-280 | A signed proposal and precommit that conflict have a nil prevote accepted between their grants. |
| Safety.ConflictingPrecommitSigned | src/chain/state.rs:99-104 | In every reachable state with a signed proposal, a precommit of its round for another block is accepted exactly when the record is at the nil prevote of that round or at this precommit. |
| Safety.SignedAcrossNil | src/session.rs:126-165 | Any proposal and precommit of one round, whatever blocks they name, are both signed in a reachable state, from height 1 on even on a chain that starts without a state file. |
| Safety.SigningOrderIsExact | src/session.rs:126-165 | Over all runs, one request can be granted and signed before another on a chain if and only if the recorded state of the second covers that of the first; from height 1 on, the same over the runs that start without a state file. |
| Safety.RoundRegressionIsExact | src/amino_types/vote.rs:248 | A higher full round can be signed before a lower one of its height, in some run, exactly when the lower lies in an earlier block of 65536 rounds and its recorded state covers the other; larger low bits suffice, and from height 1 on no state file is needed. |
| Safety.SignedRoundsInOrder | src/amino_types/vote.rs:248 | In the order of their grants the signed heights never go back, nor within a height the low 16 bits of the rounds, nor the full rounds inside one block of 65536. |
| Safety.StopHeightRespected | src/session.rs:169-187 | Nothing above its stop height is signed through a session. |
| Safety.OneSignaturePerGrant | src/session.rs:144-164 | Each signature used up its own grant, made for exactly its state. |
| Isolation.RefusalLeavesNoTrace | src/session.rs:203-222 | A refusal by validation, stop height, regression or double sign changes no record and ends the session unless it is a double sign; in every later state until its next request the session has signed nothing and can neither sign nor touch a record. |
| Isolation.StepProjects | src/session.rs:136-142 | What a step does to the record, sessions and signatures of a chain depends on that chain alone. |
| Isolation.ChainsAreIndependent | src/session.rs:126-165 | In every run, each chain's record, sessions and signatures are what they would be had only its own steps happened. |
| Isolation.ProjectionReachable | src/chain/registry.rs:16-18 | Each chain of a reachable system is a reachable system of its own. |
| Safety.SignedMessagesAgree | src/amino_types/vote.rs:180-262 | Signed messages of one chain, type, height and full round, each representable in its session's encoding, are equal up to timestamp and POL round, also across encodings. |
| Serving.SequentialSignIsARun | src/session.rs:126-165 | An undisturbed call of a session is a run of the system and moves the record as the session's specification says; the session goes on exactly after a signature or a reported double sign. |
| Safety.UnrepresentableClashes | src/amino_types/block_id.rs:86-96 | For every valid request with an unrepresentable block ID there is a run that signs two clashing messages, from height 1 on starting without a state file. |
| Safety.MessageSafetyIsExact | src/amino_types/proposal.rs:97-200 | A valid request can never clash with representable ones, in any run and any mix of encodings, if and only if its block ID is representable; from height 1 on, the same over the runs that start without a state file. |
| Serving.AcceptedRequestsAreSigned | src/session.rs:93-123 | Requests the record would accept in order are all signed, in order, by a session with working disk and signer. |
| Serving.HonestValidatorIsServed | src/session.rs:93-123 | An honest validator on a chain without a state file gets every request signed, in order. |
| Serving.HonestValidatorAfterHook | src/chain.rs:45-56 | With a stale state file and a hook that brings it up to date, an honest validator gets every request from the hook's height on signed, unless it begins with the first proposal of that height. |
| Serving.SignaturesLeaveOutOfOrder | src/session.rs:144-164 | A session granted first can sign after one granted later: signatures need not leave in the order of their grants. |
| Wire.VarintRoundTrip | src/amino_types/vote.rs:104-105 | Base 128 varints are read back, whatever follows them. |
| Wire.FixedRoundTrip | src/amino_types/vote.rs:106-109 | Fixed-width numbers are read back. |
| Wire.FieldsRoundTrip | src/amino_types/vote.rs:102-116 | The fields of a message, nested to any depth, are read back up to sub-messages that were left out. |
| Wire.RoundTrip | src/amino_types/vote.rs:222-225 | A length-delimited message is read back exactly if and only if no present sub-message was left out. |
| Wire.EncodingInjective | src/amino_types/vote.rs:222-225 | Messages of one layout with equal bytes are equal, up to sub-messages left out. |
| Wire.FieldsAgree | src/amino_types/block_id.rs:173-179 | Two layouts whose bytes are equal agree field by field, whatever kinds the fields have. |
| Wire.MessagesAlike | src/amino_types/block_id.rs:173-179 | Bytes shared by two layouts that nest alike stand for equal values, except that fields of different kinds are both zero. |
| WireReader.GetsField | src/amino_types/vote.rs:102-116 | A reader that knows only the wire format, not the layout, finds each value at its own field number with its wire type. |
| SignBytes.FilledIffLossless | src/amino_types/vote.rs:148-177 | A canonical message loses nothing in an encoding that drops empty sub-messages exactly if those present have content. |
| SignBytes.SignBytesDecode | src/amino_types/vote.rs:180-229 | Canonical votes and proposals are decoded from their bytes, always if empty sub-messages are written and otherwise exactly if there are none. |
| SignedFields.VoteOnTheWire | src/amino_types/vote.rs:102-116 | In the bytes of a canonical vote the type is the varint 1, height and round are the fixed numbers 2 and 3, block ID, timestamp and chain ID are at 4, 5 and 6, with hash, part-set header, total, seconds and nanoseconds at the numbers of each encoding, and there is nothing else. |
| SignedFields.ProposalOnTheWire | src/amino_types/proposal.rs:57-75 | The same for a canonical proposal, with the POL round at 4 (varint in Protobuf, fixed in Amino) and block ID, timestamp and chain ID at 5, 6 and 7. |
| SignedFields.SignBytesOnTheWire | src/amino_types/vote.rs:180-229 | What is signed for a request is the length of such a body for its canonical message, then the body. |
| SignBytes.SignBytesInjective | src/amino_types/proposal.rs:97-167 | Distinct canonical messages of one kind never share sign bytes, be they in one encoding or one in each. |
| SignBytes.SameBytesSameMessage | src/session.rs:149-154 | Validated requests of any kind, chain and encoding with equal sign bytes have equal canonical messages. |
| SignBytes.VoteVectors | src/amino_types/vote.rs:384-471 | The encoder produces the byte strings the repository's tests list, for any type, height and round of one byte and any short chain ID. |
| SignBytes.DefaultVoteVector | src/amino_types/vote.rs:375-382 | The default vote encodes to the listed bytes, length prefix included. |
| SignMsg.Build | src/tx_signer/sign_msg.rs:33-56 | The message built from a request has its messages in order, its fee and memo, the exact set of their types and the given number. |
| SignMsg.New | src/tx_signer/sign_msg.rs:33-56 | Building fails exactly if a message does not parse; the collected types are exactly those present. |
| SignMsg.Authorize | src/tx_signer/sign_msg.rs:59-75 | Authorizes exactly the transactions all of whose messages have allowed types. |
| SignMsg.RetriesDifferOnlyInSequence | src/tx_signer.rs:262-281 | Messages built for retries differ from the first in the sequence number alone. |
| TxSequence.AttemptAdvances | src/tx_signer.rs:290-348 | A broadcast within two of the stored number moves the counters forward only, sends nothing unless allowed, and ends past every acceptance the signer heard of, unless the process ends. |
| TxSequence.PollAdvances | src/tx_signer.rs:215-287 | A polling call, wherever the process dies in it, makes at most three broadcasts, at increasing numbers from the stored one to two past it, only of allowed messages, and raises the counter by at most three. |
| TxReport.PollReported | src/tx_signer.rs:215-348 | A polling call in closed form: which messages go out at which numbers, what is then in memory and in the file, what is remembered of the last transaction (a response of either verdict, or an error), and whether the process lives. |
| TxReport.RetriesExactly | src/tx_signer.rs:244-283 | The next number goes out if and only if the first attempt failed in a living process, the last transaction before the call had got no response, the message is allowed, the key signs and the number can grow; the one after if and only if the second failed too; after a response nothing is resent. |
| TxSequence.RunKeepsKnownInv | src/tx_signer.rs:215-348 | Polls of any outcome, and restarts that find the file past the reported acceptances, keep the counter past them and never repeat them. |
| TxSequence.ReportedNumbersNeverReused | src/tx_signer.rs:326-328 | A number whose acceptance was reported to a signer is never broadcast again, over any such run. |
| TxSequence.NoSequenceReused | src/tx_signer.rs:326-328 | No number CheckTx accepted, reported or not, is broadcast again in a run whose polls start with a counter, and restarts with a file, past every number accepted or unanswered. |
| TxSequence.PollsNeedNoCondition | src/tx_signer.rs:127-151 | Within one process the guarantee for reported numbers needs no condition at all. |
| TxSequence.PollingSafeIffSettled | src/tx_signer.rs:244-283 | In no further polls does a running signer broadcast a number already accepted, whatever the node did with unanswered broadcasts, if and only if its counter is past every number reported accepted or left unanswered. |
| TxSequence.PollingCleanIffSettled | src/tx_signer.rs:244-328 | Under the same condition, and only then, every broadcast of further polls is above all numbers accepted before it, including those accepted meanwhile, as long as each broadcast is answered; an unanswered one ends the guarantee. |
| TxSequence.RestartSafeIffSettled | src/tx_signer/sequence_file.rs:64-71 | No future of polls and restarts in any order broadcasts a number already accepted if and only if the file is past every number reported accepted or left unanswered. |
| TxSequence.ReuseIsExact | src/tx_signer/sequence_file.rs:36-71 | These three conditions in every state of every run, with lost replies, failed writes and deaths at any point. |
| TxSequence.UnsafeRestartReusesAtOnce | src/tx_signer.rs:244-283 | After any run whose restarts were safe, an unsafe restart can reuse an accepted number in the very next poll. |
| TxSequence.LostReplyReuses | src/tx_signer.rs:255-257 | The node accepts, the reply is lost, and the same process broadcasts the number again. |
| TxSequence.RestartReusesIffFileLeft | src/tx_signer.rs:306-328 | After one accepted broadcast and a restart the number goes out again exactly if the reply was lost, the process died before the write, the write failed, or the number was the largest. |
| TxSigner.SequenceFile.Persist | src/tx_signer/sequence_file.rs:64-71 | The number in memory is replaced even if the write fails; the file changes only on success. |
| TxSigner.Open | src/tx_signer/sequence_file.rs:36-56 | A readable file is loaded, a missing one created at zero, anything else refused. |
| TxSigner.TxSigner.BroadcastTx | src/tx_signer.rs:290-348 | One attempt changes the counters, the last response and the broadcast history as specified. |
| TxSigner.TxSigner.RequestAndSignTx | src/tx_signer.rs:215-287 | One polling call does exactly what the closed form says, never moves the counter back or by more than three, broadcasts only transactions the access list allows, and fails exactly if no transaction could be obtained and built or all three attempts failed. |
| TxSigner.TxSigner.RetryTwice | src/tx_signer.rs:252-283 | The two speculative retries use the next two numbers and stop at the first that does not fail. |
| TxSigner.StartAgain | src/tx_signer/sequence_file.rs:36-56 | A new signer on the file of one that is gone, at whatever point, is its restart: counter from the file, history kept. |
| BlockScheduler.NextBlockAfter | src/tx_signer.rs:202-212 | The result is the least multiple of the interval above the height, at most one interval away; panics exactly for a zero interval or overflow. |
| BlockScheduler.WaitUntilBlockHeight | src/tx_signer.rs:155-198 | Waits through heights below the target; returns when it is reached, on an error, or when the target is more than an interval away. |
| BlockScheduler.Run | src/tx_signer.rs:109-152 | If heights never go back the out-of-sync branch is not taken, requests are due, each target is past the previous request, and every interval window the node was seen in after the first gets its request unless the target computation panics, which happens before the request. |
| BlockScheduler.OneRequestPerWindow | src/tx_signer.rs:109-152 | Targets strictly increase and each interval window holds at most one request. |
| DerivationPath.ConstructDerivationPath | src/commands/yubihsm/setup.rs:453-463 | The loop produces the version and all components, each with its length byte. |
| DerivationPath.ParsesBackIffProper | src/commands/yubihsm/setup.rs:453-463 | A path is read back exactly if and only if each component has 1 to 256 bytes. |
| DerivationPath.PathsInjective | src/commands/yubihsm/setup.rs:453-463 | Distinct proper paths have distinct bytes. |
| DerivationPath.ImproperPathsCollide | src/commands/yubihsm/setup.rs:457-460 | Beyond 256 bytes two paths can share their bytes. |
| DerivationPath.SerializeKeyIdReads | src/commands/yubihsm/setup.rs:428-430 | A key ID is "0x" and four lower-case hexadecimal digits that read as the ID. |
| DerivationPath.SerializeKeyIdInjective | src/commands/yubihsm/setup.rs:428-430 | Distinct key IDs print differently. |
| DerivationPath.SecretsHaveTheirOwnPaths | src/commands/yubihsm/setup.rs:415-418 | Wrap keys are separated by ID, roles by name, and wrap keys from roles. |
| DerivationPath.PathsSpelledOut | src/commands/yubihsm/setup.rs:354-463 | The components of a wrap key's path are "1", "wrap" and the key ID, those of a role's path "1", "role" and its name. |
| LedgerPackets.Sign | src/keyring/providers/ledgertm/client.rs:115-158 | Empty and oversized messages are refused before sending; otherwise packets are numbered from 1, full except the last, and reassemble to the message; sending stops exactly at an unanswered packet; a signature is returned if and only if all are answered and the last answer has 64 bytes, "no signature" exactly for an empty one with code 0x9000, "invalid" for any other. |
| LedgerPackets.PacketLimit | src/keyring/providers/ledgertm/client.rs:118-126 | The one-byte counter suffices exactly up to 63750 bytes. |

## Left out

- Sockets, Secret Connection and the reading of raw packets: I/O over libraries.
- Cryptography and the clients of the signing providers: signing is an arbitrary function.
- Command line, configuration parsing, logging and error texts.
- JSON text of the state and sequence files, the hook process and HTTP: only their outcomes appear.
- Amino decoding of requests and the Amino type prefixes; only the encoding of what is signed is modelled.
- Poisoned locks: a panic while a chain's state is locked ends all later sessions of that chain; the model has no such panic.
- Several KMS processes on one key, which the repository says it does not defend against.
- Durability below the rename of a file.
- Wall-clock behaviour (`min_secs`, sleeps, timeouts).
- ECDSA keys of the keyring and account lookup: easy members beside the Ed25519 ones.
- The order of process start: a chain may be loaded at any time it is down, which allows more runs than loading all chains first.
- BlockScheduler.Run: covers every finite stretch of node answers; the original loops for ever.
- DerivationPath.ConstructDerivationPath: an empty component gets the length byte 255, as in a release build; a debug build panics on the subtraction.
