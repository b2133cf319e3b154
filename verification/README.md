# A verified model of lbm-sdk's core

This Dafny project models the parts of lbm-sdk that carry its hardest promises and proves
those promises for every input, every call sequence or every interleaving.

- **Concurrent CheckTx.** `AccountWaitGroups`, `CheckTxScheduler` and `CheckTxReactor` model
  the wait groups that let transactions be checked in parallel but serialise them per
  signer. Registering, waiting, reading and writing single slots of the check state, taking
  the mutex and sending single signals are separate atomic steps of a transition system, and
  the theorems are about all its runs.
- **The ABCI block machine.** `BaseApp`, with `MultiStore`, `GasMeter` and `Recovery`, models
  runTx with its branches, deferred charges and recovered panics inside a class with the
  deliver and check states, and proves it equal to a reference machine without branches. The
  block gas meter is an object to which both states refer. `Delivery` says case by case, in
  terms of the handlers alone, what a delivered transaction does and costs.
  `GenesisValidators` models the comparison of validators at the end of InitChain.
- **State-sync snapshots.** `Chunks`, `SnapshotStore` and `SnapshotManager` model the stream
  splitter and joiner, the database of records with the chunk files beside it, and the
  manager. Every single write to the disk is logged, so that a process may be killed and
  restarted after any of them.
- **Coins and decimals.** `Denoms`, `CoinLists`, `CoinMerge`, `Coins` and `DecCoins` model
  sets of coins as sorted lists and prove them to be finite maps; `Decimals`, `DecimalText` and `Uints`
  model fixed-point arithmetic, its text form and fast exponentiation. Amounts are unbounded
  integers with explicit range checks, and a panic is the outcome `Panic`.
- **The protobuf codec.** `ProtoWire`, `ProtoFields`, `ProtoBuffer` and `ProtoMessages` model
  the generated encoders and decoders of MsgData, TxMsgData and Any: sizes computed first,
  buffers filled from the end, 64-bit varints, unknown fields skipped with nested groups.
  The format is that of the Protocol Buffers Encoding specification, "Base 128 Varints" and
  "Message Structure".

Code that updates state step by step is modelled by classes and methods with loops, each
proved against a specification function; the properties are then proved of those functions.

What the theorems assume of code outside the model is written in their preconditions or
parameters: ante handlers used in concurrent checks touch only their signers' slots
(`CheckTxScheduler.Local` for writes, the type of `Config.handler` for reads); ante and message
handlers, block hooks and the transaction decoder are otherwise arbitrary functions; the hash
is an arbitrary function; the library's sort of validators gives some permutation in the order
of their keys; and the rule for denominations is an arbitrary predicate.

## Where the code differs from its documentation

The model follows the code.

- `Coins.Add` is documented to return a valid set always. Occurrences of a denomination are
  added in pairs, and the result is valid exactly when the pairs of each denomination leave at
  most one amount that is not zero, that amount is positive, and the rule accepts the
  denomination (`Coins.Add`, for all lists it accepts; `Coins.AddCanReturnNegative` and
  `Coins.AddKeepsRepeats` are inputs for which it is not). The same holds of `Coins.Sub`
  (`Coins.SubKeepsRepeats`) and, for sorted lists, of `DecCoins.SafeAdd`
  (`DecCoins.AddKeepsRepeats`).
- `Coins.IsEqual` panics instead of answering when two sets of one size first differ in a
  denomination (`Coins.IsEqualOfValid`, `Coins.IsEqualPanics`).
- `SortableDecBytes` sorts two negative decimals the wrong way round
  (`DecimalText.SortableOrder` gives the exact condition).
- `NewDecFromStr` also accepts texts with a sign where the number should start, and then digits
  may be missing before the point or altogether; two minus signs cancel.
  `DecimalText.AcceptsExactly` says for every text whether it is accepted and as what.
- A chunk reader loses bytes that come together with the end of a chunk
  (`Chunks.ChunkReader.ReadAll` gives the exact condition).
- Pruning everything lets a later snapshot have a lower height
  (`SnapshotManager.PruningAllForgets`), and pruning a snapshot without chunks reports a
  failure (`SnapshotStore.PruneOfChunklessSnapshotFails`).
- The chunks of a snapshot are counted in 32 bits. A record is right if and only if there were
  fewer than 2^32 of them (`SnapshotStore.Store.Save`).
- A block without gas limit charges the sum of its transactions exactly as long as no charge
  overflows the 64-bit counter, which is as long as the sum fits it (`BaseApp.UnlimitedBlock`,
  `BaseApp.OverflowingBlock`).

## Model

| member | source | states |
|---|---|---|
| `AccountWaitGroups.SignersDistinct` | baseapp/accountwgs.go:55-67 | the signers a transaction registers are pairwise different, so it never waits for itself |
| `AccountWaitGroups.SignersComplete` | baseapp/accountwgs.go:55-67 | no signer is lost if and only if no two different signers share a text form |
| `AccountWaitGroups.SignersAreFirst` | baseapp/accountwgs.go:55-67 | every signer is the first address with its text form, in the order of messages and their signers |
| `AccountWaitGroups.GetUniqSigners` | baseapp/accountwgs.go:55-67 | the nested loop with its seen set keeps the first address of each text form |
| `AccountWaitGroups.EnterEntries` | baseapp/accountwgs.go:20-35 | after registering, each signer's entry is the new wait group and all other entries are as before |
| `AccountWaitGroups.HoldersEntries` | baseapp/accountwgs.go:20-35 | the waits are exactly the previous entries of the signers |
| `AccountWaitGroups.AccountWGs.Register` | baseapp/accountwgs.go:20-35 | waits, signals and the new map, read before any entry is replaced |
| `AccountWaitGroups.AccountWGs.Done` | baseapp/accountwgs.go:43-53 | each wait group is signalled once and an entry is removed only if it is still the caller's own |
| `AccountWaitGroups.RegisterThenDone` | baseapp/accountwgs.go:20-53 | Done undoes what Register entered, for accounts nobody held |
| `CheckTxScheduler.RunInvariant` | baseapp/accountwgs.go:20-53 | the structural and the data invariant hold in every state of every run |
| `CheckTxScheduler.Serialisable` | baseapp/baseapp.go:600-643 | every interleaving gives each check the answer, and in the end the check state, of running the checks one at a time in registration order |
| `CheckTxScheduler.SerialStep` | baseapp/baseapp.go:620-643 | one check of the reference run, slot by slot: accepted writes are put in place, deletions included, and a rejected check changes nothing |
| `CheckTxScheduler.SignersExclude` | baseapp/accountwgs.go:25-52 | checks that share a signer are never in checkTx together and pass through it in registration order |
| `CheckTxScheduler.Progress` | baseapp/accountwgs.go:20-53 | no deadlock: while a check is unfinished, some check can step |
| `CheckTxScheduler.StepsRunOut` | baseapp/accountwgs.go:20-53 | every step but a registration decreases a rank that is never negative |
| `CheckTxScheduler.RunsAreShort` | baseapp/accountwgs.go:20-53 | without registrations a run goes on for at most as many steps as its rank says |
| `CheckTxScheduler.AllChecksFinish` | baseapp/accountwgs.go:20-53 | every run can be completed, without registrations, to one in which all checks have finished |
| `CheckTxScheduler.MapEmpties` | baseapp/accountwgs.go:43-53 | once all checks have finished the map of wait groups is empty |
| `CheckTxScheduler.SignalIsSafe` | baseapp/accountwgs.go:43-53 | no wait group is signalled twice, and an entry goes only when every holder of the account has released it, even between two signals of one Done |
| `CheckTxReactor.ChannelOrder` | baseapp/reactor.go:25-59 | asynchronous requests register in the order of the channel, skipping those that fail to decode or validate, and none is taken before its preparation is done |
| `CheckTxReactor.SharedSignersKeepChannelOrder` | baseapp/reactor.go:25-59 | requests that share a signer pass through checkTx in channel order |
| `CheckTxReactor.RequestsSerialisable` | baseapp/abci.go:232-275 | synchronous and asynchronous requests together are serialisable |
| `CheckTxReactor.EveryRequestIsAnswered` | baseapp/reactor.go:25-59 | every run can be completed, without further requests, to one in which every request is prepared and taken and every check has answered |
| `CheckTxReactor.RequestsCanFinish` | baseapp/reactor.go:25-59 | the same from any reachable state |
| `MultiStore.View` | store/README.md:3-24 | a reader of a branch sees its dirty entries and its parent elsewhere |
| `MultiStore.ViewExactly` | store/README.md:3-24 | key by key: a set key has the new value, a deleted key is gone, and every other key is as in the parent |
| `MultiStore.WriteBack` | store/cachekv/store.go:98-140 | writing a branch of a branch back shows what the innermost branch showed |
| `GasMeter.Consume` | store/types/gas.go:82-165 | gas is added before the check, the meter panics exactly past its limit, and overflow saturates a limited meter |
| `GasMeter.ConsumedToLimit` | store/types/gas.go:73-78 | the smaller of consumption and limit, and the consumption where there is no limit |
| `Recovery.AddHandlers` | baseapp/baseapp.go:446-450 | handlers are put in front of the chain one after the other |
| `Recovery.SilentHandlers` | baseapp/recovery.go:23-45 | handlers that do not process a panic leave it to the rest of the chain |
| `Recovery.LatestHandlerAnswers` | baseapp/recovery.go:23-45 | the latest added handler that processes a panic answers it |
| `Recovery.EveryPanicIsAnError` | baseapp/recovery.go:23-77 | with any added handlers every panic becomes an error, an out-of-gas panic the out-of-gas error |
| `BaseApp.ValidateBasicTxMsgs` | baseapp/baseapp.go:518-531 | no message is an error; otherwise the first failing message decides |
| `BaseApp.ValidateExactly` | baseapp/baseapp.go:518-531 | validation passes if and only if there is a message and all are valid |
| `BaseApp.ExecMsgs` | baseapp/baseapp.go:744-810 | the branch, the meter and the data are those of running the messages one after the other, each on what the one before left, if all pass; otherwise those up to the first that fails, panics or has no route, with its outcome |
| `BaseApp.RunMsgsInSequence` | baseapp/baseapp.go:744-810 | the same of the specification, against a chain of stores and meters without branches |
| `BaseApp.ExecTx` | baseapp/baseapp.go:652-737 | runTx with branches, panics and both defers contributes nothing, the ante writes, or all writes, exactly as the reference; it is charged once, and a simulation is not charged; the answer has the gas of the transaction's meter and the error of the first part that did not pass, unless the charge itself panicked |
| `BaseApp.DeliverAnswer` | baseapp/baseapp.go:656-737 | a delivered transaction is answered without error exactly when it finds block gas left, passes and fits, and only then with data |
| `BaseApp.App.InitChain` | baseapp/abci.go:28-104 | the deliver state starts as the reference says, or the node panics when the reference does; validators of the request come back as they are, in the order of their keys; height, store, meter and check state it leaves are spelled out |
| `GenesisValidators.Compare` | baseapp/abci.go:67-85 | the length check and the loop accept exactly the lists that are equal once sorted |
| `GenesisValidators.AgreeExactly` | baseapp/abci.go:67-85 | accepted lists have the same validators, and without repeated keys that is enough whatever their order and the sort |
| `BaseApp.App.BeginBlock` | baseapp/abci.go:144-204 | wrong heights and limits below -1 panic; a positive limit gives a meter with that limit, none, 0 and -1 an infinite one, nothing consumed in either; the begin blocker runs on the deliver state; the check state refers to the same meter object |
| `BaseApp.App.DeliverTx` | baseapp/abci.go:294-325 | one transaction moves the reference machine one step and gets the reference answer, its gas as signed 64-bit numbers; one that does not decode gets an error and no gas |
| `BaseApp.App.EndBlock` | baseapp/abci.go:207-224 | the end blocker's writes join the deliver state |
| `BaseApp.App.Commit` | baseapp/abci.go:333-375 | the deliver state becomes the committed store at the expected height |
| `BaseApp.App.CheckTx` | baseapp/baseapp.go:577-643 | the check state gains the ante writes of a transaction that passes and nothing otherwise; the answer is an error exactly when it does not pass, with the gas of its meter; the block in progress is untouched; its meter is the one the ante handler leaves |
| `BaseApp.App.Simulate` | baseapp/baseapp.go:540-550 | although runTx gets the block gas meter that the block in progress uses, neither that meter nor the block nor the check state's store changes; the answer is that of the handlers |
| `BaseApp.App.BeginRecheckTx` | baseapp/abci.go:278-282 | the check state shows the committed store again |
| `BaseApp.App.Execute` | baseapp/abci.go:28-375 | over every sequence of calls, with one block gas meter object shared by both states, the committed store is the fold of the consensus calls alone |
| `BaseApp.RejectedAfterwards` | baseapp/baseapp.go:656-659 | once the block gas is used up no later transaction changes anything |
| `BaseApp.PassesLimitOnce` | baseapp/baseapp.go:670-737 | the meter passes its limit at most once, and the transaction that does it keeps at most its ante writes |
| `BaseApp.UnlimitedBlock` | store/types/gas.go:152-165 | without a limit the meter shows the sum of the charges if and only if none of them overflowed, which is if and only if the sum fits 64 bits |
| `BaseApp.OverflowingBlock` | store/types/gas.go:152-165 | a block of two transactions after which the meter is at zero |
| `BaseApp.HeightsAdvance` | baseapp/baseapp.go:490-515 | over every sequence of consensus calls committed heights go up by one from the first, which is the initial height in force or the one after the last, and a begun block is committed at the height in its header |
| `Delivery.TurnedAway` | baseapp/baseapp.go:656-659 | a transaction that finds the block gas meter at its limit changes nothing and is an error without gas |
| `Delivery.InvalidTx` | baseapp/baseapp.go:691-694 | one with invalid messages changes no store, answers the first invalid message and is charged what its meter shows |
| `Delivery.AnteFails` | baseapp/baseapp.go:696-710 | one that its ante handler does not pass changes no store; it is charged, and answers, by the meter of the context the handler returned, if it returned one |
| `Delivery.MessageFails` | baseapp/baseapp.go:715-737 | when a message fails, the ante writes stay, the writes of all messages go, and the gas of the failed message counts |
| `Delivery.AllMessagesPass` | baseapp/baseapp.go:715-737 | when all pass, what they did one after the other is kept, and their data answered, if and only if the charge fits; otherwise the ante writes stay |
| `Delivery.Simulated` | baseapp/baseapp.go:540-550 | a simulation answers without error exactly when validation, ante handler and all messages pass, and then with their gas and data |
| `Delivery.ChargedExactlyOnce` | baseapp/baseapp.go:670-690 | over a whole block the meter shows the sum of what the admitted transactions answered as gas used, at most the gas they wanted if limited, capped at the largest counter value |
| `Delivery.KeptWithinLimit` | baseapp/baseapp.go:670-737 | the transactions that keep the writes of their messages cost at most the block gas limit together |
| `Delivery.BegunBlockWithinLimit` | baseapp/abci.go:173-196 | a block begun with a positive limit has a meter with that limit, and the transactions that keep their writes in it cost no more |
| `Delivery.DeliveredInOrder` | baseapp/abci.go:294-325 | delivering transactions in a begun block runs those that decode one after the other |
| `Octets.BigEndianRoundTrip` | snapshots/store.go:322-341 | big-endian integers decode to what was encoded |
| `Octets.BigEndianOrder` | snapshots/store.go:335-341 | byte order of big-endian integers is numeric order |
| `Chunks.ChunkWriter.Write` | snapshots/chunk.go:68-100 | all data is appended, cut at the chunk size, whatever the pieces |
| `Chunks.ChunkWriter.WriteSome` | snapshots/chunk.go:28-100 | one turn of the write loop keeps all chunks full but the last and none empty |
| `Chunks.ChunkWriter.Close` | snapshots/chunk.go:43-54 | closing keeps the chunks |
| `Chunks.ChunkingUnique` | snapshots/chunk.go:68-100 | a stream and a chunk size determine the chunks, so boundaries do not depend on the writes |
| `Chunks.ChunkReader.Read` | snapshots/chunk.go:139-156 | a read returns the next bytes and moves on to the next chunk at the end of one |
| `Chunks.ChunkReader.ReadAll` | snapshots/chunk.go:114-156 | reading terminates with the whole stream if and only if no chunk reports its end together with bytes |
| `Chunks.RoundTrip` | snapshots/chunk.go:28-156 | writing in any pieces and reading in any sizes gives the stream back |
| `SnapshotStore.KeyRoundTrip` | snapshots/store.go:322-341 | keys decode to their snapshot, and only keys of snapshots decode |
| `SnapshotStore.KeyOrder` | snapshots/store.go:335-341 | the byte order of keys is the order of height and format |
| `SnapshotStore.StaysConsistent` | snapshots/store.go:52-68 | files no record refers to, and lost records, do not make a disk inconsistent |
| `SnapshotStore.Store.Save` | snapshots/store.go:223-294 | success exactly when the height is positive, not being saved and not present, and no chunk fails; every disk on the way has the old or the new records, and the new record is right if and only if its chunks can be counted in 32 bits; the chunk files have the bytes of the streams |
| `SnapshotStore.Store.SaveChunk` | snapshots/store.go:261-289 | a chunk file is created and filled piece by piece, overwriting left overs |
| `SnapshotStore.Store.SetRecord` | snapshots/store.go:297-304 | the record is written when all files are in place, and is right exactly when their number did not wrap around |
| `SnapshotStore.Store.Delete` | snapshots/store.go:52-68 | first the record goes, then the files, with a consistent disk after each write; all chunk files of the snapshot and no others are gone |
| `SnapshotStore.Store.GetLatest` | snapshots/store.go:93-110 | the newest snapshot, or none exactly when there is none |
| `SnapshotStore.Store.Prune` | snapshots/store.go:183-220 | success exactly when nothing to prune is being saved and the directories become empty; then exactly the records of the largest distinct heights remain; no other record is lost on the way; all chunk files and directories of what it removed and no others are gone |
| `SnapshotStore.RemovesPruned` | snapshots/store.go:190-208 | the loop's skip set decides as the definition by distinct heights does |
| `SnapshotStore.NewestKept` | snapshots/store.go:190-208 | the newest snapshot survives a prune exactly when anything is retained |
| `SnapshotStore.PruneOfChunklessSnapshotFails` | snapshots/store.go:209-219 | a prune that removes a snapshot saved without chunks reports failure |
| `SnapshotManager.RestoreIsSafe` | snapshots/manager.go:325-373 | a restore reports success only after exactly the offered chunks, in order and hash-matching, were given to a restorer that reported no error |
| `SnapshotManager.RestoreSucceeds` | snapshots/manager.go:325-373 | conversely, the offered chunks in order, with any mismatching ones among them, no early report and a final one without error end in success, for fewer than 2^32 chunks |
| `SnapshotManager.MismatchesAreHarmless` | snapshots/manager.go:347-354 | over every sequence of calls, chunks with a wrong hash change neither the restore nor what the restorer is given nor any other answer |
| `SnapshotManager.OverAfterReport` | snapshots/manager.go:325-373 | over every sequence of chunks a restore is over if and only if a report has come, early or final |
| `SnapshotManager.RefusedAfterReport` | snapshots/manager.go:325-345 | once a report has come every later chunk is refused |
| `SnapshotManager.Manager.RestoreAgain` | snapshots/manager.go:238-345 | after any sequence of chunks a new offer is accepted if and only if a report has come and it is a good offer |
| `SnapshotManager.Manager.Begin` | snapshots/manager.go:97-113 | an operation begins exactly when none is in progress |
| `SnapshotManager.Manager.End` | snapshots/manager.go:116-132 | the operation ends, and a live channel is closed |
| `SnapshotManager.Manager.Restore` | snapshots/manager.go:238-285 | an offer is accepted exactly when its chunk count, hashes, format and height are right and no operation is in progress |
| `SnapshotManager.Manager.RestoreChunk` | snapshots/manager.go:325-373 | outside a restore a chunk is refused; an early report ends the restore with its error; a mismatching chunk changes nothing; a matching one is sent, and the last one ends the restore with the final report; the channel is never closed twice |
| `SnapshotManager.Manager.Create` | snapshots/manager.go:146-170 | a snapshot is created exactly when none is as new and its chunks do not fail |
| `SnapshotManager.Manager.Prune` | snapshots/manager.go:227-234 | the store's prune, if no operation is in progress |
| `SnapshotManager.Manager.Run` | snapshots/manager.go:146-234 | over every sequence of creates, of fewer than 2^32 chunks, and prunes that retain something, killed and restarted after any write, every disk is consistent and the heights of created snapshots increase |
| `SnapshotManager.PruningAllForgets` | snapshots/manager.go:227-234 | after pruning everything a lower snapshot than the last can be created |
| `ProtoWire.SovIsLength` | types/abci.pb.go:1456-1458 | the size computed from the bit length is the length of the varint |
| `ProtoWire.VarintRoundTrip` | types/abci.pb.go:1208-1218 | 64-bit varints decode to what was encoded |
| `ProtoWire.VarintDigits` | types/abci.pb.go:1208-1218 | a varint has the digits of its number to the base of 128, least significant first, and the top bit in all bytes but the last |
| `ProtoWire.ReadVarintExactly` | types/abci.pb.go:2716-2734 | every varint of at most ten bytes is read as its digits say, modulo 2^64; a longer one overflows and one cut off is an unexpected end |
| `ProtoWire.NextFieldLocal` | codec/types/any.pb.go:335-451 | what a field decodes to depends on its own bytes only |
| `ProtoWire.RefusedTags` | types/abci.pb.go:2735-2770 | the error for every kind of bad tag, wire type and length |
| `ProtoWire.UnbalancedGroups` | types/abci.pb.go:3091-3170 | closing a group that is not open, and data that ends inside one, are errors |
| `ProtoWire.Concatenation` | types/abci.pb.go:2712-2911 | decoding a concatenation is decoding one part after the other, for every message |
| `ProtoWire.FieldRoundTrip` | types/abci.pb.go:1092-1110 | a length-delimited field decodes to its number and payload |
| `ProtoWire.KnownLength` | types/abci.pb.go:2741-2776 | a decoded field was at least as long as its encoding |
| `ProtoFields.SkipItem` | types/abci.pb.go:3091-3168 | skipping consumes a well-formed field of any wire type exactly, groups nested to any depth included |
| `ProtoFields.UnknownItem` | codec/types/any.pb.go:430-443 | a field a message does not have is taken with exactly its bytes |
| `ProtoBuffer.DecodeVarint` | types/abci.pb.go:2718-2731 | the shifting loop reads the varint, with its overflow and end of input errors |
| `ProtoBuffer.SkipField` | types/abci.pb.go:3091-3168 | the loop with its depth counter is the recursive definition, errors included |
| `ProtoBuffer.DecodeField` | types/abci.pb.go:2716-2813 | one turn of an Unmarshal loop, with every error condition |
| `ProtoBuffer.DecodeFields` | types/abci.pb.go:2712-2821 | an Unmarshal loop folds the fields into the message |
| `ProtoBuffer.EncodeVarint` | types/abci.pb.go:1208-1218 | the varint is written before the offset, and nothing else changes |
| `ProtoBuffer.EncodeBytes` | types/abci.pb.go:1092-1110 | a field is written back to front in the room computed for it, and none for an empty one |
| `ProtoMessages.MsgDataRoundTrip` | types/abci.pb.go:2712-2821 | Unmarshal undoes Marshal on MsgData |
| `ProtoMessages.MsgDataSizeIsLength` | types/abci.pb.go:1394-1409 | Size is the length of the encoding |
| `ProtoMessages.MarshalMsgData` | types/abci.pb.go:1092-1110 | the encoding is written right before the given end and nothing else changes; the type stands first with tag 0x0a, then the data with tag 0x12, each only if not empty, and nothing follows |
| `ProtoMessages.TxMsgDataSize` | types/abci.pb.go:1411-1424 | the size loop computes the length of the encoding |
| `ProtoMessages.MarshalTxMsgData` | types/abci.pb.go:1112-1144 | the buffer of that size is filled exactly, entry by entry from its end; entry by entry the tag 0x0a and the bytes of a MsgData, and nothing follows |
| `ProtoMessages.TxMsgDataRoundTrip` | types/abci.pb.go:2828-2911 | Unmarshal undoes Marshal on every nested, repeated TxMsgData |
| `ProtoMessages.UnknownFieldsDropped` | types/abci.pb.go:2891-2904 | unknown fields after an encoding do not change what it decodes to |
| `ProtoMessages.MsgDataIsStable` | types/abci.pb.go:2712-2821 | decode, encode, decode gives the same MsgData for every accepted input, and the new encoding is no longer |
| `ProtoMessages.LastFieldOfMsgData` | types/abci.pb.go:2740-2806 | of a repeated field the last one counts |
| `ProtoMessages.UnknownFieldsOfMsgDataDropped` | types/abci.pb.go:2807-2821 | unknown fields after a MsgData do not change what it decodes to |
| `ProtoMessages.NextEntry` | types/abci.pb.go:2856-2890 | entries are collected in order, and one that does not decode is an error |
| `ProtoMessages.TxMsgDataIsStable` | types/abci.pb.go:2828-2911 | the same of TxMsgData, with unknown and repeated fields at both levels |
| `ProtoMessages.UnmarshalTxMsgData` | types/abci.pb.go:2828-2911 | the decoder is the function the laws are about |
| `ProtoMessages.MarshalAny` | codec/types/any.pb.go:171-210 | known fields, then the unrecognized bytes, fill the buffer exactly; the type URL with tag 0x0a, the value with tag 0x12, and then the unrecognized bytes |
| `ProtoMessages.UnmarshalAny` | codec/types/any.pb.go:335-451 | the decoder is the function the laws are about |
| `ProtoMessages.LastFieldOfAny` | codec/types/any.pb.go:364-430 | of a repeated field the last one counts, and unrecognized bytes stay |
| `ProtoMessages.AnyRoundTrip` | codec/types/any.pb.go:171-210 | Unmarshal undoes Marshal on Any if and only if the unrecognized bytes are, one after the other, well-formed fields that Any does not have |
| `ProtoMessages.UnknownDecodes` | codec/types/any.pb.go:430-443 | such bytes are carried along whatever the other fields are |
| `ProtoMessages.UnknownFieldsKept` | codec/types/any.pb.go:430-443 | an Any carries unknown fields through a round trip |
| `ProtoMessages.AnyIsStable` | codec/types/any.pb.go:335-451 | decode, encode, decode gives the same Any for every accepted input, and the new encoding is no longer |
| `Denoms.Order` | types/coin.go:323-346 | comparing denominations byte by byte is a strict total order |
| `Denoms.BeforeExactly` | types/coin.go:323-345 | denominations compare by the first byte in which they differ, and a prefix comes first |
| `CoinLists.SameAmountsSameList` | types/coin.go:207-254 | a strictly sorted list without zeros is determined by its amounts |
| `CoinLists.RemoveZeros` | types/coin.go:713-734 | the coins that are not zero, in order |
| `CoinLists.NonzeroAmounts` | types/coin.go:713-734 | removing zero coins changes no amount |
| `CoinMerge.Merge` | types/coin.go:303-348 | amounts add up for all lists; for sorted ones, repeats included, the result is sorted, its occurrences are the non-zero sums in pairs, and it panics exactly when one of those is out of range |
| `CoinMerge.SameOccurrences` | types/coin.go:303-348 | a sorted list is determined by the occurrences of its denominations |
| `CoinMerge.StrictByOccurrences` | types/coin.go:209-254 | a sorted list has no repeats exactly when no denomination occurs twice |
| `CoinMerge.ValidByOccurrences` | types/coin.go:209-254 | a sorted list is valid exactly when every denomination occurs at most once, positive and accepted by the rule |
| `CoinMerge.ClashOfAmounts` | types/int.go:233-241 | for lists without repeats it panics exactly when some total is out of range |
| `CoinLists.SearchIsAmount` | types/coin.go:620-645 | the recursive binary search finds the amount of every denomination |
| `CoinLists.Validate` | types/coin.go:209-254 | accepts exactly the strictly sorted lists of acceptable denominations with positive amounts |
| `Coins.IsSorted` | types/coin.go:256-263 | comparing neighbours decides sortedness |
| `Coins.SafeAdd` | types/coin.go:293-348 | it panics exactly for unsorted arguments and sums out of range; otherwise occurrences are added in pairs and amounts pointwise |
| `Coins.ValidByAmounts` | types/coin.go:209-254 | a strict list without zeros is valid exactly when its amounts are not negative and its denominations acceptable |
| `Coins.Add` | types/coin.go:282-284 | the exact condition for the promised valid result, for all lists it accepts; valid sets add up to a valid set or panic exactly on overflow |
| `Coins.AddCanReturnNegative` | types/coin.go:271-284 | a result that is not valid for a negative amount |
| `Coins.AddKeepsRepeats` | types/coin.go:271-284 | a result that is not valid for a repeated denomination, although no amount is negative |
| `Coins.SafeSub` | types/coin.go:388-391 | it panics exactly for unsorted arguments and differences out of range; otherwise subtraction in pairs, and a negative is reported exactly when some pair is negative, which for lists without repeats is when there is less of something |
| `Coins.Sub` | types/coin.go:376-383 | when it panics and when its result is the promised valid set, for all lists; on valid sets it panics exactly when there is less of something, and the result is valid |
| `Coins.SubKeepsRepeats` | types/coin.go:374-383 | a repeated denomination minus nothing, a result that is not the promised valid set |
| `Coins.AddThenSub` | types/coin.go:282-383 | what is added can be taken away again |
| `Coins.IsAllGTE` | types/coin.go:506-522 | on valid sets, at least as much of every denomination |
| `Coins.IsAllLTE` | types/coin.go:532-534 | the converse comparison |
| `Coins.LongerHasMore` | types/coin.go:353-356 | the length shortcut is sound, by counting denominations |
| `Coins.DenomsSubsetOf` | types/coin.go:352-365 | on valid sets, inclusion of the denominations |
| `Coins.IsAllGT` | types/coin.go:480-501 | on valid sets, not empty and more of everything the other has |
| `Coins.NewCoins` | types/coin.go:160-176 | the non-zero coins in order, exactly when they have distinct acceptable denominations and positive amounts |
| `Coins.Max` | types/coin.go:407-436 | the pointwise maximum, valid |
| `Coins.Min` | types/coin.go:454-476 | the pointwise minimum, valid |
| `Coins.MaxIsLeastUpperBound` | types/coin.go:393-406 | the documented laws of Max under IsAllLTE |
| `Coins.MinIsGreatestLowerBound` | types/coin.go:438-453 | the documented laws of Min under IsAllLTE |
| `Coins.AddIsMinPlusMax` | types/coin.go:393-476 | a + b is Min + Max: both panic, or they are equal and IsEqual says so |
| `Coins.IsEqual` | types/coin.go:590-605 | the answer is that to some way of sorting the lists, of which there is one without repeats: yes exactly when the sorted lists are equal and a panic exactly when they first differ in a denomination; yes only to lists with the same coins |
| `Coins.IsEqualOfValid` | types/coin.go:590-605 | the same on valid sets, which sorting leaves alone |
| `Coins.IsEqualPanics` | types/coin.go:85-91 | two one-coin sets that make it panic |
| `Decimals.ChopAndRoundIsNearest` | types/decimal.go:513-543 | rounding is to the nearest integer, ties to even, and odd in the sign |
| `Decimals.NearestEvenUnique` | types/decimal.go:509-543 | that integer is unique |
| `Decimals.MulIsNearest` | types/decimal.go:249-257 | a product is the nearest decimal, ties to even, odd in the sign, and panics exactly when that is out of range |
| `Decimals.QuoTruncateIsDirect` | types/decimal.go:306-318 | truncating in two stages is truncating once |
| `Decimals.QuotientTruncates` | types/decimal.go:588-590 | division rounds towards zero: sign and size of the quotient |
| `Decimals.LimitsInBits` | types/decimal.go:25-35 | the range limits are 256 and 315 bits |
| `Decimals.QuoError` | types/decimal.go:291-303 | a quotient is within half a last-place unit plus 10^-18 of one |
| `Decimals.IntegersFit` | types/decimal.go:581-604 | TruncateInt and RoundInt of a decimal in range never panic |
| `Decimals.Power` | types/decimal.go:396-411 | on whole numbers the fast power is exact and panics exactly when the true power is out of range; on numbers of at most one it never panics, and all roundings together stay within n-1 halves of a last-place unit; on all others, up to the sign, the result is strictly between the powers of the two neighbouring decimals, and a panic means that the upper one is out of range |
| `Decimals.CloseMul` | types/decimal.go:249-257 | errors of scaled approximations of at most one add up, plus half a unit for the rounding |
| `Decimals.BetweenMul` | types/decimal.go:249-257 | the rounded product of approximate powers of a number of at least one stays between the powers of its neighbours |
| `DecimalText.FormatDigits` | types/decimal.go:447-475 | the buffer filled for small and for large numbers |
| `DecimalText.String` | types/decimal.go:432-482 | whole part, point and exactly eighteen decimals |
| `DecimalText.TextForm` | types/decimal.go:432-482 | a minus sign for negative numbers only, digits, the point and exactly eighteen digits |
| `DecimalText.PrintThenParse` | types/decimal.go:144-195 | parsing undoes printing for every decimal in range |
| `DecimalText.AcceptsExactly` | types/decimal.go:131-195 | over all texts: accepted are exactly the documented form and the signed form, each as the number it stands for |
| `DecimalText.ErrorsOf` | types/decimal.go:144-178 | which error an empty text, an empty side of the point, a second point and too many decimals give |
| `DecimalText.AcceptsDocumentedForm` | types/decimal.go:131-195 | a text is of the documented form exactly when it is accepted and has no extra sign |
| `DecimalText.TwoMinusSigns` | types/decimal.go:150-156 | two minus signs and a digit are accepted as a number that is not negative |
| `DecimalText.AcceptsSigns` | types/decimal.go:183-186 | a sign without digits is accepted as zero |
| `DecimalText.MaxSortableIsReciprocal` | types/decimal.go:630-632 | the largest sortable decimal is 10^18 |
| `DecimalText.SortableOrder` | types/decimal.go:641-663 | the bytes sort like the decimals if and only if the greater one is not negative or the smaller one is the least of all |
| `DecimalText.NegativesReversed` | types/decimal.go:658-661 | two other negative decimals sort the wrong way round |
| `Uints.MulScaled` | types/uint.go:259-269 | a scaled product is rounded to the nearest, ties up, and panics exactly when a step does not fit or the scale is zero |
| `Uints.RelativePow` | types/uint.go:240-272 | on multiples of the scale the result is the exact power despite rounding, and it panics exactly when the last product does not fit; on bases of at most one the roundings stay within n-1 halves of a unit, and it does not panic if the square of the scale fits; on bases of at least one the result is strictly between the powers of the neighbouring bases, and a panic means that the last multiplication has no room for the upper one |
| `DecCoins.SafeAdd` | types/dec_coin.go:242-288 | amounts add up; for sorted lists occurrences are added in pairs, with the exact conditions for a panic and for a valid result; valid sets give a valid set |
| `DecCoins.AddKeepsRepeats` | types/dec_coin.go:231-239 | a repeated denomination plus nothing, a result that is not the promised valid set |
| `DecCoins.TruncateCoin` | types/dec_coin.go:112-116 | whole part and change of less than one, panicking exactly for negative amounts and unacceptable denominations |
| `DecCoins.TruncateDecimal` | types/dec_coin.go:212-224 | never panics on a valid set; both parts are valid, and truncated * 10^18 + change is the original for every denomination |
| `DecCoins.Intersect` | types/dec_coin.go:325-335 | the pointwise minimum, valid |

## Left out

- zlib compression, buffering, delimited protobuf messages and pipes between the snapshot store and the multistore: a chunk is its bytes, a failing stream is a flag.
- Liveness of the asynchronous restorer: what it reports is a parameter of each call, and only safety is proved.
- Errors of the database and the file system other than a chunk that cannot be read and a directory that is missing or not empty.
- `List`, `Load` and `LoadChunk` of the snapshot store, which only read, and the snapshot extensions of the manager.
- Recheck as a concurrent activity: BeginRecheckTx resets the check state between calls of the block machine, and checks that are under way at that time are not modelled.
- Caching of reads, iterators and gas accounting inside the stores; tracing and listeners.
- Events, logs and the encoding of results of the block machine; halting, pruning of blocks and queries.
- Handlers that use the block gas meter, or that keep a reference to the check state's context.
- CoinMerge.Merge: for lists that are not sorted, which only DecCoins lets through, no more than the sum law is stated.
- DecCoins.SafeAdd: for lists that are not sorted, which its documentation excludes, no more than the sum law is stated.
- Coins.IsEqual: which of the sorted forms of a list with repeated denominations the library's unstable sort gives is left open.
- Coins.Max: nothing is stated for arguments that are not valid, which its documentation excludes.
- Coins.Min: nothing is stated for arguments that are not valid, which its documentation excludes.
- Coins.NewCoins: sorting is by insertion on values, so that the caller's slice being sorted in place is not captured.
- BaseApp.App.InitChain: of the request and the response only heights, parameters and validators are modelled.
- Nil and empty byte slices are one value in the codec, as bytes.Equal has it.
- ApproxRoot, QuoRoundUp, Ceil and MulTruncate, for which the code promises no more than one rounding step or no bound at all.
- The other generated messages, which follow the same pattern, and the reflective unknown-field checker.
- Parsing of coins and the regular expression for denominations, JSON and Amino forms.
- Command line, key management, servers, configuration and application wiring.
