/** The snapshot manager (snapshots/manager.go): one operation at a time, and restores fed
    chunk by chunk to an asynchronous restorer. */
module SnapshotManager {
  import opened Wrappers
  import opened Octets
  import opened Chunks
  import opened SnapshotStore

  const CURRENT_FORMAT: nat := 1
  const MAX_INT64: nat := 0x7FFF_FFFF_FFFF_FFFF

  // ----- restoring, as a protocol between the caller and the restorer

  /** The restorer's report: it is complete exactly when it has no error. */
  datatype Report = Report(err: Option<string>)

  /** `sent` are the chunks the restorer was given so far. */
  datatype Restore = Idle | Active(hashes: seq<Bytes>, sent: seq<Bytes>)

  datatype ChunkResult = Done | More | Failed(error: string)

  /** One call of RestoreChunk: `early` is what the restorer reported before the call, if it
      did, and `final` what it reports once it has been given the last chunk. */
  datatype ChunkCall = ChunkCall(chunk: Bytes, early: Option<Report>, final: Report)

  const NO_RESTORE := "no restore operation in progress"
  const ENDED_EARLY := "restore ended unexpectedly"

  /** The 32-bit chunk index. */
  function Index(sent: seq<Bytes>): nat {
    |sent| % TWO_TO_THE_32
  }

  function FeedChunk(hash: Hash, r: Restore, c: ChunkCall): (Restore, ChunkResult) {
    if r.Idle? then (r, Failed(NO_RESTORE))
    else if Index(r.sent) >= |r.hashes| then (r, Failed("received unexpected chunk"))
    else if c.early.Some? then
      (Idle, Failed(if c.early.value.err.Some? then c.early.value.err.value else ENDED_EARLY))
    else if hash(c.chunk) != r.hashes[Index(r.sent)] then (r, Failed("chunk hash mismatch"))
    else if Index(r.sent + [c.chunk]) < |r.hashes| then (r.(sent := r.sent + [c.chunk]), More)
    else (Idle, if c.final.err.Some? then Failed(c.final.err.value) else Done)
  }

  ghost predicate Matching(hash: Hash, hashes: seq<Bytes>, chunks: seq<Bytes>) {
    |chunks| <= |hashes| && forall i :: 0 <= i < |chunks| ==> hash(chunks[i]) == hashes[i]
  }

  /** The restore after the first `n` calls. */
  function Feed(hash: Hash, r: Restore, calls: seq<ChunkCall>, n: nat): Restore
    requires n <= |calls|
  {
    if n == 0 then r else FeedChunk(hash, Feed(hash, r, calls, n - 1), calls[n - 1]).0
  }

  /** The call hands its chunk to the restorer. */
  predicate Takes(hash: Hash, r: Restore, c: ChunkCall) {
    r.Active? && Index(r.sent) < |r.hashes| && c.early.None? && hash(c.chunk) == r.hashes[Index(r.sent)]
  }

  /** The chunks among the first `n` calls that the restorer was given. */
  function Accepted(hash: Hash, r: Restore, calls: seq<ChunkCall>, n: nat): seq<Bytes>
    requires n <= |calls|
  {
    if n == 0 then []
    else
      Accepted(hash, r, calls, n - 1) + if Takes(hash, Feed(hash, r, calls, n - 1), calls[n - 1]) then [calls[n - 1].chunk] else []
  }

  lemma FedChunk(hash: Hash, hashes: seq<Bytes>, sent: seq<Bytes>, c: ChunkCall)
    requires |sent| < |hashes| < TWO_TO_THE_32 && Matching(hash, hashes, sent)
    ensures var r := Active(hashes, sent);
            var (r', result) := FeedChunk(hash, r, c);
            var sent' := if Takes(hash, r, c) then sent + [c.chunk] else sent;
            && Matching(hash, hashes, sent')
            && (r'.Active? ==> r' == Active(hashes, sent') && |sent'| < |hashes|)
            && (result == Done ==> r'.Idle? && |sent'| == |hashes| && c.early.None? && c.final.err.None?)
  {
    assert Index(sent) == |sent|;
    if Takes(hash, Active(hashes, sent), c) {
      assert Index(sent + [c.chunk]) == |sent| + 1;
    }
  }

  lemma {:induction false} FedChunks(hash: Hash, hashes: seq<Bytes>, calls: seq<ChunkCall>, n: nat)
    requires n <= |calls| && 0 < |hashes| < TWO_TO_THE_32
    ensures var r := Feed(hash, Active(hashes, []), calls, n);
            var sent := Accepted(hash, Active(hashes, []), calls, n);
            && Matching(hash, hashes, sent) && (r.Active? ==> r == Active(hashes, sent) && |sent| < |hashes|)
  {
    if n > 0 {
      FedChunks(hash, hashes, calls, n - 1);
      var sent := Accepted(hash, Active(hashes, []), calls, n - 1);
      if Feed(hash, Active(hashes, []), calls, n - 1).Active? {
        FedChunk(hash, hashes, sent, calls[n - 1]);
      }
    }
  }

  /** A restore reports success only when the restorer was given exactly the chunks of the
      offered snapshot, in order and each with the offered hash, and reported no error. */
  lemma RestoreIsSafe(hash: Hash, hashes: seq<Bytes>, calls: seq<ChunkCall>, n: nat)
    requires n < |calls| && |hashes| > 0
    requires FeedChunk(hash, Feed(hash, Active(hashes, []), calls, n), calls[n]).1 == Done
    ensures var all := Accepted(hash, Active(hashes, []), calls, n + 1);
            && |all| == |hashes| && (forall i :: 0 <= i < |hashes| ==> hash(all[i]) == hashes[i])
            && calls[n].final.err.None? && calls[n].early.None?
            && Feed(hash, Active(hashes, []), calls, n + 1) == Idle
  {
    var r := Feed(hash, Active(hashes, []), calls, n);
    SameHashes(hash, hashes, calls, n);
    assert |hashes| < TWO_TO_THE_32 by {
      assert Index(r.sent + [calls[n].chunk]) < TWO_TO_THE_32;
    }
    FedChunks(hash, hashes, calls, n);
    FedChunk(hash, hashes, r.sent, calls[n]);
  }

  lemma {:induction false} SameHashes(hash: Hash, hashes: seq<Bytes>, calls: seq<ChunkCall>, n: nat)
    requires n <= |calls|
    ensures var r := Feed(hash, Active(hashes, []), calls, n); r.Active? ==> r.hashes == hashes
  {
    if n > 0 { SameHashes(hash, hashes, calls, n - 1); }
  }

  /** A chunk with another hash than the one expected. */
  predicate Mismatches(hash: Hash, r: Restore, c: ChunkCall) {
    r.Active? && Index(r.sent) < |r.hashes| && c.early.None? && hash(c.chunk) != r.hashes[Index(r.sent)]
  }

  /** The first `n` calls without those that mismatch at their turn. */
  function WithoutMismatches(hash: Hash, r: Restore, calls: seq<ChunkCall>, n: nat): seq<ChunkCall>
    requires n <= |calls|
  {
    if n == 0 then []
    else
      WithoutMismatches(hash, r, calls, n - 1) + if Mismatches(hash, Feed(hash, r, calls, n - 1), calls[n - 1]) then [] else [calls[n - 1]]
  }

  /** The answers to those calls. */
  function Answers(hash: Hash, r: Restore, calls: seq<ChunkCall>, n: nat): seq<ChunkResult>
    requires n <= |calls|
  {
    if n == 0 then []
    else
      var before := Feed(hash, r, calls, n - 1);
      Answers(hash, r, calls, n - 1) + if Mismatches(hash, before, calls[n - 1]) then [] else [FeedChunk(hash, before, calls[n - 1]).1]
  }

  lemma {:induction false} FeedPrefix(hash: Hash, r: Restore, calls: seq<ChunkCall>, more: seq<ChunkCall>, n: nat)
    requires n <= |calls|
    ensures Feed(hash, r, calls + more, n) == Feed(hash, r, calls, n)
    ensures Accepted(hash, r, calls + more, n) == Accepted(hash, r, calls, n)
    ensures Answers(hash, r, calls + more, n) == Answers(hash, r, calls, n)
  {
    if n > 0 { FeedPrefix(hash, r, calls, more, n - 1); }
  }

  /** Over every sequence of calls: chunks with a wrong hash, sent at whatever times, change
      neither the restore nor what the restorer is given nor any other answer. */
  lemma {:induction false} MismatchesAreHarmless(hash: Hash, r: Restore, calls: seq<ChunkCall>, n: nat)
    requires n <= |calls|
    ensures var kept := WithoutMismatches(hash, r, calls, n);
            && Feed(hash, r, calls, n) == Feed(hash, r, kept, |kept|)
            && Accepted(hash, r, calls, n) == Accepted(hash, r, kept, |kept|)
            && Answers(hash, r, calls, n) == Answers(hash, r, kept, |kept|) && |Answers(hash, r, calls, n)| == |kept|
  {
    hide Feed, Accepted, Answers, WithoutMismatches, Takes, FeedChunk, Mismatches;
    if n == 0 {
      NothingFed(hash, r, calls);
      NothingFed(hash, r, []);
    } else {
      MismatchesAreHarmless(hash, r, calls, n - 1);
      LastMismatch(hash, r, calls, n);
      LastKept(hash, r, calls, n);
      FeedNext(hash, r, WithoutMismatches(hash, r, calls, n - 1), calls[n - 1]);
    }
  }

  lemma NothingFed(hash: Hash, r: Restore, calls: seq<ChunkCall>)
    ensures Feed(hash, r, calls, 0) == r && WithoutMismatches(hash, r, calls, 0) == []
    ensures Accepted(hash, r, calls, 0) == [] && Answers(hash, r, calls, 0) == []
  {}

  /** A last call that mismatches leaves everything as it was. */
  lemma LastMismatch(hash: Hash, r: Restore, calls: seq<ChunkCall>, n: nat)
    requires 0 < n <= |calls|
    ensures Mismatches(hash, Feed(hash, r, calls, n - 1), calls[n - 1]) ==>
              && WithoutMismatches(hash, r, calls, n) == WithoutMismatches(hash, r, calls, n - 1)
              && Feed(hash, r, calls, n) == Feed(hash, r, calls, n - 1)
              && Accepted(hash, r, calls, n) == Accepted(hash, r, calls, n - 1)
              && Answers(hash, r, calls, n) == Answers(hash, r, calls, n - 1)
  {
    MismatchTaken(hash, Feed(hash, r, calls, n - 1), calls[n - 1]);
    hide Takes, FeedChunk, Mismatches;
  }

  /** Any other last call is kept and answered. */
  lemma LastKept(hash: Hash, r: Restore, calls: seq<ChunkCall>, n: nat)
    requires 0 < n <= |calls|
    ensures var now, c := Feed(hash, r, calls, n - 1), calls[n - 1];
            !Mismatches(hash, now, c) ==>
              && WithoutMismatches(hash, r, calls, n) == WithoutMismatches(hash, r, calls, n - 1) + [c]
              && Feed(hash, r, calls, n) == FeedChunk(hash, now, c).0
              && Accepted(hash, r, calls, n) == Accepted(hash, r, calls, n - 1) + (if Takes(hash, now, c) then [c.chunk] else [])
              && Answers(hash, r, calls, n) == Answers(hash, r, calls, n - 1) + [FeedChunk(hash, now, c).1]
  {
    hide Takes, FeedChunk, Mismatches;
  }

  /** One more call. */
  lemma FeedNext(hash: Hash, r: Restore, calls: seq<ChunkCall>, c: ChunkCall)
    ensures var now, n := Feed(hash, r, calls, |calls|), |calls| + 1;
            && Feed(hash, r, calls + [c], n) == FeedChunk(hash, now, c).0
            && Accepted(hash, r, calls + [c], n) == Accepted(hash, r, calls, |calls|) + (if Takes(hash, now, c) then [c.chunk] else [])
            && Answers(hash, r, calls + [c], n)
               == Answers(hash, r, calls, |calls|) + if Mismatches(hash, now, c) then [] else [FeedChunk(hash, now, c).1]
  {
    hide Takes, FeedChunk, Mismatches;
    FeedPrefix(hash, r, calls, [c], |calls|);
    assert (calls + [c])[|calls|] == c;
  }

  lemma MismatchTaken(hash: Hash, r: Restore, c: ChunkCall)
    ensures Mismatches(hash, r, c) ==> !Takes(hash, r, c) && FeedChunk(hash, r, c).0 == r && FeedChunk(hash, r, c).1.Failed?
  {}

  /** The first `n` calls bring the offered chunks in order, before any report. */
  ghost predicate Offers(hash: Hash, hashes: seq<Bytes>, calls: seq<ChunkCall>, n: nat) {
    && n <= |calls| && n <= |hashes|
    && forall i :: 0 <= i < n ==> calls[i].early.None? && hash(calls[i].chunk) == hashes[i]
  }

  function ChunksOf(calls: seq<ChunkCall>, n: nat): (r: seq<Bytes>)
    requires n <= |calls|
    ensures |r| == n
  {
    if n == 0 then [] else ChunksOf(calls, n - 1) + [calls[n - 1].chunk]
  }

  /** Conversely, the offered chunks in order, with any mismatching chunks among them, no
      early report and a final one without error end the restore with success. */
  lemma RestoreSucceeds(hash: Hash, hashes: seq<Bytes>, calls: seq<ChunkCall>, n: nat)
    requires n <= |calls| && 0 < |hashes| < TWO_TO_THE_32
    requires var kept := WithoutMismatches(hash, Active(hashes, []), calls, n);
             |kept| == |hashes| && Offers(hash, hashes, kept, |kept|) && kept[|kept| - 1].final.err.None?
    ensures var kept, r := WithoutMismatches(hash, Active(hashes, []), calls, n), Active(hashes, []);
            && Feed(hash, r, calls, n) == Idle && Accepted(hash, r, calls, n) == ChunksOf(kept, |kept|)
            && |Answers(hash, r, calls, n)| == |kept| && Answers(hash, r, calls, n)[|kept| - 1] == Done
  {
    hide WithoutMismatches, Feed, Accepted, Answers, Takes, FeedChunk, Mismatches;
    var r := Active(hashes, []);
    var kept := WithoutMismatches(hash, r, calls, n);
    MismatchesAreHarmless(hash, r, calls, n);
    OfferedSoFar(hash, hashes, kept, |kept| - 1);
    OfferedChunk(hash, hashes, ChunksOf(kept, |kept| - 1), kept[|kept| - 1]);
    LastKept(hash, r, kept, |kept|);
  }

  lemma OfferedChunk(hash: Hash, hashes: seq<Bytes>, sent: seq<Bytes>, c: ChunkCall)
    requires |sent| < |hashes| < TWO_TO_THE_32 && c.early.None? && hash(c.chunk) == hashes[|sent|]
    ensures var r := Active(hashes, sent);
            && Takes(hash, r, c) && !Mismatches(hash, r, c)
            && FeedChunk(hash, r, c)
               == if |sent| + 1 < |hashes| then (Active(hashes, sent + [c.chunk]), More)
                  else (Idle, if c.final.err.Some? then Failed(c.final.err.value) else Done)
  {
    assert Index(sent) == |sent|;
    assert |sent| + 1 < TWO_TO_THE_32 ==> Index(sent + [c.chunk]) == |sent| + 1;
  }

  lemma {:induction false} OfferedSoFar(hash: Hash, hashes: seq<Bytes>, calls: seq<ChunkCall>, n: nat)
    requires n < |hashes| < TWO_TO_THE_32 && Offers(hash, hashes, calls, n)
    ensures var r, sent := Active(hashes, []), ChunksOf(calls, n);
            && Feed(hash, r, calls, n) == Active(hashes, sent) && Accepted(hash, r, calls, n) == sent
            && |Answers(hash, r, calls, n)| == n
  {
    hide Feed, Accepted, Answers, WithoutMismatches, Takes, FeedChunk, Mismatches;
    if n == 0 {
      NothingFed(hash, Active(hashes, []), calls);
    } else {
      OfferedSoFar(hash, hashes, calls, n - 1);
      OfferedChunk(hash, hashes, ChunksOf(calls, n - 1), calls[n - 1]);
      LastKept(hash, Active(hashes, []), calls, n);
    }
  }

  /** The restorer has reported: before the call, or because the call brings the last chunk. */
  predicate Reported(hash: Hash, r: Restore, c: ChunkCall) {
    && r.Active? && Index(r.sent) < |r.hashes|
    && (c.early.Some? || (hash(c.chunk) == r.hashes[Index(r.sent)] && Index(r.sent) + 1 == |r.hashes| < TWO_TO_THE_32))
  }

  predicate ReportedAt(hash: Hash, r: Restore, calls: seq<ChunkCall>, m: nat)
    requires m < |calls|
  {
    Reported(hash, Feed(hash, r, calls, m), calls[m])
  }

  lemma EndsWithReport(hash: Hash, r: Restore, c: ChunkCall)
    requires r.Active? && Index(r.sent) < |r.hashes|
    ensures var r' := FeedChunk(hash, r, c).0;
            && (Reported(hash, r, c) ==> r' == Idle)
            && (!Reported(hash, r, c) ==> r'.Active? && r'.hashes == r.hashes && Index(r'.sent) < |r'.hashes|)
  {}

  /** Over every sequence of calls: a restore is over exactly when a report has come. */
  lemma {:induction false} OverAfterReport(hash: Hash, r: Restore, calls: seq<ChunkCall>, n: nat)
    requires n <= |calls| && r.Active? && Index(r.sent) < |r.hashes|
    ensures var now := Feed(hash, r, calls, n);
            && (now.Active? ==> Index(now.sent) < |now.hashes|)
            && (now == Idle <==> exists m :: 0 <= m < n && ReportedAt(hash, r, calls, m))
  {
    hide FeedChunk, Reported, Index;
    if n > 0 {
      OverAfterReport(hash, r, calls, n - 1);
      var now := Feed(hash, r, calls, n - 1);
      if now.Active? {
        EndsWithReport(hash, now, calls[n - 1]);
        assert ReportedAt(hash, r, calls, n - 1) == Reported(hash, now, calls[n - 1]);
      } else {
        IdleStays(hash, calls[n - 1]);
      }
    }
  }

  lemma IdleStays(hash: Hash, c: ChunkCall)
    ensures FeedChunk(hash, Idle, c) == (Idle, Failed(NO_RESTORE)) && !Reported(hash, Idle, c)
  {}

  /** Once a report has come, early or final, every later chunk is refused. */
  lemma RefusedAfterReport(hash: Hash, r: Restore, calls: seq<ChunkCall>, m: nat, n: nat)
    requires m < n < |calls| && r.Active? && Index(r.sent) < |r.hashes| && ReportedAt(hash, r, calls, m)
    ensures FeedChunk(hash, Feed(hash, r, calls, n), calls[n]) == (Idle, Failed(NO_RESTORE))
  {
    OverAfterReport(hash, r, calls, n);
    IdleStays(hash, calls[n]);
  }

  // ----- the manager

  datatype Operation = OpNone | OpSnapshot | OpPrune | OpRestore

  /** A channel panics when it is closed twice or sent to after it was closed. */
  class Channel {
    var sent: seq<Bytes>
    var closed: bool

    constructor ()
      ensures sent == [] && !closed
    {
      sent, closed := [], false;
    }

    method Send(chunk: Bytes)
      requires !closed
      modifies this
      ensures sent == old(sent) + [chunk] && !closed
    {
      sent := sent + [chunk];
    }

    method Close()
      requires !closed
      modifies this
      ensures closed && sent == old(sent)
    {
      closed := true;
    }
  }

  class Manager {
    const store: Store
    var operation: Operation
    var chRestore: Channel?
    var awaitsReport: bool             // chRestoreDone is set
    var restoreChunkHashes: seq<Bytes>
    var restoreChunkIndex: nat

    /** The restore fields are live exactly while a restore is in progress. */
    ghost predicate Valid()
      reads this, chRestore
    {
      if operation == OpRestore then
        && chRestore != null && !chRestore.closed && awaitsReport
        && restoreChunkIndex == Index(chRestore.sent) < |restoreChunkHashes|
      else
        chRestore == null && !awaitsReport && restoreChunkHashes == [] && restoreChunkIndex == 0
    }

    ghost function Abstract(): Restore
      requires Valid()
      reads this, chRestore
    {
      if operation == OpRestore then Active(restoreChunkHashes, chRestore.sent) else Idle
    }

    constructor (store: Store)
      ensures Valid() && this.store == store && operation == OpNone
    {
      this.store := store;
      operation, chRestore, awaitsReport, restoreChunkHashes, restoreChunkIndex := OpNone, null, false, [], 0;
    }

    method Begin(op: Operation) returns (ok: bool)
      requires Valid()
      modifies this`operation
      ensures ok == (op != OpNone && old(operation) == OpNone)
      ensures operation == if ok then op else old(operation)
    {
      if op == OpNone || operation != OpNone { return false; }
      operation := op;
      ok := true;
    }

    method End()
      requires chRestore != null ==> !chRestore.closed
      modifies this, chRestore
      ensures Valid() && operation == OpNone
      ensures old(chRestore) != null ==> old(chRestore).closed && old(chRestore).sent == old(chRestore.sent)
    {
      operation := OpNone;
      if chRestore != null {
        chRestore.Close();
        chRestore := null;
      }
      awaitsReport, restoreChunkHashes, restoreChunkIndex := false, [], 0;
    }

    /** Restore: offer a snapshot.  The channel is new. */
    method Restore(id: Id, chunks: nat, hashes: seq<Bytes>) returns (err: Option<string>)
      requires Valid()
      modifies this
      ensures Valid() && (chRestore != old(chRestore) ==> fresh(chRestore))
      ensures err.None? <==>
                && chunks > 0 && |hashes| % TWO_TO_THE_32 == chunks && id.format == CURRENT_FORMAT && 0 < id.height <= MAX_INT64
                && old(operation) == OpNone
      ensures err.None? ==> Abstract() == Active(hashes, [])
      ensures err.Some? ==> unchanged(this)
    {
      if chunks == 0 { return Some("no chunks"); }
      if |hashes| % TWO_TO_THE_32 != chunks { return Some("wrong number of chunk hashes"); }
      if id.format != CURRENT_FORMAT { return Some("unknown format"); }
      if id.height == 0 { return Some("cannot restore snapshot at height 0"); }
      if id.height > MAX_INT64 { return Some("snapshot height too large"); }
      var ok := Begin(OpRestore);
      if !ok { return Some("an operation is in progress"); }
      chRestore := new Channel();
      awaitsReport := true;
      restoreChunkHashes, restoreChunkIndex := hashes, 0;
      err := None;
    }

    /** RestoreChunk.  The preconditions of Send and Close hold on every path, so the channel
        is never closed twice nor sent to after it was closed. */
    method RestoreChunk(c: ChunkCall) returns (r: ChunkResult)
      requires Valid()
      modifies this, chRestore
      ensures Valid() && (Abstract(), r) == FeedChunk(store.hash, old(Abstract()), c)
      ensures r == Done ==> old(chRestore) != null && old(chRestore).closed && old(chRestore).sent == old(chRestore.sent) + [c.chunk]
      ensures chRestore == old(chRestore) || chRestore == null
      ensures old(operation) != OpRestore ==> r == Failed(NO_RESTORE) && operation == old(operation)
      ensures old(operation) == OpRestore && c.early.Some? ==>
                && operation == OpNone && old(chRestore).closed && old(chRestore).sent == old(chRestore.sent)
                && r == Failed(if c.early.value.err.Some? then c.early.value.err.value else ENDED_EARLY)
      ensures old(operation) == OpRestore && c.early.None? ==>
                var hashes, index := old(restoreChunkHashes), old(restoreChunkIndex);
                var matches, last := store.hash(c.chunk) == hashes[index], index + 1 == |hashes| && |hashes| < TWO_TO_THE_32;
                && (!matches ==> r.Failed? && operation == OpRestore && restoreChunkHashes == hashes && restoreChunkIndex == index)
                && (old(chRestore).sent == old(chRestore.sent) + if matches then [c.chunk] else [])
                && (matches && !last ==>
                      && r == More && operation == OpRestore && restoreChunkHashes == hashes
                      && restoreChunkIndex == (index + 1) % TWO_TO_THE_32)
                && (matches && last ==>
                      && operation == OpNone && old(chRestore).closed
                      && r == if c.final.err.Some? then Failed(c.final.err.value) else Done)
    {
      if operation != OpRestore { return Failed(NO_RESTORE); }
      if restoreChunkIndex >= |restoreChunkHashes| { return Failed("received unexpected chunk"); }
      if c.early.Some? {
        End();
        return Failed(if c.early.value.err.Some? then c.early.value.err.value else ENDED_EARLY);
      }
      if store.hash(c.chunk) != restoreChunkHashes[restoreChunkIndex] { return Failed("chunk hash mismatch"); }
      chRestore.Send(c.chunk);
      restoreChunkIndex := (restoreChunkIndex + 1) % TWO_TO_THE_32;
      if restoreChunkIndex >= |restoreChunkHashes| {
        chRestore.Close();
        chRestore := null;
        End();
        return if c.final.err.Some? then Failed(c.final.err.value) else Done;
      }
      return More;
    }

    /** Any number of chunks. */
    method RestoreChunks(calls: seq<ChunkCall>) returns (rs: seq<ChunkResult>)
      requires Valid()
      modifies this, chRestore
      ensures Valid() && Abstract() == Feed(store.hash, old(Abstract()), calls, |calls|)
      ensures old(operation) != OpRestore ==> operation == old(operation)
      ensures old(operation) == OpRestore ==> operation == OpRestore || operation == OpNone
      ensures |rs| == |calls|
      ensures forall i :: 0 <= i < |calls| ==> rs[i] == FeedChunk(store.hash, Feed(store.hash, old(Abstract()), calls, i), calls[i]).1
    {
      hide FeedChunk;
      rs := [];
      ghost var start := Abstract();
      for n := 0 to |calls|
        invariant Valid() && Abstract() == Feed(store.hash, start, calls, n) && |rs| == n
        invariant chRestore == old(chRestore) || chRestore == null
        invariant old(operation) != OpRestore ==> operation == old(operation)
        invariant old(operation) == OpRestore ==> operation == OpRestore || operation == OpNone
        invariant forall i :: 0 <= i < n ==> rs[i] == FeedChunk(store.hash, Feed(store.hash, start, calls, i), calls[i]).1
      {
        var r := RestoreChunk(calls[n]);
        rs := rs + [r];
      }
    }

    /** Chunks and then a new offer: chunks after a report are refused, and the offer is
        accepted exactly when a report has come and it is a good offer. */
    method RestoreAgain(calls: seq<ChunkCall>, id: Id, chunks: nat, hashes: seq<Bytes>)
      returns (rs: seq<ChunkResult>, err: Option<string>)
      requires Valid() && operation == OpRestore
      modifies this, chRestore
      ensures Valid() && |rs| == |calls|
      ensures forall m, n :: 0 <= m < n < |calls| && ReportedAt(store.hash, old(Abstract()), calls, m) ==> rs[n] == Failed(NO_RESTORE)
      ensures err.None? <==>
                && (exists m :: 0 <= m < |calls| && ReportedAt(store.hash, old(Abstract()), calls, m))
                && chunks > 0 && |hashes| % TWO_TO_THE_32 == chunks && id.format == CURRENT_FORMAT && 0 < id.height <= MAX_INT64
      ensures err.None? ==> Abstract() == Active(hashes, [])
    {
      ghost var start := Abstract();
      rs := RestoreChunks(calls);
      OverAfterReport(store.hash, start, calls, |calls|);
      forall m, n | 0 <= m < n < |calls| && ReportedAt(store.hash, start, calls, m) ensures rs[n] == Failed(NO_RESTORE) {
        RefusedAfterReport(store.hash, start, calls, m, n);
      }
      hide ReportedAt, FeedChunk, Feed;
      err := Restore(id, chunks, hashes);
    }

    /** The process dies after some write and starts again from the disk it left. */
    method Restart(d: Disk)
      requires Valid() && store.Valid() && Consistent(store.hash, d)
      modifies this, chRestore, store
      ensures Valid() && store.Valid() && operation == OpNone && store.disk == d && store.saving == {}
    {
      store.disk, store.saving, store.reached := d, {}, {};
      operation, chRestore, awaitsReport, restoreChunkHashes, restoreChunkIndex := OpNone, null, false, [], 0;
    }

    /** Create, if no other operation is in progress and no snapshot is as new. */
    method Create(height: nat, bodies: seq<Body>, keys: seq<Id>) returns (r: Option<Snapshot>)
      requires Valid() && store.Valid() && ReverseIteration(store.disk.db, keys) && height <= MAX_UINT64
      modifies this, store
      ensures Valid() && operation == old(operation) && Abstract() == old(Abstract())
      ensures |bodies| < TWO_TO_THE_32 || r.None? ==> store.Valid()
      ensures chRestore == old(chRestore) && store.saving == old(store.saving)
      ensures r.Some? <==>
                && old(operation) == OpNone && height > 0 && height !in store.saving
                && (forall id :: id in old(store.disk).db && id != LAST_ID ==> id.height < height)
                && forall i :: 0 <= i < |bodies| ==> !bodies[i].failed
      ensures r.Some? ==>
                && r.value == Record(store.hash, Id(height, CURRENT_FORMAT), bodies)
                && store.disk.db == old(store.disk).db[Id(height, CURRENT_FORMAT) := r.value]
                && (RecordOk(store.hash, store.disk, Id(height, CURRENT_FORMAT)) <==> |bodies| < TWO_TO_THE_32)
      ensures r.None? ==> store.disk.db == old(store.disk).db
      ensures r.Some? && |bodies| > 0 ==>
                && store.disk.heightDirs == old(store.disk).heightDirs + {height}
                && store.disk.formatDirs == old(store.disk).formatDirs + {Id(height, CURRENT_FORMAT)}
      ensures old(store.reached) <= store.reached
      ensures forall d :: d in store.reached && d !in old(store.reached) ==> d.db == old(store.disk).db || d.db == store.disk.db
    {
      hide RecordOk, Record;
      var ok := Begin(OpSnapshot);
      if !ok { return None; }
      var latest := store.GetLatest(keys);
      if latest.Some? && latest.value.id.height >= height {
        End();
        return None;
      }
      r := store.Save(Id(height, CURRENT_FORMAT), bodies);
      End();
    }

    method Prune(retain: nat, keys: seq<Id>) returns (r: Option<nat>)
      requires Valid() && store.Valid() && ReverseIteration(store.disk.db, keys)
      modifies this, store
      ensures Valid() && store.Valid() && operation == old(operation) && Abstract() == old(Abstract())
      ensures chRestore == old(chRestore) && store.saving == old(store.saving)
      ensures r.Some? <==> old(operation) == OpNone && PruneSucceeds(old(store.disk), store.saving, retain)
      ensures r.Some? ==> store.disk.db == Retained(old(store.disk).db, retain)
      ensures old(operation) != OpNone ==> r.None? && store.disk == old(store.disk)
      ensures Without(store.disk.db, old(store.disk).db, Pruned(old(store.disk).db, retain))
      ensures old(store.reached) <= store.reached
      ensures forall d :: d in store.reached && d !in old(store.reached) ==>
                Without(d.db, old(store.disk).db, Pruned(old(store.disk).db, retain))
    {
      var ok := Begin(OpPrune);
      if !ok { return None; }
      r := store.Prune(retain, keys);
      End();
    }

    /** One call.  Every disk it goes through has records at least as high as before. */
    method Perform(op: Op) returns (created: Option<nat>)
      requires Valid() && store.Valid() && operation == OpNone && store.saving == {} && store.reached == {}
      requires Allowed(op)
      modifies this, store
      ensures Valid() && store.Valid() && operation == OpNone && store.saving == {}
      ensures forall d, h :: (d == store.disk || d in store.reached) && Reaches(old(store.disk).db, h) ==> Reaches(d.db, h)
      ensures created.Some? ==> Reaches(store.disk.db, created.value) && !Reaches(old(store.disk).db, created.value)
    {
      ghost var db := store.disk.db;
      var keys := store.Iterate();
      created := None;
      match op {
        case Creating(height, bodies) =>
          var r := Create(height, bodies, keys);
          if r.Some? {
            created := Some(height);
            assert Id(height, CURRENT_FORMAT) in store.disk.db;
          }
        case Pruning(retain) =>
          NewestReached(db, keys, retain);
          var _ := Prune(retain, keys);
      }
    }

    /** One call, and the disk from which the process restarts if it dies during it. */
    method Handle(e: Event) returns (created: Option<nat>, through: set<Disk>)
      requires Valid() && store.Valid() && operation == OpNone && store.saving == {}
      requires Allowed(e.op)
      modifies this, store
      ensures Valid() && store.Valid() && operation == OpNone && store.saving == {}
      ensures old(store.disk) in through && store.disk in through && forall d :: d in through ==> Consistent(store.hash, d)
      ensures e.kill.Some? && e.kill.value in through ==> store.disk == e.kill.value
      ensures forall h :: Reaches(old(store.disk).db, h) ==> Reaches(store.disk.db, h)
      ensures created.Some? ==> Reaches(store.disk.db, created.value) && !Reaches(old(store.disk).db, created.value)
    {
      store.reached := {};
      through := {store.disk};
      created := Perform(e.op);
      through := through + store.reached + {store.disk};
      if e.kill.Some? && e.kill.value in through {
        created := None;
        Restart(e.kill.value);
      }
    }

    /** A whole run.  Wherever the process dies and restarts, every disk it leaves behind is
        consistent, and the heights of the snapshots it reports as created increase. */
    method Run(events: seq<Event>) returns (created: seq<nat>, boundaries: set<Disk>)
      requires Valid() && store.Valid() && operation == OpNone && store.saving == {}
      requires forall e :: e in events ==> Allowed(e.op)
      modifies this, store
      ensures Valid() && store.Valid() && operation == OpNone
      ensures old(store.disk) in boundaries && store.disk in boundaries
      ensures forall d :: d in boundaries ==> Consistent(store.hash, d)
      ensures forall i, j :: 0 <= i < j < |created| ==> created[i] < created[j]
    {
      hide Reaches, Consistent;
      created, boundaries := [], {store.disk};
      for n := 0 to |events|
        invariant Valid() && store.Valid() && operation == OpNone && store.saving == {}
        invariant old(store.disk) in boundaries && store.disk in boundaries
        invariant forall d :: d in boundaries ==> Consistent(store.hash, d)
        invariant forall i, j :: 0 <= i < j < |created| ==> created[i] < created[j]
        invariant forall i :: 0 <= i < |created| ==> Reaches(store.disk.db, created[i])
      {
        ghost var db := store.disk.db;
        var h, through := Handle(events[n]);
        if h.Some? { AllLower(db, created, h.value); }
        boundaries := boundaries + through;
        if h.Some? { created := created + [h.value]; }
      }
    }
  }

  lemma PruneTheOne(d: Disk, id: Id)
    requires d.db.Keys == {id} && id != LAST_ID && d.heightDirs == {id.height} && d.formatDirs == {id}
    ensures PruneSucceeds(d, {}, 0) && Retained(d.db, 0) == map[]
  {
    assert !Kept(d.db, 0, id);
    assert Pruned(d.db, 0) == {id};
  }

  /** Pruning everything forgets how high the snapshots went: after it, a lower one than the
      last can be created. */
  method PruningAllForgets(hash: Hash) returns (first: Option<Snapshot>, second: Option<Snapshot>)
    ensures first.Some? && second.Some? && second.value.id.height < first.value.id.height
  {
    var store := new Store(hash, Disk(map[], map[], {}, {}));
    var m := new Manager(store);
    var bodies := [Body([], false)];
    var keys := store.Iterate();
    first := m.Create(5, bodies, keys);
    keys := store.Iterate();
    var id := Id(5, CURRENT_FORMAT);
    PruneTheOne(store.disk, id);
    var pruned := m.Prune(0, keys);
    keys := store.Iterate();
    second := m.Create(3, bodies, keys);
  }

  /** The records go up to height `h`. */
  ghost predicate Reaches(db: map<Id, Snapshot>, h: nat) {
    exists id :: id in db && id != LAST_ID && id.height >= h
  }

  /** A height that is not reached yet is above all that are. */
  lemma AllLower(db: map<Id, Snapshot>, created: seq<nat>, h: nat)
    requires !Reaches(db, h) && forall i :: 0 <= i < |created| ==> Reaches(db, created[i])
    ensures forall i :: 0 <= i < |created| ==> created[i] < h
  {}

  datatype Op = Creating(height: nat, bodies: seq<Body>) | Pruning(retain: nat)

  /** Heights fit 64 bits and chunks are counted in 32; something is retained. */
  predicate Allowed(op: Op) {
    (op.Creating? ==> op.height <= MAX_UINT64 && |op.bodies| < TWO_TO_THE_32) && (op.Pruning? ==> op.retain >= 1)
  }

  datatype Event = Event(op: Op, kill: Option<Disk>)

  /** However far a Prune gets, the records still go up to the same height. */
  lemma NewestReached(db: map<Id, Snapshot>, keys: seq<Id>, retain: nat)
    requires ReverseIteration(db, keys) && retain >= 1
    ensures forall d, h :: Without(d, db, Pruned(db, retain)) && Reaches(db, h) ==> Reaches(d, h)
  {
    IterationDescends(db, keys);
    if |keys| > 0 { NewestKept(db, retain, keys[0]); }
    forall d, h | Without(d, db, Pruned(db, retain)) && Reaches(db, h) ensures Reaches(d, h) {
      var id :| id in db && id != LAST_ID && id.height >= h;
      assert id in keys && keys[0] in d;
    }
  }
}
