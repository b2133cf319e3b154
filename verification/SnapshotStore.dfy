/** The on-disk snapshot store (snapshots/store.go): metadata records in a database and
    chunk files below a directory for each height and format.

    The disk after every single write to the database, a file or a directory is recorded in
    `reached`, so a property of all of them holds wherever the process may be killed. */
module SnapshotStore {
  import opened Wrappers
  import opened Octets
  import opened Chunks

  const MAX_UINT64: nat := 0xFFFF_FFFF_FFFF_FFFF
  const MAX_UINT32: nat := 0xFFFF_FFFF
  const TWO_TO_THE_32: nat := 0x1_0000_0000

  /** A snapshot is identified by its height and format. */
  datatype Id = Id(height: nat, format: nat)

  predicate InRange(id: Id) {
    id.height <= MAX_UINT64 && id.format <= MAX_UINT32
  }

  /** The end of the store's iterators, which they exclude. */
  const LAST_ID := Id(MAX_UINT64, MAX_UINT32)

  // ----- keys

  const KEY_PREFIX: Byte := 1

  function EncodeKey(id: Id): (k: Bytes)
    ensures |k| == 13 && k[0] == 0x01
    ensures k[1..9] == BigEndian(id.height, 8) && k[9..13] == BigEndian(id.format, 4)
  {
    [KEY_PREFIX] + (BigEndian(id.height, 8) + BigEndian(id.format, 4))
  }

  function DecodeKey(k: Bytes): Option<Id> {
    if |k| != 13 || k[0] != KEY_PREFIX then None
    else Some(Id(FromBigEndian(k[1..9], 8), FromBigEndian(k[9..13], 4)))
  }

  lemma Widths()
    ensures Pow256(8) == MAX_UINT64 + 1 && Pow256(4) == MAX_UINT32 + 1
  {
    assert Pow256(2) == 65536;
    assert Pow256(4) == 65536 * 65536;
    assert Pow256(6) == 65536 * Pow256(4);
    assert Pow256(8) == 65536 * Pow256(6);
  }

  /** Keys decode to the snapshot they were made for, and only keys that were made for a
      snapshot decode at all. */
  lemma KeyRoundTrip(id: Id, k: Bytes)
    ensures InRange(id) ==> DecodeKey(EncodeKey(id)) == Some(id)
    ensures DecodeKey(k).Some? ==> InRange(DecodeKey(k).value) && EncodeKey(DecodeKey(k).value) == k
  {
    Widths();
    var e := EncodeKey(id);
    if InRange(id) {
      BigEndianRoundTrip(id.height, 8);
      BigEndianRoundTrip(id.format, 4);
      assert e[1..9] == BigEndian(id.height, 8) && e[9..13] == BigEndian(id.format, 4);
    }
    if DecodeKey(k).Some? {
      FromBigEndianBound(k[1..9], 8);
      FromBigEndianBound(k[9..13], 4);
      assert k[1..9][..8] == k[1..9] && k[9..13][..4] == k[9..13];
      assert k == [k[0]] + (k[1..9] + k[9..13]);
    }
  }

  /** The order of (height, format) pairs. */
  predicate Before(a: Id, b: Id) {
    a.height < b.height || (a.height == b.height && a.format < b.format)
  }

  /** The byte order of the keys is the numeric order of the snapshots. */
  lemma KeyOrder(a: Id, b: Id)
    requires InRange(a) && InRange(b)
    ensures Less(EncodeKey(a), EncodeKey(b)) <==> Before(a, b)
  {
    Widths();
    BigEndianOrder(a.height, b.height, 8);
    BigEndianOrder(a.format, b.format, 4);
    LessAppend(BigEndian(a.height, 8), BigEndian(b.height, 8), BigEndian(a.format, 4), BigEndian(b.format, 4));
    LessByte(KEY_PREFIX, KEY_PREFIX);
    LessAppend([KEY_PREFIX], [KEY_PREFIX], BigEndian(a.height, 8) + BigEndian(a.format, 4), BigEndian(b.height, 8) + BigEndian(b.format, 4));
  }

  // ----- the disk

  datatype Snapshot = Snapshot(id: Id, chunks: nat, hash: Bytes, chunkHashes: seq<Bytes>)

  datatype File = File(id: Id, index: nat)

  datatype Disk = Disk(db: map<Id, Snapshot>, files: map<File, Bytes>, heightDirs: set<nat>, formatDirs: set<Id>)

  type Hash = Bytes -> Bytes

  function ReadFile(files: map<File, Bytes>, f: File): Bytes {
    if f in files then files[f] else []
  }

  /** The contents of the first `n` chunk files of a snapshot. */
  function Contents(files: map<File, Bytes>, id: Id, n: nat): seq<Bytes> {
    seq(n, i requires 0 <= i < n => ReadFile(files, File(id, i)))
  }

  /** All chunk files of a record are there and match its hashes. */
  ghost predicate RecordOk(hash: Hash, d: Disk, id: Id)
    requires id in d.db
  {
    var s := d.db[id];
    && s.id == id && InRange(id) && s.chunks == |s.chunkHashes|
    && (forall i :: 0 <= i < s.chunks ==> File(id, i) in d.files && hash(d.files[File(id, i)]) == s.chunkHashes[i])
    && s.hash == hash(JoinAll(Contents(d.files, id, s.chunks)))
  }

  ghost predicate Consistent(hash: Hash, d: Disk) {
    forall id :: id in d.db ==> RecordOk(hash, d, id)
  }

  /** Changes to files that no record refers to, and the loss of records, are harmless. */
  lemma StaysConsistent(hash: Hash, d: Disk, d': Disk)
    requires Consistent(hash, d)
    requires forall id :: id in d'.db ==> id in d.db && d'.db[id] == d.db[id]
    requires forall f: File :: f.id in d'.db ==> (f in d.files <==> f in d'.files) && (f in d.files ==> d'.files[f] == d.files[f])
    ensures Consistent(hash, d')
  {
    forall id | id in d'.db ensures RecordOk(hash, d', id) {
      assert RecordOk(hash, d, id);
      assert forall i: nat :: ReadFile(d'.files, File(id, i)) == ReadFile(d.files, File(id, i));
      assert Contents(d'.files, id, d.db[id].chunks) == Contents(d.files, id, d.db[id].chunks);
    }
  }

  /** The stream of one chunk: the pieces in which it is copied to its file, and whether
      reading it fails after them. */
  datatype Body = Body(pieces: seq<Bytes>, failed: bool)

  function Payloads(bodies: seq<Body>, n: nat): seq<Bytes>
    requires n <= |bodies|
  {
    seq(n, i requires 0 <= i < n => JoinAll(bodies[i].pieces))
  }

  function Hashes(hash: Hash, bodies: seq<Body>, n: nat): seq<Bytes>
    requires n <= |bodies|
  {
    seq(n, i requires 0 <= i < n => hash(JoinAll(bodies[i].pieces)))
  }

  lemma AppendPayload(hash: Hash, bodies: seq<Body>, i: nat)
    requires i < |bodies|
    ensures Payloads(bodies, i + 1) == Payloads(bodies, i) + [JoinAll(bodies[i].pieces)]
    ensures Hashes(hash, bodies, i + 1) == Hashes(hash, bodies, i) + [hash(JoinAll(bodies[i].pieces))]
  {}

  /** The record of a snapshot with these chunks, whose number is counted in 32 bits. */
  function Record(hash: Hash, id: Id, bodies: seq<Body>): Snapshot {
    Snapshot(id, |bodies| % TWO_TO_THE_32, hash(JoinAll(Payloads(bodies, |bodies|))), Hashes(hash, bodies, |bodies|))
  }

  /** A database iterator, newest first: the store's keys in descending byte order. */
  ghost predicate ReverseIteration(db: map<Id, Snapshot>, keys: seq<Id>) {
    && (forall i :: 0 <= i < |keys| ==> keys[i] in db && InRange(keys[i]) && keys[i] != LAST_ID)
    && (forall id :: id in db && id != LAST_ID ==> id in keys)
    && (forall i, j :: 0 <= i < j < |keys| ==> Less(EncodeKey(keys[j]), EncodeKey(keys[i])))
  }

  function FilesOf(files: map<File, Bytes>, id: Id): set<File> {
    set f | f in files && f.id == id
  }

  function WithoutSnapshot(d: Disk, id: Id): Disk {
    Disk(d.db - {id}, d.files - FilesOf(d.files, id), d.heightDirs, d.formatDirs - {id})
  }

  /** All chunk files of the snapshots in `gone` are removed, and no others. */
  ghost predicate FilesLeft(d: Disk, was: Disk, gone: set<Id>) {
    forall f: File :: (f in d.files <==> f in was.files && f.id !in gone) && (f in d.files ==> d.files[f] == was.files[f])
  }

  lemma NoFilesGone(d: Disk)
    ensures FilesLeft(d, d, {})
  {}

  lemma FilesLeftMore(d: Disk, d': Disk, was: Disk, gone: set<Id>, id: Id)
    requires FilesLeft(d, was, gone) && FilesLeft(d', d, {id})
    ensures FilesLeft(d', was, gone + {id})
  {}

  // ----- what Prune keeps

  /** The distinct heights above `h` that the iterators reach. */
  ghost function Higher(db: map<Id, Snapshot>, h: nat): set<nat> {
    set id | id in db && id != LAST_ID && id.height > h :: id.height
  }

  /** A snapshot is kept when its height is among the `retain` largest ones; the record at
      the very end of the key space is never looked at. */
  ghost predicate Kept(db: map<Id, Snapshot>, retain: nat, id: Id) {
    id == LAST_ID || |Higher(db, id.height)| < retain
  }

  ghost function Retained(db: map<Id, Snapshot>, retain: nat): map<Id, Snapshot> {
    map id | id in db && Kept(db, retain, id) :: db[id]
  }

  /** The iteration order in terms of heights. */
  ghost predicate Descending(db: map<Id, Snapshot>, keys: seq<Id>) {
    && (forall i :: 0 <= i < |keys| ==> keys[i] in db && keys[i] != LAST_ID)
    && (forall id :: id in db && id != LAST_ID ==> id in keys)
    && (forall i, j :: 0 <= i < j < |keys| ==> keys[i].height >= keys[j].height && keys[i] != keys[j])
  }

  lemma IterationDescends(db: map<Id, Snapshot>, keys: seq<Id>)
    requires ReverseIteration(db, keys)
    ensures Descending(db, keys)
  {
    forall i, j | 0 <= i < j < |keys| ensures keys[i].height >= keys[j].height && keys[i] != keys[j] {
      KeyOrder(keys[j], keys[i]);
    }
  }

  ghost function HeightsOf(keys: seq<Id>, n: nat): set<nat>
    requires n <= |keys|
  {
    if n == 0 then {} else HeightsOf(keys, n - 1) + {keys[n - 1].height}
  }

  lemma {:induction false} HeightsOfMembers(keys: seq<Id>, n: nat)
    requires n <= |keys|
    ensures forall x :: x in HeightsOf(keys, n) <==> exists i :: 0 <= i < n && keys[i].height == x
  {
    if n > 0 { HeightsOfMembers(keys, n - 1); }
  }

  /** The heights Prune has decided to skip are those it has seen, up to `retain` of them. */
  ghost predicate SkipOk(keys: seq<Id>, n: nat, retain: nat, skip: set<nat>)
    requires n <= |keys|
  {
    var seen := HeightsOf(keys, n);
    && skip <= seen
    && (|seen| <= retain ==> skip == seen)
    && (|seen| > retain ==> |skip| == retain && n > 0 && keys[n - 1].height !in skip)
  }

  lemma HigherBefore(db: map<Id, Snapshot>, keys: seq<Id>, n: nat, x: nat)
    requires Descending(db, keys) && n < |keys| && x in Higher(db, keys[n].height)
    ensures exists i :: 0 <= i < n && keys[i].height == x
  {
    var id :| id in db && id != LAST_ID && id.height > keys[n].height && id.height == x;
    var i :| 0 <= i < |keys| && keys[i] == id;
    assert keys[i].height > keys[n].height;
  }

  /** What is above a key's height has all come before it. */
  lemma HigherSeen(db: map<Id, Snapshot>, keys: seq<Id>, n: nat)
    requires Descending(db, keys) && n < |keys|
    ensures Higher(db, keys[n].height) == HeightsOf(keys, n) - {keys[n].height}
    ensures n > 0 && keys[n].height in HeightsOf(keys, n) ==> keys[n - 1].height == keys[n].height
  {
    var h := keys[n].height;
    HeightsOfMembers(keys, n);
    forall x | x in Higher(db, h) ensures x in HeightsOf(keys, n) && x != h {
      HigherBefore(db, keys, n, x);
    }
    forall x | x in HeightsOf(keys, n) && x != h ensures x in Higher(db, h) {
      var i :| 0 <= i < n && keys[i].height == x;
      assert keys[i] in db && keys[i].height > h;
    }
  }

  /** One decision, on the heights alone. */
  lemma SkipDecision(seen: set<nat>, skip: set<nat>, retain: nat, h: nat)
    requires skip <= seen && (|seen| <= retain ==> skip == seen)
    requires |seen| > retain ==> |skip| == retain && h !in skip
    ensures var keep := h in skip || |skip| < retain;
            var skip' := if keep then skip + {h} else skip;
            && (keep <==> |seen - {h}| < retain)
            && skip' <= seen + {h}
            && (|seen + {h}| <= retain ==> skip' == seen + {h})
            && (|seen + {h}| > retain ==> |skip'| == retain && h !in skip')
  {
    if h in seen {
      assert |seen - {h}| == |seen| - 1 && seen + {h} == seen;
    } else {
      assert seen - {h} == seen && |seen + {h}| == |seen| + 1;
    }
  }

  /** The decision Prune takes from the heights it has skipped is the one of the definition. */
  lemma SkipStep(db: map<Id, Snapshot>, keys: seq<Id>, n: nat, retain: nat, skip: set<nat>)
    requires Descending(db, keys) && n < |keys| && SkipOk(keys, n, retain, skip)
    ensures var h := keys[n].height;
            var keep := h in skip || |skip| < retain;
            && (keep <==> keys[n] !in Pruned(db, retain))
            && SkipOk(keys, n + 1, retain, if keep then skip + {h} else skip)
  {
    HigherSeen(db, keys, n);
    SkipDecision(HeightsOf(keys, n), skip, retain, keys[n].height);
  }

  /** Those of `out` among the first `n` keys. */
  ghost function Gone(out: set<Id>, keys: seq<Id>, n: nat): set<Id>
    requires n <= |keys|
  {
    if n == 0 then {} else Gone(out, keys, n - 1) + (if keys[n - 1] in out then {keys[n - 1]} else {})
  }

  lemma {:induction false} GoneMembers(out: set<Id>, keys: seq<Id>, n: nat)
    requires n <= |keys|
    ensures forall id :: id in Gone(out, keys, n) ==> id in out && exists i :: 0 <= i < n && keys[i] == id
    ensures forall i :: 0 <= i < n && keys[i] in out ==> keys[i] in Gone(out, keys, n)
  {
    if n > 0 { GoneMembers(out, keys, n - 1); }
  }

  lemma AllGone(db: map<Id, Snapshot>, out: set<Id>, keys: seq<Id>)
    requires Descending(db, keys) && out <= db.Keys - {LAST_ID}
    ensures Gone(out, keys, |keys|) == out
  {
    GoneMembers(out, keys, |keys|);
    forall id | id in out ensures id in Gone(out, keys, |keys|) {
      assert id in keys;
    }
  }

  lemma WithoutSome(db: map<Id, Snapshot>, gone: set<Id>, out: set<Id>)
    requires gone <= out
    ensures Without(db - gone, db, out)
  {}

  /** The variables of Prune's first loop, and the records it has deleted. */
  datatype Pruning = Pruning(skip: set<nat>, gone: set<Id>, pruned: nat, heights: set<nat>)

  function NextPruning(p: Pruning, id: Id, retain: nat): Pruning {
    if id.height in p.skip || |p.skip| < retain then p.(skip := p.skip + {id.height})
    else Pruning(p.skip, p.gone + {id}, p.pruned + 1, p.heights + {id.height})
  }

  function PruneAt(keys: seq<Id>, n: nat, retain: nat): Pruning
    requires n <= |keys|
  {
    if n == 0 then Pruning({}, {}, 0, {}) else NextPruning(PruneAt(keys, n - 1, retain), keys[n - 1], retain)
  }

  /** Prune passes over the key with index `n`. */
  predicate PassedOver(keys: seq<Id>, n: nat, retain: nat)
    requires n < |keys|
  {
    var skip := PruneAt(keys, n, retain).skip;
    keys[n].height in skip || |skip| < retain
  }

  /** Prune passes over exactly the keys outside `out`. */
  ghost predicate Removes(keys: seq<Id>, retain: nat, out: set<Id>) {
    forall n {:trigger PassedOver(keys, n, retain)} :: 0 <= n < |keys| ==> (PassedOver(keys, n, retain) <==> keys[n] !in out)
  }

  lemma {:induction false} SkipOkAt(db: map<Id, Snapshot>, keys: seq<Id>, n: nat, retain: nat)
    requires Descending(db, keys) && n <= |keys|
    ensures SkipOk(keys, n, retain, PruneAt(keys, n, retain).skip)
  {
    if n > 0 {
      SkipOkAt(db, keys, n - 1, retain);
      SkipStep(db, keys, n - 1, retain, PruneAt(keys, n - 1, retain).skip);
    }
  }

  /** What Prune removes is what the definition says. */
  lemma RemovesPruned(db: map<Id, Snapshot>, keys: seq<Id>, retain: nat)
    requires Descending(db, keys)
    ensures Removes(keys, retain, Pruned(db, retain))
  {
    forall n | 0 <= n < |keys| ensures PassedOver(keys, n, retain) <==> keys[n] !in Pruned(db, retain) {
      SkipOkAt(db, keys, n, retain);
      SkipStep(db, keys, n, retain, PruneAt(keys, n, retain).skip);
    }
  }

  lemma {:induction false} PruneAtGone(out: set<Id>, keys: seq<Id>, n: nat, retain: nat)
    requires n <= |keys| && Removes(keys, retain, out)
    ensures PruneAt(keys, n, retain).gone == Gone(out, keys, n) && Gone(out, keys, n) <= out
  {
    GoneWithin(out, keys, n);
    if n > 0 {
      PruneAtGone(out, keys, n - 1, retain);
      assert PassedOver(keys, n - 1, retain) <==> keys[n - 1] !in out;
    }
  }

  lemma {:induction false} GoneWithin(out: set<Id>, keys: seq<Id>, n: nat)
    requires n <= |keys|
    ensures Gone(out, keys, n) <= out
  {
    if n > 0 { GoneWithin(out, keys, n - 1); }
  }

  lemma {:induction false} PruneAtCounts(keys: seq<Id>, n: nat, retain: nat)
    requires n <= |keys| && Distinct(keys)
    ensures var p := PruneAt(keys, n, retain);
            p.pruned == |p.gone| && p.heights == HeightSet(p.gone) && (forall i :: n <= i < |keys| ==> keys[i] !in p.gone)
  {
    if n > 0 {
      PruneAtCounts(keys, n - 1, retain);
      var p := PruneAt(keys, n - 1, retain);
      HeightSetAdd(p.gone, keys[n - 1]);
      assert PruneAt(keys, n, retain) == NextPruning(p, keys[n - 1], retain);
    }
  }

  ghost predicate Distinct(keys: seq<Id>) {
    forall i, j :: 0 <= i < j < |keys| ==> keys[i] != keys[j]
  }

  lemma HeightSetAdd(ids: set<Id>, id: Id)
    ensures HeightSet(ids + {id}) == HeightSet(ids) + {id.height}
  {
    assert id in ids + {id};
    assert forall x :: x in ids ==> x in ids + {id};
  }

  /** Where the first loop of Prune ends. */
  lemma PruneAtEnd(db: map<Id, Snapshot>, keys: seq<Id>, retain: nat)
    requires Descending(db, keys)
    ensures Removes(keys, retain, Pruned(db, retain))
    ensures var out := Pruned(db, retain);
            var p := PruneAt(keys, |keys|, retain);
            p.gone == out && p.pruned == |out| && p.heights == HeightSet(out)
  {
    var out := Pruned(db, retain);
    RemovesPruned(db, keys, retain);
    PruneAtGone(out, keys, |keys|, retain);
    assert Distinct(keys);
    PruneAtCounts(keys, |keys|, retain);
    AllGone(db, out, keys);
  }

  /** A snapshot that none is newer than survives exactly when anything is retained. */
  lemma NewestKept(db: map<Id, Snapshot>, retain: nat, id: Id)
    requires id in db && id != LAST_ID && forall x :: x in db && x != LAST_ID ==> x.height <= id.height
    ensures Kept(db, retain, id) <==> retain >= 1
  {
    assert Higher(db, id.height) == {};
  }

  /** Records of `db` without some of those in `out`. */
  ghost predicate Without(d: map<Id, Snapshot>, db: map<Id, Snapshot>, out: set<Id>) {
    && (forall id :: id in d ==> id in db && d[id] == db[id])
    && (forall id :: id in db && id !in out ==> id in d)
  }

  /** The snapshots a Prune removes. */
  ghost function Pruned(db: map<Id, Snapshot>, retain: nat): set<Id> {
    set id | id in db && !Kept(db, retain, id)
  }

  ghost function HeightSet(ids: set<Id>): set<nat> {
    set id | id in ids :: id.height
  }

  predicate HasFormat(formatDirs: set<Id>, h: nat) {
    exists id :: id in formatDirs && id.height == h
  }

  lemma RetainedIsRest(db: map<Id, Snapshot>, retain: nat)
    ensures db - Pruned(db, retain) == Retained(db, retain)
  {}

  /** The directories of the pruned heights are removable exactly when Prune succeeds. */
  lemma HeightDirsFree(d: Disk, retain: nat)
    ensures var out := Pruned(d.db, retain);
            (forall h :: h in HeightSet(out) ==> h in d.heightDirs && !HasFormat(d.formatDirs - out, h))
            <==> (forall id :: id in out ==>
                    && id.height in d.heightDirs
                    && forall other :: other in d.formatDirs && other.height == id.height ==> other in out)
  {
    var out := Pruned(d.db, retain);
    forall id | id in out ensures id.height in HeightSet(out) {}
    forall h | h in HeightSet(out)
      ensures !HasFormat(d.formatDirs - out, h) <==> forall other :: other in d.formatDirs && other.height == h ==> other in out
    {
      forall other | other in d.formatDirs && other.height == h && other !in out ensures HasFormat(d.formatDirs - out, h) {
        assert other in d.formatDirs - out;
      }
    }
  }

  /** When Prune reports success: nothing it removes is being saved, and each height it
      clears has a directory with nothing else in it. */
  ghost predicate PruneSucceeds(d: Disk, saving: set<nat>, retain: nat) {
    forall id :: id in Pruned(d.db, retain) ==>
      && id.height !in saving && id.height in d.heightDirs
      && forall other :: other in d.formatDirs && other.height == id.height ==> other in Pruned(d.db, retain)
  }

  lemma OrderedIteration(hash: Hash, d: Disk, keys: seq<Id>)
    requires Consistent(hash, d)
    requires forall id :: id in keys <==> id in d.db.Keys - {LAST_ID}
    requires forall i, j :: 0 <= i < j < |keys| ==> Before(keys[j], keys[i])
    ensures ReverseIteration(d.db, keys)
  {
    forall i | 0 <= i < |keys| ensures keys[i] in d.db && keys[i] != LAST_ID && InRange(keys[i]) {
      assert keys[i] in keys;
      assert RecordOk(hash, d, keys[i]);
    }
    forall i, j | 0 <= i < j < |keys| ensures Less(EncodeKey(keys[j]), EncodeKey(keys[i])) {
      KeyOrder(keys[j], keys[i]);
    }
  }

  method Newest(ids: set<Id>) returns (newest: Id)
    requires ids != {}
    ensures newest in ids && forall id :: id in ids ==> id == newest || Before(id, newest)
  {
    newest :| newest in ids;
    var todo := ids - {newest};
    while todo != {}
      invariant newest in ids && todo <= ids && forall id :: id in ids ==> id in todo || id == newest || Before(id, newest)
      decreases |todo|
    {
      var id :| id in todo;
      if Before(newest, id) { newest := id; }
      todo := todo - {id};
    }
  }

  method NewestFirst(ids: set<Id>) returns (keys: seq<Id>)
    ensures forall id :: id in keys <==> id in ids
    ensures forall i, j :: 0 <= i < j < |keys| ==> Before(keys[j], keys[i])
  {
    var todo := ids;
    keys := [];
    while todo != {}
      invariant todo <= ids && forall id :: id in keys <==> id in ids - todo
      invariant forall i, j :: 0 <= i < j < |keys| ==> Before(keys[j], keys[i])
      invariant forall id, i :: id in todo && 0 <= i < |keys| ==> Before(id, keys[i])
      decreases |todo|
    {
      var next := Newest(todo);
      keys, todo := keys + [next], todo - {next};
    }
  }

  /** What saving `n` chunks may do to a disk. */
  ghost predicate SavingTo(id: Id, was: Disk, d: Disk, n: nat) {
    && d.db == was.db
    && (n == 0 ==> d == was)
    && (n > 0 ==> d.heightDirs == was.heightDirs + {id.height} && d.formatDirs == was.formatDirs + {id})
    && forall f: File :: f.id != id ==> ReadFile(d.files, f) == ReadFile(was.files, f)
  }

  lemma SavingToNext(id: Id, was: Disk, d: Disk, n: nat, f: File, content: Bytes)
    requires SavingTo(id, was, d, n) && f.id == id
    ensures SavingTo(id, was, d.(files := d.files[f := content],
                                 heightDirs := d.heightDirs + {id.height}, formatDirs := d.formatDirs + {id}), n + 1)
  {}

  lemma SavingToMeans(id: Id, was: Disk, d: Disk, n: nat)
    requires SavingTo(id, was, d, n)
    ensures n > 0 ==> d.heightDirs == was.heightDirs + {id.height} && d.formatDirs == was.formatDirs + {id}
    ensures forall f: File :: f.id != id ==> ReadFile(d.files, f) == ReadFile(was.files, f)
  {}

  class Store {
    const hash: Hash
    var disk: Disk
    var saving: set<nat>
    var reached: set<Disk>  // every disk the writes so far have gone through

    /** A process killed between any two writes leaves a consistent disk behind. */
    ghost predicate Valid()
      reads this
    {
      Consistent(hash, disk) && forall d :: d in reached ==> Consistent(hash, d)
    }

    /** All disks reached since have these records. */
    twostate predicate Logged(db: map<Id, Snapshot>)
      reads this
    {
      old(reached) <= reached && forall d :: d in reached && d !in old(reached) ==> d.db == db
    }

    constructor (hash: Hash, disk: Disk)
      requires Consistent(hash, disk)
      ensures Valid() && this.hash == hash && this.disk == disk && saving == {} && reached == {}
    {
      this.hash, this.disk, saving, reached := hash, disk, {}, {};
    }

    /** One write reaches the disk. */
    method Sync(d: Disk)
      requires Valid() && Consistent(hash, d)
      modifies this`disk, this`reached
      ensures Valid() && disk == d && reached == old(reached) + {d}
    {
      disk := d;
      reached := reached + {d};
    }

    method WriteFile(f: File, content: Bytes)
      requires Valid() && f.id !in disk.db
      modifies this`disk, this`reached
      ensures disk == old(disk).(files := old(disk).files[f := content])
      ensures Valid() && Logged(disk.db)
    {
      StaysConsistent(hash, disk, disk.(files := disk.files[f := content]));
      Sync(disk.(files := disk.files[f := content]));
    }

    method MakeDirs(id: Id)
      requires Valid()
      modifies this`disk, this`reached
      ensures disk == old(disk).(heightDirs := old(disk).heightDirs + {id.height}, formatDirs := old(disk).formatDirs + {id})
      ensures Valid() && Logged(disk.db)
    {
      StaysConsistent(hash, disk, disk.(heightDirs := disk.heightDirs + {id.height}));
      Sync(disk.(heightDirs := disk.heightDirs + {id.height}));
      StaysConsistent(hash, disk, disk.(formatDirs := disk.formatDirs + {id}));
      Sync(disk.(formatDirs := disk.formatDirs + {id}));
    }

    /** Create the file of chunk `index` and copy the chunk into it. */
    method SaveChunk(id: Id, index: nat, body: Body) returns (ok: bool)
      requires Valid() && id !in disk.db
      modifies this`disk, this`reached
      ensures Valid() && Logged(disk.db) && ok == !body.failed
      ensures disk == old(disk).(
                files := old(disk).files[File(id, index) := JoinAll(body.pieces)],
                heightDirs := old(disk).heightDirs + {id.height}, formatDirs := old(disk).formatDirs + {id})
    {
      hide Consistent;
      MakeDirs(id);
      var f := File(id, index);
      WriteFile(f, []);
      for p := 0 to |body.pieces|
        invariant Valid() && Logged(disk.db)
        invariant disk == old(disk).(
                    files := old(disk).files[f := Join(body.pieces, p)],
                    heightDirs := old(disk).heightDirs + {id.height}, formatDirs := old(disk).formatDirs + {id})
      {
        WriteFile(f, disk.files[f] + body.pieces[p]);
      }
      ok := !body.failed;
    }

    /** The loop of Save over the chunks. */
    method SaveChunks(id: Id, bodies: seq<Body>) returns (ok: bool, hashes: seq<Bytes>, payloads: seq<Bytes>)
      requires Valid() && id !in disk.db
      modifies this`disk, this`reached
      ensures Valid() && Logged(disk.db) && disk.db == old(disk).db
      ensures ok <==> forall i :: 0 <= i < |bodies| ==> !bodies[i].failed
      ensures ok ==> payloads == Payloads(bodies, |bodies|) && hashes == Hashes(hash, bodies, |bodies|)
      ensures ok && |bodies| < TWO_TO_THE_32 ==> AllSaved(disk.files, id, bodies, payloads, hashes, |bodies|)
      ensures ok && |bodies| > 0 ==> disk.heightDirs == old(disk).heightDirs + {id.height} && disk.formatDirs == old(disk).formatDirs + {id}
      ensures forall f: File :: f.id != id ==> ReadFile(disk.files, f) == ReadFile(old(disk).files, f)
    {
      hide Consistent, Payloads, Hashes, AllSaved, SavingTo, ReadFile;
      SavingNone(id, bodies, disk);
      ghost var n := 0;
      ok, hashes, payloads := true, [], [];
      for i := 0 to |bodies|
        invariant ok && Valid() && Logged(disk.db) && SavingTo(id, old(disk), disk, i)
        invariant forall k :: 0 <= k < i ==> !bodies[k].failed
        invariant disk.db == old(disk).db && |payloads| == |hashes| == n == i
        invariant payloads == Payloads(bodies, i) && hashes == Hashes(hash, bodies, i)
        invariant |bodies| < TWO_TO_THE_32 ==> AllSaved(disk.files, id, bodies, payloads, hashes, i)
      {
        SavingToNext(id, old(disk), disk, i, File(id, i % TWO_TO_THE_32), JoinAll(bodies[i].pieces));
        if |bodies| < TWO_TO_THE_32 { OneMoreSaved(disk.files, id, bodies, payloads, hashes, i); }
        AppendPayload(hash, bodies, i);
        var index := i % TWO_TO_THE_32;
        ok := SaveChunk(id, index, bodies[i]);
        n := i + 1;
        if !ok { break; }
        hashes := hashes + [hash(disk.files[File(id, index)])];
        payloads := payloads + [disk.files[File(id, index)]];
      }
      SavingToMeans(id, old(disk), disk, n);
    }

    lemma SavingNone(id: Id, bodies: seq<Body>, d: Disk)
      ensures SavingTo(id, d, d, 0) && AllSaved(d.files, id, bodies, [], [], 0)
      ensures Payloads(bodies, 0) == [] && Hashes(hash, bodies, 0) == []
    {}

    /** Writing the file of chunk `i` leaves those before it as they were. */
    lemma OneMoreSaved(files: map<File, Bytes>, id: Id, bodies: seq<Body>, payloads: seq<Bytes>, hashes: seq<Bytes>, i: nat)
      requires i < |bodies| && |payloads| == |hashes| == i && AllSaved(files, id, bodies, payloads, hashes, i)
      ensures var x := JoinAll(bodies[i].pieces);
              AllSaved(files[File(id, i) := x], id, bodies, payloads + [x], hashes + [hash(x)], i + 1)
    {
      hide JoinAll;
      var x := JoinAll(bodies[i].pieces);
      var files', payloads', hashes' := files[File(id, i) := x], payloads + [x], hashes + [hash(x)];
      forall k | 0 <= k < i + 1 ensures Saved(files', id, k, bodies[k], payloads'[k], hashes'[k]) {
        if k < i { assert Saved(files, id, k, bodies[k], payloads[k], hashes[k]); }
      }
    }

    lemma SavedMeans(files: map<File, Bytes>, id: Id, bodies: seq<Body>, payloads: seq<Bytes>, hashes: seq<Bytes>)
      requires AllSaved(files, id, bodies, payloads, hashes, |bodies|)
      ensures forall k :: 0 <= k < |bodies| ==> File(id, k) in files && files[File(id, k)] == JoinAll(bodies[k].pieces)
    {
      forall k | 0 <= k < |bodies| ensures File(id, k) in files && files[File(id, k)] == JoinAll(bodies[k].pieces) {
        assert Saved(files, id, k, bodies[k], payloads[k], hashes[k]);
      }
    }

    /** The files of the first `n` chunks are in place. */
    ghost predicate AllSaved(files: map<File, Bytes>, id: Id, bodies: seq<Body>, payloads: seq<Bytes>, hashes: seq<Bytes>, n: nat) {
      && n <= |bodies| && n <= |payloads| && n <= |hashes|
      && forall k :: 0 <= k < n ==> Saved(files, id, k, bodies[k], payloads[k], hashes[k])
    }

    /** The file of chunk `k` holds the chunk. */
    ghost predicate Saved(files: map<File, Bytes>, id: Id, k: nat, body: Body, payload: Bytes, h: Bytes) {
      File(id, k) in files && files[File(id, k)] == payload == JoinAll(body.pieces) && h == hash(payload)
    }

    /** Save.  Until its record is written a snapshot's files belong to no record, so left
        overs of an interrupted Save or Delete are overwritten and never referred to. */
    method Save(id: Id, bodies: seq<Body>) returns (r: Option<Snapshot>)
      requires Valid() && InRange(id)
      modifies this
      ensures saving == old(saving) && (|bodies| < TWO_TO_THE_32 || r.None? ==> Valid())
      ensures r.Some? <==>
                && id.height > 0 && id.height !in saving && id !in old(disk).db
                && forall i :: 0 <= i < |bodies| ==> !bodies[i].failed
      ensures r.Some? ==> r.value == Record(hash, id, bodies) && disk.db == old(disk).db[id := r.value]
      ensures r.Some? ==> (RecordOk(hash, disk, id) <==> |bodies| < TWO_TO_THE_32)
      ensures r.Some? ==>
                && r.value.id == id && r.value.chunks == |bodies| % TWO_TO_THE_32 && |r.value.chunkHashes| == |bodies|
                && (forall k :: 0 <= k < |bodies| ==> r.value.chunkHashes[k] == hash(JoinAll(bodies[k].pieces)))
                && (|bodies| < TWO_TO_THE_32 ==>
                      forall k :: 0 <= k < |bodies| ==> File(id, k) in disk.files && disk.files[File(id, k)] == JoinAll(bodies[k].pieces))
      ensures r.None? ==> disk.db == old(disk).db
      ensures r.Some? && |bodies| > 0 ==>
                disk.heightDirs == old(disk).heightDirs + {id.height} && disk.formatDirs == old(disk).formatDirs + {id}
      ensures forall f: File :: f.id != id ==> ReadFile(disk.files, f) == ReadFile(old(disk).files, f)
      ensures old(reached) <= reached
      ensures forall d :: d in reached && d !in old(reached) ==> d.db == old(disk).db || d.db == disk.db
    {
      if id.height == 0 { return None; }
      if id.height in saving { return None; }
      saving := saving + {id.height};
      if id in disk.db {
        saving := saving - {id.height};
        return None;
      }
      var ok, hashes, payloads := SaveChunks(id, bodies);
      if ok {
        var snapshot := Snapshot(id, |bodies| % TWO_TO_THE_32, hash(JoinAll(payloads)), hashes);
        SetRecord(snapshot, bodies, payloads);
        if |bodies| < TWO_TO_THE_32 { SavedMeans(disk.files, id, bodies, payloads, hashes); }
        r := Some(snapshot);
      } else {
        r := None;
      }
      saving := saving - {id.height};
    }

    /** saveSnapshot.  The record is right once all chunk files of the snapshot are in place
        and their number was counted without wrapping around. */
    method SetRecord(s: Snapshot, ghost bodies: seq<Body>, ghost payloads: seq<Bytes>)
      requires Valid() && s.id !in disk.db && InRange(s.id)
      requires s.chunks == |bodies| % TWO_TO_THE_32 && |s.chunkHashes| == |payloads| == |bodies| && s.hash == hash(JoinAll(payloads))
      requires |bodies| < TWO_TO_THE_32 ==> AllSaved(disk.files, s.id, bodies, payloads, s.chunkHashes, |bodies|)
      modifies this`disk, this`reached
      ensures disk == old(disk).(db := old(disk).db[s.id := s])
      ensures Logged(disk.db) && (|bodies| < TWO_TO_THE_32 ==> Valid())
      ensures RecordOk(hash, disk, s.id) <==> |bodies| < TWO_TO_THE_32
    {
      ghost var d := disk.(db := disk.db[s.id := s]);
      if |bodies| < TWO_TO_THE_32 {
        forall k | 0 <= k < s.chunks
          ensures File(s.id, k) in d.files && d.files[File(s.id, k)] == payloads[k] && hash(payloads[k]) == s.chunkHashes[k]
        {
          assert Saved(disk.files, s.id, k, bodies[k], payloads[k], s.chunkHashes[k]);
        }
        assert Contents(d.files, s.id, s.chunks) == payloads;
        assert RecordOk(hash, d, s.id);
        forall id | id in d.db && id != s.id ensures RecordOk(hash, d, id) {
          assert RecordOk(hash, disk, id);
        }
      }
      disk := disk.(db := disk.db[s.id := s]);
      reached := reached + {disk};
    }

    method RemoveFile(f: File)
      requires Valid() && f.id !in disk.db
      modifies this`disk, this`reached
      ensures disk == old(disk).(files := old(disk).files - {f})
      ensures Valid() && Logged(disk.db)
    {
      StaysConsistent(hash, disk, disk.(files := disk.files - {f}));
      Sync(disk.(files := disk.files - {f}));
    }

    /** os.RemoveAll of a snapshot's directory: its files one by one, then the directory. */
    method RemoveAll(id: Id)
      requires Valid() && id !in disk.db
      modifies this`disk, this`reached
      ensures Valid() && Logged(disk.db)
      ensures disk == old(disk).(
                files := old(disk).files - FilesOf(old(disk).files, id), formatDirs := old(disk).formatDirs - {id})
    {
      var todo := FilesOf(disk.files, id);
      ghost var gone: set<File> := {};
      assert disk.files - gone == disk.files;
      while todo != {}
        invariant Valid() && Logged(disk.db)
        invariant gone + todo == FilesOf(old(disk).files, id)
        invariant disk == old(disk).(files := old(disk).files - gone)
        decreases |todo|
      {
        var f :| f in todo;
        RemoveFile(f);
        assert (old(disk).files - gone) - {f} == old(disk).files - (gone + {f});
        todo, gone := todo - {f}, gone + {f};
      }
      assert gone == FilesOf(old(disk).files, id);
      StaysConsistent(hash, disk, disk.(formatDirs := disk.formatDirs - {id}));
      Sync(disk.(formatDirs := disk.formatDirs - {id}));
    }

    /** Delete: first the record, then the files it refers to. */
    method Delete(id: Id) returns (ok: bool)
      requires Valid()
      modifies this`disk, this`reached
      ensures Valid() && Logged(disk.db) && ok == (id.height !in saving)
      ensures disk == if ok then WithoutSnapshot(old(disk), id) else old(disk)
      ensures ok ==> id !in disk.db && id !in disk.formatDirs && FilesLeft(disk, old(disk), {id})
    {
      if id.height in saving { return false; }
      StaysConsistent(hash, disk, disk.(db := disk.db - {id}));
      Sync(disk.(db := disk.db - {id}));
      RemoveAll(id);
      ok := true;
    }

    /** A reverse iterator over the records. */
    method Iterate() returns (keys: seq<Id>)
      requires Valid()
      ensures ReverseIteration(disk.db, keys)
    {
      keys := NewestFirst(disk.db.Keys - {LAST_ID});
      OrderedIteration(hash, disk, keys);
    }

    /** GetLatest: the first entry of the reverse iterator. */
    method GetLatest(keys: seq<Id>) returns (r: Option<Snapshot>)
      requires Valid() && ReverseIteration(disk.db, keys)
      ensures r.None? <==> forall id :: id in disk.db ==> id == LAST_ID
      ensures r.Some? ==> r.value.id in disk.db && r.value.id != LAST_ID && disk.db[r.value.id] == r.value
      ensures r.Some? ==> forall id :: id in disk.db && id != LAST_ID ==> id == r.value.id || Before(id, r.value.id)
    {
      if |keys| == 0 { return None; }
      r := Some(disk.db[keys[0]]);
      assert RecordOk(hash, disk, keys[0]);
      forall id | id in disk.db && id != LAST_ID ensures id == keys[0] || Before(id, keys[0]) {
        var i :| 0 <= i < |keys| && keys[i] == id;
        if i > 0 { KeyOrder(keys[i], keys[0]); }
      }
    }

    /** The first loop of Prune: delete the records of all heights but the newest. */
    method PruneRecords(retain: nat, keys: seq<Id>, ghost out: set<Id>) returns (ok: bool, pruned: nat, prunedHeights: set<nat>)
      requires Valid() && Removes(keys, retain, out)
      requires var p := PruneAt(keys, |keys|, retain); p.gone == out && p.pruned == |out| && p.heights == HeightSet(out)
      modifies this`disk, this`reached
      ensures Valid() && LoggedWithout(old(disk).db, out) && Without(disk.db, old(disk).db, out)
      ensures ok <==> forall id :: id in out ==> id.height !in saving
      ensures ok ==>
                && disk.db == old(disk).db - out && disk.formatDirs == old(disk).formatDirs - out
                && disk.heightDirs == old(disk).heightDirs
                && prunedHeights == HeightSet(out) && pruned == |out| && FilesLeft(disk, old(disk), out)
    {
      hide Consistent, HeightSet, Removes, Without, FilesLeft;
      assert FilesLeft(disk, disk, {}) by { NoFilesGone(disk); }
      var p := Pruning({}, {}, 0, {});
      ghost var d := disk;
      assert d.db - {} == d.db && d.formatDirs - {} == d.formatDirs;
      for i := 0 to |keys|
        invariant p == PruneAt(keys, i, retain) && Valid() && LoggedWithout(d.db, out) && FilesLeft(disk, d, p.gone)
        invariant disk.db == d.db - p.gone && disk.formatDirs == d.formatDirs - p.gone && disk.heightDirs == d.heightDirs
        invariant forall id :: id in p.gone ==> id.height !in saving
      {
        ok, p := PruneKey(p, keys, i, retain, d, out);
        if !ok { return false, p.pruned, p.heights; }
      }
      WithoutSome(d.db, out, out);
      return true, p.pruned, p.heights;
    }

    /** One iteration of that loop. */
    method PruneKey(p: Pruning, keys: seq<Id>, i: nat, retain: nat, ghost d: Disk, ghost out: set<Id>) returns (ok: bool, p': Pruning)
      requires Valid() && i < |keys| && Removes(keys, retain, out) && p == PruneAt(keys, i, retain)
      requires disk.db == d.db - p.gone && disk.formatDirs == d.formatDirs - p.gone && disk.heightDirs == d.heightDirs
      requires FilesLeft(disk, d, p.gone)
      modifies this`disk, this`reached
      ensures Valid() && LoggedWithout(d.db, out) && Without(disk.db, d.db, out)
      ensures !ok ==> keys[i] in out && keys[i].height in saving
      ensures ok ==> p' == PruneAt(keys, i + 1, retain) && forall id :: id in p'.gone && id !in p.gone ==> id.height !in saving
      ensures ok ==> disk.db == d.db - p'.gone && disk.formatDirs == d.formatDirs - p'.gone && disk.heightDirs == d.heightDirs
      ensures ok ==> FilesLeft(disk, d, p'.gone)
    {
      hide Consistent, FilesLeft;
      ghost var was := disk;
      var id := keys[i];
      PruneAtGone(out, keys, i, retain);
      assert PassedOver(keys, i, retain) <==> id !in out;
      WithoutSome(d.db, p.gone, out);
      ok, p' := true, NextPruning(p, id, retain);
      if !(id.height in p.skip || |p.skip| < retain) {
        ok := Delete(id);
        if ok { FilesLeftMore(was, disk, d, p.gone, id); }
        assert (d.db - p.gone) - {id} == d.db - (p.gone + {id});
        WithoutSome(d.db, p.gone + {id}, out);
      }
    }

    /** The second loop of Prune: os.Remove the directories of the pruned heights, which
        must exist and be empty. */
    method RemoveHeightDirs(heights: set<nat>) returns (ok: bool)
      requires Valid()
      modifies this`disk, this`reached
      ensures Valid() && Logged(disk.db) && disk.db == old(disk).db
      ensures ok <==> forall h :: h in heights ==> h in old(disk).heightDirs && !HasFormat(old(disk).formatDirs, h)
      ensures ok ==> disk == old(disk).(heightDirs := old(disk).heightDirs - heights)
    {
      var todo := heights;
      while todo != {}
        invariant Valid() && Logged(disk.db) && todo <= heights
        invariant disk == old(disk).(heightDirs := old(disk).heightDirs - (heights - todo))
        invariant forall h :: h in heights - todo ==> h in old(disk).heightDirs && !HasFormat(old(disk).formatDirs, h)
        decreases |todo|
      {
        var h :| h in todo;
        if h !in disk.heightDirs || HasFormat(disk.formatDirs, h) { return false; }
        StaysConsistent(hash, disk, disk.(heightDirs := disk.heightDirs - {h}));
        Sync(disk.(heightDirs := disk.heightDirs - {h}));
        todo := todo - {h};
      }
      ok := true;
    }

    /** Prune.  On success exactly the records of the `retain` largest heights remain; even
        when it fails, or is interrupted, no other record is lost. */
    method Prune(retain: nat, keys: seq<Id>) returns (r: Option<nat>)
      requires Valid() && ReverseIteration(disk.db, keys)
      modifies this`disk, this`reached
      ensures Valid() && LoggedWithout(old(disk).db, Pruned(old(disk).db, retain))
      ensures Without(disk.db, old(disk).db, Pruned(old(disk).db, retain))
      ensures r.Some? <==> PruneSucceeds(old(disk), saving, retain)
      ensures r.Some? ==> disk.db == Retained(old(disk).db, retain) && r.value == |Pruned(old(disk).db, retain)|
      ensures r.Some? ==>
                && FilesLeft(disk, old(disk), Pruned(old(disk).db, retain))
                && disk.formatDirs == old(disk).formatDirs - Pruned(old(disk).db, retain)
                && forall h :: h in disk.heightDirs <==>
                     h in old(disk).heightDirs && forall id :: id in Pruned(old(disk).db, retain) ==> id.height != h
    {
      hide Consistent, Pruned, PruneAt, ReverseIteration, Retained;
      ghost var out := Pruned(disk.db, retain);
      ghost var d0 := disk;
      IterationDescends(disk.db, keys);
      PruneAtEnd(disk.db, keys, retain);
      var ok, pruned, heights := PruneRecords(retain, keys, out);
      if !ok { return None; }
      RetainedIsRest(d0.db, retain);
      WithoutSome(d0.db, out, out);
      HeightDirsFree(d0, retain);
      ok := RemoveHeightDirs(heights);
      r := if ok then Some(pruned) else None;
    }

    /** All disks reached since lack at most the records in `out`. */
    twostate predicate LoggedWithout(db: map<Id, Snapshot>, out: set<Id>)
      reads this
    {
      old(reached) <= reached && forall d :: d in reached && d !in old(reached) ==> Without(d.db, db, out)
    }
  }

  /** Prune can remove a record and still report failure: a snapshot saved without chunks
      has no directory for it to remove. */
  lemma PruneOfChunklessSnapshotFails(hash: Hash)
    ensures var id := Id(5, 1);
            var d := Disk(map[id := Record(hash, id, [])], map[], {}, {});
            Consistent(hash, d) && !PruneSucceeds(d, {}, 0) && Retained(d.db, 0) == map[]
  {
    var id := Id(5, 1);
    var d := Disk(map[id := Record(hash, id, [])], map[], {}, {});
    assert Payloads([], 0) == [] && Contents(d.files, id, 0) == [];
    assert RecordOk(hash, d, id);
    assert !Kept(d.db, 0, id);
    assert id in Pruned(d.db, 0);
  }
}
