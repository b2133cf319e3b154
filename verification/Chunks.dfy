/** Splitting a byte stream into chunks and joining it again (snapshots/chunk.go). */
module Chunks {
  import opened Wrappers
  import opened Octets

  /** The first `n` pieces, joined. */
  function Join(pieces: seq<Bytes>, n: nat): Bytes
    requires n <= |pieces|
  {
    if n == 0 then [] else Join(pieces, n - 1) + pieces[n - 1]
  }

  function JoinAll(pieces: seq<Bytes>): Bytes {
    Join(pieces, |pieces|)
  }

  lemma {:induction false} JoinPrefix(a: seq<Bytes>, b: seq<Bytes>, n: nat)
    requires n <= |a| && n <= |b| && forall i :: 0 <= i < n ==> a[i] == b[i]
    ensures Join(a, n) == Join(b, n)
  {
    if n > 0 { JoinPrefix(a, b, n - 1); }
  }

  /** No chunk is empty, all but the last have exactly the chunk size and the last at most
      that; a chunk size of zero means a single chunk. */
  ghost predicate Chunked(chunks: seq<Bytes>, size: nat) {
    && (forall i :: 0 <= i < |chunks| ==> 0 < |chunks[i]|)
    && (size == 0 ==> |chunks| <= 1)
    && (size > 0 ==> forall i :: 0 <= i < |chunks| ==> |chunks[i]| <= size)
    && (size > 0 ==> forall i :: 0 <= i < |chunks| - 1 ==> |chunks[i]| == size)
  }

  lemma {:induction false} JoinLength(chunks: seq<Bytes>, size: nat, n: nat)
    requires Chunked(chunks, size) && size > 0 && n <= |chunks|
    ensures n < |chunks| ==> |Join(chunks, n)| == n * size
    ensures n > 0 ==> (n - 1) * size < |Join(chunks, n)| <= n * size
  {
    if n > 0 { JoinLength(chunks, size, n - 1); }
  }

  /** A stream has only one chunking, so the boundaries cannot depend on how the stream was
      cut into writes. */
  lemma ChunkingUnique(a: seq<Bytes>, b: seq<Bytes>, size: nat)
    requires Chunked(a, size) && Chunked(b, size) && JoinAll(a) == JoinAll(b)
    ensures a == b
  {
    if size == 0 {
      SingleChunk(a);
      SingleChunk(b);
    } else {
      SameCount(a, b, size);
      SameChunks(a, b, size, |a|);
    }
  }

  lemma SingleChunk(a: seq<Bytes>)
    requires |a| <= 1
    ensures JoinAll(a) == if |a| == 1 then a[0] else []
  {
    if |a| == 1 {
      assert Join(a, 0) == [] && Join(a, 1) == Join(a, 0) + a[0];
    }
  }

  lemma SameCount(a: seq<Bytes>, b: seq<Bytes>, size: nat)
    requires Chunked(a, size) && Chunked(b, size) && size > 0 && |JoinAll(a)| == |JoinAll(b)|
    ensures |a| == |b|
  {
    JoinLength(a, size, |a|);
    JoinLength(b, size, |b|);
    if |a| < |b| { Multiples(|a|, |b| - 1, size); }
    if |b| < |a| { Multiples(|b|, |a| - 1, size); }
  }

  lemma Multiples(m: nat, n: nat, size: nat)
    requires m <= n
    ensures m * size <= n * size
  {}

  lemma {:induction false} SameChunks(a: seq<Bytes>, b: seq<Bytes>, size: nat, n: nat)
    requires Chunked(a, size) && Chunked(b, size) && size > 0 && n <= |a| == |b| && Join(a, n) == Join(b, n)
    ensures forall i :: 0 <= i < n ==> a[i] == b[i]
  {
    if n > 0 {
      JoinLength(a, size, n - 1);
      JoinLength(b, size, n - 1);
      var m := |Join(a, n - 1)|;
      assert Join(a, n)[..m] == Join(a, n - 1) && Join(a, n)[m..] == a[n - 1];
      assert Join(b, n)[..m] == Join(b, n - 1) && Join(b, n)[m..] == b[n - 1];
      SameChunks(a, b, size, n - 1);
    }
  }

  /** A new chunk starts when there is none or the last one is full. */
  lemma NewChunk(chunks: seq<Bytes>, size: nat, piece: Bytes)
    requires Chunked(chunks, size) && 0 < |piece| && (size == 0 ==> chunks == [])
    requires size > 0 ==> |piece| <= size && (|chunks| > 0 ==> |chunks[|chunks| - 1]| == size)
    ensures Chunked(chunks + [piece], size) && JoinAll(chunks + [piece]) == JoinAll(chunks) + piece
  {
    JoinPrefix(chunks, chunks + [piece], |chunks|);
  }

  /** Otherwise the last chunk grows up to the chunk size. */
  lemma GrowChunk(chunks: seq<Bytes>, size: nat, piece: Bytes)
    requires Chunked(chunks, size) && |chunks| > 0
    requires size > 0 ==> |chunks[|chunks| - 1]| + |piece| <= size
    ensures var last := |chunks| - 1;
            var grown := chunks[last := chunks[last] + piece];
            Chunked(grown, size) && JoinAll(grown) == JoinAll(chunks) + piece
  {
    var last := |chunks| - 1;
    var grown := chunks[last := chunks[last] + piece];
    JoinPrefix(chunks, grown, last);
    assert JoinAll(chunks) == Join(chunks, last) + chunks[last];
    assert JoinAll(grown) == Join(grown, last) + grown[last];
  }

  /** The chunks sent so far; the last one is the open pipe. */
  class ChunkWriter {
    const chunkSize: nat
    var chunks: seq<Bytes>
    var open: bool       // whether there is a pipe
    var written: nat     // bytes written to it
    var closed: bool

    ghost predicate Valid()
      reads this
    {
      && Chunked(chunks, chunkSize)
      && (open <==> |chunks| > 0)
      && (open ==> written == |chunks[|chunks| - 1]|)
    }

    constructor (chunkSize: nat)
      ensures Valid() && this.chunkSize == chunkSize && chunks == [] && !closed
    {
      this.chunkSize, chunks, open, written, closed := chunkSize, [], false, 0, false;
    }

    /** The chunks stay the chunking of the stream, whatever the sizes of the writes. */
    method Write(data: Bytes) returns (nTotal: nat, ok: bool)
      requires Valid()
      modifies this
      ensures Valid() && closed == old(closed) && ok == !closed
      ensures closed ==> nTotal == 0 && chunks == old(chunks)
      ensures !closed ==> nTotal == |data| && JoinAll(chunks) == old(JoinAll(chunks)) + data
    {
      if closed { return 0, false; }
      nTotal, ok := 0, true;
      ghost var stream := JoinAll(chunks);
      assert stream + data[..0] == stream;
      while nTotal < |data|
        invariant Valid() && !closed && ok && nTotal <= |data|
        invariant JoinAll(chunks) == stream + data[..nTotal]
      {
        var writeSize := WriteSome(data[nTotal..]);
        assert data[..nTotal] + data[nTotal..][..writeSize] == data[..nTotal + writeSize];
        nTotal := nTotal + writeSize;
      }
      assert data[..|data|] == data;
    }

    /** One iteration of Write: start a chunk if needed, then fill it as far as it goes. */
    method WriteSome(data: Bytes) returns (writeSize: nat)
      requires Valid() && !closed && |data| > 0
      modifies this
      ensures Valid() && closed == old(closed) && 0 < writeSize <= |data|
      ensures JoinAll(chunks) == old(JoinAll(chunks)) + data[..writeSize]
    {
      hide JoinAll, Join;
      ghost var before, full := chunks, !open || (written >= chunkSize && chunkSize > 0);
      if !open || (written >= chunkSize && chunkSize > 0) {
        chunks := chunks + [[]];
        open, written := true, 0;
      }
      writeSize := if chunkSize == 0 then |data| else chunkSize - written;
      if writeSize > |data| { writeSize := |data|; }
      var last := |chunks| - 1;
      chunks := chunks[last := chunks[last] + data[..writeSize]];
      written := written + writeSize;
      if full {
        NewChunk(before, chunkSize, data[..writeSize]);
        assert chunks[last] == data[..writeSize] && chunks == before + [chunks[last]];
      } else {
        GrowChunk(before, chunkSize, data[..writeSize]);
      }
    }

    method Close()
      requires Valid()
      modifies this
      ensures Valid() && closed && chunks == old(chunks)
    {
      closed := true;
    }
  }

  /** A chunk's reader.  An eager one reports the end together with its last bytes, which
      the contract of a reader allows; a lazy one only when there are none left. */
  datatype Source = Source(data: Bytes, eager: bool)

  function Data(ss: seq<Source>): Bytes {
    if ss == [] then [] else ss[0].data + Data(ss[1..])
  }

  /** How many eager sources still have bytes. */
  function Traps(ss: seq<Source>): nat {
    if ss == [] then 0 else (if ss[0].eager && |ss[0].data| > 0 then 1 else 0) + Traps(ss[1..])
  }

  lemma FirstSource(s: Source, rest: seq<Source>)
    ensures Data([s] + rest) == s.data + Data(rest)
    ensures Traps([s] + rest) == (if s.eager && |s.data| > 0 then 1 else 0) + Traps(rest)
  {
    assert ([s] + rest)[1..] == rest;
  }

  class ChunkReader {
    var pending: seq<Source>       // the channel
    var reader: Option<Source>     // the chunk being read

    ghost function Left(): seq<Source>
      reads this
    {
      (if reader.Some? then [reader.value] else []) + pending
    }

    constructor (chunks: seq<Source>)
      ensures Left() == chunks
    {
      pending, reader := chunks, None;
    }

    /** Read into a buffer of `want` bytes; the chunk's reader may give fewer, `offer` of
        them.  A lazy source loses nothing, while reading the rest of an eager one throws
        away the bytes that came with the end. */
    method Read(want: nat, offer: nat) returns (out: Bytes, eof: bool)
      modifies this
      ensures eof ==> out == [] && Left() == []
      ensures Traps(old(Left())) == 0 ==> out + Data(Left()) == Data(old(Left()))
      ensures want > 0 ==>
                |out| + |Data(Left())| + Traps(old(Left())) <= |Data(old(Left()))| + Traps(Left())
      ensures want > 0 && !eof ==> |out| > 0
      ensures |Left()| <= |old(Left())| && Traps(Left()) <= Traps(old(Left()))
      decreases |Left()|, 1
    {
      if reader.None? {
        if |pending| == 0 { return [], true; }
        reader, pending := Some(pending[0]), pending[1..];
        assert Left() == old(Left());
      }
      out, eof := ReadChunk(want, offer);
    }

    /** The part of Read that has a chunk to read from. */
    method ReadChunk(want: nat, offer: nat) returns (out: Bytes, eof: bool)
      requires reader.Some?
      modifies this
      ensures eof ==> out == [] && Left() == []
      ensures Traps(old(Left())) == 0 ==> out + Data(Left()) == Data(old(Left()))
      ensures want > 0 ==>
                |out| + |Data(Left())| + Traps(old(Left())) <= |Data(old(Left()))| + Traps(Left())
      ensures want > 0 && !eof ==> |out| > 0
      ensures |Left()| <= |old(Left())| && Traps(Left()) <= Traps(old(Left()))
      decreases |Left()|, 0
    {
      hide Data, Traps;
      var s := reader.value;
      FirstSource(s, pending);
      var n := if want < |s.data| then want else |s.data|;
      if offer + 1 < n { n := offer + 1; }
      if |s.data| == 0 || (s.eager && n == |s.data|) {
        reader := None;
        assert Left() == pending;
        out, eof := Read(want, offer);
      } else {
        reader := Some(s.(data := s.data[n..]));
        FirstSource(reader.value, pending);
        out, eof := s.data[..n], false;
        assert out + (s.data[n..] + Data(pending)) == s.data + Data(pending);
      }
    }

    /** Read to the end with any buffer sizes and any short reads. */
    method ReadAll(wants: nat -> nat, offers: nat -> nat) returns (out: Bytes)
      requires forall i :: wants(i) > 0
      modifies this
      ensures Left() == []
      ensures Traps(old(Left())) == 0 <==> out == Data(old(Left()))
    {
      out := [];
      var i, eof := 0, false;
      ghost var all, traps := Data(Left()), Traps(Left());
      ghost var rest, t := all, traps;
      while !eof
        invariant rest == Data(Left()) && t == Traps(Left()) && (eof ==> Left() == [])
        invariant (traps == 0 ==> out + rest == all) && t <= traps && |out| + |rest| + traps <= |all| + t
        decreases |rest|, |Left()|, !eof
      {
        var chunk;
        chunk, eof := Read(wants(i), offers(i));
        JoinMore(out, chunk, rest, Data(Left()));
        rest, t := Data(Left()), Traps(Left());
        out, i := out + chunk, i + 1;
      }
    }
  }

  lemma JoinMore(out: Bytes, chunk: Bytes, before: Bytes, after: Bytes)
    ensures chunk + after == before ==> out + before == (out + chunk) + after
  {
    assert (out + chunk) + after == out + (chunk + after);
  }

  /** The readers of a writer's chunks are pipes, which are lazy. */
  function Pipes(chunks: seq<Bytes>): (ss: seq<Source>) {
    seq(|chunks|, i requires 0 <= i < |chunks| => Source(chunks[i], false))
  }

  lemma {:induction false} PipesData(chunks: seq<Bytes>, n: nat)
    requires n <= |chunks|
    ensures Traps(Pipes(chunks)[n..]) == 0
    ensures Join(chunks, n) + Data(Pipes(chunks)[n..]) == JoinAll(chunks)
    decreases |chunks| - n
  {
    var ss := Pipes(chunks);
    if n < |chunks| {
      PipesData(chunks, n + 1);
      assert ss[n..] == [ss[n]] + ss[n + 1..];
      FirstSource(ss[n], ss[n + 1..]);
      assert Join(chunks, n) + (chunks[n] + Data(ss[n + 1..])) == Join(chunks, n + 1) + Data(ss[n + 1..]);
    }
  }

  /** Write in any pieces, read in any sizes: the reader returns the stream. */
  method RoundTrip(pieces: seq<Bytes>, chunkSize: nat, wants: nat -> nat, offers: nat -> nat)
    returns (chunks: seq<Bytes>, out: Bytes)
    requires forall i :: wants(i) > 0
    ensures Chunked(chunks, chunkSize) && JoinAll(chunks) == JoinAll(pieces)
    ensures out == JoinAll(pieces)
  {
    var w := new ChunkWriter(chunkSize);
    for i := 0 to |pieces|
      invariant w.Valid() && fresh(w) && !w.closed && w.chunkSize == chunkSize
      invariant JoinAll(w.chunks) == Join(pieces, i)
    {
      var n, ok := w.Write(pieces[i]);
    }
    w.Close();
    chunks := w.chunks;
    var r := new ChunkReader(Pipes(chunks));
    PipesData(chunks, 0);
    assert Pipes(chunks)[0..] == Pipes(chunks);
    out := r.ReadAll(wants, offers);
    assert Join(chunks, 0) + Data(Pipes(chunks)) == Data(Pipes(chunks));
  }
}
