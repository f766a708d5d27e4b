/** The sender side of a file transfer: `FileChunker` cuts a file into chunks
    and groups them into partitions, each of which the receiver acknowledges
    before the next is read. */
module Chunker {
  import opened Wire

  const ChunkSize: nat := 64000
  const MaxPartitionSize: nat := 1000000

  /** Bytes in a full non-final partition: the first multiple of the chunk
      size that reaches the partition threshold. */
  const PartitionBytes: nat := 1024000

  /** Number of pieces of `width` bytes needed to cover `n` bytes. */
  function CeilDiv(n: nat, width: nat): nat
    requires width > 0
  {
    if n == 0 then 0 else if n <= width then 1 else 1 + CeilDiv(n - width, width)
  }

  function Max(a: nat, b: nat): nat { if a < b then b else a }

  /** `k` pieces of 64,000 bytes cover at most `k * ChunkSize` bytes. */
  lemma {:induction false} CeilDivCovers(n: nat, k: nat)
    requires CeilDiv(n, ChunkSize) <= k
    ensures n <= k * ChunkSize
    decreases n
  {
    if n > ChunkSize {
      CeilDivCovers(n - ChunkSize, k - 1);
    }
  }

  /** Covering `k` more full chunks takes exactly `k` more pieces. */
  lemma {:induction false} CeilDivShift(n: nat, k: nat)
    requires n > 0
    ensures CeilDiv(n + k * ChunkSize, ChunkSize) == k + CeilDiv(n, ChunkSize)
    decreases k
  {
    if k > 0 {
      CeilDivShift(n, k - 1);
      assert n + k * ChunkSize - ChunkSize == n + (k - 1) * ChunkSize;
    }
  }

  /** The slice `_readChunk` asks the reader for: `[offset, offset + ChunkSize)`
      clipped to the end of the file. */
  function ChunkAt(file: seq<byte>, offset: nat): (c: seq<byte>)
    requires offset <= |file|
    ensures offset + |c| <= |file|
    ensures c == file[offset..offset + |c|]
    ensures |c| <= ChunkSize
    ensures |c| == ChunkSize || offset + |c| == |file|
  {
    if offset + ChunkSize <= |file| then file[offset..offset + ChunkSize] else file[offset..]
  }

  /** What one `nextPartition` call produces: the chunks it emitted, the new
      offset and partition accumulator, and the partition-end signal if any. */
  datatype PartitionRead = PartitionRead(chunks: seq<seq<byte>>, offset: nat, partitionSize: nat, boundary: Option<nat>)

  /** The read/emit cycle of `_readChunk` and `_onChunkRead` from `offset`, with
      the partition accumulator at `partitionSize`: read a chunk, advance both
      counters by its length, emit it, then stop at the end of the file, stop
      with a partition-end signal carrying the offset once the accumulator has
      reached `MaxPartitionSize`, and read the next chunk otherwise. */
  function ReadPartition(file: seq<byte>, offset: nat, partitionSize: nat): PartitionRead
    requires offset <= |file|
    decreases |file| - offset
  {
    var c := ChunkAt(file, offset);
    var o := offset + |c|;
    var p := partitionSize + |c|;
    if o >= |file| then PartitionRead([c], o, p, None)
    else if p >= MaxPartitionSize then PartitionRead([c], o, p, Some(o))
    else
      var r := ReadPartition(file, o, p);
      r.(chunks := [c] + r.chunks)
  }

  /** `ReadPartition` with the chunks already emitted in front (`emitted`):
      the shape of the `nextPartition` loop. */
  function ReadPartitionFrom(file: seq<byte>, offset: nat, partitionSize: nat, emitted: seq<seq<byte>>): PartitionRead
    requires offset <= |file|
    decreases |file| - offset
  {
    var c := ChunkAt(file, offset);
    var o := offset + |c|;
    var p := partitionSize + |c|;
    if o >= |file| then PartitionRead(emitted + [c], o, p, None)
    else if p >= MaxPartitionSize then PartitionRead(emitted + [c], o, p, Some(o))
    else ReadPartitionFrom(file, o, p, emitted + [c])
  }

  lemma {:induction false} ReadPartitionFromIsReadPartition(file: seq<byte>, offset: nat, partitionSize: nat, emitted: seq<seq<byte>>)
    requires offset <= |file|
    ensures var r := ReadPartition(file, offset, partitionSize);
      ReadPartitionFrom(file, offset, partitionSize, emitted) == r.(chunks := emitted + r.chunks)
    decreases |file| - offset
  {
    var c := ChunkAt(file, offset);
    var o := offset + |c|;
    var p := partitionSize + |c|;
    if o < |file| && p < MaxPartitionSize {
      ReadPartitionFromIsReadPartition(file, o, p, emitted + [c]);
      var rest := ReadPartition(file, o, p);
      assert (emitted + [c]) + rest.chunks == emitted + ([c] + rest.chunks);
    }
  }

  /** One partition read: the emitted chunks are consecutive and lay out exactly
      the bytes between the old and the new offset; the accumulator grows by the
      same amount; reading ends either at the end of the file, with no signal,
      or before it, with one signal carrying the new offset. */
  lemma {:induction false} ReadPartitionSlices(file: seq<byte>, offset: nat, partitionSize: nat)
    requires offset <= |file|
    ensures var r := ReadPartition(file, offset, partitionSize);
      && offset <= r.offset <= |file|
      && |r.chunks| >= 1
      && Flatten(r.chunks) == file[offset..r.offset]
      && r.partitionSize == partitionSize + (r.offset - offset)
      && (r.boundary.None? <==> r.offset == |file|)
      && (r.boundary.Some? ==> r.boundary.value == r.offset && r.partitionSize >= MaxPartitionSize)
    decreases |file| - offset
  {
    var c := ChunkAt(file, offset);
    var o := offset + |c|;
    var p := partitionSize + |c|;
    if o >= |file| {
      assert Flatten([c]) == c + Flatten([]);
    } else if p < MaxPartitionSize {
      ReadPartitionSlices(file, o, p);
      var r := ReadPartition(file, o, p);
      assert Flatten([c] + r.chunks) == file[offset..r.offset] by {
        FlattenConcat([c], r.chunks);
        assert Flatten([c]) == c + Flatten([]);
        SliceSplit(file, offset, o, r.offset);
      }
    } else {
      assert Flatten([c]) == c + Flatten([]);
    }
  }

  /** Starting `k` full chunks into a partition: every chunk but the last is a
      full 64,000-byte chunk, at most `16 - k` chunks are read, a partition that
      ends with a signal holds exactly `16 - k` chunks, and one that ends at the
      end of the file holds as many chunks as cover the rest of the file (one,
      possibly empty, when nothing is left). */
  lemma {:induction false} ReadPartitionShape(file: seq<byte>, offset: nat, k: nat)
    requires offset <= |file| && k < 16
    ensures var r := ReadPartition(file, offset, k * ChunkSize);
      && |r.chunks| <= 16 - k
      && (forall i :: 0 <= i < |r.chunks| - 1 ==> |r.chunks[i]| == ChunkSize)
      && (r.boundary.Some? ==> |r.chunks| == 16 - k && r.offset == offset + (16 - k) * ChunkSize)
      && (r.boundary.None? ==> |r.chunks| == Max(1, CeilDiv(|file| - offset, ChunkSize)))
    decreases |file| - offset
  {
    var c := ChunkAt(file, offset);
    var o := offset + |c|;
    var p := k * ChunkSize + |c|;
    if o < |file| {
      assert |c| == ChunkSize;
      assert p == (k + 1) * ChunkSize;
      if p < MaxPartitionSize {
        ReadPartitionShape(file, o, k + 1);
        ReadPartitionSlices(file, o, p);
        var r := ReadPartition(file, o, p);
        assert ReadPartition(file, offset, k * ChunkSize).chunks == [c] + r.chunks;
      }
    }
  }

  /** The partitions of a whole transfer from `offset`: `_sendFile` reads the
      first one, and each acknowledgment of a partition-end signal
      (`_sendNextPartition`) reads the next, until a partition ends at the end
      of the file. */
  function Transfer(file: seq<byte>, offset: nat): seq<PartitionRead>
    requires offset <= |file|
    decreases |file| - offset
  {
    var r := ReadPartition(file, offset, 0);
    ReadPartitionSlices(file, offset, 0);
    if r.boundary.None? then [r] else [r] + Transfer(file, r.offset)
  }

  /** Every chunk emitted by a sequence of partitions, in emission order. */
  function AllChunks(parts: seq<PartitionRead>): seq<seq<byte>>
  {
    if parts == [] then [] else parts[0].chunks + AllChunks(parts[1..])
  }

  /** Reassembling every chunk of a transfer, in the order emitted, gives back
      the file from `offset` on, byte for byte. */
  lemma {:induction false} TransferReassembles(file: seq<byte>, offset: nat)
    requires offset <= |file|
    ensures Flatten(AllChunks(Transfer(file, offset))) == file[offset..]
    decreases |file| - offset
  {
    var r := ReadPartition(file, offset, 0);
    ReadPartitionSlices(file, offset, 0);
    var t := Transfer(file, offset);
    if r.boundary.None? {
      assert t == [r];
      assert AllChunks(t) == r.chunks + AllChunks([]);
      assert AllChunks(t) == r.chunks;
    } else {
      var rest := Transfer(file, r.offset);
      TransferReassembles(file, r.offset);
      assert AllChunks(t) == r.chunks + AllChunks(rest) by {
        assert t[0] == r && t[1..] == rest;
      }
      assert Flatten(AllChunks(t)) == file[offset..] by {
        FlattenConcat(r.chunks, AllChunks(rest));
        SliceSplit(file, offset, r.offset, |file|);
        assert file[offset..] == file[offset..|file|] && file[r.offset..] == file[r.offset..|file|];
      }
    }
  }

  /** Flow control over a whole transfer: every partition but the last ends with
      exactly one partition-end signal, placed 1,024,000 bytes (16 chunks) past
      the previous one, and the last ends at the end of the file with none; so
      there are `Max(1, CeilDiv(|file| - offset, 1024000))` partitions and one
      fewer signals. */
  lemma {:induction false} TransferPartitions(file: seq<byte>, offset: nat)
    requires offset <= |file|
    ensures var t := Transfer(file, offset);
      && |t| == Max(1, CeilDiv(|file| - offset, PartitionBytes))
      && (forall i :: 0 <= i < |t| - 1 ==>
            t[i].boundary == Some(offset + (i + 1) * PartitionBytes) && |t[i].chunks| == 16)
      && t[|t| - 1].boundary.None? && t[|t| - 1].offset == |file|
    decreases |file| - offset
  {
    var r := ReadPartition(file, offset, 0);
    ReadPartitionSlices(file, offset, 0);
    ReadPartitionShape(file, offset, 0);
    var t := Transfer(file, offset);
    if r.boundary.None? {
      assert t == [r];
      CeilDivCovers(|file| - offset, 16);
    } else {
      var o := r.offset;
      assert o == offset + PartitionBytes;
      TransferPartitions(file, o);
      var t' := Transfer(file, o);
      assert t == [r] + t';
      TransferPartitionsStep(offset, o, r, t', t);
    }
  }

  lemma TransferPartitionsStep(offset: nat, o: nat, r: PartitionRead, t': seq<PartitionRead>, t: seq<PartitionRead>)
    requires t == [r] + t' && o == offset + PartitionBytes
    requires r.boundary == Some(o) && |r.chunks| == 16
    requires forall i :: 0 <= i < |t'| - 1 ==> t'[i].boundary == Some(o + (i + 1) * PartitionBytes) && |t'[i].chunks| == 16
    ensures forall i :: 0 <= i < |t| - 1 ==> t[i].boundary == Some(offset + (i + 1) * PartitionBytes) && |t[i].chunks| == 16
  {
    forall i | 0 <= i < |t| - 1
      ensures t[i].boundary == Some(offset + (i + 1) * PartitionBytes) && |t[i].chunks| == 16
    {
      if i > 0 {
        assert t[i] == t'[i - 1];
      }
    }
  }

  /** The number of chunks a transfer emits: enough to cover the file from
      `offset`, and one (empty) chunk when nothing is left, as for an empty file. */
  lemma {:induction false} TransferChunkCount(file: seq<byte>, offset: nat)
    requires offset <= |file|
    ensures |AllChunks(Transfer(file, offset))| == Max(1, CeilDiv(|file| - offset, ChunkSize))
    decreases |file| - offset
  {
    var r := ReadPartition(file, offset, 0);
    ReadPartitionSlices(file, offset, 0);
    ReadPartitionShape(file, offset, 0);
    var t := Transfer(file, offset);
    if r.boundary.None? {
      assert t == [r];
      assert AllChunks(t) == r.chunks + AllChunks([]);
    } else {
      TransferChunkCount(file, r.offset);
      CeilDivShift(|file| - r.offset, 16);
      assert t[1..] == Transfer(file, r.offset);
      assert AllChunks(t) == r.chunks + AllChunks(Transfer(file, r.offset));
    }
  }

  class FileChunker {
    const file: seq<byte>
    var offset: nat
    var partitionSize: nat

    /** The offset stays within the file, and the accumulator counts only bytes
        read since the last reset, all of which also advanced the offset. */
    ghost predicate Valid()
      reads this
    {
      offset <= |file| && partitionSize <= offset
    }

    constructor (file: seq<byte>)
      ensures Valid()
      ensures this.file == file && offset == 0 && partitionSize == 0
    {
      this.file := file;
      offset := 0;
      partitionSize := 0;
    }

    /** `isFileEnd`: the offset has reached the file size. */
    predicate IsFileEnd()
      reads this
    {
      offset >= |file|
    }

    /** `_isPartitionEnd`: the accumulator has reached the partition threshold. */
    predicate IsPartitionEnd()
      reads this
    {
      partitionSize >= MaxPartitionSize
    }

    /** The `progress` getter, `offset / size`; `None` stands for the NaN that
        `0 / 0` gives for an empty file. */
    function Progress(): (p: Option<real>)
      requires Valid()
      reads this
      ensures p.None? <==> |file| == 0
      ensures p.Some? ==> 0.0 <= p.value <= 1.0
      ensures p.Some? ==> (p.value == 1.0 <==> IsFileEnd())
    {
      if |file| == 0 then None else Some(offset as real / |file| as real)
    }

    /** `nextPartition`: reset the accumulator and read chunks until the file
        or the partition ends, returning the chunks emitted, in order, and the
        partition-end signal. */
    method NextPartition() returns (chunks: seq<seq<byte>>, boundary: Option<nat>)
      requires Valid()
      modifies this
      ensures Valid()
      ensures var r := ReadPartition(file, old(offset), 0);
        chunks == r.chunks && boundary == r.boundary && offset == r.offset && partitionSize == r.partitionSize
    {
      partitionSize := 0;
      chunks := [];
      boundary := None;
      var reading := true;
      ghost var total := ReadPartitionFrom(file, offset, 0, []);
      while reading
        invariant offset <= |file| && partitionSize <= offset
        invariant reading ==> boundary.None?
        invariant reading ==> chunks == [] || offset > old(offset)
        invariant reading ==> ReadPartitionFrom(file, offset, partitionSize, chunks) == total
        invariant !reading ==> PartitionRead(chunks, offset, partitionSize, boundary) == total
        decreases |file| - offset, reading
      {
        var c := ChunkAt(file, offset);
        offset := offset + |c|;
        partitionSize := partitionSize + |c|;
        chunks := chunks + [c];
        if IsFileEnd() {
          reading := false;
        } else if IsPartitionEnd() {
          boundary := Some(offset);
          reading := false;
        }
      }
      ReadPartitionFromIsReadPartition(file, old(offset), 0, []);
      assert [] + ReadPartition(file, old(offset), 0).chunks == ReadPartition(file, old(offset), 0).chunks;
    }

    /** `repeatPartition`: rewind the offset by the bytes of the current
        partition and read that partition again. */
    method RepeatPartition() returns (chunks: seq<seq<byte>>, boundary: Option<nat>)
      requires Valid()
      modifies this
      ensures Valid()
      ensures var r := ReadPartition(file, old(offset) - old(partitionSize), 0);
        chunks == r.chunks && boundary == r.boundary && offset == r.offset && partitionSize == r.partitionSize
    {
      offset := offset - partitionSize;
      partitionSize := 0;
      chunks, boundary := NextPartition();
    }
  }
}
