/** The transfer side of a peer link (`Peer`): an outbound FIFO of files with a
    busy flag that keeps one transfer in flight, the dispatch of inbound
    messages, and the receiver's throttled progress reports. The wire is the
    sequence of frames handed to the link's transport, and fired events are
    appended to a log. */
module PeerLink {
  import opened Wire
  import opened Chunker
  import opened Digester

  /** The events a peer link fires on the global bus. */
  datatype Event =
    | FileProgress(sender: string, progress: Ratio)
    | FileReceived(file: ReceivedFile)
    | TextReceived(text: string, sender: string)
    | FileTransferNotice
    | MessageTransferNotice

  /** The header `_sendFile` sends before the chunks of a file. */
  function HeaderFor(f: File): Msg
  {
    Header(f.name, f.mime, |f.bytes|)
  }

  function HeadersFor(files: seq<File>): seq<Msg>
  {
    if files == [] then [] else HeadersFor(files[..|files| - 1]) + [HeaderFor(files[|files| - 1])]
  }

  /** The header messages among the frames, in order. */
  function Headers(frames: seq<Frame>): seq<Msg>
  {
    if frames == [] then []
    else
      var last := frames[|frames| - 1];
      Headers(frames[..|frames| - 1]) + (if last.Json? && last.msg.Header? then [last.msg] else [])
  }

  lemma {:induction false} HeadersConcat(a: seq<Frame>, b: seq<Frame>)
    ensures Headers(a + b) == Headers(a) + Headers(b)
    decreases |b|
  {
    if b == [] {
      assert a + b == a;
    } else {
      var b' := b[..|b| - 1];
      assert (a + b)[..|a + b| - 1] == a + b';
      HeadersConcat(a, b');
    }
  }

  /** The binary frames of a sequence of chunks. */
  function ChunkFrames(chunks: seq<seq<byte>>): (frames: seq<Frame>)
    ensures |frames| == |chunks|
    ensures forall i :: 0 <= i < |chunks| ==> frames[i] == Binary(chunks[i])
  {
    if chunks == [] then [] else [Binary(chunks[0])] + ChunkFrames(chunks[1..])
  }

  /** The frames one partition read puts on the wire: its chunks, then the
      partition-end signal if there is one. */
  function PartitionFrames(r: PartitionRead): seq<Frame>
  {
    ChunkFrames(r.chunks) + (if r.boundary.Some? then [Json(Partition(r.boundary.value))] else [])
  }

  lemma {:induction false} PartitionFramesHaveNoHeader(r: PartitionRead)
    ensures Headers(PartitionFrames(r)) == []
  {
    var frames := PartitionFrames(r);
    forall n | 0 <= n <= |frames|
      ensures Headers(frames[..n]) == []
    {
      NoHeaderPrefix(frames, n);
    }
    assert frames[..|frames|] == frames;
  }

  lemma {:induction false} NoHeaderPrefix(frames: seq<Frame>, n: nat)
    requires n <= |frames|
    requires forall i :: 0 <= i < |frames| ==> !(frames[i].Json? && frames[i].msg.Header?)
    ensures Headers(frames[..n]) == []
    decreases n
  {
    if n > 0 {
      assert frames[..n][..n - 1] == frames[..n - 1];
      NoHeaderPrefix(frames, n - 1);
    }
  }

  /** Sending a file adds exactly its header to the headers on the wire. */
  lemma HeadersAfterSend(before: seq<Frame>, file: File, r: PartitionRead)
    ensures Headers(before + [Json(HeaderFor(file))] + PartitionFrames(r)) == Headers(before) + [HeaderFor(file)]
  {
    HeadersConcat(before + [Json(HeaderFor(file))], PartitionFrames(r));
    PartitionFramesHaveNoHeader(r);
    assert (before + [Json(HeaderFor(file))])[..|before|] == before;
  }

  /** `progress - this._lastProgress < 0.01` is false: the receiver reports
      progress upstream. With JavaScript's arithmetic an infinite progress is
      always reported and a finite one never after an infinite one. */
  predicate ShouldReport(progress: Ratio, last: Ratio)
  {
    match (progress, last)
    case (Finite(p), Finite(l)) => p - l >= 0.01
    case (Infinite, _) => true
    case (Finite(_), Infinite) => false
  }

  /** The progress values a receiver reports upstream over a stream of
      progress values, starting from the last report `last`. */
  function Reported(progress: seq<Ratio>, last: Ratio): seq<Ratio>
  {
    if progress == [] then []
    else if ShouldReport(progress[0], last) then [progress[0]] + Reported(progress[1..], progress[0])
    else Reported(progress[1..], last)
  }

  /** Each report is at least one percentage point above the one before it
      (above `last` for the first), so progress values within [0, 1] give at
      most `100 * (1 - last)` reports: at most 100 per file. */
  lemma {:induction false} ReportedIsSparse(progress: seq<Ratio>, last: real)
    requires 0.0 <= last <= 1.0
    requires forall i :: 0 <= i < |progress| ==> progress[i].Finite? && 0.0 <= progress[i].value <= 1.0
    ensures var r := Reported(progress, Finite(last));
      && (forall i :: 0 <= i < |r| ==> r[i].Finite?)
      && (|r| > 0 ==> r[0].value >= last + 0.01)
      && (forall i :: 0 < i < |r| ==> r[i].value >= r[i - 1].value + 0.01)
      && (|r| as real) <= 100.0 * (1.0 - last)
    decreases |progress|
  {
    if progress != [] {
      var next := if ShouldReport(progress[0], Finite(last)) then progress[0].value else last;
      assert forall i :: 0 <= i < |progress[1..]| ==> progress[1..][i] == progress[i + 1];
      ReportedIsSparse(progress[1..], next);
    }
  }

  /** The progress values a receiver computes over a stream of chunks, with
      `before` bytes already received: one per non-empty chunk, the bytes so far
      over the announced size. Empty chunks are dropped before the digester. */
  function Ratios(chunks: seq<seq<byte>>, size: nat, before: nat): seq<Ratio>
  {
    if chunks == [] then []
    else if |chunks[0]| == 0 then Ratios(chunks[1..], size, before)
    else [RatioOf(before + |chunks[0]|, size)] + Ratios(chunks[1..], size, before + |chunks[0]|)
  }

  /** While no more bytes arrive than announced, every progress value is a
      finite ratio within [0, 1]. */
  lemma {:induction false} RatiosWithin(chunks: seq<seq<byte>>, size: nat, before: nat)
    requires size > 0 && before + |Flatten(chunks)| <= size
    ensures forall i :: 0 <= i < |Ratios(chunks, size, before)| ==>
      Ratios(chunks, size, before)[i].Finite? && 0.0 <= Ratios(chunks, size, before)[i].value <= 1.0
    decreases |chunks|
  {
    if chunks != [] {
      var n := before + |chunks[0]|;
      RatiosWithin(chunks[1..], size, n);
      assert (n as real) / (size as real) <= 1.0 by {
        assert n as real <= size as real;
      }
    }
  }

  /** A file whose chunks do not overrun its size is reported upstream at
      most 100 times. */
  lemma AtMostHundredReports(chunks: seq<seq<byte>>, size: nat)
    requires size > 0 && |Flatten(chunks)| <= size
    ensures |Reported(Ratios(chunks, size, 0), Finite(0.0))| <= 100
  {
    RatiosWithin(chunks, size, 0);
    ReportedIsSparse(Ratios(chunks, size, 0), 0.0);
  }

  /** The progress reports among the frames, in order. */
  function ProgressReports(frames: seq<Frame>): seq<Ratio>
  {
    if frames == [] then []
    else (if frames[0].Json? && frames[0].msg.Progress? then [frames[0].msg.progress] else []) + ProgressReports(frames[1..])
  }

  lemma {:induction false} ProgressReportsConcat(a: seq<Frame>, b: seq<Frame>)
    ensures ProgressReports(a + b) == ProgressReports(a) + ProgressReports(b)
    decreases |a|
  {
    if a != [] {
      assert (a + b)[1..] == a[1..] + b;
      ProgressReportsConcat(a[1..], b);
    } else {
      assert a + b == b;
    }
  }

  /** The `file-progress` values among the events, in order. */
  function ProgressEvents(events: seq<Event>): seq<Ratio>
  {
    if events == [] then []
    else (if events[0].FileProgress? then [events[0].progress] else []) + ProgressEvents(events[1..])
  }

  lemma {:induction false} ProgressEventsConcat(a: seq<Event>, b: seq<Event>)
    ensures ProgressEvents(a + b) == ProgressEvents(a) + ProgressEvents(b)
    decreases |a|
  {
    if a != [] {
      assert (a + b)[1..] == a[1..] + b;
      ProgressEventsConcat(a[1..], b);
    } else {
      assert a + b == b;
    }
  }

  /** FIFO order and at most one transfer in flight, over the values of a
      link's queue state: every file submitted has started or is queued, in
      order; every started file but the last has been acknowledged, and the last
      one too unless the link is busy; the headers on the wire announce the
      started files in order. */
  ghost predicate QueueInvariant(submitted: seq<File>, started: seq<File>, queue: seq<File>, busy: bool, acked: nat, outbox: seq<Frame>)
  {
    && submitted == started + queue
    && |started| == acked + (if busy then 1 else 0)
    && Headers(outbox) == HeadersFor(started)
  }

  /** Dequeuing on an idle link starts the front file and keeps the invariant. */
  lemma DequeueKeepsInvariant(submitted: seq<File>, started: seq<File>, queue: seq<File>, acked: nat, outbox: seq<Frame>, outbox': seq<Frame>)
    requires QueueInvariant(submitted, started, queue, false, acked, outbox)
    requires queue != []
    requires Headers(outbox') == Headers(outbox) + [HeaderFor(queue[0])]
    ensures QueueInvariant(submitted, started + [queue[0]], queue[1..], true, acked, outbox')
  {
    assert (started + [queue[0]])[..|started|] == started;
    assert queue == [queue[0]] + queue[1..];
  }

  /** Submitting one more file queues it behind the others. */
  lemma SubmitKeepsInvariant(submitted: seq<File>, started: seq<File>, queue: seq<File>, busy: bool, acked: nat, outbox: seq<Frame>, f: File)
    requires QueueInvariant(submitted, started, queue, busy, acked, outbox)
    ensures QueueInvariant(submitted + [f], started, queue + [f], busy, acked, outbox)
  {
  }

  /** Frames other than headers leave the announced files as they were. */
  lemma {:induction false} SendKeepsInvariant(submitted: seq<File>, started: seq<File>, queue: seq<File>, busy: bool, acked: nat, outbox: seq<Frame>, extra: seq<Frame>)
    requires QueueInvariant(submitted, started, queue, busy, acked, outbox)
    requires Headers(extra) == []
    ensures QueueInvariant(submitted, started, queue, busy, acked, outbox + extra)
  {
    HeadersConcat(outbox, extra);
  }

  /** A `file-transfer-complete` acknowledges the file in flight, if any. */
  lemma CompletionKeepsInvariant(submitted: seq<File>, started: seq<File>, queue: seq<File>, busy: bool, acked: nat, outbox: seq<Frame>)
    requires QueueInvariant(submitted, started, queue, busy, acked, outbox)
    ensures QueueInvariant(submitted, started, queue, false, acked + (if busy then 1 else 0), outbox)
  {
  }

  lemma NoHeaderIn(m: Msg)
    requires !m.Header?
    ensures Headers([Json(m)]) == []
  {
    assert [Json(m)][..0] == [];
  }

  class Peer {
    const peerId: string
    var queue: seq<File>
    var busy: bool
    var chunker: FileChunker?
    var digester: FileDigester?
    var lastProgress: Ratio
    /** Every frame handed to the link's transport, oldest first. */
    var outbox: seq<Frame>
    /** Every event fired, oldest first. */
    var events: seq<Event>

    /** Every file ever passed to `SendFiles`, in order. */
    ghost var submitted: seq<File>
    /** The files whose transfer has started, in the order their headers went out. */
    ghost var started: seq<File>
    /** The `file-transfer-complete` acknowledgments received while busy. */
    ghost var acked: nat

    /** The queue is FIFO and keeps at most one transfer in flight
        (`QueueInvariant`), an idle link has nothing queued, and the chunker is
        the one of the file started last. */
    ghost predicate Valid()
      reads this`chunker, this`digester, this`submitted, this`started, this`queue, this`busy, this`acked, this`outbox, chunker, digester
    {
      Consistent() && (!busy ==> queue == [])
    }

    /** Everything `Valid` asks except that an idle link has nothing queued,
        which `sendFiles` and the completion handler restore by dequeuing. */
    ghost predicate Consistent()
      reads this`chunker, this`digester, this`submitted, this`started, this`queue, this`busy, this`acked, this`outbox, chunker, digester
    {
      && (chunker != null ==> chunker.Valid())
      && ReceiverValid()
      && QueueInvariant(submitted, started, queue, busy, acked, outbox)
      && (started != [] ==> chunker != null && chunker.file == started[|started| - 1].bytes)
    }

    /** The digester, if any, keeps its byte count, and the count is a number:
        the link never hands it an empty chunk. */
    ghost predicate ReceiverValid()
      reads this`digester, digester
    {
      digester != null ==> digester.Valid() && !digester.countIsNaN
    }

    /** The sending side (queue, busy flag, chunker) is as it was. */
    twostate predicate SenderUnchanged()
      reads this`queue, this`busy, this`chunker, this`submitted, this`started, this`acked, chunker
    {
      && queue == old(queue) && busy == old(busy) && chunker == old(chunker)
      && submitted == old(submitted) && started == old(started) && acked == old(acked)
      && (chunker != null ==> chunker.offset == old(chunker.offset) && chunker.partitionSize == old(chunker.partitionSize))
    }

    /** The receiving side (digester, last reported progress) is as it was. */
    twostate predicate ReceiverUnchanged()
      reads this`digester, this`lastProgress, digester
    {
      && digester == old(digester) && lastProgress == old(lastProgress)
      && (digester != null ==>
            digester.buffer == old(digester.buffer) && digester.bytesReceived == old(digester.bytesReceived)
            && digester.progress == old(digester.progress) && digester.countIsNaN == old(digester.countIsNaN))
    }

    /** The chunker's offset and partition accumulator, (0, 0) without one. */
    ghost function ChunkerPos(): (nat, nat)
      reads this`chunker, chunker
    {
      if chunker == null then (0, 0) else (chunker.offset, chunker.partitionSize)
    }

    /** The effect of dequeuing, given the queue (`pending`), the wire, the
        started files, the chunker and its position before it: nothing on an
        empty queue (the link stays idle); otherwise the link is busy, the front
        file has started and its header and first partition are on the wire. */
    ghost predicate Dequeued(pending: seq<File>, outbox0: seq<Frame>, started0: seq<File>, chunker0: FileChunker?, pos0: (nat, nat))
      reads this`busy, this`queue, this`outbox, this`started, this`chunker, chunker
    {
      if pending == [] then
        && !busy && queue == [] && outbox == outbox0 && started == started0
        && chunker == chunker0 && ChunkerPos() == pos0
      else
        && busy && queue == pending[1..] && started == started0 + [pending[0]]
        && chunker != null && chunker.file == pending[0].bytes
        && var r := ReadPartition(chunker.file, 0, 0);
        && ChunkerPos() == (r.offset, r.partitionSize)
        && outbox == outbox0 + [Json(HeaderFor(pending[0]))] + PartitionFrames(r)
    }

    /** The effect of `_sendNextPartition`: nothing without a chunker or at the
        end of the file; otherwise the next partition is read and put on the wire. */
    twostate predicate NextPartitionSent()
      reads this, chunker, digester
    {
      && ReceiverUnchanged() && events == old(events)
      && queue == old(queue) && busy == old(busy) && chunker == old(chunker)
      && submitted == old(submitted) && started == old(started) && acked == old(acked)
      && if chunker == null || old(chunker.offset) >= |chunker.file| then
           && outbox == old(outbox)
           && (chunker != null ==> chunker.offset == old(chunker.offset) && chunker.partitionSize == old(chunker.partitionSize))
         else
           var r := ReadPartition(chunker.file, old(chunker.offset), 0);
           && chunker.offset == r.offset && chunker.partitionSize == r.partitionSize
           && outbox == old(outbox) + PartitionFrames(r)
    }

    /** The effect of `_onFileHeader`: a fresh, empty digester for the announced
        file and the last reported progress back at 0. */
    twostate predicate HeaderReceived(name: string, mime: string, size: nat)
      reads this, chunker, digester
    {
      && SenderUnchanged() && outbox == old(outbox) && events == old(events)
      && lastProgress == Finite(0.0)
      && digester != null && fresh(digester)
      && digester.buffer == [] && digester.bytesReceived == 0 && digester.progress == None && !digester.countIsNaN
      && digester.name == name && digester.mime == MimeOrDefault(mime) && digester.size == size
    }

    /** The effect of `_onChunkReceived`: an empty chunk is ignored, and so is
        any chunk before a header (`_onChunkReceived` throws on the missing digester
        before changing anything). Otherwise the digester takes the chunk; if
        that completes the file, the file is handed over and
        `file-transfer-complete` goes back to the sender; the progress is fired
        locally and, when it is at least 0.01 above the last report, reported
        upstream and remembered. */
    twostate predicate ChunkReceived(chunk: seq<byte>)
      reads this, chunker, digester
    {
      && SenderUnchanged() && digester == old(digester)
      && if |chunk| == 0 || digester == null then
           ReceiverUnchanged() && outbox == old(outbox) && events == old(events)
         else
           var p := RatioOf(digester.bytesReceived, digester.size);
           var done := digester.bytesReceived >= digester.size;
           var report := ShouldReport(p, old(lastProgress));
           && digester.buffer == old(digester.buffer) + [chunk]
           && digester.bytesReceived == old(digester.bytesReceived) + |chunk|
           && digester.progress == Some(p)
           && events == old(events)
                + (if done then [FileReceived(ReceivedFile(digester.name, digester.mime, digester.size, Flatten(digester.buffer)))] else [])
                + [FileProgress(peerId, p)]
           && outbox == old(outbox)
                + (if done then [Json(FileTransferComplete)] else [])
                + (if report then [Json(Progress(p))] else [])
           && lastProgress == (if report then p else old(lastProgress))
    }

    /** The effect of `_onFileTransferCompleted`: progress 1 is fired, the file
        in flight counts as acknowledged, the link becomes idle and dequeues the
        next file, and the completion notice is fired. */
    twostate predicate TransferCompleted()
      reads this, chunker, digester
    {
      && ReceiverUnchanged()
      && submitted == old(submitted)
      && acked == old(acked) + (if old(busy) then 1 else 0)
      && events == old(events) + [FileProgress(peerId, Finite(1.0)), FileTransferNotice]
      && Dequeued(old(queue), old(outbox), old(started), old(chunker), old(ChunkerPos()))
      && (old(queue) != [] ==> fresh(chunker))
    }

    constructor (peerId: string)
      ensures Valid()
      ensures this.peerId == peerId && queue == [] && !busy && chunker == null && digester == null
      ensures outbox == [] && events == [] && submitted == [] && started == [] && acked == 0
    {
      this.peerId := peerId;
      queue := [];
      busy := false;
      chunker := null;
      digester := null;
      lastProgress := Finite(0.0);
      outbox := [];
      events := [];
      submitted := [];
      started := [];
      acked := 0;
    }

    /** `sendJSON`: hand one JSON message to the transport. */
    method SendJson(m: Msg)
      modifies this`outbox
      ensures outbox == old(outbox) + [Json(m)]
    {
      outbox := outbox + [Json(m)];
    }

    /** `sendFiles`: queue the files in order, and start a transfer unless one
        is in flight. */
    method SendFiles(files: seq<File>)
      requires Valid()
      modifies this`outbox, this`chunker, this`queue, this`busy, this`started, this`submitted
      ensures Valid()
      ensures submitted == old(submitted) + files
      ensures old(busy) ==>
        && busy && queue == old(queue) + files && outbox == old(outbox) && started == old(started)
        && chunker == old(chunker) && (chunker != null ==> unchanged(chunker))
      ensures !old(busy) ==> Dequeued(files, old(outbox), old(started), old(chunker), old(ChunkerPos()))
      ensures !old(busy) && files != [] ==> fresh(chunker)
    {
      var i := 0;
      while i < |files|
        invariant 0 <= i <= |files|
        invariant queue == old(queue) + files[..i]
        invariant submitted == old(submitted) + files[..i]
        invariant Consistent()
        invariant outbox == old(outbox) && started == old(started) && busy == old(busy) && chunker == old(chunker)
      {
        SubmitKeepsInvariant(submitted, started, queue, busy, acked, outbox, files[i]);
        queue := queue + [files[i]];
        submitted := submitted + [files[i]];
        i := i + 1;
        assert files[..i] == files[..i - 1] + [files[i - 1]];
      }
      assert files[..i] == files;
      if busy {
        return;
      }
      assert queue == files;
      DequeueFile();
    }

    /** `_dequeueFile`: nothing on an empty queue; otherwise mark the link busy
        and start sending the file at the front. */
    method DequeueFile()
      requires Consistent() && !busy
      modifies this`outbox, this`chunker, this`queue, this`busy, this`started
      ensures Valid()
      ensures Dequeued(old(queue), old(outbox), old(started), old(chunker), old(ChunkerPos()))
      ensures old(queue) != [] ==> fresh(chunker)
    {
      if queue == [] {
        return;
      }
      busy := true;
      var file := queue[0];
      queue := queue[1..];
      started := started + [file];
      SendFile(file);
      DequeueKeepsInvariant(submitted, old(started), old(queue), acked, old(outbox), outbox);
    }

    /** `_sendFile`: send the header, then create a chunker for the file and let
        it send its first partition. */
    method SendFile(file: File)
      modifies this`outbox, this`chunker
      ensures fresh(chunker) && chunker.Valid() && chunker.file == file.bytes
      ensures var r := ReadPartition(file.bytes, 0, 0);
        && chunker.offset == r.offset && chunker.partitionSize == r.partitionSize
        && outbox == old(outbox) + [Json(HeaderFor(file))] + PartitionFrames(r)
      ensures Headers(outbox) == Headers(old(outbox)) + [HeaderFor(file)]
    {
      SendJson(HeaderFor(file));
      chunker := new FileChunker(file.bytes);
      var chunks, boundary := chunker.NextPartition();
      SendChunks(chunks, boundary);
      HeadersAfterSend(old(outbox), file, ReadPartition(file.bytes, 0, 0));
    }

    /** What the chunker's callbacks put on the wire for one partition: each
        chunk through `_send`, then the partition end through `_onPartitionEnd`. */
    method SendChunks(chunks: seq<seq<byte>>, boundary: Option<nat>)
      modifies this`outbox
      ensures outbox == old(outbox) + PartitionFrames(PartitionRead(chunks, 0, 0, boundary))
    {
      outbox := outbox + ChunkFrames(chunks);
      if boundary.Some? {
        SendJson(Partition(boundary.value));
      }
    }

    /** `_sendNextPartition`, run on `partition-received`. */
    method SendNextPartition()
      requires Valid()
      modifies this`outbox, chunker
      ensures Valid()
      ensures NextPartitionSent()
    {
      if chunker == null || chunker.IsFileEnd() {
        return;
      }
      var chunks, boundary := chunker.NextPartition();
      ghost var r := ReadPartition(chunker.file, old(chunker.offset), 0);
      SendChunks(chunks, boundary);
      assert PartitionFrames(PartitionRead(chunks, 0, 0, boundary)) == PartitionFrames(r);
      PartitionFramesHaveNoHeader(r);
      SendKeepsInvariant(submitted, started, queue, busy, acked, old(outbox), PartitionFrames(r));
    }

    /** `_sendProgress`: report the receiver's progress to the sender. */
    method SendProgress(p: Ratio)
      requires Valid()
      modifies this`outbox
      ensures Valid()
      ensures outbox == old(outbox) + [Json(Progress(p))]
    {
      NoHeaderIn(Progress(p));
      SendKeepsInvariant(submitted, started, queue, busy, acked, outbox, [Json(Progress(p))]);
      SendJson(Progress(p));
    }

    /** `_onFileHeader`. */
    method OnFileHeader(name: string, mime: string, size: nat)
      requires Valid()
      modifies this`lastProgress, this`digester
      ensures Valid()
      ensures HeaderReceived(name, mime, size)
    {
      lastProgress := Finite(0.0);
      digester := new FileDigester(name, mime, size);
    }

    /** `_onReceivedPartitionEnd`: acknowledge a partition, echoing the message. */
    method OnReceivedPartitionEnd(m: Msg)
      requires Valid()
      modifies this`outbox
      ensures Valid()
      ensures outbox == old(outbox) + [Json(PartitionReceived(m))]
    {
      NoHeaderIn(PartitionReceived(m));
      SendKeepsInvariant(submitted, started, queue, busy, acked, outbox, [Json(PartitionReceived(m))]);
      SendJson(PartitionReceived(m));
    }

    /** `_onDownloadProgress`. */
    method OnDownloadProgress(p: Ratio)
      modifies this`events
      ensures events == old(events) + [FileProgress(peerId, p)]
    {
      events := events + [FileProgress(peerId, p)];
    }

    /** `_onFileReceived`: hand the file over and acknowledge it to the sender. */
    method OnFileReceived(file: ReceivedFile)
      requires Consistent()
      modifies this`outbox, this`events
      ensures Consistent()
      ensures events == old(events) + [FileReceived(file)]
      ensures outbox == old(outbox) + [Json(FileTransferComplete)]
    {
      events := events + [FileReceived(file)];
      NoHeaderIn(FileTransferComplete);
      SendKeepsInvariant(submitted, started, queue, busy, acked, outbox, [Json(FileTransferComplete)]);
      SendJson(FileTransferComplete);
    }

    /** The first half of `_onChunkReceived` for a non-empty chunk: the
        digester takes it and, if that completes the file, the file is handed
        over and acknowledged. */
    method Digest(chunk: seq<byte>)
      requires Valid() && |chunk| > 0 && digester != null
      modifies this`outbox, this`events, digester
      ensures Valid() && digester == old(digester)
      ensures digester.buffer == old(digester.buffer) + [chunk]
      ensures digester.bytesReceived == old(digester.bytesReceived) + |chunk|
      ensures digester.progress == Some(RatioOf(digester.bytesReceived, digester.size))
      ensures var done := digester.bytesReceived >= digester.size;
        && events == old(events)
             + (if done then [FileReceived(ReceivedFile(digester.name, digester.mime, digester.size, Flatten(digester.buffer)))] else [])
        && outbox == old(outbox) + (if done then [Json(FileTransferComplete)] else [])
    {
      var done := digester.Unchunk(chunk);
      assert !digester.countIsNaN;
      assert Consistent();
      if done.Some? {
        OnFileReceived(done.value);
      }
    }

    /** `_onChunkReceived`. */
    method OnChunkReceived(chunk: seq<byte>)
      requires Valid()
      modifies this`outbox, this`events, this`lastProgress, digester
      ensures Valid()
      ensures ChunkReceived(chunk)
    {
      if |chunk| > 0 && digester != null {
        Digest(chunk);
        var progress := digester.progress.value;
        OnDownloadProgress(progress);
        assert Valid();
        if ShouldReport(progress, lastProgress) {
          lastProgress := progress;
          SendProgress(progress);
        }
      }
    }

    /** `_onFileTransferCompleted`: progress 1, the link idle again, the next
        queued file started, and the user notified. The two events are logged
        together up front: `_dequeueFile` fires no event, so the event log is
        the same as when the notice follows it. */
    method OnFileTransferCompleted()
      requires Valid()
      modifies this`outbox, this`chunker, this`queue, this`busy, this`started, this`acked, this`events
      ensures Valid()
      ensures TransferCompleted()
    {
      Acknowledge();
      DequeueFile();
    }

    /** The part of `_onFileTransferCompleted` before dequeuing: progress 1 and
        the notice are fired, and the file in flight counts as acknowledged. */
    method Acknowledge()
      requires Valid()
      modifies this`busy, this`acked, this`events
      ensures Consistent() && !busy
      ensures acked == old(acked) + (if old(busy) then 1 else 0)
      ensures events == old(events) + [FileProgress(peerId, Finite(1.0)), FileTransferNotice]
    {
      events := events + [FileProgress(peerId, Finite(1.0)), FileTransferNotice];
      CompletionKeepsInvariant(submitted, started, queue, busy, acked, outbox);
      acked := acked + (if busy then 1 else 0);
      busy := false;
    }

    /** `sendText`, given the text already in its transport-safe encoding. */
    method SendText(encoded: string)
      requires Valid()
      modifies this`outbox
      ensures Valid()
      ensures outbox == old(outbox) + [Json(Text(encoded))]
    {
      NoHeaderIn(Text(encoded));
      SendKeepsInvariant(submitted, started, queue, busy, acked, outbox, [Json(Text(encoded))]);
      SendJson(Text(encoded));
    }

    /** `_onTextReceived`: fire the text (as carried on the wire) and acknowledge it. */
    method OnTextReceived(text: string)
      requires Valid()
      modifies this`outbox, this`events
      ensures Valid()
      ensures events == old(events) + [TextReceived(text, peerId)]
      ensures outbox == old(outbox) + [Json(MessageTransferComplete)]
    {
      events := events + [TextReceived(text, peerId)];
      NoHeaderIn(MessageTransferComplete);
      SendKeepsInvariant(submitted, started, queue, busy, acked, outbox, [Json(MessageTransferComplete)]);
      SendJson(MessageTransferComplete);
    }

    /** What handling the JSON message `msg` does, by its type: a header
        starts a download, a partition end is echoed back, its echo sends the
        next partition, a progress report is passed on, the completion
        acknowledgment starts the next file, and a text is passed on and
        acknowledged; a message of any other type changes nothing. */
    twostate predicate Handled(msg: Msg)
      reads this, chunker, digester
    {
      match msg
      case Header(name, mime, size) => HeaderReceived(name, mime, size)
      case Partition(_) =>
        SenderUnchanged() && ReceiverUnchanged() && events == old(events)
        && outbox == old(outbox) + [Json(PartitionReceived(msg))]
      case PartitionReceived(_) => NextPartitionSent()
      case Progress(p) =>
        SenderUnchanged() && ReceiverUnchanged() && outbox == old(outbox)
        && events == old(events) + [FileProgress(peerId, p)]
      case FileTransferComplete => TransferCompleted()
      case MessageTransferComplete =>
        SenderUnchanged() && ReceiverUnchanged() && outbox == old(outbox)
        && events == old(events) + [MessageTransferNotice]
      case Text(text) =>
        SenderUnchanged() && ReceiverUnchanged()
        && events == old(events) + [TextReceived(text, peerId)]
        && outbox == old(outbox) + [Json(MessageTransferComplete)]
      case Unrecognized(_) =>
        SenderUnchanged() && ReceiverUnchanged() && outbox == old(outbox) && events == old(events)
    }

    /** `_onMessage`: binary frames are chunks; JSON messages are dispatched by
        their type. */
    method OnMessage(frame: Frame)
      requires Valid()
      modifies this, chunker, digester
      ensures Valid()
      ensures frame.Binary? ==> ChunkReceived(frame.data)
      ensures frame.Json? ==> Handled(frame.msg)
    {
      if frame.Binary? {
        OnChunkReceived(frame.data);
      } else {
        OnJson(frame.msg);
      }
    }

    /** The `switch` on the type of a JSON message in `_onMessage`. */
    method OnJson(msg: Msg)
      requires Valid()
      modifies this, chunker, digester
      ensures Valid()
      ensures Handled(msg)
    {
      match msg
      case Header(name, mime, size) =>
        OnFileHeader(name, mime, size);
      case Partition(_) =>
        OnReceivedPartitionEnd(msg);
      case PartitionReceived(_) =>
        SendNextPartition();
      case Progress(p) =>
        OnDownloadProgress(p);
      case FileTransferComplete =>
        OnFileTransferCompleted();
      case MessageTransferComplete =>
        events := events + [MessageTransferNotice];
      case Text(text) =>
        OnTextReceived(text);
      case Unrecognized(_) =>
    }
  }
  /** Two files sent together: only the first header goes out at once; the
      second follows the receiver's `file-transfer-complete`. */
  method QueueScenario() returns (before: seq<Msg>, after: seq<Msg>)
    ensures before == [Header("a", "text/plain", 1)]
    ensures after == [Header("a", "text/plain", 1), Header("b", "", 1)]
  {
    var p := new Peer("receiver");
    p.SendFiles([File("a", "text/plain", [1]), File("b", "", [2])]);
    before := Headers(p.outbox);
    p.OnMessage(Json(FileTransferComplete));
    after := Headers(p.outbox);
  }

  /** A three-byte file received in one chunk: the receiver hands it over,
      acknowledges it and reports progress 1 to the sender. */
  method ReceiveScenario() returns (events: seq<Event>, replies: seq<Frame>)
    ensures events == [FileReceived(ReceivedFile("a", "text/plain", 3, [1, 2, 3])), FileProgress("sender", Finite(1.0))]
    ensures replies == [Json(FileTransferComplete), Json(Progress(Finite(1.0)))]
  {
    var receiver := new Peer("sender");
    receiver.OnFileHeader("a", "text/plain", 3);
    FlattenAppend([], [1, 2, 3]);
    assert [] + [[1, 2, 3]] == [[1, 2, 3]];
    receiver.OnChunkReceived([1, 2, 3]);
    assert receiver.digester.buffer == [[1, 2, 3]] && receiver.digester.bytesReceived == 3;
    assert RatioOf(3, 3) == Finite(1.0);
    assert receiver.digester.name == "a" && receiver.digester.mime == "text/plain" && receiver.digester.size == 3;
    assert Flatten(receiver.digester.buffer) == [1, 2, 3];
    events := receiver.events;
    replies := receiver.outbox;
  }

  /** One chunk of the stream: an empty one yields no progress value, any
      other the bytes so far over the size. */
  lemma RatiosStep(chunks: seq<seq<byte>>, i: nat, size: nat, before: nat)
    requires i < |chunks|
    ensures Ratios(chunks[i..], size, before) ==
      if |chunks[i]| == 0 then Ratios(chunks[i + 1..], size, before)
      else [RatioOf(before + |chunks[i]|, size)] + Ratios(chunks[i + 1..], size, before + |chunks[i]|)
  {
    assert chunks[i..][1..] == chunks[i + 1..];
  }

  /** One progress value through the throttle. */
  lemma ReportedStep(p: Ratio, rest: seq<Ratio>, last: Ratio)
    ensures Reported([p] + rest, last) ==
      if ShouldReport(p, last) then [p] + Reported(rest, p) else Reported(rest, last)
  {
    assert ([p] + rest)[1..] == rest;
  }

  /** One non-empty chunk moves its progress value from the values still to
      come to those fired, and its report, if any, to those sent. */
  lemma ChunkStepKeeps(fired: seq<Ratio>, fired': seq<Ratio>, sent: seq<Ratio>, sent': seq<Ratio>, last: Ratio, last': Ratio,
                       p: Ratio, todo: seq<Ratio>, rest: seq<Ratio>, all: seq<Ratio>, allSent: seq<Ratio>)
    requires todo == [p] + rest
    requires fired + todo == all && fired' == fired + [p]
    requires sent + Reported(todo, last) == allSent
    requires sent' == sent + (if ShouldReport(p, last) then [p] else [])
    requires last' == (if ShouldReport(p, last) then p else last)
    ensures fired' + rest == all
    ensures sent' + Reported(rest, last') == allSent
  {
    ReportedStep(p, rest, last);
    assert fired + [p] + rest == fired + ([p] + rest);
    if ShouldReport(p, last) {
      assert sent + [p] + Reported(rest, p) == sent + ([p] + Reported(rest, p));
    } else {
      assert sent + [] == sent;
    }
  }

  /** The events of one received chunk add its progress value, and only it. */
  lemma ProgressEventsStep(events: seq<Event>, done: bool, file: ReceivedFile, sender: string, p: Ratio)
    ensures ProgressEvents(events + (if done then [FileReceived(file)] else []) + [FileProgress(sender, p)])
      == ProgressEvents(events) + [p]
  {
    var handed := if done then [FileReceived(file)] else [];
    ProgressEventsConcat(events + handed, [FileProgress(sender, p)]);
    ProgressEventsConcat(events, handed);
    if done {
      assert handed[1..] == [];
    }
    assert [FileProgress(sender, p)][1..] == [];
  }

  /** The replies to one received chunk add its report, if it is sent. */
  lemma ProgressReportsStep(outbox: seq<Frame>, done: bool, report: bool, p: Ratio)
    ensures ProgressReports(outbox + (if done then [Json(FileTransferComplete)] else []) + (if report then [Json(Progress(p))] else []))
      == ProgressReports(outbox) + (if report then [p] else [])
  {
    var a := if done then [Json(FileTransferComplete)] else [];
    var b := if report then [Json(Progress(p))] else [];
    ProgressReportsConcat(outbox + a, b);
    ProgressReportsConcat(outbox, a);
    assert ProgressReports(a) == [] by {
      if done { assert a[1..] == []; }
    }
    assert ProgressReports(b) == (if report then [p] else []) by {
      if report { assert b[1..] == []; }
    }
  }

  /** `_onChunkReceived` on a link that is receiving a file, seen through the
      progress values it fires and reports. */
  method FeedChunk(r: Peer, c: seq<byte>)
    requires r.Valid() && r.digester != null
    modifies r, r.digester
    ensures r.Valid() && r.digester == old(r.digester) && r.chunker == old(r.chunker)
    ensures r.digester.size == old(r.digester.size)
    ensures |c| == 0 ==>
      && ProgressEvents(r.events) == ProgressEvents(old(r.events)) && ProgressReports(r.outbox) == ProgressReports(old(r.outbox))
      && r.lastProgress == old(r.lastProgress) && r.digester.bytesReceived == old(r.digester.bytesReceived)
    ensures |c| > 0 ==>
      var p := RatioOf(old(r.digester.bytesReceived) + |c|, r.digester.size);
      var report := ShouldReport(p, old(r.lastProgress));
      && ProgressEvents(r.events) == ProgressEvents(old(r.events)) + [p]
      && ProgressReports(r.outbox) == ProgressReports(old(r.outbox)) + (if report then [p] else [])
      && r.lastProgress == (if report then p else old(r.lastProgress))
      && r.digester.bytesReceived == old(r.digester.bytesReceived) + |c|
    ensures forall j :: 0 <= j < |r.events| && r.events[j].FileProgress? ==>
      (j < |old(r.events)| && r.events[j] == old(r.events)[j]) || r.events[j].sender == r.peerId
  {
    ghost var d := r.digester;
    ghost var before := d.bytesReceived;
    r.OnChunkReceived(c);
    if |c| > 0 {
      ghost var p := RatioOf(before + |c|, d.size);
      ghost var done := before + |c| >= d.size;
      ProgressEventsStep(old(r.events), done, ReceivedFile(d.name, d.mime, d.size, Flatten(d.buffer)), r.peerId, p);
      ProgressReportsStep(old(r.outbox), done, ShouldReport(p, old(r.lastProgress)), p);
    }
  }

  /** One step of `FeedChunks`: chunk `i` moves its progress value, if any,
      from those still to come to those fired, and its report, if any, to
      those sent. */
  method FeedChunkAt(r: Peer, chunks: seq<seq<byte>>, i: nat, ghost size: nat, ghost bytes: nat,
                     ghost fired: seq<Ratio>, ghost sent: seq<Ratio>, ghost todo: seq<Ratio>, ghost firedAll: seq<Ratio>, ghost allSent: seq<Ratio>)
    returns (ghost fired': seq<Ratio>, ghost sent': seq<Ratio>, ghost todo': seq<Ratio>, ghost bytes': nat)
    requires i < |chunks|
    requires r.Valid() && r.digester != null
    requires r.digester.size == size && r.digester.bytesReceived == bytes
    requires todo == Ratios(chunks[i..], size, bytes)
    requires ProgressEvents(r.events) == fired && ProgressReports(r.outbox) == sent
    requires fired + todo == firedAll && sent + Reported(todo, r.lastProgress) == allSent
    modifies r, r.digester
    ensures r.Valid() && r.chunker == old(r.chunker) && r.digester == old(r.digester)
    ensures r.digester.size == size && r.digester.bytesReceived == bytes'
    ensures todo' == Ratios(chunks[i + 1..], size, bytes')
    ensures ProgressEvents(r.events) == fired' && ProgressReports(r.outbox) == sent'
    ensures fired' + todo' == firedAll && sent' + Reported(todo', r.lastProgress) == allSent
  {
    var c := chunks[i];
    RatiosStep(chunks, i, size, bytes);
    ghost var last0 := r.lastProgress;
    FeedChunk(r, c);
    if |c| > 0 {
      ghost var p := RatioOf(bytes + |c|, size);
      ghost var rest := Ratios(chunks[i + 1..], size, bytes + |c|);
      ghost var report := ShouldReport(p, last0);
      fired', sent', todo', bytes' := fired + [p], sent + (if report then [p] else []), rest, bytes + |c|;
      ChunkStepKeeps(fired, fired', sent, sent', last0, r.lastProgress, p, todo, rest, firedAll, allSent);
    } else {
      fired', sent', todo', bytes' := fired, sent, Ratios(chunks[i + 1..], size, bytes), bytes;
    }
  }

  /** `_onChunkReceived` run over a stream of chunks on a link that is
      receiving a file: the `file-progress` events it fires carry one progress
      value per non-empty chunk, and the reports it sends upstream are those
      the 0.01 throttle lets through, starting from the last report. */
  method FeedChunks(r: Peer, chunks: seq<seq<byte>>)
    requires r.Valid() && r.digester != null
    modifies r, r.digester
    ensures r.Valid() && r.digester == old(r.digester) && r.chunker == old(r.chunker)
    ensures ProgressEvents(r.events) == ProgressEvents(old(r.events)) + Ratios(chunks, r.digester.size, old(r.digester.bytesReceived))
    ensures ProgressReports(r.outbox)
      == ProgressReports(old(r.outbox)) + Reported(Ratios(chunks, r.digester.size, old(r.digester.bytesReceived)), old(r.lastProgress))
  {
    ghost var d := r.digester;
    ghost var size, bytes: nat := d.size, d.bytesReceived;
    ghost var all := Ratios(chunks, size, bytes);
    ghost var fired, sent := ProgressEvents(r.events), ProgressReports(r.outbox);
    ghost var allSent := sent + Reported(all, r.lastProgress);
    ghost var todo := all;
    ghost var firedAll := fired + all;
    var i := 0;
    assert chunks[i..] == chunks;
    while i < |chunks|
      invariant 0 <= i <= |chunks|
      invariant r.Valid() && r.chunker == old(r.chunker)
      invariant r.digester == d && d.size == size && d.bytesReceived == bytes
      invariant todo == Ratios(chunks[i..], size, bytes)
      invariant ProgressEvents(r.events) == fired && ProgressReports(r.outbox) == sent
      invariant fired + todo == firedAll && sent + Reported(todo, r.lastProgress) == allSent
    {
      fired, sent, todo, bytes := FeedChunkAt(r, chunks, i, size, bytes, fired, sent, todo, firedAll, allSent);
      i := i + 1;
    }
    assert todo == [];
  }

  /** A fresh receiver fed a header and then a stream of chunks: its
      `file-progress` events carry the bytes so far over the size, one per
      non-empty chunk, and its progress reports upstream are those the 0.01
      throttle lets through from 0, at most 100 while the chunks do not
      overrun the announced size. */
  method ReceiveChunks(sender: string, name: string, mime: string, size: nat, chunks: seq<seq<byte>>)
    returns (events: seq<Event>, replies: seq<Frame>)
    ensures ProgressEvents(events) == Ratios(chunks, size, 0)
    ensures ProgressReports(replies) == Reported(Ratios(chunks, size, 0), Finite(0.0))
    ensures size > 0 && |Flatten(chunks)| <= size ==> |ProgressReports(replies)| <= 100
  {
    var receiver := new Peer(sender);
    receiver.OnMessage(Json(Header(name, mime, size)));
    assert ProgressEvents(receiver.events) == [] && ProgressReports(receiver.outbox) == [];
    FeedChunks(receiver, chunks);
    events := receiver.events;
    replies := receiver.outbox;
    if size > 0 && |Flatten(chunks)| <= size {
      AtMostHundredReports(chunks, size);
    }
  }

  /** An empty file: the sender emits its header and one empty chunk, the
      receiver ignores the empty chunk, so nothing is handed over and no
      `file-transfer-complete` ever returns; the sender stays busy. */
  method EmptyFileScenario() returns (wire: seq<Frame>, events: seq<Event>, replies: seq<Frame>, senderBusy: bool)
    ensures wire == [Json(Header("e", "", 0)), Binary([])]
    ensures events == [] && replies == []
    ensures senderBusy
  {
    var sender := new Peer("receiver");
    var receiver := new Peer("sender");
    sender.SendFiles([File("e", "", [])]);
    wire := sender.outbox;
    assert wire == [Json(Header("e", "", 0)), Binary([])];
    receiver.OnMessage(wire[0]);
    receiver.OnMessage(wire[1]);
    events := receiver.events;
    replies := receiver.outbox;
    senderBusy := sender.busy;
  }
}
