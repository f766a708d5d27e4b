/** The receiver side of a file transfer: `FileDigester` collects the chunks
    of one file, reports progress, and hands over the complete file. */
module Digester {
  import opened Wire

  const DefaultMime: string := "application/octet-stream"

  /** `meta.mime || 'application/octet-stream'`: an empty MIME type falls back
      to the generic binary type. */
  function MimeOrDefault(mime: string): (m: string)
    ensures m != ""
    ensures mime != "" ==> m == mime
    ensures mime == "" ==> m == DefaultMime
  {
    if mime == "" then DefaultMime else mime
  }

  /** `bytesReceived / size` with JavaScript's division, where the NaN of
      `0 / 0` is replaced by 1 and `n / 0` for `n > 0` is infinite. */
  function RatioOf(received: nat, size: nat): Ratio
  {
    if size == 0 then (if received == 0 then Finite(1.0) else Infinite)
    else Finite(received as real / size as real)
  }

  /** The order of ratios, with the infinite ratio above every finite one. */
  predicate RatioLe(a: Ratio, b: Ratio)
  {
    match (a, b)
    case (Finite(x), Finite(y)) => x <= y
    case (_, Infinite) => true
    case (Infinite, Finite(_)) => false
  }

  /** Receiving more bytes of a file never lowers its progress. */
  lemma ProgressMonotone(received: nat, more: nat, size: nat)
    requires received <= more
    ensures RatioLe(RatioOf(received, size), RatioOf(more, size))
  {
    if size > 0 {
      var s := size as real;
      assert received as real / s <= more as real / s by {
        assert (more as real - received as real) / s >= 0.0;
      }
    }
  }

  /** Progress is exactly 1 once the bytes received equal the expected size,
      an empty file included, and below 1 while fewer bytes have arrived. */
  lemma ProgressAtCompletion(received: nat, size: nat)
    ensures received == size ==> RatioOf(received, size) == Finite(1.0)
    ensures received < size ==> RatioOf(received, size).Finite? && RatioOf(received, size).value < 1.0
  {
  }

  /** The file handed to the completion callback. */
  datatype ReceivedFile = ReceivedFile(name: string, mime: string, size: nat, blob: seq<byte>)

  /** Whether some chunk of the stream is empty. For an empty `ArrayBuffer`,
      `chunk.byteLength || chunk.size` is `undefined`, and adding it makes the
      byte count NaN from then on. */
  predicate HasEmpty(chunks: seq<seq<byte>>)
  {
    exists j :: 0 <= j < |chunks| && |chunks[j]| == 0
  }

  lemma HasEmptyAppend(chunks: seq<seq<byte>>, c: seq<byte>)
    ensures HasEmpty(chunks + [c]) <==> HasEmpty(chunks) || |c| == 0
  {
    if HasEmpty(chunks) {
      var j :| 0 <= j < |chunks| && |chunks[j]| == 0;
      assert (chunks + [c])[j] == chunks[j];
    }
    if |c| == 0 {
      assert (chunks + [c])[|chunks|] == c;
    }
    if HasEmpty(chunks + [c]) {
      var j :| 0 <= j < |chunks + [c]| && |(chunks + [c])[j]| == 0;
      if j < |chunks| {
        assert chunks[j] == (chunks + [c])[j];
      }
    }
  }

  /** Whether the `i`-th call of `unchunk` in a stream of chunks invokes the
      callback: `this._bytesReceived < this._size` is false when the count is at
      or past the expected size, and also once the count is NaN. */
  predicate CompletesAt(chunks: seq<seq<byte>>, size: nat, i: nat)
    requires i < |chunks|
  {
    |Flatten(chunks[..i + 1])| >= size || HasEmpty(chunks[..i + 1])
  }

  lemma {:induction false} FlattenNonEmpty(chunks: seq<seq<byte>>)
    requires chunks != [] && |chunks[0]| > 0
    ensures |Flatten(chunks)| > 0
  {
  }

  /** A stream of non-empty chunks that adds up to the expected size invokes the
      callback exactly once: on its last chunk, not before. */
  lemma CompletesExactlyOnce(chunks: seq<seq<byte>>, size: nat)
    requires chunks != []
    requires forall i :: 0 <= i < |chunks| ==> |chunks[i]| > 0
    requires |Flatten(chunks)| == size
    ensures forall i :: 0 <= i < |chunks| ==> (CompletesAt(chunks, size, i) <==> i == |chunks| - 1)
  {
    forall i | 0 <= i < |chunks|
      ensures CompletesAt(chunks, size, i) <==> i == |chunks| - 1
    {
      assert chunks == chunks[..i + 1] + chunks[i + 1..];
      FlattenConcat(chunks[..i + 1], chunks[i + 1..]);
      if i < |chunks| - 1 {
        FlattenNonEmpty(chunks[i + 1..]);
      } else {
        assert chunks[..i + 1] == chunks;
      }
    }
  }

  class FileDigester {
    var buffer: seq<seq<byte>>
    var bytesReceived: nat
    const size: nat
    const mime: string
    const name: string
    /** The `progress` property, absent until the first chunk. */
    var progress: Option<Ratio>
    /** Whether `_bytesReceived` has become NaN, which an empty chunk causes.
        `bytesReceived` keeps the total of the bytes buffered either way. */
    var countIsNaN: bool

    /** Byte conservation: `bytesReceived` is the total length of the buffered
        chunks, the count is NaN exactly once an empty chunk arrived, and the
        progress shown is the count over the size, or 1 for a NaN count. */
    ghost predicate Valid()
      reads this
    {
      && bytesReceived == |Flatten(buffer)|
      && countIsNaN == HasEmpty(buffer)
      && (progress.Some? ==> progress.value == Shown())
    }

    /** The progress `unchunk` computes from the current count. */
    function Shown(): Ratio
      reads this
    {
      if countIsNaN then Finite(1.0) else RatioOf(bytesReceived, size)
    }

    constructor (name: string, mime: string, size: nat)
      ensures Valid()
      ensures buffer == [] && bytesReceived == 0 && progress == None && !countIsNaN
      ensures this.name == name && this.mime == MimeOrDefault(mime) && this.size == size
    {
      buffer := [];
      bytesReceived := 0;
      this.size := size;
      this.mime := MimeOrDefault(mime);
      this.name := name;
      progress := None;
      countIsNaN := false;
    }

    /** `unchunk`: append the chunk, count its bytes (an empty chunk makes the
        count NaN for good), recompute the progress (1 for a NaN count), and,
        whenever the count is at or past the expected size or NaN, produce the
        file made of all chunks so far, in arrival order. */
    method Unchunk(chunk: seq<byte>) returns (done: Option<ReceivedFile>)
      requires Valid()
      modifies this
      ensures Valid()
      ensures buffer == old(buffer) + [chunk]
      ensures bytesReceived == old(bytesReceived) + |chunk|
      ensures countIsNaN == (old(countIsNaN) || |chunk| == 0)
      ensures progress == Some(if countIsNaN then Finite(1.0) else RatioOf(bytesReceived, size))
      ensures done.Some? <==> countIsNaN || bytesReceived >= size
      ensures done.Some? ==> done.value == ReceivedFile(name, mime, size, Flatten(buffer))
    {
      FlattenAppend(buffer, chunk);
      HasEmptyAppend(buffer, chunk);
      buffer := buffer + [chunk];
      bytesReceived := bytesReceived + |chunk|;
      countIsNaN := countIsNaN || |chunk| == 0;
      progress := Some(if countIsNaN then Finite(1.0) else RatioOf(bytesReceived, size));
      if !countIsNaN && bytesReceived < size {
        done := None;
        return;
      }
      done := Some(ReceivedFile(name, mime, size, Flatten(buffer)));
    }
  }
  /** A fresh digester fed `chunks` one `unchunk` call at a time: the
      callback fires on call `i` exactly when `CompletesAt(chunks, size, i)`,
      that is once the bytes so far reach the size or an empty chunk has
      arrived, and every file it produces holds the chunks so far, in order.
      Non-empty chunks that add up to the size fire it on the last call only. */
  method DigestAll(name: string, mime: string, size: nat, chunks: seq<seq<byte>>) returns (fired: seq<Option<ReceivedFile>>)
    ensures |fired| == |chunks|
    ensures forall i :: 0 <= i < |chunks| ==> (fired[i].Some? <==> CompletesAt(chunks, size, i))
    ensures forall i :: 0 <= i < |chunks| && fired[i].Some? ==>
      fired[i].value == ReceivedFile(name, MimeOrDefault(mime), size, Flatten(chunks[..i + 1]))
    ensures chunks != [] && (forall i :: 0 <= i < |chunks| ==> |chunks[i]| > 0) && |Flatten(chunks)| == size ==>
      forall i :: 0 <= i < |chunks| ==> (fired[i].Some? <==> i == |chunks| - 1)
  {
    var d := new FileDigester(name, mime, size);
    fired := [];
    var i := 0;
    while i < |chunks|
      invariant 0 <= i <= |chunks|
      invariant d.Valid() && d.buffer == chunks[..i]
      invariant d.name == name && d.mime == MimeOrDefault(mime) && d.size == size
      invariant |fired| == i
      invariant forall j :: 0 <= j < i ==> (fired[j].Some? <==> CompletesAt(chunks, size, j))
      invariant forall j :: 0 <= j < i && fired[j].Some? ==>
        fired[j].value == ReceivedFile(name, MimeOrDefault(mime), size, Flatten(chunks[..j + 1]))
    {
      var done := d.Unchunk(chunks[i]);
      assert chunks[..i + 1] == chunks[..i] + [chunks[i]];
      fired := fired + [done];
      i := i + 1;
    }
    if chunks != [] && (forall i :: 0 <= i < |chunks| ==> |chunks[i]| > 0) && |Flatten(chunks)| == size {
      CompletesExactlyOnce(chunks, size);
    }
  }

  /** A three-byte file without a MIME type, received as two chunks and then
      one chunk too many: the callback fires on the second call and again on
      the third, and the progress ends above 1. */
  method CompletionScenario() returns (first: Option<ReceivedFile>, second: Option<ReceivedFile>, third: Option<ReceivedFile>, progress: Option<Ratio>)
    ensures first == None
    ensures second == Some(ReceivedFile("a", DefaultMime, 3, [1, 2, 3]))
    ensures third == Some(ReceivedFile("a", DefaultMime, 3, [1, 2, 3, 4]))
    ensures progress == Some(Finite(4.0 / 3.0))
  {
    var d := new FileDigester("a", "", 3);
    first := d.Unchunk([1, 2]);
    second := d.Unchunk([3]);
    assert d.buffer == [[1, 2], [3]];
    assert Flatten(d.buffer) == [1, 2, 3];
    FlattenAppend([[1, 2], [3]], [4]);
    third := d.Unchunk([4]);
    assert d.buffer == [[1, 2], [3]] + [[4]];
    assert [1, 2, 3] + [4] == [1, 2, 3, 4];
    progress := d.progress;
  }

  /** A five-byte file whose second chunk is an empty `ArrayBuffer`: the count
      becomes NaN, so the callback fires on that call with the single byte
      received so far and on every call after it, and the progress stays 1. */
  method EmptyChunkScenario() returns (first: Option<ReceivedFile>, second: Option<ReceivedFile>, third: Option<ReceivedFile>, progress: Option<Ratio>)
    ensures first == None
    ensures second == Some(ReceivedFile("f", DefaultMime, 5, [1]))
    ensures third == Some(ReceivedFile("f", DefaultMime, 5, [1, 2]))
    ensures progress == Some(Finite(1.0))
  {
    var d := new FileDigester("f", "", 5);
    first := d.Unchunk([1]);
    second := d.Unchunk([]);
    assert d.buffer == [[1], []];
    assert Flatten(d.buffer) == [1];
    FlattenAppend([[1], []], [2]);
    third := d.Unchunk([2]);
    assert d.buffer == [[1], []] + [[2]];
    assert [1] + [2] == [1, 2];
    progress := d.progress;
  }
}
