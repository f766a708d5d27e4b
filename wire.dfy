/** Values shared by the transfer protocol: bytes, files, progress ratios and the
    messages a peer link carries. */
module Wire {

  type byte = b: int | 0 <= b < 256

  datatype Option<T> = None | Some(value: T)

  /** A transfer ratio as JavaScript computes it: a finite number, or the
      positive infinity that `n / 0` gives for `n > 0`. */
  datatype Ratio = Finite(value: real) | Infinite

  /** A file chosen for sending; its `size` is the length of its bytes and
      `mime` is the browser's `File.type` (empty when unknown). */
  datatype File = File(name: string, mime: string, bytes: seq<byte>)

  /** The JSON messages exchanged over an open peer link, tagged by `type`. */
  datatype Msg =
    | Header(name: string, mime: string, size: nat)
    | Partition(offset: nat)
      // The receiver puts the whole `partition` message it got into the
      // `offset` field of its acknowledgment.
    | PartitionReceived(echoed: Msg)
    | Progress(progress: Ratio)
    | FileTransferComplete
    | MessageTransferComplete
    | Text(text: string)
    | Unrecognized(tag: string)

  /** What travels over a peer link: untagged binary chunk frames and JSON messages. */
  datatype Frame = Binary(data: seq<byte>) | Json(msg: Msg)

  /** The bytes of a sequence of chunks laid end to end, as a `Blob` built from them holds. */
  function Flatten(chunks: seq<seq<byte>>): seq<byte>
  {
    if chunks == [] then [] else chunks[0] + Flatten(chunks[1..])
  }

  lemma {:induction false} FlattenConcat(a: seq<seq<byte>>, b: seq<seq<byte>>)
    ensures Flatten(a + b) == Flatten(a) + Flatten(b)
    decreases |a|
  {
    if a == [] {
      assert a + b == b;
    } else {
      assert (a + b)[0] == a[0];
      assert (a + b)[1..] == a[1..] + b;
      FlattenConcat(a[1..], b);
    }
  }

  lemma FlattenAppend(a: seq<seq<byte>>, c: seq<byte>)
    ensures Flatten(a + [c]) == Flatten(a) + c
  {
    FlattenConcat(a, [c]);
    assert Flatten([c]) == c + Flatten([]);
  }

  /** A slice of bytes is the slices on either side of any point inside it. */
  lemma SliceSplit(s: seq<byte>, i: nat, j: nat, k: nat)
    requires i <= j <= k <= |s|
    ensures s[i..k] == s[i..j] + s[j..k]
  {
  }
}
