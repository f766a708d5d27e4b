# PairDrop peer networking, modelled in Dafny

PairDrop moves files and texts between browsers on the same network. Its
browser client's `public/scripts/network.js` has five pieces of sequential
bookkeeping, and this project models each as a Dafny module:

- `Chunker` (`chunker.dfy`) models `FileChunker`, the sender. It reads a file
  in chunks of 64,000 bytes and groups them into partitions. A partition ends
  once 1,000,000 bytes have been read, and the receiver must acknowledge each
  partition before the next is read. The class `FileChunker` keeps the
  offset and the partition accumulator. `NextPartition` is a loop proved equal
  to the recursive `ReadPartition`. `Transfer` strings the partitions of a
  whole file together.
- `Digester` (`digester.dfy`) models `FileDigester`, the receiver. It buffers
  the chunks, counts their bytes, computes the progress ratio, and hands over
  the file once the count reaches the announced size, or once an empty chunk
  has made the count NaN.
- `PeerLink` (`peer.dfy`) models `Peer`: the outbound FIFO of files, the busy
  flag that keeps at most one transfer in flight, the dispatch of incoming
  frames by message type, and the receiver's throttled progress reports.
  The frames handed to the link's transport are the field `outbox`. The
  events fired on the page's bus are the field `events`.
- `Registry` (`registry.dfy`) models `PeersManager`: the roster of remote
  peers, keyed by id, in key order. Peers are created, re-homed, refreshed and
  removed as the signaling server reports them joining, leaving, being listed,
  and rooms being deleted. Each peer is a `Link` record holding its transport
  kind and room fields.
- `Signaling` (`signaling.dfy`) models `ServerConnection`. It keeps one
  WebSocket at a time, drops messages unless the socket is open, and keeps a
  single reconnect timer that each unexpected close re-arms.

`Wire` (`wire.dfy`) holds the shared values: bytes, files, the JSON messages of
a peer link, frames, and JavaScript-style ratios, which may be infinite.

Where the code does something its design evidently did not aim for, the model
follows the code:

- **Empty files never complete.** An empty file is sent as its header and one
  empty chunk. The receiver ignores empty chunks, so the transfer never
  completes and the sender stays busy (`PeerLink.EmptyFileScenario`).
- **Partitions are 1,024,000 bytes.** The partition threshold is checked only
  after each 64,000-byte chunk, so every non-final partition holds 16 chunks
  (`Chunker.TransferPartitions`).
- **The completion callback can fire more than once.** The digester fires it
  on every chunk that finds the byte count at or past the size, not only on
  the first (`Digester.CompletionScenario`).
- **Progress on an empty file can be infinite.** For an announced size of 0,
  `unchunk` sets the progress to 1 on a call with no bytes received so far,
  and to infinity on any call after bytes have arrived (`Digester.RatioOf`).
  On a peer link, an empty chunk never reaches `unchunk`, so the receiver's
  progress is unset until some bytes arrive.
- **The partition acknowledgment echoes the whole message.** The receiver's
  acknowledgment carries the whole `partition` message it got in its
  `offset` field.
- **Only a third identical roster refreshes.** `_onPeers` compares and writes
  the underscore-less `roomType` and `roomSecret` properties. Peer
  constructors set only the underscored ones. So the second identical roster
  only writes those fields, and only the third refreshes. A relayed link has
  no `refresh`, and calling it stops the walk with an error
  (`Registry.IdenticalRosterThrice`).
- **Disconnecting without a socket fails.** `_disconnect` throws, so a
  `_reconnect` after a disconnect creates no socket
  (`Signaling.ServerConnection.Reconnect`).
- **An empty chunk completes the digester.** Counting an empty `ArrayBuffer` makes `unchunk`'s byte count NaN. From then on the progress is 1 and every call hands over the file (`Digester.EmptyChunkScenario`). A peer link filters empty chunks out first.
- **A chunk before any header is ignored.** `_onChunkReceived` throws on the missing
  digester, before changing anything.

## Model

| member | source | states |
|---|---|---|
| Chunker.ReadPartition | public/scripts/network.js:587-597 | the read/emit cycle from an offset: read the clipped chunk, advance the offset and the accumulator by its length, emit it; stop at the file end with no signal; otherwise stop with a signal carrying the offset once the accumulator reaches 1,000,000; otherwise read on |
| Chunker.Transfer | public/scripts/network.js:214-231 | a whole transfer: `_sendFile` reads the first partition, and each acknowledgment of a signal reads the next, until a partition ends at the file end |
| Chunker.FileChunker.IsFileEnd | public/scripts/network.js:608-610 | the offset has reached the file size |
| Chunker.FileChunker.IsPartitionEnd | public/scripts/network.js:604-606 | the accumulator has reached 1,000,000 bytes |
| Chunker.ChunkAt | public/scripts/network.js:582-585 | the chunk read at an offset is the file's bytes from there: a full 64,000 bytes, or whatever is left up to the end of the file |
| Chunker.FileChunker.constructor | public/scripts/network.js:565-575 | a new chunker is at offset 0 with an empty partition accumulator |
| Chunker.FileChunker.NextPartition | public/scripts/network.js:577-597 | the read loop resets the accumulator, then emits exactly the chunks, the new offset and accumulator, and the partition-end signal that `ReadPartition` defines |
| Chunker.FileChunker.RepeatPartition | public/scripts/network.js:599-602 | rewinds by the current partition's bytes and reads that partition again from the rewound offset |
| Chunker.FileChunker.Progress | public/scripts/network.js:612-614 | progress is undefined (NaN) exactly for an empty file, otherwise lies in [0, 1], and is 1 exactly at the end of the file |
| Chunker.ReadPartitionFromIsReadPartition | public/scripts/network.js:587-597 | the loop's accumulator form of the read cycle equals the recursive one, with the chunks already emitted in front |
| Chunker.ReadPartitionSlices | public/scripts/network.js:587-597 | one partition's chunks lay out exactly the file bytes between the old and new offset; the accumulator grows by the same amount; a read ends at the file end with no signal, or before it with one signal carrying the new offset, once the accumulator reaches the threshold |
| Chunker.ReadPartitionShape | public/scripts/network.js:587-606 | every chunk but the last is full; a signalled partition holds exactly 16 chunks (1,024,000 bytes); the final one holds as many chunks as cover the rest of the file, and one when nothing is left |
| Chunker.TransferReassembles | public/scripts/network.js:577-610 | laying all chunks of a transfer end to end, in emission order, gives back the file byte for byte |
| Chunker.TransferPartitions | public/scripts/network.js:587-606 | a transfer has max(1, ceil(size / 1,024,000)) partitions; each but the last ends with one signal at the next multiple of 1,024,000; the last ends at the file end with none |
| Chunker.TransferChunkCount | public/scripts/network.js:582-597 | a transfer emits max(1, ceil(size / 64,000)) chunks, so one empty chunk for an empty file |
| Digester.RatioOf | public/scripts/network.js:631-632 | bytes received over size; the NaN of 0/0 becomes 1, and n/0 for n > 0 is infinite |
| Digester.MimeOrDefault | public/scripts/network.js:623 | an empty MIME type becomes `application/octet-stream`; any other is kept |
| Digester.ProgressMonotone | public/scripts/network.js:630-632 | receiving more bytes never lowers the progress ratio, with infinity above every finite value |
| Digester.ProgressAtCompletion | public/scripts/network.js:630-634 | progress is exactly 1 when the bytes received equal the size, an empty file included, and below 1 while fewer have arrived |
| Digester.CompletesExactlyOnce | public/scripts/network.js:628-643 | over non-empty chunks adding up to the size, the callback fires on the last chunk and on no earlier one |
| Digester.FileDigester.constructor | public/scripts/network.js:619-626 | a new digester has an empty buffer, no bytes, no progress, and the announced name, size and MIME type (with the default) |
| Digester.FileDigester.Unchunk | public/scripts/network.js:628-643 | the chunk is appended and its bytes counted, an empty chunk making the count NaN for good; progress is the count over the size, or 1 for a NaN count; the file, made of all buffered bytes in arrival order, is produced exactly when the count is at or past the size or NaN |
| Digester.DigestAll | public/scripts/network.js:628-643 | a fresh digester fed a stream of chunks fires the callback on call i exactly when the bytes of the first i + 1 chunks reach the size or one of them is empty, each time with those chunks in order; non-empty chunks adding up to the size fire it on the last call only |
| Digester.HasEmptyAppend | public/scripts/network.js:630 | the count is NaN after a chunk exactly when it was before or the chunk is empty |
| Digester.EmptyChunkScenario | public/scripts/network.js:628-643 | a five-byte file whose second chunk is empty fires the callback on that call with one byte, and again on the next, with progress 1 |
| Digester.CompletionScenario | public/scripts/network.js:628-643 | a three-byte file in two chunks completes on the second; a further chunk fires the callback again and pushes progress to 4/3 |
| PeerLink.HeaderFor | public/scripts/network.js:208-213 | the header of a file carries its name, MIME type and size |
| PeerLink.ShouldReport | public/scripts/network.js:286 | progress is reported upstream unless it is less than 0.01 above the last report, with JavaScript's arithmetic on infinity |
| PeerLink.Reported | public/scripts/network.js:285-288 | the reports a stream of progress values yields, each remembered as the new last report |
| PeerLink.RatiosWithin | public/scripts/network.js:281-282 | while no more bytes arrive than the announced, non-zero size, every progress value the receiver computes is finite and within [0, 1] |
| PeerLink.AtMostHundredReports | public/scripts/network.js:285-288 | a file whose chunks do not overrun its non-zero size is reported upstream at most 100 times |
| PeerLink.ChunkFrames | public/scripts/network.js:214-216 | each chunk becomes one binary frame, in order |
| PeerLink.HeadersAfterSend | public/scripts/network.js:207-218 | sending a file adds exactly its header to the headers on the wire; chunk and partition frames add none |
| PeerLink.ReportedIsSparse | public/scripts/network.js:285-288 | each progress report sent upstream is at least 0.01 above the previous, so a transfer's progress in [0, 1] yields at most 100 reports |
| PeerLink.SubmitKeepsInvariant | public/scripts/network.js:192-195 | queuing a file behind the others keeps the FIFO, one-in-flight invariant |
| PeerLink.DequeueKeepsInvariant | public/scripts/network.js:200-205 | starting the front file on an idle link keeps the invariant, the link now busy |
| PeerLink.SendKeepsInvariant | public/scripts/network.js:220-235 | frames other than headers leave the announced files as they were |
| PeerLink.CompletionKeepsInvariant | public/scripts/network.js:300-304 | a completion acknowledges the file in flight, if there is one, and idles the link |
| PeerLink.Peer.constructor | public/scripts/network.js:179-186 | a new link has an empty queue, is idle, has no chunker or digester, and has sent and fired nothing |
| PeerLink.Peer.SendJson | public/scripts/network.js:188-190 | one JSON message is handed to the transport |
| PeerLink.Peer.SendFiles | public/scripts/network.js:192-198 | files are queued in order; a busy link sends nothing more; an idle one starts the front file |
| PeerLink.Peer.DequeueFile | public/scripts/network.js:200-205 | an empty queue leaves the link idle and unchanged; otherwise the front file leaves the queue, the link is busy, and its header and first partition are on the wire |
| PeerLink.Peer.SendFile | public/scripts/network.js:207-218 | the header goes out, then a fresh chunker for the file sends the first partition |
| PeerLink.Peer.SendChunks | public/scripts/network.js:214-222 | a partition's chunks go out as binary frames, then its end signal, if any, as a `partition` message |
| PeerLink.Peer.SendNextPartition | public/scripts/network.js:228-231 | without a chunker or at the file end nothing happens; otherwise the next partition is read and sent |
| PeerLink.Peer.SendProgress | public/scripts/network.js:233-235 | a `progress` message is sent |
| PeerLink.Peer.OnFileHeader | public/scripts/network.js:269-276 | a header gives a fresh, empty digester for the announced file and resets the last reported progress to 0 |
| PeerLink.Peer.OnReceivedPartitionEnd | public/scripts/network.js:224-226 | a `partition-received` message echoing the message is sent |
| PeerLink.Peer.OnDownloadProgress | public/scripts/network.js:291-293 | one progress event is fired, carrying the link's peer id as its sender |
| PeerLink.Peer.OnFileReceived | public/scripts/network.js:295-298 | the file is handed over and `file-transfer-complete` is sent back |
| PeerLink.Peer.OnChunkReceived | public/scripts/network.js:278-289 | an empty chunk, or one with no digester, changes nothing; otherwise the digester takes it; a completed file is handed over and acknowledged; progress is fired, and reported upstream and remembered only when it rose by at least 0.01 |
| PeerLink.Peer.OnFileTransferCompleted | public/scripts/network.js:300-306 | progress 1 and the completion notice are fired; the file in flight counts as acknowledged; the link idles and starts the next queued file |
| PeerLink.Peer.SendText | public/scripts/network.js:312-315 | a `text` message carrying the encoded text is sent |
| PeerLink.Peer.OnTextReceived | public/scripts/network.js:317-321 | the text is fired with the link's peer id as its sender, and `message-transfer-complete` is sent back |
| PeerLink.Peer.OnMessage | public/scripts/network.js:237-267 | binary frames are handled as chunks and JSON messages by their type; every handler keeps the queue invariant |
| PeerLink.Peer.OnJson | public/scripts/network.js:244-266 | each message type has its handler's effect on the sending and receiving side, and an unknown type changes nothing |
| PeerLink.QueueScenario | public/scripts/network.js:192-205 | of two files sent together only the first header goes out; the second follows the `file-transfer-complete` |
| PeerLink.ReceiveScenario | public/scripts/network.js:278-298 | a three-byte file in one chunk is handed over, acknowledged, and progress 1 is reported upstream |
| PeerLink.FeedChunks | public/scripts/network.js:278-293 | running `_onChunkReceived` over a stream of chunks fires one progress event per non-empty chunk, with the bytes so far over the size, and sends upstream exactly the reports the 0.01 throttle lets through from the last report |
| PeerLink.ReceiveChunks | public/scripts/network.js:269-293 | a fresh receiver fed a header and then chunks fires the progress values of the non-empty chunks and reports the throttled ones from 0, at most 100 while the chunks do not overrun a non-zero size |
| PeerLink.EmptyFileScenario | public/scripts/network.js:278-279 | an empty file is its header and one empty chunk; the receiver ignores the chunk, nothing is acknowledged, and the sender stays busy |
| Registry.Closing | public/scripts/network.js:540-544 | removing an id closes its connection exactly when it has a WebRTC link |
| Registry.InRoom | public/scripts/network.js:556 | the test of `_onSecretRoomDeleted`: the link's `_roomSecret` is the deleted secret |
| Registry.Reconcile | public/scripts/network.js:503-521 | the `_onPeers` walk: a known id with a matching underscore-less room type is refreshed, a relayed one ending the walk; a known id with any other gets the message's room in those fields; an unknown id gets a new link at the end of the key order |
| Registry.Leave | public/scripts/network.js:539-545 | `_onPeerLeft` on the roster: the entry and its key are removed, and its connection is closed if it has a WebRTC link |
| Registry.LeaveEach | public/scripts/network.js:547-551 | `_clearPeers`: each id of the snapshot of the keys leaves, in order |
| Registry.PurgeStep | public/scripts/network.js:555-558 | one step of the `for..in` walk: the id leaves if its link has the deleted secret |
| Registry.PurgeEach | public/scripts/network.js:553-560 | `_onSecretRoomDeleted`: the step applied to each id, in key order |
| Registry.KindFor | public/scripts/network.js:515-519 | a peer first seen in a roster gets a WebRTC link, as the caller, exactly when both ends support WebRTC, otherwise a relayed link |
| Registry.Rehome | public/scripts/network.js:497-500 | a known link takes the new room only when the room type differs; a changed secret alone is ignored; the transport is kept |
| Registry.Remove | public/scripts/network.js:541 | deleting a key keeps exactly the other keys |
| Registry.RemoveAt | public/scripts/network.js:541 | deleting a key takes it out of its place and keeps the order of the rest |
| Registry.RemoveDistinct | public/scripts/network.js:541 | deleting a key keeps every id unique |
| Registry.RemoveAbsent | public/scripts/network.js:541 | deleting an absent key changes nothing |
| Registry.RemoveIdempotent | public/scripts/network.js:541 | deleting a key twice is deleting it once |
| Registry.KeysMatchAdd | public/scripts/network.js:495-496 | a new id joins the key order at the end |
| Registry.RtcIds | public/scripts/network.js:542-544 | only ids with WebRTC links appear among those whose connection is closed |
| Registry.InsideOutsideMembers | public/scripts/network.js:553-560 | the ids with the deleted secret and those without together split the roster |
| Registry.ReconcileKeys | public/scripts/network.js:503-521 | a roster message appends keys, never drops or duplicates one, and adds only roster ids; a walk that does not stop knows every roster id afterwards |
| Registry.ReconcileLinks | public/scripts/network.js:503-521 | a roster message never changes an existing link's transport or underscored room fields; each new link has the message's room and the transport chosen for its entry |
| Registry.ReconcileRefreshes | public/scripts/network.js:506-509 | only WebRTC links named by the roster are refreshed |
| Registry.FirstDelivery | public/scripts/network.js:515-519 | a roster of new distinct ids creates one link per entry, in order, and refreshes nothing |
| Registry.SecondDelivery | public/scripts/network.js:507-512 | known ids whose underscore-less room type is absent or different only get those fields written; nothing is refreshed or added |
| Registry.ThirdDelivery | public/scripts/network.js:506-509 | known ids with a matching underscore-less room type are all refreshed, in order, exactly when all are WebRTC links; otherwise the walk stops at the first relayed one |
| Registry.IdenticalRosterThrice | public/scripts/network.js:503-521 | of three identical roster deliveries, only the third refreshes: every link when all ends support WebRTC, and it stops with an error otherwise |
| Registry.LeaveIdempotent | public/scripts/network.js:539-545 | a peer leaving a second time changes nothing further and closes no connection again |
| Registry.LeaveUnknown | public/scripts/network.js:539-545 | an unknown id leaving changes nothing |
| Registry.PurgeEachFrom | public/scripts/network.js:553-560 | the walk over the remaining ids removes exactly those with the deleted secret, keeps the order of the rest, and closes the removed WebRTC links in order |
| Registry.PurgeEachResult | public/scripts/network.js:553-560 | the whole walk removes exactly the peers with the deleted secret, leaves the others and their order unchanged, and closes the removed WebRTC links in key order |
| Registry.LeaveEachAll | public/scripts/network.js:547-551 | removing each id in key order empties the roster and closes every WebRTC link in key order |
| Registry.PeersManager.constructor | public/scripts/network.js:476-478 | a new roster is empty |
| Registry.PeersManager.RefreshOrCreatePeer | public/scripts/network.js:494-501 | an unknown id gets a new callee WebRTC link at the end of the key order; a known one is re-homed in place |
| Registry.PeersManager.OnMessage | public/scripts/network.js:489-492 | the sender's link exists afterwards, and the signal reaches it exactly when it is a WebRTC link |
| Registry.PeersManager.OnPeerJoined | public/scripts/network.js:535-537 | a joining peer is handled like a signal from it |
| Registry.PeersManager.OnPeers | public/scripts/network.js:503-521 | the roster loop ends in the state that `Reconcile` defines: links, key order, refreshes, and whether a relayed link stopped it |
| Registry.PeersManager.OnPeerLeft | public/scripts/network.js:539-545 | the entry and its key are deleted, and its connection is closed exactly when it was a WebRTC link |
| Registry.PeersManager.ClearPeers | public/scripts/network.js:547-551 | every peer is removed and every WebRTC connection closed, in key order |
| Registry.PeersManager.OnSecretRoomDeleted | public/scripts/network.js:553-560 | exactly the peers whose `_roomSecret` is the deleted secret are removed, in key order, with their WebRTC connections closed; the others and their order are untouched |
| Registry.IdenticalRosterScenario | public/scripts/network.js:503-521 | one WebRTC-capable peer delivered three times gets a caller link, and only the third delivery refreshes it |
| Signaling.AtMostOneTimer | public/scripts/network.js:149-150 | when every pending timer is the one that `_reconnectTimer` names, at most one timer is pending |
| Signaling.ServerConnection.IsConnected | public/scripts/network.js:159-161 | there is a socket and it is open |
| Signaling.ServerConnection.IsConnecting | public/scripts/network.js:163-165 | there is a socket and it is still connecting |
| Signaling.ServerConnection.constructor | public/scripts/network.js:6-7 | a new connection has one socket, connecting, no timer, and its clock at 0 |
| Signaling.ServerConnection.Connect | public/scripts/network.js:24-34 | the reconnect timer is cancelled; an open or connecting socket is kept, otherwise exactly one new socket is created |
| Signaling.ServerConnection.ClearTimeout | public/scripts/network.js:25 | a pending timer stops being pending; anything else is ignored |
| Signaling.ServerConnection.SetTimeout | public/scripts/network.js:150 | a fresh timer id is pending, due the given delay after now |
| Signaling.ServerConnection.Send | public/scripts/network.js:106-109 | a message is written only when the socket is open, and dropped otherwise |
| Signaling.ServerConnection.OnOpen | public/scripts/network.js:36-39 | the connection is announced |
| Signaling.ServerConnection.OnMessage | public/scripts/network.js:61-104 | a ping is answered by one pong when the socket is open; the relayed types are published; the rate-limit message becomes a user notice; other types change nothing |
| Signaling.ServerConnection.Disconnect | public/scripts/network.js:138-144 | with a socket: the server is told if it is open, the socket is forgotten, and the disconnection published; without one, it fails and nothing changes |
| Signaling.ServerConnection.OnDisconnect | public/scripts/network.js:146-152 | the user is told, any pending timer is replaced by exactly one new one, due 5000 ms after now, and the disconnection is published |
| Signaling.ServerConnection.SocketOpened | public/scripts/network.js:29 | the connecting socket opens and the connection is announced |
| Signaling.ServerConnection.SocketClosed | public/scripts/network.js:31 | a close runs the close handler, leaving one pending timer |
| Signaling.ServerConnection.Advance | public/scripts/network.js:150 | the clock the timers are due against moves forward by the given milliseconds |
| Signaling.ServerConnection.TimerFired | public/scripts/network.js:150 | a timer fires only once it is due; it connects and leaves no timer pending |
| Signaling.ServerConnection.OnVisibilityChange | public/scripts/network.js:154-157 | becoming visible connects; staying hidden changes nothing |
| Signaling.ServerConnection.Reconnect | public/scripts/network.js:171-174 | with a socket, disconnects and creates exactly one new socket; without one, the disconnect fails and no socket is created |
| Signaling.LostTwiceScenario | public/scripts/network.js:146-157 | two unexpected closes, with a visit to the foreground between them, leave exactly one pending timer, the second, due 5000 ms after the second close; firing it then creates a new socket |
| Signaling.ConnectIdempotentScenario | public/scripts/network.js:24-34 | connecting while connecting or open creates no second socket, and a ping is answered only once the socket is open |
| Signaling.ReconnectAfterDisconnectScenario | public/scripts/network.js:138-174 | a reconnect after a disconnect creates no socket; only a visit to the foreground connects again |

## Left out

- WebRTC negotiation in `RTCPeer` (offers, answers, ICE candidates, data channels, connection states) is left out: it is browser machinery. A WebRTC link is a `Link` whose transport is `Rtc`, and closing its connection is recorded in `closed`. Registry.Closing therefore closes every WebRTC link it removes. `_onPeerLeft` closes only a link that has a `_conn`, and a callee link loses it on a `failed` connection state without reopening it; the model does not capture that case.
- The transport's `_send` variants are left out, and `PeerLink` models a link whose `_send` returns normally: a WebRTC link. `outbox` records what `_send` is handed. A WebRTC link with no open channel refreshes instead of sending. A relayed link (`WSPeer`) does not work for JSON messages: `sendJSON` hands `_send` a string, and `WSPeer._send` assigns the routing fields to it, which throws in the strict-mode class body before the server sees anything. So on a relayed link `_sendFile` throws at the header after `_dequeueFile` has set the busy flag and shifted the file: no chunker is created and the link stays busy. A binary chunk does take the routing fields, but the server's `send` serialises it with `JSON.stringify`, which keeps only those fields and drops the bytes.
- The roster keeps `Link` records rather than `Peer` objects, so a roster link has no queue of its own. The `_onFilesSelected` and `_onSendText` lookups are left out: each is a single lookup followed by a `Peer` call modelled in `PeerLink`. `sendTo` is left out: it calls `send` on the peer, a method that no peer class defines, so it always throws.
- JSON parsing and serialisation are left out. So are the base64 and URI escaping of texts in `sendText` and `_onTextReceived`, which relies on browser codecs. Messages are the `Msg` datatype, and texts stay in their wire encoding.
- FileReader's asynchronous load is modelled as a synchronous read of the slice.
- Chunks are byte sequences. Both sockets set `binaryType = 'arraybuffer'`, so a chunk is an `ArrayBuffer`, and `chunk.byteLength || chunk.size` is its length when it is non-empty. For an empty one it is `undefined`, which `unchunk` models as a NaN count (`countIsNaN`). `_onChunkReceived` never passes an empty chunk, so only `Digester` reaches that case.
- Floating point is left out: progress ratios are exact reals, plus an infinity for `n / 0`.
- The events bus and its listener registration are left out: fired events are appended to a log (`events`, `published`). The console logging is left out.
- Browser and environment inputs are parameters: `window.isRtcSupported` (`localRtc`), `document.hidden`, and the socket's open and close events.
- The endpoint URL, the session and persistent storage of the peer id (`_endpoint`, `_peerId`, `_onDisplayName`), and pairing (`_onPairDeviceInitiate`, `_onPairDeviceJoin`) are left out: they are storage and URL building outside the connection policy. Room secret messages are left out because they are single `send` calls. `_onError` is left out because it only logs.
- `Signaling.ServerConnection.OnMessage` takes the message type only, not its payload.
- Close events of a socket that is no longer current are left out. The model has one socket, and `_disconnect` detaches the old socket's close handler.
- `this._reader = null` in `_onFileTransferCompleted` is left out: it assigns a field nothing reads.
- JavaScript orders integer-like object keys numerically, ahead of the others. The key order here is insertion order. The model assumes that no peer id is integer-like, which makes the two orders agree.
- The roster object `{}` inherits the properties of `Object.prototype`, so `!this.peers[id]` and `if (this.peers[peer.id])` treat ids such as `constructor` or `toString` as present. The model's `id in peers` does not. The model assumes that no peer id names an `Object.prototype` property.
- PeerLink.Peer.OnFileTransferCompleted fires its two events before dequeuing, while `_onFileTransferCompleted` fires the notice after. Dequeuing fires no event, so the event log is the same.
- PeerLink.Peer.SendText takes the text already encoded, because the encoding is left out.
- The clock is advanced by explicit steps (`Advance`), and a due timer fires at some step at or after its due time. How late a browser runs it is left out.
