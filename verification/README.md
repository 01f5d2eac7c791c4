# hfs chunk server, modelled in Dafny

hfs is a small distributed file store. A client uploads a local file to a chunk server
over a stream, reading it through a 64 MiB buffer and sending each read as one message.
The server pads each message with zeros to a full 64 MiB chunk, writes it as a local
file, and records chunk and file metadata in a shared etcd store under `/hfs/chunks/<id>` and `/hfs/files/<id>`. Each server registers its address
under `/hfs/workers/<name>` and watches the chunk namespace. When the watch shows a
chunk that exists only on this node, the server replicates it to randomly chosen peers.

This project models the node-local core:

- the request handlers `CreateFile`, `ReadFile`, `RemoveFile` and `CreateChunk`;
- the watcher's decision, `SyncChunk` and one keep-alive round;
- the local file helpers and the metadata helpers;
- the random peer selection;
- the client's `Upload`, `Download` and `Delete`.

Each handler is a pure transition over `Stores(meta, disk)`. `meta` is the etcd store as
a sequence of key-value entries, so "more than one entry" stays representable. `disk`
is a map from path to bytes.

Calls that can fail are outcome parameters: etcd gets and puts, creating, opening,
writing and removing files, receiving on a stream, dialling, and resolving or uploading
to a peer. The few fallible calls without one are listed under "Left out". Freshly
drawn UUIDs, the clock readings and the shuffle's random numbers are parameters too.

Modules:

- `Config`/`Keys`: the default configuration and the key namespaces.
- `Types`: the protocol messages and error kinds.
- `Paths`: `strings.Split`/`Join` on `/`.
- `Files`: `files.Create`, `Remove` and `Append`.
- `Etcd`: the store's get, prefix get, put and delete, and the JSON codec as constructors.
- `Utils`: the three metadata getters.
- `Selection`: `selection.Random`.
- `ChunkServer`: the handlers.
- `Replication`: the watcher, `SyncChunk` and `KeepAlive`.
- `HfsClient`: the client.
- `EndToEnd`: properties that span several of these.

Identity mismatches in the source that the model keeps visible:

- Chunk replica lists hold node *names*, yet `RemoveFile` dials them as addresses.
- The worker list holds *addresses*, yet `selection.Random` compares them with the node's
  *name*.
- `RemoveFile` sends each replica a *file* remove request carrying the *chunk* id. On the
  shared store that request finds no file record, so chunk files are never deleted.
- Files are created with a replica count of 1, so `Random` selects nobody. Replication
  therefore never runs for files the server creates.

## Model

| member | source | states |
|---|---|---|
| Keys.ChunkPathInjective | pkg/chunkserver/chunkserver.go:73 | distinct chunk ids give distinct chunk paths and keys, and equal paths mean equal ids |
| Keys.FileKeyInjective | pkg/chunkserver/chunkserver.go:102 | distinct file ids give distinct file keys, and conversely |
| Keys.NamespacesDisjoint | pkg/config/config.go:19-21 | no file key or worker key equals a chunk key, and no worker key equals a file key |
| Paths.Split | pkg/files/files.go:20 | the parts contain no separator, there is one part exactly when the path has no `/`, and joining the parts gives back the path |
| Paths.SplitSnoc | pkg/hfsclient/hfsclient.go:26-27 | splitting `d/b` with a separator-free `b` gives the parts of `d` followed by `b` |
| Paths.PathDecomposition | pkg/files/files.go:20-22 | a path without `/` has an empty directory and is its own base name; otherwise the path is its directory, `/`, then its separator-free base name |
| Paths.PathDecompositionUnique | pkg/files/files.go:20-22 | any split of a path as `d/b` with separator-free `b` is the directory/base-name split |
| Paths.DirPathExample | pkg/files/files_test.go:11-14 | `./test/hello/world` has directory `./test/hello` and base name `world` |
| Files.Create | pkg/files/files.go:19-27 | success exactly when creation succeeds, leaving the path empty (create or truncate); on failure nothing changes; no other path changes; the directory made is the path's directory |
| Files.Remove | pkg/files/files.go:30-33 | a missing path is a not-exist error; an existing path is removed unless the removal fails; any failure changes nothing; no other path changes |
| Files.AppendSpec | pkg/files/files.go:36-61 | a failed open changes nothing; success exactly when the append completes, leaving the old content followed by the data; a failed write leaves the old content plus a strict prefix of the data; no other path changes |
| Files.AppendFailedWrite | pkg/files/files.go:48-57 | a failed append leaves the whole blocks before the failing write, then the part of its block that write managed, always short of the whole block |
| Files.CopyBlocks | pkg/files/files.go:45-58 | the blocks handed to the writes are at most 1024 bytes, all full but the last, and concatenate to a prefix of the data; the loop fails exactly when the failing write index lies inside the data, after that write got its block and put only part of it on the file; otherwise everything is copied |
| Files.Append | pkg/files/files.go:36-61 | the buffered loop leaves the disk and error that `AppendSpec` describes; its writes concatenate to a prefix of the data, and to all of it on success |
| Files.AppendTwice | pkg/files/files_test.go:50-75 | appending to a missing file creates it with the data, and a second append concatenates |
| Etcd.CodecRoundTrip | pkg/utils/utils.go:13-20 | decoding an encoded chunk or file record gives it back, and a record of one kind does not decode as the other |
| Etcd.Range | pkg/chunkserver/chunkserver.go:117-128 | a get returns exactly the store's entries under the key |
| Etcd.RangePrefix | pkg/utils/utils.go:44 | a prefix get returns exactly the entries whose key has the prefix |
| Etcd.RangePut | pkg/chunkserver/chunkserver.go:87 | after a put, a get of that key returns only the new entry, and gets of other keys are unchanged |
| Etcd.RangeDelete | pkg/chunkserver/chunkserver.go:155 | after a delete, a get of that key returns nothing, and gets of other keys are unchanged |
| Etcd.RangePrefixPutOutside | pkg/utils/utils.go:44 | a put outside a prefix does not change the prefix get |
| Etcd.RangePrefixPutInside | pkg/chunkserver/chunkserver.go:240 | after a put inside a prefix, the prefix get holds the new entry once, in place of the key's earlier entries, with every other entry as before |
| Etcd.UniqueRange | pkg/chunkserver/chunkserver.go:123-128 | in a store with one entry per key, a get returns at most one entry |
| Etcd.UniquePut | pkg/chunkserver/chunkserver.go:87 | a put keeps the store at one entry per key |
| Etcd.UniqueDelete | pkg/chunkserver/chunkserver.go:155 | a delete keeps the store at one entry per key |
| Utils.GetChunkMeta | pkg/utils/utils.go:22-41 | a failed get is an error; zero or several entries give a nil record with a nil error; a single decodable entry gives its record; a single undecodable entry gives a decode error |
| Utils.GetFileMeta | pkg/utils/utils.go:58-77 | the same outcomes under the file key |
| Utils.GetWorkersMeta | pkg/utils/utils.go:43-56 | a failed get is an error; otherwise one element per worker entry, in the order the prefix get lists them, holding the entry's value (the address) |
| Utils.GetChunkAfterPut | pkg/utils/utils.go:22-41 | a chunk record just put is read back as written |
| Utils.GetFileAfterPut | pkg/utils/utils.go:58-77 | a file record just put is read back as written |
| Utils.MissingRecordIsNilWithoutError | pkg/utils/utils.go:29-32 | a record that is absent is reported as nil with no error |
| Selection.ShuffleInPlace | pkg/selection/selection.go:27-29 | the in-place Fisher-Yates loop over an array computes the functional shuffle |
| Selection.ExcludeInPlace | pkg/selection/selection.go:17-24 | the in-place search-and-swap moves the first occurrence of the node to the last slot and drops it, or keeps everything when the node is absent |
| Selection.RandomInPlace | pkg/selection/selection.go:12-37 | the array algorithm returns the functional model's result and leaves the caller's backing array permuted exactly as the model says |
| Selection.RandomDegenerate | pkg/selection/selection.go:13-15 | a requested count of at most 1 selects nobody and leaves the input alone |
| Selection.RandomPermutes | pkg/selection/selection.go:17-36 | the backing array after the call is a permutation of the input, and the result is its prefix |
| Selection.RandomWithSelf | pkg/selection/selection.go:17-36 | when the node is listed, the result has min(count, n-1) elements, the node sits in the last slot, and the other slots hold the remaining elements |
| Selection.RandomWithoutSelf | pkg/selection/selection.go:31-36 | when the node is not listed, the result has min(count, n) elements |
| Selection.RandomSubMultiset | pkg/selection/selection.go:12-37 | the result holds only input elements, each at most as often as in the input |
| Selection.RandomExcludesSelf | pkg/selection/selection.go:18-24 | a node listed at most once is never selected |
| Selection.RandomKeepsDuplicateSelf | pkg/selection/selection.go:18-24 | a node listed twice loses only its first copy, so it is selected when the count covers everyone else |
| Selection.RandomTestExample | pkg/selection/selection_test.go:41-49 | four addresses including the node's own, with count 5, select three that exclude the node |
| HfsClient.Segment | pkg/hfsclient/hfsclient.go:25-37 | the reads are non-empty blocks of at most one chunk that concatenate to the file, all but the last full, and there are none for an empty file |
| HfsClient.Upload | pkg/hfsclient/hfsclient.go:15-46 | a missing local file is an open error; on success the messages carry the file's bytes in order, each at most one chunk, all named by the path's base name |
| HfsClient.ReceiveAll | pkg/hfsclient/hfsclient.go:62-78 | a stream without errors appends every payload and reports the last message's name; a receive error is a transport error |
| HfsClient.ReceiveAllContent | pkg/hfsclient/hfsclient.go:62-78 | exactly the payloads received before the first receive error are appended, in order |
| HfsClient.Download | pkg/hfsclient/hfsclient.go:48-83 | a failed stream or open leaves the local disk alone; otherwise the file named by the id is truncated and filled with the payloads received before the first receive error; a receive error is returned, and otherwise the last name ("" for none); other files are unchanged |
| HfsClient.DeleteRequest | pkg/hfsclient/hfsclient.go:85-92 | the remove request carries only the id |
| ChunkServer.Pad | pkg/chunkserver/chunkserver.go:74-75 | a stored chunk is exactly one chunk long, starting with the payload and zero-filled after it |
| ChunkServer.Ingest | pkg/chunkserver/chunkserver.go:53-93 | the receive loop succeeds exactly when no item fails, and otherwise returns the first failing item's error |
| ChunkServer.IngestRecord | pkg/chunkserver/chunkserver.go:61-92 | a completed loop has every message received, takes the last message's name, adds the payload sizes and appends one record per message |
| ChunkServer.IngestMetaFrame | pkg/chunkserver/chunkserver.go:73-91 | the loop writes metadata only under its chunk keys |
| ChunkServer.IngestDiskFrame | pkg/chunkserver/chunkserver.go:73-79 | the loop writes local files only at its chunk paths |
| ChunkServer.IngestDisk | pkg/chunkserver/chunkserver.go:73-79 | with distinct, unused chunk ids and no failure, each chunk file holds exactly its message's padded payload |
| ChunkServer.IngestMeta | pkg/chunkserver/chunkserver.go:65-91 | with distinct chunk ids and no failure, each message's chunk key holds exactly its chunk record |
| ChunkServer.IngestAppend | pkg/chunkserver/chunkserver.go:53-93 | the loop over a clean run of items followed by more items carries on from the state and file record the clean run left |
| ChunkServer.CreateFile | pkg/chunkserver/chunkserver.go:40-111 | success exactly when no step and no file-record put fails; the record carries the id, the last name, the total size, replica count 1, the two clock readings and one chunk per message, each with the node as its only replica; on success the file key holds exactly that record; on failure the file key is as before |
| ChunkServer.CreateFileDisk | pkg/chunkserver/chunkserver.go:73-79 | after a clean create with fresh ids, every chunk file holds its padded payload |
| ChunkServer.CreateFileMetaFrame | pkg/chunkserver/chunkserver.go:87-103 | a create writes metadata only under its chunk keys and its file key |
| ChunkServer.CreatedSizeIsSumOfUsed | pkg/chunkserver/chunkserver.go:62-96 | a created file's size equals the sum of its chunks' used bytes |
| ChunkServer.FirstErrorNone | pkg/chunkserver/chunkserver.go:53-93 | the loop has no first error exactly when every item is handled without error |
| ChunkServer.LookupFile | pkg/chunkserver/chunkserver.go:187-203 | a failed get, no record, several records and an undecodable record each give their own error; success exactly when one decodable record is stored, which is then the only entry under the key |
| ChunkServer.ReadBlocks | pkg/chunkserver/chunkserver.go:215-223 | a `used` outside the buffer panics exactly when there is something to read; otherwise every block sent is `used` bytes long, there are none for an empty file and at most one for a file of at most one chunk, and the first is the file's first `used` bytes when it holds that many |
| ChunkServer.ReadPadded | pkg/chunkserver/chunkserver.go:215-223 | a padded chunk is read back as exactly its payload, whatever the buffer held before |
| ChunkServer.ReadChunks | pkg/chunkserver/chunkserver.go:206-224 | when every chunk file exists and fits, there is no error; an open error means some chunk file is missing; every message is sent under the file's name; when every chunk file is one chunk long, each chunk sends exactly its first `used` bytes, once, in the record's order |
| ChunkServer.ReadStopsAtMissing | pkg/chunkserver/chunkserver.go:206-213 | a missing chunk file ends the read with an open error after the chunks before it were sent in full |
| ChunkServer.ReadFile | pkg/chunkserver/chunkserver.go:183-228 | a failed lookup sends nothing and returns the lookup's error; otherwise readable chunks give no error, every message carries the file name, and chunk files of one chunk each send their first `used` bytes in the record's order |
| ChunkServer.ReadRecords | pkg/chunkserver/chunkserver.go:204-224 | reading the records of a clean stream from their padded files sends each payload once, in order |
| ChunkServer.OverlayDeleteRequest | pkg/chunkserver/chunkserver.go:130 | decoding a stored record over a remove request with the same id gives the stored record |
| ChunkServer.ReplicaCalls | pkg/chunkserver/chunkserver.go:135-153 | one remote remove per replica entry, as many as the entries, dialling the entry itself and carrying the chunk's id as a file id; the first chunk's calls come first, in its entries' order |
| ChunkServer.ReplicaCallsAppend | pkg/chunkserver/chunkserver.go:135-137 | the calls for two runs of chunks are the first run's calls followed by the second's |
| ChunkServer.Dialled | pkg/chunkserver/chunkserver.go:139-142 | the calls made are those before the first address that cannot be dialled, which ends the process |
| ChunkServer.RemoveFile | pkg/chunkserver/chunkserver.go:113-161 | a failed lookup returns its error, changes nothing and dials nothing; otherwise the replica calls are made up to the first address that cannot be dialled; if there is one the process ends with nothing deleted, and otherwise the result is success and the file key is deleted when the delete succeeds; the local disk is untouched |
| ChunkServer.RemoveFileDeletesRecord | pkg/chunkserver/chunkserver.go:155 | in a store where file records sit under their own id, a successful remove leaves no record of the file |
| ChunkServer.CreateChunk | pkg/chunkserver/chunkserver.go:163-181 | metadata is untouched; success exactly when creation succeeds and the append completes, leaving the chunk file equal to the message's bytes and answering with the chunk id; every failure is a write error; a failed create changes nothing; other paths are unchanged |
| Replication.WatchDecision | pkg/chunkserver/chunkserver.go:326-350 | a sync starts exactly for a put of a decodable chunk record whose replica list is exactly this node, and it syncs that chunk |
| Replication.Watch | pkg/chunkserver/chunkserver.go:325-352 | the syncs started over a sequence of events are exactly the chunks the decision picks; a single event starts its decision's sync or none |
| Replication.WatchAppend | pkg/chunkserver/chunkserver.go:325-326 | the syncs for two batches of events are the first batch's followed by the second's, so there is one per qualifying event, in order |
| Replication.CreatedChunkStartsSync | pkg/chunkserver/chunkserver.go:65-71 | each chunk record `CreateFile` writes makes its creator, and no other node, start a sync |
| Replication.PushAll | pkg/chunkserver/chunkserver.go:279-300 | the loop aborts exactly when a resolved address cannot be dialled; otherwise the nodes that took the chunk are, in order, the selected nodes that both resolve and accept it |
| Replication.SyncChunk | pkg/chunkserver/chunkserver.go:250-320 | a failed read ends the sync with its error, a missing chunk record crashes at once and a missing file record only after the worker list is read; an empty selection, a failed dial (a crash) and no accepting node write nothing; otherwise the record gets the selected nodes that resolve and accept, in selection order, appended to its replicas and is put back under its key, or the process crashes if the put fails |
| Replication.MissingFileCrashesAfterWorkers | pkg/chunkserver/chunkserver.go:258-272 | with no file record, a failing worker read ends the sync with that error, and otherwise the nil record is dereferenced |
| Replication.SingleReplicaNeverSyncs | pkg/chunkserver/chunkserver.go:45 | for a file with replica count at most 1, a sync whose reads succeed selects nobody and writes nothing |
| Replication.SyncedRecordStartsNoSync | pkg/chunkserver/chunkserver.go:336-338 | the record a sync writes has several replicas, so its put starts no further sync on any node |
| Replication.SyncedRecordReadsBack | pkg/chunkserver/chunkserver.go:309-317 | after a sync, the chunk's metadata reads back with the extended replica list |
| Replication.SyncKeepsOtherKeys | pkg/chunkserver/chunkserver.go:314 | a sync writes only its own chunk key |
| Replication.MissingChunkCrashes | pkg/chunkserver/chunkserver.go:252-259 | a sync for a chunk with no record, and no read error, dereferences nil |
| Replication.KeepAliveStep | pkg/chunkserver/chunkserver.go:233-247 | a failed grant or put changes nothing; otherwise the node's worker key holds exactly its address and no other key changes |
| Replication.RegisteredAddressListed | pkg/utils/utils.go:50-53 | after registering, the worker list holds the node's address, in place of its name's earlier registration |
| Replication.SelfNotExcludedByName | pkg/chunkserver/chunkserver.go:272 | a node whose name differs from its address, and that is the only worker, selects itself |
| EndToEnd.CreateThenRead | pkg/chunkserver/chunkserver.go:40-228 | reading a file just created from a clean stream with fresh ids sends every payload, in order, under the last message's name, without error |
| EndToEnd.DownloadAfterCreate | pkg/hfsclient/hfsclient.go:48-83 | downloading such a file writes the concatenated payloads and reports the last name |
| EndToEnd.UploadDownloadRoundTrip | pkg/hfsclient/hfsclient.go:15-83 | upload, create, read and download reproduce the local file's bytes, and the client learns the base name ("" for an empty file) |
| EndToEnd.OrphanedChunkAfterBrokenStream | pkg/chunkserver/chunkserver.go:53-93 | when a stream breaks after any number of stored messages, the create fails with the breaking item's error, yet every earlier message's padded chunk file and its chunk record stay, while the file key is left as it was: nothing is rolled back |
| EndToEnd.RemoveDialsCreatorName | pkg/chunkserver/chunkserver.go:135-147 | removing a created file dials the creator's name once per chunk, in order, asking it to remove a file whose id is the chunk id; if that name cannot be dialled, the first dial ends the process and nothing is removed |
| EndToEnd.SyncKeepsRemoveCalls | pkg/chunkserver/chunkserver.go:307-317 | a sync does not change what a later remove dials |
| EndToEnd.RemoteRemoveOfChunkFails | pkg/chunkserver/chunkserver.go:123-124 | a remove request carrying a chunk id with no file record fails with "not exist" and changes nothing |
| EndToEnd.ReadAfterRemove | pkg/chunkserver/chunkserver.go:155 | after a created file is removed, with its creator's name dialable, reading it reports that it does not exist, while its chunk files remain on disk |

## Left out

- The gRPC transport, `StartChunkServer` and the command-line mains: a handler's stream is
  a sequence of received items, and what it sends is a returned sequence.
- Leases, their TTL, the watch channel and `KeepAlive`'s timing: one keep-alive round is
  a function of its two outcomes.
- Concurrency. Handlers and syncs run one at a time, so races between a sync and a
  concurrent remove are not modelled.
- Logging, and the configuration's environment overrides: the defaults are used.
- JSON encoding internals: records encode to tagged values, and an undecodable value is
  any value of the wrong kind.
- UUID generation and the clock: chunk ids, the file id and the two clock readings of `CreateFile` are parameters.
- The uniformity of `rand.Shuffle`: the shuffle is Fisher-Yates driven by a sequence of
  draws, and a missing draw reads as 0.
- A process abort (a fatal log, a nil dereference, a negative `make`, an out-of-range
  slice) is a `Panic` or `Fatal` error or a `Crashed` sync outcome, except in the two
  client cases below.
- HfsClient.Upload: a failing send ends the client process with a fatal log; the model's
  sends always succeed. The server then sees a broken stream, which `CreateFile` covers.
- HfsClient.Download: a failing write to the local file ends the client process with a
  fatal log; the model's local writes always succeed.
- Directories are not modelled. `CreateFile` appends to `/hfs/chunks/<id>` without
  making the directory, as `files.Create` would; a missing directory makes the open
  fail, which the `OpenFails` write outcome covers.
- Etcd.RangePrefix: entries come back in the order they were written, while etcd sorts
  a prefix read by key. Contracts about prefix reads state membership and counts only,
  but the worker list handed to `selection.Random` is in write order.
- `utils.GetWorkerAddr` and `hfsclient.UploadChunk` are not part of this model. `SyncEnv`'s
  `resolves` and `accepts` sets stand for their outcomes, and `dials` stands for `grpc.Dial`.
- The remote removals `RemoveFile` requests are returned as calls, not applied.
  `EndToEnd.RemoteRemoveOfChunkFails` states what each one does on the shared store.
- ChunkServer.ReadChunks: a read error other than end-of-file is not modelled. The local
  disk always reads back its content.
- ChunkServer.ReadBlocks: the number of blocks is stated only for files of at most one
  chunk, and the content only of the first block. After a short read, a later block
  holds the new bytes followed by stale bytes of the buffer; only the definition states
  that. Every chunk file `CreateFile` writes is exactly one chunk long, but a replica that
  `CreateChunk` stores is as long as the data the pushing node sent, so reading a file
  from such a replica sends what only the definition states.
- HfsClient.Upload: reads of the local file return whole buffers until the end. Short
  reads are not modelled.
- HfsClient.Upload: the reply that closes the stream is not part of its result; that reply
  is `CreateFile`'s outcome, which `EndToEnd.UploadDownloadRoundTrip` states.
- `config.ReplicaNum` (3) is not used by the core; `CreateFile` writes the literal 1.
- Integer widths: sizes and counts are unbounded integers. The 64 MiB chunks and
  replica counts stay far from the `int32`/`int64` limits.
