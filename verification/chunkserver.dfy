/**
 * The request handlers of a chunk server, as transitions over the two stores a node
 * works on: the shared metadata store and the node's local disk. Every call into
 * the store, the disk or the network that may fail is an outcome parameter.
 */
module ChunkServer {
  import opened Wrappers
  import opened Seqs
  import opened Types
  import opened Config
  import opened Keys
  import opened Etcd
  import Files
  import HfsClient

  /** The metadata store and the local disk of one node. */
  datatype Stores = Stores(meta: Store, disk: Files.Disk)

  /** The stores after a handler, and what the handler returned. */
  datatype Outcome<T> = Outcome(stores: Stores, result: Result<T, Error>)

  /** How the environment answers one message's steps: the chunk write, then the chunk record's put. */
  datatype StepFault = StepFault(write: Files.WriteFault, metaOk: bool)

  /** One receive on the ingest stream, with the id drawn for the chunk it becomes. */
  datatype Incoming =
    | Received(chunk: FileChunkData, chunkId: string, fault: StepFault)
    | RecvFailed

  function Zeros(n: nat): (z: seq<byte>)
    ensures |z| == n
    ensures forall i :: 0 <= i < n ==> z[i] == 0
  {
    seq(n, _ => 0)
  }

  /** A chunk's bytes as stored: the payload, then zeros up to `ChunkSize`. */
  function Pad(data: seq<byte>): (r: seq<byte>)
    requires |data| <= ChunkSize
    ensures |r| == ChunkSize
    ensures r[..|data|] == data
    ensures forall i :: |data| <= i < ChunkSize ==> r[i] == 0
  {
    data + Zeros(ChunkSize - |data|)
  }

  /** The two clock readings `CreateFile` takes: the creation time, then the update time. */
  datatype Clock = Clock(created: int, updated: int)

  /** The record of the chunk a message becomes on node `self`. */
  function NewChunk(self: string, fileId: string, m: FileChunkData, id: string): (c: Chunk)
  {
    Chunk(id, ChunkSize, |m.data|, [self], fileId)
  }

  /*
   * Ingest: CreateFile's receive loop.
   */

  /** What goes wrong when one stream item is handled, if anything. */
  function StepError(item: Incoming): (err: Option<Error>)
  {
    match item
    case RecvFailed => Some(ErrFailedWrite)
    case Received(m, _, f) =>
      if |m.data| > ChunkSize then Some(Panic)   // the zero padding has negative length
      else if !Files.Completes(f.write, ChunkSize) then Some(ErrFailedWrite)
      else if !f.metaOk then Some(ErrFailedWriteMeta)
      else None
  }

  /** The error of the first item that fails, which ends the loop. */
  function FirstError(stream: seq<Incoming>): (err: Option<Error>)
  {
    if |stream| == 0 then None
    else if StepError(stream[0]).Some? then StepError(stream[0])
    else FirstError(stream[1..])
  }

  /** A stream every item of which is handled without error. */
  predicate Clean(stream: seq<Incoming>)
  {
    forall i :: 0 <= i < |stream| ==> StepError(stream[i]).None?
  }

  predicate AllReceived(stream: seq<Incoming>)
  {
    forall i :: 0 <= i < |stream| ==> stream[i].Received?
  }

  lemma CleanIsReceived(stream: seq<Incoming>)
    requires Clean(stream)
    ensures AllReceived(stream)
  {
    forall i | 0 <= i < |stream| ensures stream[i].Received? {
      assert StepError(stream[i]).None?;
    }
  }

  /** The messages of a stream whose receives all succeeded. */
  function Messages(stream: seq<Incoming>): (ms: seq<FileChunkData>)
    requires AllReceived(stream)
    ensures |ms| == |stream|
    ensures forall i :: 0 <= i < |ms| ==> ms[i] == stream[i].chunk
  {
    seq(|stream|, i requires 0 <= i < |stream| => stream[i].chunk)
  }

  /** The chunk records the messages of a stream become, in order. */
  function Records(self: string, fileId: string, stream: seq<Incoming>): (cs: seq<Chunk>)
    requires AllReceived(stream)
    ensures |cs| == |stream|
    ensures forall i :: 0 <= i < |cs| ==> cs[i] == NewChunk(self, fileId, stream[i].chunk, stream[i].chunkId)
  {
    seq(|stream|, i requires 0 <= i < |stream| => NewChunk(self, fileId, stream[i].chunk, stream[i].chunkId))
  }

  /** The name the file record ends up with: the last message's, or `dflt` for none. */
  function LastName(stream: seq<Incoming>, dflt: string): (name: string)
    requires AllReceived(stream)
  {
    if |stream| == 0 then dflt else stream[|stream| - 1].chunk.msg
  }

  /** The metadata keys a stream's chunks are written under. */
  function ChunkKeys(stream: seq<Incoming>): (keys: set<string>)
  {
    if |stream| == 0 then {}
    else (if stream[0].Received? then {ChunkPath(stream[0].chunkId)} else {}) + ChunkKeys(stream[1..])
  }

  /**
   * One turn of `CreateFile`'s loop: pad the message to a full chunk, append it to the
   * chunk's file, put the chunk record, and extend the file record `acc`.
   */
  function Step(st: Stores, self: string, fileId: string, item: Incoming, acc: File): (r: Outcome<File>)
    ensures r.result.Success? <==> StepError(item).None?
    ensures r.result.Failure? ==> r.result.error == StepError(item).value
  {
    match item
    case RecvFailed => Outcome(st, Failure(ErrFailedWrite))
    case Received(m, id, fault) =>
      if |m.data| > ChunkSize then Outcome(st, Failure(Panic))
      else
        var c := NewChunk(self, fileId, m, id);
        var w := Files.AppendSpec(st.disk, ChunkPath(id), Pad(m.data), fault.write);
        if w.err.Some? then Outcome(Stores(st.meta, w.disk), Failure(ErrFailedWrite))
        else if !fault.metaOk then Outcome(Stores(st.meta, w.disk), Failure(ErrFailedWriteMeta))
        else
          Outcome(Stores(Put(st.meta, ChunkPath(id), EncodeChunk(c)), w.disk),
                  Success(acc.(fileName := m.msg, size := acc.size + |m.data|, chunks := acc.chunks + [c])))
  }

  /** The loop of `CreateFile`: the first failing step ends it; what earlier steps wrote stays. */
  function Ingest(st: Stores, self: string, fileId: string, stream: seq<Incoming>, acc: File): (r: Outcome<File>)
    ensures r.result.Success? <==> FirstError(stream).None?
    ensures r.result.Failure? ==> r.result.error == FirstError(stream).value
    decreases |stream|
  {
    if |stream| == 0 then Outcome(st, Success(acc))
    else
      var s := Step(st, self, fileId, stream[0], acc);
      if s.result.Failure? then s
      else Ingest(s.stores, self, fileId, stream[1..], s.result.value)
  }

  /** A step without error has consumed one message into the file record. */
  lemma StepRecord(st: Stores, self: string, fileId: string, item: Incoming, acc: File)
    requires Step(st, self, fileId, item, acc).result.Success?
    ensures item.Received?
    ensures Step(st, self, fileId, item, acc).result.value ==
              acc.(fileName := item.chunk.msg, size := acc.size + |item.chunk.data|,
                   chunks := acc.chunks + [NewChunk(self, fileId, item.chunk, item.chunkId)])
  {
  }

  lemma MessagesCons(stream: seq<Incoming>)
    requires |stream| > 0 && AllReceived(stream)
    ensures AllReceived(stream[1..])
    ensures |Payload(Messages(stream))| == |stream[0].chunk.data| + |Payload(Messages(stream[1..]))|
  {
    assert Datas(Messages(stream)) == [stream[0].chunk.data] + Datas(Messages(stream[1..]));
  }

  lemma RecordsCons(self: string, fileId: string, stream: seq<Incoming>)
    requires |stream| > 0 && AllReceived(stream)
    ensures AllReceived(stream[1..])
    ensures Records(self, fileId, stream) ==
              [NewChunk(self, fileId, stream[0].chunk, stream[0].chunkId)] + Records(self, fileId, stream[1..])
  {
  }

  lemma ReceivedCons(stream: seq<Incoming>)
    requires |stream| > 0 && stream[0].Received? && AllReceived(stream[1..])
    ensures AllReceived(stream)
  {
    forall i | 0 <= i < |stream| ensures stream[i].Received? {
      if i > 0 { assert stream[i] == stream[1..][i - 1]; }
    }
  }

  /** A loop that completes has completed its first step and carries on from it. */
  lemma IngestCons(st: Stores, self: string, fileId: string, stream: seq<Incoming>, acc: File)
    requires |stream| > 0 && Ingest(st, self, fileId, stream, acc).result.Success?
    ensures var s := Step(st, self, fileId, stream[0], acc);
            s.result.Success? &&
            Ingest(st, self, fileId, stream, acc) == Ingest(s.stores, self, fileId, stream[1..], s.result.value)
  {
  }

  /** Name, size and records after the first message and then the rest are those after the whole stream. */
  lemma ConsRecord(self: string, fileId: string, stream: seq<Incoming>, name: string, size: int, chunks: seq<Chunk>)
    requires |stream| > 0 && stream[0].Received? && AllReceived(stream[1..])
    ensures AllReceived(stream)
    ensures LastName(stream[1..], stream[0].chunk.msg) == LastName(stream, name)
    ensures size + |stream[0].chunk.data| + |Payload(Messages(stream[1..]))| == size + |Payload(Messages(stream))|
    ensures chunks + [NewChunk(self, fileId, stream[0].chunk, stream[0].chunkId)] + Records(self, fileId, stream[1..]) ==
              chunks + Records(self, fileId, stream)
  {
    ReceivedCons(stream);
    MessagesCons(stream);
    RecordsCons(self, fileId, stream);
  }

  /** A completed loop has taken the last message's name, added up the sizes and collected the records. */
  lemma {:induction false} IngestRecord(st: Stores, self: string, fileId: string, stream: seq<Incoming>, acc: File)
    requires Ingest(st, self, fileId, stream, acc).result.Success?
    ensures AllReceived(stream)
    ensures Ingest(st, self, fileId, stream, acc).result.value ==
              acc.(fileName := LastName(stream, acc.fileName),
                   size := acc.size + |Payload(Messages(stream))|,
                   chunks := acc.chunks + Records(self, fileId, stream))
    decreases |stream|
  {
    if |stream| > 0 {
      IngestCons(st, self, fileId, stream, acc);
      var s := Step(st, self, fileId, stream[0], acc);
      StepRecord(st, self, fileId, stream[0], acc);
      var tail := stream[1..];
      var mid := s.result.value;
      IngestRecord(s.stores, self, fileId, tail, mid);
      var r := Ingest(s.stores, self, fileId, tail, mid).result.value;
      ConsRecord(self, fileId, stream, acc.fileName, acc.size, acc.chunks);
      assert r.fileName == LastName(stream, acc.fileName);
      assert r.size == acc.size + |Payload(Messages(stream))|;
      assert r.chunks == acc.chunks + Records(self, fileId, stream);
    }
  }

  /**
   * `CreateFile`: a new file record, with replica count 1 and the two clock readings as
   * its creation and update times, collects the stream's chunks and is then put under
   * the file's key.
   */
  function CreateFile(st: Stores, self: string, fileId: string, clock: Clock, stream: seq<Incoming>, fileMetaOk: bool)
    : (r: Outcome<File>)
    ensures r.result.Success? <==> FirstError(stream).None? && fileMetaOk
    ensures FirstError(stream).Some? ==> r.result == Failure(FirstError(stream).value)
    ensures FirstError(stream).None? && !fileMetaOk ==> r.result == Failure(ErrFailedWriteMeta)
    ensures r.result.Success? ==>
              AllReceived(stream) &&
              r.result.value == File(fileId, LastName(stream, ""), |Payload(Messages(stream))|, 1, clock.created, clock.updated,
                                     Records(self, fileId, stream))
    ensures r.result.Success? ==>
              Range(r.stores.meta, FileKey(fileId)) == [KeyValue(FileKey(fileId), EncodeFile(r.result.value))]
    ensures r.result.Failure? ==> Range(r.stores.meta, FileKey(fileId)) == Range(st.meta, FileKey(fileId))
  {
    var init := File(fileId, "", 0, 1, clock.created, clock.updated, []);
    var ing := Ingest(st, self, fileId, stream, init);
    ChunkKeysAvoidOthers(stream, fileId);
    IngestMetaFrame(st, self, fileId, stream, init, FileKey(fileId));
    if ing.result.Failure? then ing
    else if !fileMetaOk then Outcome(ing.stores, Failure(ErrFailedWriteMeta))
    else
      var f := ing.result.value;
      IngestRecord(st, self, fileId, stream, init);
      RangePut(ing.stores.meta, FileKey(fileId), EncodeFile(f), FileKey(fileId));
      Outcome(Stores(Put(ing.stores.meta, FileKey(fileId), EncodeFile(f)), ing.stores.disk), Success(f))
  }

  /** After a create over a clean stream with fresh ids, each chunk file holds its padded payload. */
  lemma CreateFileDisk(st: Stores, self: string, fileId: string, clock: Clock, stream: seq<Incoming>, fileMetaOk: bool)
    requires Clean(stream) && FreshIds(st.disk, stream)
    ensures var d := CreateFile(st, self, fileId, clock, stream, fileMetaOk).stores.disk;
            forall i :: 0 <= i < |stream| ==>
              |stream[i].chunk.data| <= ChunkSize &&
              ChunkPath(stream[i].chunkId) in d && d[ChunkPath(stream[i].chunkId)] == Pad(stream[i].chunk.data)
  {
    IngestDisk(st, self, fileId, stream, File(fileId, "", 0, 1, clock.created, clock.updated, []));
  }

  /** A create writes metadata only under its chunk keys and its file key. */
  lemma CreateFileMetaFrame(st: Stores, self: string, fileId: string, clock: Clock, stream: seq<Incoming>, fileMetaOk: bool, k: string)
    requires k !in ChunkKeys(stream) && k != FileKey(fileId)
    ensures Range(CreateFile(st, self, fileId, clock, stream, fileMetaOk).stores.meta, k) == Range(st.meta, k)
  {
    var init := File(fileId, "", 0, 1, clock.created, clock.updated, []);
    var ing := Ingest(st, self, fileId, stream, init);
    IngestMetaFrame(st, self, fileId, stream, init, k);
    if ing.result.Success? {
      RangePut(ing.stores.meta, FileKey(fileId), EncodeFile(ing.result.value), k);
    }
  }

  /** A created file's size is the sum of its chunks' used bytes. */
  lemma {:induction false} CreatedSizeIsSumOfUsed(self: string, fileId: string, stream: seq<Incoming>)
    requires AllReceived(stream)
    ensures SumUsed(Records(self, fileId, stream)) == |Payload(Messages(stream))|
    decreases |stream|
  {
    if |stream| == 0 {
    } else {
      var rs := Records(self, fileId, stream);
      CreatedSizeIsSumOfUsed(self, fileId, stream[1..]);
      assert rs == [rs[0]] + Records(self, fileId, stream[1..]);
      SumUsedAppend([rs[0]], Records(self, fileId, stream[1..]));
      assert Datas(Messages(stream))[1..] == Datas(Messages(stream[1..]));
    }
  }

  lemma {:induction false} FirstErrorNone(stream: seq<Incoming>)
    ensures FirstError(stream).None? <==> Clean(stream)
    decreases |stream|
  {
    if |stream| > 0 {
      FirstErrorNone(stream[1..]);
      assert Clean(stream) <==> StepError(stream[0]).None? && Clean(stream[1..]) by {
        if StepError(stream[0]).None? && Clean(stream[1..]) {
          forall i | 0 <= i < |stream| ensures StepError(stream[i]).None? {
            if i > 0 { assert stream[i] == stream[1..][i - 1]; }
          }
        }
      }
    }
  }

  /** A key is among the chunk keys exactly when some received item's chunk lives there. */
  lemma {:induction false} ChunkKeysMember(stream: seq<Incoming>, k: string)
    ensures k in ChunkKeys(stream) <==>
              exists i :: 0 <= i < |stream| && stream[i].Received? && k == ChunkPath(stream[i].chunkId)
    decreases |stream|
  {
    if |stream| > 0 {
      ChunkKeysMember(stream[1..], k);
      if exists i :: 0 <= i < |stream| && stream[i].Received? && k == ChunkPath(stream[i].chunkId) {
        var i :| 0 <= i < |stream| && stream[i].Received? && k == ChunkPath(stream[i].chunkId);
        if i > 0 { assert stream[1..][i - 1] == stream[i]; }
      }
    }
  }

  /** No file or worker key is a chunk key. */
  lemma {:induction false} ChunkKeysAvoidOthers(stream: seq<Incoming>, x: string)
    ensures FileKey(x) !in ChunkKeys(stream)
    ensures WorkerKey(x) !in ChunkKeys(stream)
    decreases |stream|
  {
    if |stream| > 0 {
      ChunkKeysAvoidOthers(stream[1..], x);
      if stream[0].Received? {
        NamespacesDisjoint(x, stream[0].chunkId);
      }
    }
  }

  /** The loop writes no metadata outside the stream's chunk keys. */
  lemma {:induction false} IngestMetaFrame(st: Stores, self: string, fileId: string, stream: seq<Incoming>, acc: File, k: string)
    requires k !in ChunkKeys(stream)
    ensures Range(Ingest(st, self, fileId, stream, acc).stores.meta, k) == Range(st.meta, k)
    decreases |stream|
  {
    if |stream| > 0 {
      var s := Step(st, self, fileId, stream[0], acc);
      StepFrame(st, self, fileId, stream[0], acc, k);
      if s.result.Success? {
        IngestMetaFrame(s.stores, self, fileId, stream[1..], s.result.value, k);
      }
    }
  }

  /** The loop writes no local file outside the stream's chunk paths. */
  lemma {:induction false} IngestDiskFrame(st: Stores, self: string, fileId: string, stream: seq<Incoming>, acc: File, p: string)
    requires p !in ChunkKeys(stream)
    ensures var d := Ingest(st, self, fileId, stream, acc).stores.disk;
            (p in d <==> p in st.disk) && (p in st.disk ==> d[p] == st.disk[p])
    decreases |stream|
  {
    if |stream| > 0 {
      var s := Step(st, self, fileId, stream[0], acc);
      StepFrame(st, self, fileId, stream[0], acc, p);
      if s.result.Success? {
        IngestDiskFrame(s.stores, self, fileId, stream[1..], s.result.value, p);
      }
    }
  }

  /** One step touches only its own chunk's key and file. */
  lemma StepFrame(st: Stores, self: string, fileId: string, item: Incoming, acc: File, k: string)
    requires item.Received? ==> k != ChunkPath(item.chunkId)
    ensures var s := Step(st, self, fileId, item, acc);
            Range(s.stores.meta, k) == Range(st.meta, k) &&
            (k in s.stores.disk <==> k in st.disk) && (k in st.disk ==> s.stores.disk[k] == st.disk[k])
  {
    if item.Received? && |item.chunk.data| <= ChunkSize {
      var c := NewChunk(self, fileId, item.chunk, item.chunkId);
      RangePut(st.meta, ChunkPath(item.chunkId), EncodeChunk(c), k);
    }
  }

  /** A step without error leaves the padded payload in the chunk's fresh file. */
  lemma StepWrites(st: Stores, self: string, fileId: string, item: Incoming, acc: File)
    requires StepError(item).None? && ChunkPath(item.chunkId) !in st.disk
    ensures var d := Step(st, self, fileId, item, acc).stores.disk;
            |item.chunk.data| <= ChunkSize &&
            ChunkPath(item.chunkId) in d && d[ChunkPath(item.chunkId)] == Pad(item.chunk.data)
  {
  }

  /** Chunk ids that are pairwise distinct and name no existing local file. */
  predicate FreshIds(disk: Files.Disk, stream: seq<Incoming>)
  {
    (forall i :: 0 <= i < |stream| && stream[i].Received? ==> ChunkPath(stream[i].chunkId) !in disk)
    && Distinct(stream)
  }

  predicate Distinct(stream: seq<Incoming>)
  {
    forall i, j :: 0 <= i < j < |stream| && stream[i].Received? && stream[j].Received? ==>
      stream[i].chunkId != stream[j].chunkId
  }

  lemma DistinctTail(stream: seq<Incoming>)
    requires |stream| > 0 && Distinct(stream)
    ensures Distinct(stream[1..])
  {
    forall i, j | 0 <= i < j < |stream[1..]| && stream[1..][i].Received? && stream[1..][j].Received?
      ensures stream[1..][i].chunkId != stream[1..][j].chunkId
    {
      assert stream[1..][i] == stream[i + 1] && stream[1..][j] == stream[j + 1];
    }
  }

  /** The head's chunk path is not among the tail's chunk keys. */
  lemma HeadKeyNotInTail(stream: seq<Incoming>)
    requires |stream| > 0 && stream[0].Received? && Distinct(stream)
    ensures ChunkPath(stream[0].chunkId) !in ChunkKeys(stream[1..])
  {
    var k := ChunkPath(stream[0].chunkId);
    ChunkKeysMember(stream[1..], k);
    forall j | 0 <= j < |stream[1..]| && stream[1..][j].Received?
      ensures k != ChunkPath(stream[1..][j].chunkId)
    {
      assert stream[1..][j] == stream[j + 1];
      ChunkPathInjective(stream[0].chunkId, stream[1..][j].chunkId);
    }
  }

  /**
   * After a clean stream with fresh chunk ids, each message's chunk file holds exactly
   * its payload padded to a full chunk.
   */
  lemma {:induction false} IngestDisk(st: Stores, self: string, fileId: string, stream: seq<Incoming>, acc: File)
    requires Clean(stream) && FreshIds(st.disk, stream)
    ensures var d := Ingest(st, self, fileId, stream, acc).stores.disk;
            forall i :: 0 <= i < |stream| ==>
              |stream[i].chunk.data| <= ChunkSize &&
              ChunkPath(stream[i].chunkId) in d && d[ChunkPath(stream[i].chunkId)] == Pad(stream[i].chunk.data)
    decreases |stream|
  {
    if |stream| > 0 {
      assert StepError(stream[0]).None?;
      var id := stream[0].chunkId;
      var s := Step(st, self, fileId, stream[0], acc);
      var tail := stream[1..];
      StepWrites(st, self, fileId, stream[0], acc);
      assert Clean(tail) by {
        forall i | 0 <= i < |tail| ensures StepError(tail[i]).None? { assert tail[i] == stream[i + 1]; }
      }
      DistinctTail(stream);
      forall i | 0 <= i < |tail| && tail[i].Received? ensures ChunkPath(tail[i].chunkId) !in s.stores.disk {
        assert tail[i] == stream[i + 1];
        ChunkPathInjective(id, tail[i].chunkId);
        StepFrame(st, self, fileId, stream[0], acc, ChunkPath(tail[i].chunkId));
      }
      IngestDisk(s.stores, self, fileId, tail, s.result.value);
      HeadKeyNotInTail(stream);
      IngestDiskFrame(s.stores, self, fileId, tail, s.result.value, ChunkPath(id));
      var d := Ingest(st, self, fileId, stream, acc).stores.disk;
      forall i | 0 <= i < |stream|
        ensures |stream[i].chunk.data| <= ChunkSize
        ensures ChunkPath(stream[i].chunkId) in d && d[ChunkPath(stream[i].chunkId)] == Pad(stream[i].chunk.data)
      {
        if i > 0 { assert stream[i] == tail[i - 1]; }
      }
    }
  }

  lemma CleanTail(stream: seq<Incoming>)
    requires |stream| > 0 && Clean(stream)
    ensures StepError(stream[0]).None? && Clean(stream[1..])
  {
    assert StepError(stream[0]).None?;
    forall i | 0 <= i < |stream[1..]| ensures StepError(stream[1..][i]).None? {
      assert stream[1..][i] == stream[i + 1];
    }
  }

  /** The loop over `pre + post` with a clean `pre` carries on over `post` from where `pre` left off. */
  lemma {:induction false} IngestAppend(st: Stores, self: string, fileId: string, pre: seq<Incoming>,
                                        post: seq<Incoming>, acc: File)
    requires Clean(pre)
    ensures Ingest(st, self, fileId, pre, acc).result.Success?
    ensures var i := Ingest(st, self, fileId, pre, acc);
            Ingest(st, self, fileId, pre + post, acc) == Ingest(i.stores, self, fileId, post, i.result.value)
    decreases |pre|
  {
    FirstErrorNone(pre);
    if |pre| > 0 {
      CleanTail(pre);
      var s := Step(st, self, fileId, pre[0], acc);
      assert (pre + post)[0] == pre[0];
      assert (pre + post)[1..] == pre[1..] + post;
      IngestAppend(s.stores, self, fileId, pre[1..], post, s.result.value);
    } else {
      assert pre + post == post;
    }
  }

  /**
   * After a clean stream with pairwise distinct chunk ids, each message's chunk key holds
   * exactly its chunk record.
   */
  lemma {:induction false} IngestMeta(st: Stores, self: string, fileId: string, stream: seq<Incoming>, acc: File)
    requires Clean(stream) && Distinct(stream)
    ensures var m := Ingest(st, self, fileId, stream, acc).stores.meta;
            forall i :: 0 <= i < |stream| ==>
              stream[i].Received? &&
              Range(m, ChunkPath(stream[i].chunkId)) ==
                [KeyValue(ChunkPath(stream[i].chunkId), EncodeChunk(NewChunk(self, fileId, stream[i].chunk, stream[i].chunkId)))]
    decreases |stream|
  {
    if |stream| > 0 {
      CleanTail(stream);
      DistinctTail(stream);
      var id := stream[0].chunkId;
      var s := Step(st, self, fileId, stream[0], acc);
      var tail := stream[1..];
      RangePut(st.meta, ChunkPath(id), EncodeChunk(NewChunk(self, fileId, stream[0].chunk, id)), ChunkPath(id));
      IngestMeta(s.stores, self, fileId, tail, s.result.value);
      HeadKeyNotInTail(stream);
      IngestMetaFrame(s.stores, self, fileId, tail, s.result.value, ChunkPath(id));
      var m := Ingest(st, self, fileId, stream, acc).stores.meta;
      forall i | 0 <= i < |stream|
        ensures stream[i].Received?
        ensures Range(m, ChunkPath(stream[i].chunkId)) ==
                  [KeyValue(ChunkPath(stream[i].chunkId), EncodeChunk(NewChunk(self, fileId, stream[i].chunk, stream[i].chunkId)))]
      {
        if i > 0 { assert stream[i] == tail[i - 1]; }
      }
    }
  }

  /*
   * ReadFile.
   */

  /**
   * The file-record lookup shared by `ReadFile` and `RemoveFile`: a failed get, no
   * record, several records and an undecodable record are errors of their own.
   */
  function LookupFile(meta: Store, fileId: string, getOk: bool): (r: Result<File, Error>)
    ensures !getOk ==> r == Failure(ErrFailedGetFile)
    ensures getOk && |Range(meta, FileKey(fileId))| == 0 ==> r == Failure(ErrFileNotExist)
    ensures getOk && |Range(meta, FileKey(fileId))| > 1 ==> r == Failure(ErrFailedGetFile)
    ensures r.Success? <==>
              getOk && |Range(meta, FileKey(fileId))| == 1 && DecodeFile(Range(meta, FileKey(fileId))[0].value).Some?
    ensures r.Success? ==> Range(meta, FileKey(fileId)) == [KeyValue(FileKey(fileId), EncodeFile(r.value))]
    ensures r == Failure(ErrJson) <==>
              getOk && |Range(meta, FileKey(fileId))| == 1 && DecodeFile(Range(meta, FileKey(fileId))[0].value).None?
  {
    if !getOk then Failure(ErrFailedGetFile)
    else
      var kvs := Range(meta, FileKey(fileId));
      if |kvs| == 0 then Failure(ErrFileNotExist)
      else if |kvs| != 1 then Failure(ErrFailedGetFile)
      else match DecodeFile(kvs[0].value)
        case Some(f) => Success(f)
        case None => Failure(ErrJson)
  }

  /**
   * The read loop over one chunk file: each read fills the buffer from the front with
   * up to `ChunkSize` bytes, leaving the rest of the buffer as the previous read left
   * it, and sends the buffer's first `used` bytes. A `used` outside the buffer makes
   * the slice panic (`None`) at the first send.
   */
  function ReadBlocks(content: seq<byte>, buf: seq<byte>, used: int): (r: Option<seq<seq<byte>>>)
    requires |buf| == ChunkSize
    ensures r.None? <==> |content| > 0 && (used < 0 || used > ChunkSize)
    ensures r.Some? ==> (|r.value| == 0 <==> |content| == 0)
    ensures r.Some? && |content| <= ChunkSize ==> |r.value| <= 1
    ensures r.Some? ==> forall i :: 0 <= i < |r.value| ==> |r.value[i]| == used
    ensures r.Some? && 0 < |content| && used <= |content| ==> r.value[0] == content[..used]
    decreases |content|
  {
    if |content| == 0 then Some([])
    else if used < 0 || used > ChunkSize then None
    else
      var n := Min(|content|, ChunkSize);
      var next := content[..n] + buf[n..];
      var rest := ReadBlocks(content[n..], next, used);
      Some([next[..used]] + rest.value)
  }

  /** A file of exactly one chunk is read in one go, so the buffer's old content does not show. */
  lemma ReadFullChunk(content: seq<byte>, buf: seq<byte>, used: int)
    requires |content| == ChunkSize && |buf| == ChunkSize && 0 <= used <= ChunkSize
    ensures ReadBlocks(content, buf, used) == Some([content[..used]])
  {
    assert ChunkSize > 0;
    var next := content[..ChunkSize] + buf[ChunkSize..];
    assert next == content;
    assert |content[ChunkSize..]| == 0;
    assert ReadBlocks(content[ChunkSize..], next, used) == Some([]);
    assert ReadBlocks(content, buf, used) == Some([next[..used]] + ReadBlocks(content[ChunkSize..], next, used).value);
    assert [next[..used]] + [] == [content[..used]];
  }

  /** A padded chunk is read back as exactly its payload, whatever the buffer held. */
  lemma ReadPadded(data: seq<byte>, buf: seq<byte>)
    requires |data| <= ChunkSize && |buf| == ChunkSize
    ensures ReadBlocks(Pad(data), buf, |data|) == Some([data])
  {
    ReadFullChunk(Pad(data), buf, |data|);
  }

  /** What `ReadFile` sent before it returned, and the error it returned, if any. */
  datatype ReadOutcome = ReadOutcome(sent: seq<FileChunkData>, err: Option<Error>)

  /** Whether every chunk file exists and every chunk's `used` fits the buffer. */
  predicate Readable(disk: Files.Disk, chunks: seq<Chunk>)
  {
    forall i :: 0 <= i < |chunks| ==> ChunkPath(chunks[i].uuid) in disk && 0 <= chunks[i].used <= ChunkSize
  }

  /**
   * Whether every chunk file exists and holds exactly one chunk, as `CreateFile` leaves
   * them, and every chunk's `used` fits the buffer.
   */
  predicate Sized(disk: Files.Disk, chunks: seq<Chunk>)
  {
    forall i :: 0 <= i < |chunks| ==>
      ChunkPath(chunks[i].uuid) in disk && |disk[ChunkPath(chunks[i].uuid)]| == ChunkSize &&
      0 <= chunks[i].used <= ChunkSize
  }

  /** The first `used` bytes of each chunk's file, in the order of the chunks. */
  function UsedPrefixes(disk: Files.Disk, chunks: seq<Chunk>): (ps: seq<seq<byte>>)
    requires Sized(disk, chunks)
    ensures |ps| == |chunks|
    ensures forall i :: 0 <= i < |ps| ==> ps[i] == disk[ChunkPath(chunks[i].uuid)][..chunks[i].used]
  {
    seq(|chunks|, i requires 0 <= i < |chunks| => disk[ChunkPath(chunks[i].uuid)][..chunks[i].used])
  }

  lemma SizedTail(disk: Files.Disk, chunks: seq<Chunk>)
    requires |chunks| > 0 && Sized(disk, chunks)
    ensures Sized(disk, chunks[1..])
    ensures UsedPrefixes(disk, chunks) == [UsedPrefixes(disk, chunks)[0]] + UsedPrefixes(disk, chunks[1..])
  {
    forall i | 0 <= i < |chunks[1..]|
      ensures ChunkPath(chunks[1..][i].uuid) in disk && |disk[ChunkPath(chunks[1..][i].uuid)]| == ChunkSize &&
              0 <= chunks[1..][i].used <= ChunkSize
    {
      assert chunks[1..][i] == chunks[i + 1];
    }
  }

  lemma TagCons(b: seq<byte>, bs: seq<seq<byte>>, name: string)
    ensures HfsClient.Tag([b], name) + HfsClient.Tag(bs, name) == HfsClient.Tag([b] + bs, name)
  {
  }

  /**
   * The loop over a file's chunks: open each chunk file and stream its blocks under
   * `name`. Over chunk files of one chunk each, every chunk sends exactly its first
   * `used` bytes, once, in the order of the record.
   */
  function ReadChunks(disk: Files.Disk, chunks: seq<Chunk>, name: string): (r: ReadOutcome)
    ensures Readable(disk, chunks) ==> r.err.None?
    ensures r.err == Some(ErrOpen) ==> exists i :: 0 <= i < |chunks| && ChunkPath(chunks[i].uuid) !in disk
    ensures r.err.None? || r.err == Some(ErrOpen) || r.err == Some(Panic)
    ensures forall i :: 0 <= i < |r.sent| ==> r.sent[i].msg == name
    ensures Sized(disk, chunks) ==> r == ReadOutcome(HfsClient.Tag(UsedPrefixes(disk, chunks), name), None)
    decreases |chunks|
  {
    if |chunks| == 0 then ReadOutcome([], None)
    else
      var path := ChunkPath(chunks[0].uuid);
      if path !in disk then ReadOutcome([], Some(ErrOpen))
      else match ReadBlocks(disk[path], Zeros(ChunkSize), chunks[0].used)
        case None => ReadOutcome([], Some(Panic))
        case Some(blocks) =>
          var rest := ReadChunks(disk, chunks[1..], name);
          assert Readable(disk, chunks) ==> Readable(disk, chunks[1..]) by {
            if Readable(disk, chunks) {
              forall i | 0 <= i < |chunks[1..]|
                ensures ChunkPath(chunks[1..][i].uuid) in disk && 0 <= chunks[1..][i].used <= ChunkSize
              {
                assert chunks[1..][i] == chunks[i + 1];
              }
            }
          }
          assert rest.err == Some(ErrOpen) ==> exists i :: 0 <= i < |chunks| && ChunkPath(chunks[i].uuid) !in disk by {
            if rest.err == Some(ErrOpen) {
              var i :| 0 <= i < |chunks[1..]| && ChunkPath(chunks[1..][i].uuid) !in disk;
              assert chunks[1..][i] == chunks[i + 1];
            }
          }
          assert Sized(disk, chunks) ==>
                   rest.err.None? &&
                   HfsClient.Tag(blocks, name) + rest.sent == HfsClient.Tag(UsedPrefixes(disk, chunks), name) by {
            if Sized(disk, chunks) {
              ReadFullChunk(disk[path], Zeros(ChunkSize), chunks[0].used);
              SizedTail(disk, chunks);
              TagCons(disk[path][..chunks[0].used], UsedPrefixes(disk, chunks[1..]), name);
            }
          }
          ReadOutcome(HfsClient.Tag(blocks, name) + rest.sent, rest.err)
  }

  /**
   * A chunk file that is missing stops the read with an open error, after the chunks
   * before it were sent.
   */
  lemma {:induction false} ReadStopsAtMissing(disk: Files.Disk, chunks: seq<Chunk>, k: nat, name: string)
    requires k < |chunks| && Sized(disk, chunks[..k]) && ChunkPath(chunks[k].uuid) !in disk
    ensures ReadChunks(disk, chunks, name) ==
              ReadOutcome(HfsClient.Tag(UsedPrefixes(disk, chunks[..k]), name), Some(ErrOpen))
    decreases k
  {
    if k > 0 {
      var c := chunks[0];
      var path := ChunkPath(c.uuid);
      assert chunks[..k][0] == c;
      ReadFullChunk(disk[path], Zeros(ChunkSize), c.used);
      SizedTail(disk, chunks[..k]);
      assert chunks[..k][1..] == chunks[1..][..k - 1];
      ReadStopsAtMissing(disk, chunks[1..], k - 1, name);
      TagCons(disk[path][..c.used], UsedPrefixes(disk, chunks[1..][..k - 1]), name);
    }
  }

  /** `ReadFile`: look the file record up, then stream its chunks from the local disk. */
  function ReadFile(st: Stores, fileId: string, getOk: bool): (r: ReadOutcome)
    ensures LookupFile(st.meta, fileId, getOk).Failure? ==>
              r == ReadOutcome([], Some(LookupFile(st.meta, fileId, getOk).error))
    ensures LookupFile(st.meta, fileId, getOk).Success? ==>
              var f := LookupFile(st.meta, fileId, getOk).value;
              (Readable(st.disk, f.chunks) ==> r.err.None?) &&
              (forall i :: 0 <= i < |r.sent| ==> r.sent[i].msg == f.fileName) &&
              (Sized(st.disk, f.chunks) ==>
                 r == ReadOutcome(HfsClient.Tag(UsedPrefixes(st.disk, f.chunks), f.fileName), None))
  {
    match LookupFile(st.meta, fileId, getOk)
    case Failure(e) => ReadOutcome([], Some(e))
    case Success(f) => ReadChunks(st.disk, f.chunks, f.fileName)
  }

  /**
   * Reading the records of a clean stream from a disk that holds their padded payloads
   * sends each payload once, in order, under the given name.
   */
  lemma {:induction false} ReadRecords(disk: Files.Disk, self: string, fileId: string, stream: seq<Incoming>, name: string)
    requires AllReceived(stream)
    requires forall i :: 0 <= i < |stream| ==>
               |stream[i].chunk.data| <= ChunkSize &&
               ChunkPath(stream[i].chunkId) in disk && disk[ChunkPath(stream[i].chunkId)] == Pad(stream[i].chunk.data)
    ensures ReadChunks(disk, Records(self, fileId, stream), name) ==
              ReadOutcome(HfsClient.Tag(Datas(Messages(stream)), name), None)
    decreases |stream|
  {
    if |stream| > 0 {
      var rs := Records(self, fileId, stream);
      var d := stream[0].chunk.data;
      ReadPadded(d, Zeros(ChunkSize));
      assert rs[1..] == Records(self, fileId, stream[1..]);
      ReadRecords(disk, self, fileId, stream[1..], name);
      assert Datas(Messages(stream)) == [d] + Datas(Messages(stream[1..]));
    }
  }

  /*
   * RemoveFile.
   */

  /** One remote call `RemoveFile` makes: the address dialled and the request sent. */
  datatype DeleteCall = DeleteCall(dialUrl: string, request: File)

  datatype Removal = Removal(stores: Stores, result: Result<GenericResponse, Error>, calls: seq<DeleteCall>)

  /**
   * Decoding into the request message: fields the stored record leaves at their zero
   * value are omitted from its JSON and so keep the request's value.
   */
  function Overlay(req: File, stored: File): (f: File)
    ensures stored.uuid != "" ==> f.uuid == stored.uuid
    ensures stored.chunks != [] ==> f.chunks == stored.chunks
  {
    File(if stored.uuid == "" then req.uuid else stored.uuid,
         if stored.fileName == "" then req.fileName else stored.fileName,
         if stored.size == 0 then req.size else stored.size,
         if stored.replicaNum == 0 then req.replicaNum else stored.replicaNum,
         if stored.createdAt == 0 then req.createdAt else stored.createdAt,
         if stored.updatedAt == 0 then req.updatedAt else stored.updatedAt,
         if stored.chunks == [] then req.chunks else stored.chunks)
  }

  /** A remove request as the client builds it, overlaid with a record stamped with its id, is the record. */
  lemma OverlayDeleteRequest(id: string, stored: File)
    requires stored.uuid == id
    ensures Overlay(HfsClient.DeleteRequest(id), stored) == stored
  {
  }

  /** How many replica entries the chunks list altogether. */
  function ReplicaCount(chunks: seq<Chunk>): (count: nat)
  {
    if |chunks| == 0 then 0 else |chunks[0].replicas| + ReplicaCount(chunks[1..])
  }

  /** The remote deletes for one chunk: one per replica entry, in the entries' order. */
  function ChunkCalls(c: Chunk): (calls: seq<DeleteCall>)
    ensures |calls| == |c.replicas|
    ensures forall j :: 0 <= j < |calls| ==> calls[j] == DeleteCall(c.replicas[j], HfsClient.DeleteRequest(c.uuid))
  {
    seq(|c.replicas|, j requires 0 <= j < |c.replicas| => DeleteCall(c.replicas[j], HfsClient.DeleteRequest(c.uuid)))
  }

  /**
   * One remote delete per replica of each chunk, dialling the replica entry itself,
   * chunk after chunk and replica after replica.
   */
  function ReplicaCalls(chunks: seq<Chunk>): (calls: seq<DeleteCall>)
    ensures |calls| == ReplicaCount(chunks)
    ensures forall call :: call in calls <==>
              exists i, j :: 0 <= i < |chunks| && 0 <= j < |chunks[i].replicas| &&
                call == DeleteCall(chunks[i].replicas[j], HfsClient.DeleteRequest(chunks[i].uuid))
    ensures |chunks| > 0 ==> calls[..|chunks[0].replicas|] == ChunkCalls(chunks[0])
    decreases |chunks|
  {
    if |chunks| == 0 then []
    else
      var c := chunks[0];
      var here := ChunkCalls(c);
      var rest := ReplicaCalls(chunks[1..]);
      assert forall call :: call in here <==>
        exists j :: 0 <= j < |c.replicas| && call == DeleteCall(c.replicas[j], HfsClient.DeleteRequest(c.uuid)) by {
        forall call | call in here
          ensures exists j :: 0 <= j < |c.replicas| && call == DeleteCall(c.replicas[j], HfsClient.DeleteRequest(c.uuid))
        {
          var j :| 0 <= j < |here| && here[j] == call;
        }
        forall j | 0 <= j < |c.replicas|
          ensures DeleteCall(c.replicas[j], HfsClient.DeleteRequest(c.uuid)) in here
        {
          assert here[j] == DeleteCall(c.replicas[j], HfsClient.DeleteRequest(c.uuid));
        }
      }
      assert forall call :: call in rest <==>
        exists i, j :: 1 <= i < |chunks| && 0 <= j < |chunks[i].replicas| &&
          call == DeleteCall(chunks[i].replicas[j], HfsClient.DeleteRequest(chunks[i].uuid)) by {
        forall call | call in rest
          ensures exists i, j :: 1 <= i < |chunks| && 0 <= j < |chunks[i].replicas| &&
                    call == DeleteCall(chunks[i].replicas[j], HfsClient.DeleteRequest(chunks[i].uuid))
        {
          var i, j :| 0 <= i < |chunks[1..]| && 0 <= j < |chunks[1..][i].replicas| &&
            call == DeleteCall(chunks[1..][i].replicas[j], HfsClient.DeleteRequest(chunks[1..][i].uuid));
          assert chunks[1..][i] == chunks[i + 1];
        }
        forall call, i, j | 1 <= i < |chunks| && 0 <= j < |chunks[i].replicas| &&
            call == DeleteCall(chunks[i].replicas[j], HfsClient.DeleteRequest(chunks[i].uuid))
          ensures call in rest
        {
          assert chunks[1..][i - 1] == chunks[i];
        }
      }
      assert (here + rest)[..|c.replicas|] == here;
      here + rest
  }

  /** The calls of consecutive runs of chunks follow one another. */
  lemma {:induction false} ReplicaCallsAppend(a: seq<Chunk>, b: seq<Chunk>)
    ensures ReplicaCalls(a + b) == ReplicaCalls(a) + ReplicaCalls(b)
    decreases |a|
  {
    if |a| == 0 {
      assert a + b == b;
    } else {
      assert (a + b)[0] == a[0];
      assert (a + b)[1..] == a[1..] + b;
      ReplicaCallsAppend(a[1..], b);
    }
  }

  /**
   * The calls `RemoveFile` gets to make: every one up to the first whose address cannot
   * be dialled, which ends the process.
   */
  function Dialled(calls: seq<DeleteCall>, dials: set<string>): (r: seq<DeleteCall>)
    ensures r <= calls
    ensures forall i :: 0 <= i < |r| ==> r[i].dialUrl in dials
    ensures |r| < |calls| ==> calls[|r|].dialUrl !in dials
    decreases |calls|
  {
    if |calls| == 0 || calls[0].dialUrl !in dials then []
    else [calls[0]] + Dialled(calls[1..], dials)
  }

  /** Whether every address in `calls` can be dialled. */
  predicate AllDialable(calls: seq<DeleteCall>, dials: set<string>)
  {
    forall i :: 0 <= i < |calls| ==> calls[i].dialUrl in dials
  }

  /**
   * `RemoveFile`: look the record up, decode it over the request, dial every replica of
   * every chunk to remove it there, then delete the file key (the delete's outcome is
   * only logged). A replica that cannot be dialled ends the process before the file key
   * is deleted. The remote removals are returned, not applied.
   */
  function RemoveFile(st: Stores, req: File, getOk: bool, dials: set<string>, deleteOk: bool): (r: Removal)
    ensures LookupFile(st.meta, req.uuid, getOk).Failure? ==>
              r == Removal(st, Failure(LookupFile(st.meta, req.uuid, getOk).error), [])
    ensures r.stores.disk == st.disk
    ensures LookupFile(st.meta, req.uuid, getOk).Success? ==>
              var f := Overlay(req, LookupFile(st.meta, req.uuid, getOk).value);
              var calls := ReplicaCalls(f.chunks);
              r.calls == Dialled(calls, dials) &&
              (AllDialable(calls, dials) ==>
                 r.result == Success(GenericResponse(0, "success")) &&
                 r.stores.meta == (if deleteOk then Delete(st.meta, FileKey(f.uuid)) else st.meta)) &&
              (!AllDialable(calls, dials) ==> r.result == Failure(Fatal) && r.stores == st)
  {
    match LookupFile(st.meta, req.uuid, getOk)
    case Failure(e) => Removal(st, Failure(e), [])
    case Success(stored) =>
      var f := Overlay(req, stored);
      var calls := ReplicaCalls(f.chunks);
      var issued := Dialled(calls, dials);
      if |issued| < |calls| then Removal(st, Failure(Fatal), issued)
      else
        assert issued == calls;
        var meta := if deleteOk then Delete(st.meta, FileKey(f.uuid)) else st.meta;
        Removal(Stores(meta, st.disk), Success(GenericResponse(0, "success")), calls)
  }

  /** Every file record sits under the key of its own id. */
  ghost predicate WellKeyed(meta: Store)
  {
    forall i :: 0 <= i < |meta| && meta[i].value.FileJson? ==> meta[i].key == FileKey(meta[i].value.file.uuid)
  }

  /** In a well-keyed store, a successful remove with a working delete leaves no record of the file. */
  lemma RemoveFileDeletesRecord(st: Stores, req: File, getOk: bool, dials: set<string>)
    requires WellKeyed(st.meta)
    requires RemoveFile(st, req, getOk, dials, true).result.Success?
    ensures Range(RemoveFile(st, req, getOk, dials, true).stores.meta, FileKey(req.uuid)) == []
  {
    var kvs := Range(st.meta, FileKey(req.uuid));
    var stored := LookupFile(st.meta, req.uuid, getOk).value;
    assert kvs[0] in kvs;
    var i :| 0 <= i < |st.meta| && st.meta[i] == kvs[0];
    FileKeyInjective(stored.uuid, req.uuid);
    RangeDelete(st.meta, FileKey(req.uuid), FileKey(req.uuid));
  }

  /*
   * CreateChunk.
   */

  /**
   * `CreateChunk`: (re)create the chunk file named by the message, then append the
   * message's bytes as they are, without padding. No metadata is written.
   */
  function CreateChunk(st: Stores, req: FileChunkData, createOk: bool, fault: Files.WriteFault)
    : (r: Outcome<GenericResponse>)
    ensures r.stores.meta == st.meta
    ensures r.result.Success? <==> createOk && Files.Completes(fault, |req.data|)
    ensures r.result.Success? ==>
              r.result.value == GenericResponse(0, req.msg) &&
              ChunkPath(req.msg) in r.stores.disk && r.stores.disk[ChunkPath(req.msg)] == req.data
    ensures r.result.Failure? ==> r.result.error == ErrFailedWrite
    ensures !createOk ==> r.stores == st
    ensures forall p :: p != ChunkPath(req.msg) ==>
              (p in r.stores.disk <==> p in st.disk) && (p in st.disk ==> r.stores.disk[p] == st.disk[p])
  {
    var path := ChunkPath(req.msg);
    var c := Files.Create(st.disk, path, createOk);
    if c.err.Some? then Outcome(st, Failure(ErrFailedWrite))
    else
      var w := Files.AppendSpec(c.disk, path, req.data, fault);
      if w.err.Some? then Outcome(Stores(st.meta, w.disk), Failure(ErrFailedWrite))
      else Outcome(Stores(st.meta, w.disk), Success(GenericResponse(0, req.msg)))
  }
}
