/**
 * Properties of the handlers taken together: what a client gets back after uploading
 * a file, what a failed upload leaves behind, and what a remove reaches.
 */
module EndToEnd {
  import opened Wrappers
  import opened Seqs
  import opened Types
  import opened Config
  import opened Keys
  import opened Etcd
  import Paths
  import Files
  import HfsClient
  import opened ChunkServer
  import Replication

  /** The server's view of an upload: each message arrives with the id drawn for its chunk, and nothing fails. */
  function Deliver(ms: seq<FileChunkData>, ids: seq<string>): (stream: seq<Incoming>)
    requires |ids| == |ms|
    ensures |stream| == |ms|
    ensures forall i :: 0 <= i < |ms| ==> stream[i] == Received(ms[i], ids[i], StepFault(Files.NoFault, true))
  {
    seq(|ms|, i requires 0 <= i < |ms| => Received(ms[i], ids[i], StepFault(Files.NoFault, true)))
  }

  /** The client's view of a read: the messages sent, then a receive error if the handler returned one. */
  function Transmit(out: ReadOutcome): (rs: seq<HfsClient.Recv>)
    ensures out.err.None? ==> rs == HfsClient.Received(out.sent)
    ensures out.err.Some? ==> rs == HfsClient.Received(out.sent) + [HfsClient.RecvError]
  {
    HfsClient.Received(out.sent) + (if out.err.Some? then [HfsClient.RecvError] else [])
  }

  predicate DistinctIds(ids: seq<string>)
  {
    forall i, j :: 0 <= i < j < |ids| ==> ids[i] != ids[j]
  }

  /**
   * Reading a file back after creating it from a clean stream with fresh chunk ids sends
   * every message's payload once, in order, under the name of the last message.
   */
  lemma CreateThenRead(st: Stores, self: string, fileId: string, clock: Clock, stream: seq<Incoming>)
    requires Clean(stream) && FreshIds(st.disk, stream)
    ensures CreateFile(st, self, fileId, clock, stream, true).result.Success?
    ensures AllReceived(stream)
    ensures ReadFile(CreateFile(st, self, fileId, clock, stream, true).stores, fileId, true) ==
              ReadOutcome(HfsClient.Tag(Datas(Messages(stream)), LastName(stream, "")), None)
  {
    FirstErrorNone(stream);
    CleanIsReceived(stream);
    var c := CreateFile(st, self, fileId, clock, stream, true);
    CreateFileDisk(st, self, fileId, clock, stream, true);
    ReadRecords(c.stores.disk, self, fileId, stream, LastName(stream, ""));
  }

  lemma DeliverClean(ms: seq<FileChunkData>, ids: seq<string>)
    requires |ids| == |ms|
    requires forall i :: 0 <= i < |ms| ==> |ms[i].data| <= ChunkSize
    ensures Clean(Deliver(ms, ids))
    ensures AllReceived(Deliver(ms, ids)) && Messages(Deliver(ms, ids)) == ms
  {
    var stream := Deliver(ms, ids);
    forall i | 0 <= i < |stream| ensures StepError(stream[i]).None? {
      assert stream[i] == Received(ms[i], ids[i], StepFault(Files.NoFault, true));
    }
  }

  lemma DeliverFresh(disk: Files.Disk, ms: seq<FileChunkData>, ids: seq<string>)
    requires |ids| == |ms| && DistinctIds(ids)
    requires forall i :: 0 <= i < |ids| ==> ChunkPath(ids[i]) !in disk
    ensures FreshIds(disk, Deliver(ms, ids))
  {
  }

  /**
   * Downloading a file created from messages that each fit a chunk, with fresh chunk
   * ids, writes their concatenated payloads and reports the last message's name.
   */
  lemma DownloadAfterCreate(ms: seq<FileChunkData>, ids: seq<string>, st: Stores, self: string,
                            fileId: string, clock: Clock, localOut: Files.Disk)
    requires |ids| == |ms| && DistinctIds(ids) && forall i :: 0 <= i < |ids| ==> ChunkPath(ids[i]) !in st.disk
    requires forall i :: 0 <= i < |ms| ==> |ms[i].data| <= ChunkSize
    ensures var created := CreateFile(st, self, fileId, clock, Deliver(ms, ids), true);
            var name := if |ms| == 0 then "" else ms[|ms| - 1].msg;
            var got := HfsClient.Download(localOut, fileId, true, true, Transmit(ReadFile(created.stores, fileId, true)));
            created.result.Success? && created.result.value.fileName == name &&
            got.0[fileId] == Payload(ms) && got.1 == Success(name)
  {
    var stream := Deliver(ms, ids);
    DeliverClean(ms, ids);
    DeliverFresh(st.disk, ms, ids);
    CreateThenRead(st, self, fileId, clock, stream);
    var created := CreateFile(st, self, fileId, clock, stream, true);
    var name := LastName(stream, "");
    var sent := HfsClient.Tag(Datas(ms), name);
    assert ReadFile(created.stores, fileId, true) == ReadOutcome(sent, None);
    DownloadOfSent(localOut, fileId, sent);
    TagPayload(ms, name);
  }

  /** A download of a stream that ends normally writes its payloads and reports its last name. */
  lemma DownloadOfSent(localOut: Files.Disk, fileId: string, sent: seq<FileChunkData>)
    ensures HfsClient.Download(localOut, fileId, true, true, Transmit(ReadOutcome(sent, None))) ==
              (localOut[fileId := Payload(sent)], Success(if |sent| == 0 then "" else sent[|sent| - 1].msg))
  {
    assert HfsClient.Msgs(HfsClient.Received(sent)) == sent;
  }

  lemma TagPayload(ms: seq<FileChunkData>, name: string)
    ensures Payload(HfsClient.Tag(Datas(ms), name)) == Payload(ms)
    ensures |HfsClient.Tag(Datas(ms), name)| == |ms|
    ensures |ms| > 0 ==> HfsClient.Tag(Datas(ms), name)[|ms| - 1].msg == name
  {
    HfsClient.DatasOfTag(Datas(ms), name);
  }

  /**
   * The whole round trip: a local file uploaded through a node, read back from it and
   * downloaded reproduces the file's bytes, and the client learns the file's base name
   * (nothing for an empty file, which becomes a file without chunks).
   */
  lemma UploadDownloadRoundTrip(local: Files.Disk, filePath: string, st: Stores, self: string,
                                fileId: string, clock: Clock, ids: seq<string>, localOut: Files.Disk)
    requires filePath in local
    requires |ids| == |HfsClient.Upload(local, filePath, true).value|
    requires DistinctIds(ids) && forall i :: 0 <= i < |ids| ==> ChunkPath(ids[i]) !in st.disk
    ensures var ms := HfsClient.Upload(local, filePath, true).value;
            var created := CreateFile(st, self, fileId, clock, Deliver(ms, ids), true);
            var name := if |local[filePath]| == 0 then "" else Paths.BaseName(filePath);
            var got := HfsClient.Download(localOut, fileId, true, true, Transmit(ReadFile(created.stores, fileId, true)));
            created.result.Success? && created.result.value.fileName == name &&
            got.0[fileId] == local[filePath] && got.1 == Success(name)
  {
    var ms := HfsClient.Upload(local, filePath, true).value;
    DownloadAfterCreate(ms, ids, st, self, fileId, clock, localOut);
  }

  /**
   * Ids fresh over a whole stream are fresh over its first part, and the first part's
   * chunk paths are not among the chunk keys of the rest.
   */
  lemma FreshSplit(disk: Files.Disk, pre: seq<Incoming>, post: seq<Incoming>)
    requires FreshIds(disk, pre + post)
    ensures FreshIds(disk, pre)
    ensures forall i :: 0 <= i < |pre| && pre[i].Received? ==> ChunkPath(pre[i].chunkId) !in ChunkKeys(post)
  {
    var all := pre + post;
    forall i | 0 <= i < |pre| ensures pre[i] == all[i] { }
    forall i | 0 <= i < |pre| && pre[i].Received? ensures ChunkPath(pre[i].chunkId) !in ChunkKeys(post) {
      ChunkKeysMember(post, ChunkPath(pre[i].chunkId));
      forall j | 0 <= j < |post| && post[j].Received? ensures ChunkPath(pre[i].chunkId) != ChunkPath(post[j].chunkId) {
        assert all[|pre| + j] == post[j];
        ChunkPathInjective(pre[i].chunkId, post[j].chunkId);
      }
    }
  }

  /**
   * No rollback: when the stream breaks after some messages have been stored, the create
   * fails with the breaking item's error, yet every earlier message's chunk file and
   * chunk record stay, while the file key is left as it was.
   */
  lemma OrphanedChunkAfterBrokenStream(st: Stores, self: string, fileId: string, clock: Clock,
                                       pre: seq<Incoming>, post: seq<Incoming>, fileMetaOk: bool)
    requires Clean(pre) && FreshIds(st.disk, pre + post) && FirstError(post).Some?
    ensures var r := CreateFile(st, self, fileId, clock, pre + post, fileMetaOk);
            r.result == Failure(FirstError(post).value) &&
            (forall i :: 0 <= i < |pre| ==>
               pre[i].Received? &&
               ChunkPath(pre[i].chunkId) in r.stores.disk && r.stores.disk[ChunkPath(pre[i].chunkId)] == Pad(pre[i].chunk.data) &&
               Range(r.stores.meta, ChunkPath(pre[i].chunkId)) ==
                 [KeyValue(ChunkPath(pre[i].chunkId), EncodeChunk(NewChunk(self, fileId, pre[i].chunk, pre[i].chunkId)))]) &&
            Range(r.stores.meta, FileKey(fileId)) == Range(st.meta, FileKey(fileId))
  {
    var init := File(fileId, "", 0, 1, clock.created, clock.updated, []);
    IngestAppend(st, self, fileId, pre, post, init);
    var mid := Ingest(st, self, fileId, pre, init);
    var fin := Ingest(mid.stores, self, fileId, post, mid.result.value);
    assert fin.result == Failure(FirstError(post).value);
    var r := CreateFile(st, self, fileId, clock, pre + post, fileMetaOk);
    assert r == fin;
    FreshSplit(st.disk, pre, post);
    IngestDisk(st, self, fileId, pre, init);
    IngestMeta(st, self, fileId, pre, init);
    forall i | 0 <= i < |pre|
      ensures pre[i].Received?
      ensures ChunkPath(pre[i].chunkId) in r.stores.disk && r.stores.disk[ChunkPath(pre[i].chunkId)] == Pad(pre[i].chunk.data)
      ensures Range(r.stores.meta, ChunkPath(pre[i].chunkId)) ==
                [KeyValue(ChunkPath(pre[i].chunkId), EncodeChunk(NewChunk(self, fileId, pre[i].chunk, pre[i].chunkId)))]
    {
      IngestDiskFrame(mid.stores, self, fileId, post, mid.result.value, ChunkPath(pre[i].chunkId));
      IngestMetaFrame(mid.stores, self, fileId, post, mid.result.value, ChunkPath(pre[i].chunkId));
    }
  }

  /** The calls for chunks that each list only `self`: one per chunk, dialling `self`, in order. */
  lemma {:induction false} CreatorCalls(chunks: seq<Chunk>, self: string)
    requires forall i :: 0 <= i < |chunks| ==> chunks[i].replicas == [self]
    ensures ReplicaCalls(chunks) ==
              seq(|chunks|, i requires 0 <= i < |chunks| => DeleteCall(self, HfsClient.DeleteRequest(chunks[i].uuid)))
    decreases |chunks|
  {
    if |chunks| > 0 {
      var c := chunks[0];
      CreatorCalls(chunks[1..], self);
      assert chunks == [c] + chunks[1..];
      ReplicaCallsAppend([c], chunks[1..]);
      assert ReplicaCount([c]) == 1 by {
        assert [c][1..] == [];
      }
      assert ReplicaCalls([c]) == [DeleteCall(self, HfsClient.DeleteRequest(c.uuid))];
    }
  }

  /**
   * The chunk copies inside a created file record name only the node that stored them,
   * and replication rewrites only chunk keys: a later remove dials that node's name once
   * per chunk, in order, asking it to remove a file whose id is the chunk's id. If that
   * name cannot be dialled, the first dial ends the process and nothing is removed.
   */
  lemma RemoveDialsCreatorName(st: Stores, self: string, fileId: string, clock: Clock, stream: seq<Incoming>,
                               dials: set<string>, deleteOk: bool)
    requires CreateFile(st, self, fileId, clock, stream, true).result.Success?
    ensures var created := CreateFile(st, self, fileId, clock, stream, true);
            var rm := RemoveFile(created.stores, HfsClient.DeleteRequest(fileId), true, dials, deleteOk);
            AllReceived(stream) &&
            (self in dials ==>
               rm.result == Success(GenericResponse(0, "success")) &&
               rm.calls == seq(|stream|, i requires 0 <= i < |stream| =>
                                 DeleteCall(self, HfsClient.DeleteRequest(stream[i].chunkId)))) &&
            (self !in dials && |stream| > 0 ==> rm.result == Failure(Fatal) && rm.calls == [])
  {
    var created := CreateFile(st, self, fileId, clock, stream, true);
    var f := created.result.value;
    OverlayDeleteRequest(fileId, f);
    CreatorCalls(f.chunks, self);
    var calls := ReplicaCalls(f.chunks);
    assert calls == seq(|stream|, i requires 0 <= i < |stream| =>
                          DeleteCall(self, HfsClient.DeleteRequest(stream[i].chunkId)));
    if self in dials {
      assert AllDialable(calls, dials);
      assert Dialled(calls, dials) == calls;
    } else if |stream| > 0 {
      assert !AllDialable(calls, dials) by {
        assert calls[0].dialUrl == self;
      }
    }
  }

  /** A sync leaves the file record, and so what a remove dials, as it was. */
  lemma SyncKeepsRemoveCalls(st: Stores, self: string, chunkId: string, env: Replication.SyncEnv,
                             fileId: string, dials: set<string>, deleteOk: bool)
    ensures var synced := Stores(Replication.SyncChunk(st.meta, self, chunkId, env).meta, st.disk);
            RemoveFile(synced, HfsClient.DeleteRequest(fileId), true, dials, deleteOk).calls ==
            RemoveFile(st, HfsClient.DeleteRequest(fileId), true, dials, deleteOk).calls
  {
    NamespacesDisjoint(fileId, chunkId);
    Replication.SyncKeepsOtherKeys(st.meta, self, chunkId, env, FileKey(fileId));
  }

  /**
   * A remote remove request carrying a chunk id finds no file record on the shared
   * store, so it fails and removes nothing: chunk files are never deleted.
   */
  lemma RemoteRemoveOfChunkFails(st: Stores, chunkId: string, dials: set<string>, deleteOk: bool)
    requires Range(st.meta, FileKey(chunkId)) == []
    ensures RemoveFile(st, HfsClient.DeleteRequest(chunkId), true, dials, deleteOk) ==
              Removal(st, Failure(ErrFileNotExist), [])
  {
  }

  /**
   * After a created file is removed, reading it reports that it does not exist, while
   * its chunk files are still on the disk.
   */
  lemma ReadAfterRemove(st: Stores, self: string, fileId: string, clock: Clock, stream: seq<Incoming>,
                        dials: set<string>)
    requires CreateFile(st, self, fileId, clock, stream, true).result.Success?
    requires self in dials
    ensures var created := CreateFile(st, self, fileId, clock, stream, true);
            var rm := RemoveFile(created.stores, HfsClient.DeleteRequest(fileId), true, dials, true);
            ReadFile(rm.stores, fileId, true) == ReadOutcome([], Some(ErrFileNotExist)) &&
            rm.stores.disk == created.stores.disk
  {
    var created := CreateFile(st, self, fileId, clock, stream, true);
    var f := created.result.value;
    OverlayDeleteRequest(fileId, f);
    RemoveDialsCreatorName(st, self, fileId, clock, stream, dials, true);
    RangeDelete(created.stores.meta, FileKey(fileId), FileKey(fileId));
  }
}
