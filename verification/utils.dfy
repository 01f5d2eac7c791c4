/** The metadata lookups shared by the handlers and the replication job. */
module Utils {
  import opened Wrappers
  import opened Types
  import opened Etcd
  import opened Config
  import opened Keys

  /** Go's `(*T, error)` result: a record pointer that may be nil and an error that may be nil. */
  datatype Fetched<T> = Fetched(record: Option<T>, err: Option<Error>)

  /**
   * `utils.GetChunkMeta`: read key `ChunkPath(uuid)`. A failing read returns its error;
   * a count other than one returns nil with a nil error (the error variable is nil
   * there); a single entry is decoded, and a decode failure is returned.
   */
  function GetChunkMeta(s: Store, uuid: string, getOk: bool): (r: Fetched<Chunk>)
    ensures !getOk ==> r == Fetched(None, Some(ErrEtcd))
    ensures r == Fetched(None, None) <==> getOk && |Range(s, ChunkPath(uuid))| != 1
    ensures r.record.Some? ==>
              getOk && Range(s, ChunkPath(uuid)) == [KeyValue(ChunkPath(uuid), ChunkJson(r.record.value))]
    ensures getOk && |Range(s, ChunkPath(uuid))| == 1 && Range(s, ChunkPath(uuid))[0].value.ChunkJson? ==>
              r == Fetched(Some(Range(s, ChunkPath(uuid))[0].value.chunk), None)
    ensures r.err == Some(ErrJson) <==>
              getOk && |Range(s, ChunkPath(uuid))| == 1 && !Range(s, ChunkPath(uuid))[0].value.ChunkJson?
    ensures r.record.Some? ==> r.err.None?
  {
    if !getOk then Fetched(None, Some(ErrEtcd))
    else
      var kvs := Range(s, ChunkPath(uuid));
      if |kvs| != 1 then Fetched(None, None)
      else match DecodeChunk(kvs[0].value)
        case Some(c) => Fetched(Some(c), None)
        case None => Fetched(None, Some(ErrJson))
  }

  /** `utils.GetFileMeta`: the same lookup under key `FileKey(uuid)`. */
  function GetFileMeta(s: Store, uuid: string, getOk: bool): (r: Fetched<File>)
    ensures !getOk ==> r == Fetched(None, Some(ErrEtcd))
    ensures r == Fetched(None, None) <==> getOk && |Range(s, FileKey(uuid))| != 1
    ensures r.record.Some? ==>
              getOk && Range(s, FileKey(uuid)) == [KeyValue(FileKey(uuid), FileJson(r.record.value))]
    ensures getOk && |Range(s, FileKey(uuid))| == 1 && Range(s, FileKey(uuid))[0].value.FileJson? ==>
              r == Fetched(Some(Range(s, FileKey(uuid))[0].value.file), None)
    ensures r.err == Some(ErrJson) <==>
              getOk && |Range(s, FileKey(uuid))| == 1 && !Range(s, FileKey(uuid))[0].value.FileJson?
    ensures r.record.Some? ==> r.err.None?
  {
    if !getOk then Fetched(None, Some(ErrEtcd))
    else
      var kvs := Range(s, FileKey(uuid));
      if |kvs| != 1 then Fetched(None, None)
      else match DecodeFile(kvs[0].value)
        case Some(f) => Fetched(Some(f), None)
        case None => Fetched(None, Some(ErrJson))
  }

  /**
   * `utils.GetWorkersMeta`: one element per entry under the worker namespace, in store
   * order, holding the entry's value (the worker's address), not its key.
   */
  function GetWorkersMeta(s: Store, getOk: bool): (r: Result<seq<string>, Error>)
    ensures !getOk ==> r == Failure(ErrEtcd)
    ensures getOk ==> r.Success? && |r.value| == |RangePrefix(s, WorkerBasePath)|
    ensures getOk ==> forall i :: 0 <= i < |r.value| ==>
              r.value[i] == AsText(RangePrefix(s, WorkerBasePath)[i].value)
  {
    if !getOk then Failure(ErrEtcd)
    else
      var kvs := RangePrefix(s, WorkerBasePath);
      Success(seq(|kvs|, i requires 0 <= i < |kvs| => AsText(kvs[i].value)))
  }

  /** A chunk record written under its key is read back as written. */
  lemma GetChunkAfterPut(s: Store, uuid: string, c: Chunk)
    ensures GetChunkMeta(Put(s, ChunkPath(uuid), EncodeChunk(c)), uuid, true) == Fetched(Some(c), None)
  {
    RangePut(s, ChunkPath(uuid), EncodeChunk(c), ChunkPath(uuid));
  }

  lemma GetFileAfterPut(s: Store, uuid: string, f: File)
    ensures GetFileMeta(Put(s, FileKey(uuid), EncodeFile(f)), uuid, true) == Fetched(Some(f), None)
  {
    RangePut(s, FileKey(uuid), EncodeFile(f), FileKey(uuid));
  }

  /** The quirk: a record that is absent is reported as a nil record with a nil error. */
  lemma MissingRecordIsNilWithoutError(s: Store, uuid: string)
    requires forall i :: 0 <= i < |s| ==> s[i].key != FileKey(uuid) && s[i].key != ChunkPath(uuid)
    ensures GetFileMeta(s, uuid, true) == Fetched(None, None)
    ensures GetChunkMeta(s, uuid, true) == Fetched(None, None)
  {
    RangeMissing(s, FileKey(uuid));
    RangeMissing(s, ChunkPath(uuid));
  }
}
