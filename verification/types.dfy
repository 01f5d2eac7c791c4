/** The protocol messages exchanged by client and chunk servers, and the errors the handlers report. */
module Types {
  import opened Seqs

  newtype byte = x: int | 0 <= x < 256

  /** Chunk metadata: `size` is the configured capacity, `used` the payload length. */
  datatype Chunk = Chunk(uuid: string, size: int, used: int, replicas: seq<string>, fileUuid: string)

  /** File metadata: the chunks are embedded copies taken when the file was ingested. */
  datatype File = File(
    uuid: string,
    fileName: string,
    size: int,
    replicaNum: int,
    createdAt: int,
    updatedAt: int,
    chunks: seq<Chunk>)

  /** One stream message: a payload and a name (a file name, or a chunk id for a replica push). */
  datatype FileChunkData = FileChunkData(data: seq<byte>, msg: string)

  datatype GenericResponse = GenericResponse(code: int, msg: string)

  datatype Error =
    | ErrFailedWrite      // local write or stream receive failed
    | ErrFailedWriteMeta  // a metadata write failed
    | ErrFailedGetFile    // metadata read failed, or the record is not unique
    | ErrFileNotExist     // no record under the key
    | ErrEtcd             // an error returned by the metadata store
    | ErrJson             // a stored value did not decode
    | ErrOpen             // a local file could not be opened
    | ErrWrite            // a local write failed
    | ErrNotExist         // a local file to remove is missing
    | ErrRemove           // an existing local file could not be removed
    | ErrTransport        // a remote call failed
    | Panic               // a Go runtime panic (slice bounds) that ends the process
    | Fatal               // a fatal log, which also ends the process

  /** A File with every field at its zero value except the ones set explicitly. */
  const EmptyFile: File := File("", "", 0, 0, 0, 0, [])

  function SumUsed(chunks: seq<Chunk>): (total: int)
  {
    if |chunks| == 0 then 0 else chunks[0].used + SumUsed(chunks[1..])
  }

  lemma {:induction false} SumUsedAppend(a: seq<Chunk>, b: seq<Chunk>)
    ensures SumUsed(a + b) == SumUsed(a) + SumUsed(b)
    decreases |a|
  {
    if |a| == 0 {
      assert a + b == b;
    } else {
      assert (a + b)[1..] == a[1..] + b;
      SumUsedAppend(a[1..], b);
    }
  }

  function Datas(ms: seq<FileChunkData>): (ds: seq<seq<byte>>)
  {
    seq(|ms|, i requires 0 <= i < |ms| => ms[i].data)
  }

  /** The bytes carried by a sequence of stream messages, in order. */
  function Payload(ms: seq<FileChunkData>): (bytes: seq<byte>)
  {
    Flatten(Datas(ms))
  }
}
