/**
 * The client side of the protocol: `Upload` cuts a local file into messages of at most
 * one chunk, `Download` writes the received messages to a local file, and `Delete`
 * builds the request of a remove call.
 */
module HfsClient {
  import opened Wrappers
  import opened Seqs
  import opened Types
  import opened Config
  import Paths
  import Files

  /** The successive reads of the file through a buffer of `ChunkSize` bytes. */
  function Segment(data: seq<byte>): (blocks: seq<seq<byte>>)
    ensures Flatten(blocks) == data
    ensures forall i :: 0 <= i < |blocks| ==> 0 < |blocks[i]| <= ChunkSize
    ensures forall i :: 0 <= i < |blocks| - 1 ==> |blocks[i]| == ChunkSize
    ensures |data| == 0 <==> |blocks| == 0
    decreases |data|
  {
    if |data| == 0 then []
    else
      var n := Min(|data|, ChunkSize);
      var rest := Segment(data[n..]);
      assert data == data[..n] + data[n..];
      [data[..n]] + rest
  }

  /** Every block tagged with the same name. */
  function Tag(blocks: seq<seq<byte>>, name: string): (ms: seq<FileChunkData>)
    ensures |ms| == |blocks|
    ensures forall i :: 0 <= i < |ms| ==> ms[i] == FileChunkData(blocks[i], name)
  {
    seq(|blocks|, i requires 0 <= i < |blocks| => FileChunkData(blocks[i], name))
  }

  lemma DatasOfTag(blocks: seq<seq<byte>>, name: string)
    ensures Datas(Tag(blocks, name)) == blocks
  {
  }

  /**
   * `hfsclient.Upload`: the messages sent on the ingest stream. Opening a missing local
   * file fails, and so may opening the stream (`streamOk`).
   */
  function Upload(local: Files.Disk, filePath: string, streamOk: bool): (r: Result<seq<FileChunkData>, Error>)
    ensures filePath !in local ==> r == Failure(ErrOpen)
    ensures r.Success? <==> filePath in local && streamOk
    ensures r.Success? ==> Payload(r.value) == local[filePath]
    ensures r.Success? ==> (|r.value| == 0 <==> |local[filePath]| == 0)
    ensures r.Success? ==> forall i :: 0 <= i < |r.value| ==>
              0 < |r.value[i].data| <= ChunkSize && r.value[i].msg == Paths.BaseName(filePath)
  {
    if filePath !in local then Failure(ErrOpen)
    else if !streamOk then Failure(ErrTransport)
    else
      var blocks := Segment(local[filePath]);
      DatasOfTag(blocks, Paths.BaseName(filePath));
      Success(Tag(blocks, Paths.BaseName(filePath)))
  }

  /** What the client's stream receive returns: a message, or an error. */
  datatype Recv = Got(chunk: FileChunkData) | RecvError

  /** The messages of a stream that ends normally after `ms`. */
  function Received(ms: seq<FileChunkData>): (rs: seq<Recv>)
    ensures |rs| == |ms|
    ensures forall i :: 0 <= i < |rs| ==> rs[i] == Got(ms[i])
  {
    seq(|ms|, i requires 0 <= i < |ms| => Got(ms[i]))
  }

  /** How many receives succeed before the first error (all of them if none fails). */
  function Intact(rs: seq<Recv>): (k: nat)
    ensures k <= |rs|
    ensures forall i :: 0 <= i < k ==> rs[i].Got?
    ensures k < |rs| ==> rs[k].RecvError?
    decreases |rs|
  {
    if |rs| == 0 || rs[0].RecvError? then 0 else 1 + Intact(rs[1..])
  }

  lemma PayloadCons(rs: seq<Recv>)
    requires |rs| > 0 && forall i :: 0 <= i < |rs| ==> rs[i].Got?
    ensures Payload(Msgs(rs)) == rs[0].chunk.data + Payload(Msgs(rs[1..]))
  {
    assert Datas(Msgs(rs)) == [rs[0].chunk.data] + Datas(Msgs(rs[1..]));
  }

  /**
   * The receive loop of `Download`: append each payload, remember the last name. A
   * failing receive ends the loop with an error, keeping what was written before it.
   */
  function ReceiveAll(rs: seq<Recv>, content: seq<byte>, name: string): (r: (seq<byte>, Result<string, Error>))
    ensures (forall i :: 0 <= i < |rs| ==> rs[i].Got?) ==>
              r.1.Success? && r.0 == content + Payload(Msgs(rs))
              && r.1.value == (if |rs| == 0 then name else rs[|rs| - 1].chunk.msg)
    ensures (exists i :: 0 <= i < |rs| && rs[i].RecvError?) ==> r.1 == Failure(ErrTransport)
    decreases |rs|
  {
    if |rs| == 0 then (content, Success(name))
    else match rs[0]
      case RecvError => (content, Failure(ErrTransport))
      case Got(m) =>
        var r := ReceiveAll(rs[1..], content + m.data, m.msg);
        assert (forall i :: 0 <= i < |rs| ==> rs[i].Got?) ==>
                 Datas(Msgs(rs))[0] == m.data && Datas(Msgs(rs))[1..] == Datas(Msgs(rs[1..]));
        assert (exists i :: 0 <= i < |rs| && rs[i].RecvError?) ==>
                 exists i :: 0 <= i < |rs[1..]| && rs[1..][i].RecvError?;
        r
  }

  /** The loop writes exactly the payloads received before the first error. */
  lemma {:induction false} ReceiveAllContent(rs: seq<Recv>, content: seq<byte>, name: string)
    ensures ReceiveAll(rs, content, name).0 == content + Payload(Msgs(rs[..Intact(rs)]))
    decreases |rs|
  {
    if |rs| > 0 && rs[0].Got? {
      var m := rs[0].chunk;
      ReceiveAllContent(rs[1..], content + m.data, m.msg);
      var k := Intact(rs);
      assert rs[..k][1..] == rs[1..][..k - 1];
      PayloadCons(rs[..k]);
    }
  }

  /** The messages of a stream in which every receive succeeded. */
  function Msgs(rs: seq<Recv>): (ms: seq<FileChunkData>)
    requires forall i :: 0 <= i < |rs| ==> rs[i].Got?
    ensures |ms| == |rs|
    ensures forall i :: 0 <= i < |ms| ==> ms[i] == rs[i].chunk
  {
    seq(|rs|, i requires 0 <= i < |rs| => rs[i].chunk)
  }

  /**
   * `hfsclient.Download`: open the read stream, truncate-create the local file named after
   * the file id, write every received payload, and report the last message's name. A
   * failing receive returns its error, leaving the payloads received before it in the file.
   */
  function Download(local: Files.Disk, fileUuid: string, streamOk: bool, openOk: bool, rs: seq<Recv>)
    : (r: (Files.Disk, Result<string, Error>))
    ensures !streamOk || !openOk ==> r.0 == local && r.1.Failure?
    ensures streamOk && openOk ==> fileUuid in r.0
    ensures streamOk && openOk && (forall i :: 0 <= i < |rs| ==> rs[i].Got?) ==>
              r.0[fileUuid] == Payload(Msgs(rs))
              && r.1 == Success(if |rs| == 0 then "" else rs[|rs| - 1].chunk.msg)
    ensures streamOk && openOk ==> r.0[fileUuid] == Payload(Msgs(rs[..Intact(rs)]))
    ensures streamOk && openOk && (exists i :: 0 <= i < |rs| && rs[i].RecvError?) ==> r.1 == Failure(ErrTransport)
    ensures forall p :: p != fileUuid ==> (p in r.0 <==> p in local) && (p in local ==> r.0[p] == local[p])
  {
    if !streamOk then (local, Failure(ErrTransport))
    else if !openOk then (local, Failure(ErrOpen))
    else
      ReceiveAllContent(rs, [], "");
      var (content, res) := ReceiveAll(rs, [], "");
      (local[fileUuid := content], res)
  }

  /** `hfsclient.Delete`: the remove request carries only the file id. */
  function DeleteRequest(fileUuid: string): (f: File)
    ensures f.uuid == fileUuid && f.chunks == [] && f.fileName == ""
    ensures f.(uuid := "") == EmptyFile
  {
    EmptyFile.(uuid := fileUuid)
  }
}
