/**
 * The background duties of a chunk server: the watcher that decides which chunk
 * records to replicate, the replication of one chunk, and one round of the
 * keep-alive registration. Remote calls are outcome parameters.
 */
module Replication {
  import opened Wrappers
  import opened Seqs
  import opened Types
  import opened Config
  import opened Keys
  import opened Etcd
  import opened Utils
  import Selection
  import ChunkServer

  /*
   * ChunkWatcher.
   */

  /** A change under the chunk namespace, as the watch delivers it. */
  datatype WatchEvent = PutEvent(kv: KeyValue) | DeleteEvent(kv: KeyValue)

  /**
   * The watcher's answer to one event: the chunk to replicate, if any. Only a put of a
   * decodable record whose replica list is exactly this node starts a sync.
   */
  function WatchDecision(self: string, ev: WatchEvent): (r: Option<string>)
    ensures r.Some? <==>
              ev.PutEvent? && DecodeChunk(ev.kv.value).Some? && DecodeChunk(ev.kv.value).value.replicas == [self]
    ensures r.Some? ==> r.value == DecodeChunk(ev.kv.value).value.uuid
  {
    match ev
    case DeleteEvent(_) => None
    case PutEvent(kv) =>
      match DecodeChunk(kv.value)
      case None => None
      case Some(c) =>
        if |c.replicas| != 1 then None
        else if c.replicas[0] != self then None
        else Some(c.uuid)
  }

  /** The syncs the watcher starts for a sequence of events: at most one per event, in order. */
  function Watch(self: string, events: seq<WatchEvent>): (started: seq<string>)
    ensures |started| <= |events|
    ensures forall id :: id in started <==> exists i :: 0 <= i < |events| && WatchDecision(self, events[i]) == Some(id)
    ensures |events| == 1 ==>
              started == (if WatchDecision(self, events[0]).Some? then [WatchDecision(self, events[0]).value] else [])
    decreases |events|
  {
    if |events| == 0 then []
    else
      var rest := Watch(self, events[1..]);
      assert forall id :: (exists i :: 0 <= i < |events[1..]| && WatchDecision(self, events[1..][i]) == Some(id)) <==>
                          (exists i :: 1 <= i < |events| && WatchDecision(self, events[i]) == Some(id)) by {
        forall id | exists i :: 1 <= i < |events| && WatchDecision(self, events[i]) == Some(id)
          ensures exists i :: 0 <= i < |events[1..]| && WatchDecision(self, events[1..][i]) == Some(id)
        {
          var i :| 1 <= i < |events| && WatchDecision(self, events[i]) == Some(id);
          assert events[1..][i - 1] == events[i];
        }
      }
      match WatchDecision(self, events[0])
      case Some(id) => [id] + rest
      case None => rest
  }

  /** The syncs for a batch of events followed by another are those of the first, then those of the second. */
  lemma {:induction false} WatchAppend(self: string, a: seq<WatchEvent>, b: seq<WatchEvent>)
    ensures Watch(self, a + b) == Watch(self, a) + Watch(self, b)
    decreases |a|
  {
    if |a| == 0 {
      assert a + b == b;
    } else {
      assert (a + b)[0] == a[0];
      assert (a + b)[1..] == a[1..] + b;
      WatchAppend(self, a[1..], b);
    }
  }

  /** Every chunk `CreateFile` records on a node makes that node, and no other, replicate it. */
  lemma CreatedChunkStartsSync(self: string, other: string, fileId: string, m: FileChunkData, id: string)
    requires other != self
    ensures var ev := PutEvent(KeyValue(ChunkPath(id), EncodeChunk(ChunkServer.NewChunk(self, fileId, m, id))));
            WatchDecision(self, ev) == Some(id) && WatchDecision(other, ev) == None
  {
  }

  /*
   * SyncChunk.
   */

  /**
   * How the environment answers one sync: the three metadata reads, the shuffle's
   * random draws, which selected nodes' addresses resolve, which resolved addresses can
   * be dialled, which nodes accept the chunk, and the final put.
   */
  datatype SyncEnv = SyncEnv(
    getChunkOk: bool, getFileOk: bool, getWorkersOk: bool, rolls: seq<nat>,
    resolves: set<string>, dials: set<string>, accepts: set<string>, putOk: bool)

  /** How a sync ended. `Crashed` is a nil dereference or a fatal log, which ends the process. */
  datatype SyncOutcome =
    | FetchFailed(err: Error)
    | Crashed
    | NoTarget
    | NoneSucceeded
    | Synced(chunk: Chunk)

  datatype SyncResult = SyncResult(meta: Store, outcome: SyncOutcome)

  datatype Pushed = Pushed(succeeded: seq<string>) | DialAborted

  /**
   * The push loop: a node whose address does not resolve is skipped, one whose address
   * cannot be dialled aborts the process, and the others count if they accept the chunk.
   */
  function PushAll(targets: seq<string>, env: SyncEnv): (r: Pushed)
    ensures r.DialAborted? <==> DialFails(targets, env)
    ensures r.Pushed? ==> r.succeeded == Filter(targets, env.resolves * env.accepts)
    decreases |targets|
  {
    if |targets| == 0 then Pushed([])
    else
      var node := targets[0];
      var rest := PushAll(targets[1..], env);
      assert (exists i :: 0 <= i < |targets[1..]| && targets[1..][i] in env.resolves && targets[1..][i] !in env.dials) <==>
             (exists i :: 1 <= i < |targets| && targets[i] in env.resolves && targets[i] !in env.dials) by {
        if exists i :: 1 <= i < |targets| && targets[i] in env.resolves && targets[i] !in env.dials {
          var i :| 1 <= i < |targets| && targets[i] in env.resolves && targets[i] !in env.dials;
          assert targets[1..][i - 1] == targets[i];
        }
      }
      if node !in env.resolves then rest
      else if node !in env.dials then DialAborted
      else match rest
        case DialAborted => DialAborted
        case Pushed(succ) => Pushed(if node in env.accepts then [node] + succ else succ)
  }

  /** Whether pushing to `targets` reaches a resolved node that cannot be dialled, a fatal exit. */
  predicate DialFails(targets: seq<string>, env: SyncEnv)
  {
    exists i :: 0 <= i < |targets| && targets[i] in env.resolves && targets[i] !in env.dials
  }

  /**
   * `SyncChunk`: read the chunk record, its file record and the worker list, pick up to
   * the file's replica count of other workers, push the chunk to them, and append the
   * nodes that took it to the chunk's replica list. A missing chunk record is
   * dereferenced at once; a missing file record only after the worker list is read.
   */
  function SyncChunk(meta: Store, self: string, uuid: string, env: SyncEnv): (r: SyncResult)
    ensures !r.outcome.Synced? ==> r.meta == meta
    ensures r.outcome.Synced? ==>
              GetChunkMeta(meta, uuid, true).record.Some? &&
              var before := GetChunkMeta(meta, uuid, true).record.value;
              var after := r.outcome.chunk;
              after == before.(replicas := after.replicas) &&
              |before.replicas| < |after.replicas| && after.replicas[..|before.replicas|] == before.replicas &&
              (forall n :: n in after.replicas[|before.replicas|..] ==> n in env.resolves && n in env.accepts) &&
              r.meta == Put(meta, ChunkPath(uuid), EncodeChunk(after))
    ensures var ch := GetChunkMeta(meta, uuid, env.getChunkOk);
            (ch.err.Some? ==> r.outcome == FetchFailed(ch.err.value)) &&
            (ch.err.None? && ch.record.None? ==> r.outcome == Crashed)
    ensures var ch := GetChunkMeta(meta, uuid, env.getChunkOk);
            ch.record.Some? ==>
              var fl := GetFileMeta(meta, ch.record.value.fileUuid, env.getFileOk);
              (fl.err.Some? ==> r.outcome == FetchFailed(fl.err.value)) &&
              (fl.err.None? && !env.getWorkersOk ==> r.outcome == FetchFailed(ErrEtcd)) &&
              (fl.err.None? && fl.record.None? && env.getWorkersOk ==> r.outcome == Crashed)
    ensures var ch := GetChunkMeta(meta, uuid, env.getChunkOk);
            ch.record.Some? && GetFileMeta(meta, ch.record.value.fileUuid, env.getFileOk).record.Some? &&
            env.getWorkersOk ==>
              var before := ch.record.value;
              var file := GetFileMeta(meta, before.fileUuid, env.getFileOk).record.value;
              var targets := Selection.Random(GetWorkersMeta(meta, true).value, self, file.replicaNum, env.rolls);
              var succ := Filter(targets, env.resolves * env.accepts);
              (targets == [] ==> r.outcome == NoTarget) &&
              (DialFails(targets, env) ==> r.outcome == Crashed) &&
              (targets != [] && !DialFails(targets, env) && succ == [] ==> r.outcome == NoneSucceeded) &&
              (!DialFails(targets, env) && succ != [] ==>
                 r.outcome == (if env.putOk then Synced(before.(replicas := before.replicas + succ)) else Crashed))
  {
    var ch := GetChunkMeta(meta, uuid, env.getChunkOk);
    if ch.err.Some? then SyncResult(meta, FetchFailed(ch.err.value))
    else if ch.record.None? then SyncResult(meta, Crashed)
    else
      var c := ch.record.value;
      var fl := GetFileMeta(meta, c.fileUuid, env.getFileOk);
      if fl.err.Some? then SyncResult(meta, FetchFailed(fl.err.value))
      else
        match GetWorkersMeta(meta, env.getWorkersOk)
        case Failure(e) => SyncResult(meta, FetchFailed(e))
        case Success(workers) =>
          if fl.record.None? then SyncResult(meta, Crashed)
          else
            var targets := Selection.Random(workers, self, fl.record.value.replicaNum, env.rolls);
            if |targets| == 0 then SyncResult(meta, NoTarget)
            else match PushAll(targets, env)
              case DialAborted => SyncResult(meta, Crashed)
              case Pushed(succ) =>
                if |succ| < 1 then SyncResult(meta, NoneSucceeded)
                else
                  var updated := c.(replicas := c.replicas + succ);
                  assert updated.replicas[|c.replicas|..] == succ;
                  if !env.putOk then SyncResult(meta, Crashed)
                  else SyncResult(Put(meta, ChunkPath(uuid), EncodeChunk(updated)), Synced(updated))
  }

  /**
   * A sync whose file record is missing reads the worker list before it dereferences the
   * nil record, so a failing worker read ends it with that error instead.
   */
  lemma MissingFileCrashesAfterWorkers(meta: Store, self: string, uuid: string, env: SyncEnv)
    requires env.getChunkOk && env.getFileOk
    requires GetChunkMeta(meta, uuid, true).record.Some?
    requires |Range(meta, FileKey(GetChunkMeta(meta, uuid, true).record.value.fileUuid))| == 0
    ensures SyncChunk(meta, self, uuid, env).outcome == (if env.getWorkersOk then Crashed else FetchFailed(ErrEtcd))
  {
  }

  /**
   * Files are created with a replica count of 1, so `Random` selects nobody and a sync
   * whose reads succeed stops without writing: replication never happens for them.
   */
  lemma SingleReplicaNeverSyncs(meta: Store, self: string, uuid: string, env: SyncEnv)
    requires env.getChunkOk && env.getFileOk && env.getWorkersOk
    requires GetChunkMeta(meta, uuid, true).record.Some?
    requires var c := GetChunkMeta(meta, uuid, true).record.value;
             GetFileMeta(meta, c.fileUuid, true).record.Some? &&
             GetFileMeta(meta, c.fileUuid, true).record.value.replicaNum <= 1
    ensures SyncChunk(meta, self, uuid, env) == SyncResult(meta, NoTarget)
  {
    var c := GetChunkMeta(meta, uuid, true).record.value;
    var f := GetFileMeta(meta, c.fileUuid, true).record.value;
    Selection.RandomDegenerate(GetWorkersMeta(meta, true).value, self, f.replicaNum, env.rolls);
  }

  /**
   * The record a sync writes has more than one replica, so the put it causes does not
   * start another sync anywhere.
   */
  lemma SyncedRecordStartsNoSync(meta: Store, self: string, uuid: string, env: SyncEnv, node: string)
    requires GetChunkMeta(meta, uuid, true).record.Some?
    requires |GetChunkMeta(meta, uuid, true).record.value.replicas| >= 1
    ensures var r := SyncChunk(meta, self, uuid, env);
            r.outcome.Synced? ==>
              WatchDecision(node, PutEvent(KeyValue(ChunkPath(uuid), EncodeChunk(r.outcome.chunk)))) == None
  {
  }

  /** After a sync, the chunk record reads back with the extended replica list. */
  lemma SyncedRecordReadsBack(meta: Store, self: string, uuid: string, env: SyncEnv)
    ensures var r := SyncChunk(meta, self, uuid, env);
            r.outcome.Synced? ==> GetChunkMeta(r.meta, uuid, true) == Fetched(Some(r.outcome.chunk), None)
  {
    var r := SyncChunk(meta, self, uuid, env);
    if r.outcome.Synced? {
      GetChunkAfterPut(meta, uuid, r.outcome.chunk);
    }
  }

  /** A sync writes only its chunk's key: file records, and the chunk copies embedded in them, stay. */
  lemma SyncKeepsOtherKeys(meta: Store, self: string, uuid: string, env: SyncEnv, k: string)
    requires k != ChunkPath(uuid)
    ensures Range(SyncChunk(meta, self, uuid, env).meta, k) == Range(meta, k)
  {
    var r := SyncChunk(meta, self, uuid, env);
    if r.outcome.Synced? {
      RangePut(meta, ChunkPath(uuid), EncodeChunk(r.outcome.chunk), k);
    }
  }

  /** A sync that finds no chunk record without a read error dereferences nil. */
  lemma MissingChunkCrashes(meta: Store, self: string, uuid: string, env: SyncEnv)
    requires env.getChunkOk && |Range(meta, ChunkPath(uuid))| == 0
    ensures SyncChunk(meta, self, uuid, env) == SyncResult(meta, Crashed)
  {
  }

  /*
   * KeepAlive.
   */

  /**
   * One round of `KeepAlive`: with a granted lease, register the node's address under
   * its name. A failed grant or put leaves the store as it was.
   */
  function KeepAliveStep(meta: Store, name: string, addr: string, grantOk: bool, putOk: bool): (r: Store)
    ensures !(grantOk && putOk) ==> r == meta
    ensures grantOk && putOk ==> Range(r, WorkerKey(name)) == [KeyValue(WorkerKey(name), Text(addr))]
    ensures forall k :: k != WorkerKey(name) ==> Range(r, k) == Range(meta, k)
  {
    if !grantOk || !putOk then meta
    else
      RangePut(meta, WorkerKey(name), Text(addr), WorkerKey(name));
      forall k | k != WorkerKey(name) ensures Range(Put(meta, WorkerKey(name), Text(addr)), k) == Range(meta, k) {
        RangePut(meta, WorkerKey(name), Text(addr), k);
      }
      Put(meta, WorkerKey(name), Text(addr))
  }

  /**
   * A registered node appears in the worker list by its address, not its name, in place
   * of whatever its name was registered with before.
   */
  lemma RegisteredAddressListed(meta: Store, name: string, addr: string)
    ensures var workers := GetWorkersMeta(KeepAliveStep(meta, name, addr, true, true), true).value;
            addr in workers &&
            |workers| == |RangePrefix(Delete(meta, WorkerKey(name)), WorkerBasePath)| + 1
  {
    var after := KeepAliveStep(meta, name, addr, true, true);
    RangePrefixPutInside(meta, WorkerKey(name), Text(addr), WorkerBasePath);
    var kvs := RangePrefix(after, WorkerBasePath);
    assert KeyValue(WorkerKey(name), Text(addr)) in multiset(kvs);
    var i :| 0 <= i < |kvs| && kvs[i] == KeyValue(WorkerKey(name), Text(addr));
    assert GetWorkersMeta(after, true).value[i] == addr;
  }

  /**
   * The selection excludes a node by comparing the worker list with its name; a node
   * whose name differs from its address is not excluded, so when it is the only worker
   * it selects itself.
   */
  lemma SelfNotExcludedByName(name: string, addr: string, num: int, rolls: seq<nat>)
    requires name != addr && num > 1
    ensures Selection.Random([addr], name, num, rolls) == [addr]
  {
    Selection.RandomWithoutSelf([addr], name, num, rolls);
    Selection.RandomSubMultiset([addr], name, num, rolls);
    var r := Selection.Random([addr], name, num, rolls);
    assert |r| == 1;
    assert r[0] in multiset(r);
  }
}
