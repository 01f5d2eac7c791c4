/** The configuration defaults of the node; environment overrides are not modelled. */
module Config {

  /** Capacity of one chunk in bytes (64 MiB). */
  const ChunkSize: nat := 1024 * 1024 * 64

  /** Key and path namespaces of the metadata store and of the local chunk files. */
  const FileBasePath: string := "/hfs/files/"
  const ChunkBasePath: string := "/hfs/chunks/"
  const WorkerBasePath: string := "/hfs/workers/"

  /** Configured replica count; the ingest handler does not read it (it writes the literal 1). */
  const ReplicaNum: int := 3
}

/** The keys and local paths built from the configured namespaces. */
module Keys {
  import opened Config

  /** Chunk metadata key, and also the local path of the chunk's bytes. */
  function ChunkPath(uuid: string): (p: string) { ChunkBasePath + uuid }

  function FileKey(uuid: string): (k: string) { FileBasePath + uuid }

  function WorkerKey(name: string): (k: string) { WorkerBasePath + name }

  lemma ChunkPathInjective(a: string, b: string)
    ensures ChunkPath(a) == ChunkPath(b) <==> a == b
  {
    if ChunkPath(a) == ChunkPath(b) {
      assert a == ChunkPath(a)[|ChunkBasePath|..];
      assert b == ChunkPath(b)[|ChunkBasePath|..];
    }
  }

  lemma FileKeyInjective(a: string, b: string)
    ensures FileKey(a) == FileKey(b) <==> a == b
  {
    if FileKey(a) == FileKey(b) {
      assert a == FileKey(a)[|FileBasePath|..];
      assert b == FileKey(b)[|FileBasePath|..];
    }
  }

  /** The three namespaces never share a key: they differ at the sixth character. */
  lemma NamespacesDisjoint(a: string, b: string)
    ensures FileKey(a) != ChunkPath(b)
    ensures WorkerKey(a) != ChunkPath(b)
    ensures WorkerKey(a) != FileKey(b)
  {
    assert FileKey(a)[5] == 'f';
    assert ChunkPath(b)[5] == 'c';
    assert WorkerKey(a)[5] == 'w';
    assert FileKey(b)[5] == 'f';
  }
}
