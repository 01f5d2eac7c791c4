/**
 * The metadata store as the chunk server sees it: a sequence of key/value entries.
 * An exact-key read returns every entry under the key; a prefix read every entry whose
 * key starts with the prefix, in store order. A store built only by `Put` and `Delete`
 * holds at most one entry per key (`Unique`), but the readers are defined for any
 * sequence, so the "more than one entry" branches of the handlers stay reachable.
 * Values are the JSON documents of the records, with encoding abstracted to the
 * constructors of `Value` and decoding to a partial match on them.
 */
module Etcd {
  import opened Wrappers
  import opened Types

  datatype Value = Text(text: string) | FileJson(file: File) | ChunkJson(chunk: Chunk)

  datatype KeyValue = KeyValue(key: string, value: Value)

  type Store = seq<KeyValue>

  /** `utils.ToJSONString` of a chunk or file record. */
  function EncodeChunk(c: Chunk): (v: Value) { ChunkJson(c) }

  function EncodeFile(f: File): (v: Value) { FileJson(f) }

  /** `json.Unmarshal` into a chunk or file record: fails on any other document. */
  function DecodeChunk(v: Value): (c: Option<Chunk>)
  {
    if v.ChunkJson? then Some(v.chunk) else None
  }

  function DecodeFile(v: Value): (f: Option<File>)
  {
    if v.FileJson? then Some(v.file) else None
  }

  /** The raw text of a stored value; the text of an encoded record is not modelled. */
  function AsText(v: Value): (t: string)
  {
    if v.Text? then v.text else ""
  }

  lemma CodecRoundTrip(c: Chunk, f: File)
    ensures DecodeChunk(EncodeChunk(c)) == Some(c)
    ensures DecodeFile(EncodeFile(f)) == Some(f)
    ensures DecodeChunk(EncodeFile(f)).None? && DecodeFile(EncodeChunk(c)).None?
  {
  }

  predicate HasPrefix(p: string, s: string)
  {
    |p| <= |s| && s[..|p|] == p
  }

  /** An exact-key read. */
  function Range(s: Store, k: string): (r: seq<KeyValue>)
    ensures forall i :: 0 <= i < |r| ==> r[i].key == k
    ensures forall e :: e in r <==> e in s && e.key == k
  {
    if |s| == 0 then []
    else (if s[0].key == k then [s[0]] else []) + Range(s[1..], k)
  }

  /** A prefix read. */
  function RangePrefix(s: Store, p: string): (r: seq<KeyValue>)
    ensures forall e :: e in r <==> e in s && HasPrefix(p, e.key)
  {
    if |s| == 0 then []
    else (if HasPrefix(p, s[0].key) then [s[0]] else []) + RangePrefix(s[1..], p)
  }

  function Delete(s: Store, k: string): (r: Store)
    ensures forall e :: e in r <==> e in s && e.key != k
  {
    if |s| == 0 then []
    else (if s[0].key != k then [s[0]] else []) + Delete(s[1..], k)
  }

  /** An unconditional write: the key ends up with exactly the given value. */
  function Put(s: Store, k: string, v: Value): (r: Store)
  {
    Delete(s, k) + [KeyValue(k, v)]
  }

  /** At most one entry per key. */
  ghost predicate Unique(s: Store)
  {
    forall i, j :: 0 <= i < j < |s| ==> s[i].key != s[j].key
  }

  lemma {:induction false} RangeAppend(a: Store, b: Store, k: string)
    ensures Range(a + b, k) == Range(a, k) + Range(b, k)
    decreases |a|
  {
    if |a| == 0 {
      assert a + b == b;
    } else {
      assert (a + b)[1..] == a[1..] + b;
      RangeAppend(a[1..], b, k);
    }
  }

  lemma {:induction false} RangePrefixAppend(a: Store, b: Store, p: string)
    ensures RangePrefix(a + b, p) == RangePrefix(a, p) + RangePrefix(b, p)
    decreases |a|
  {
    if |a| == 0 {
      assert a + b == b;
    } else {
      assert (a + b)[1..] == a[1..] + b;
      RangePrefixAppend(a[1..], b, p);
    }
  }

  lemma {:induction false} RangeDelete(s: Store, k: string, k2: string)
    ensures Range(Delete(s, k), k2) == if k2 == k then [] else Range(s, k2)
    decreases |s|
  {
    if |s| > 0 {
      RangeDelete(s[1..], k, k2);
      RangeAppend(if s[0].key != k then [s[0]] else [], Delete(s[1..], k), k2);
    }
  }

  lemma {:induction false} RangePrefixDelete(s: Store, k: string, p: string)
    requires !HasPrefix(p, k)
    ensures RangePrefix(Delete(s, k), p) == RangePrefix(s, p)
    decreases |s|
  {
    if |s| > 0 {
      RangePrefixDelete(s[1..], k, p);
      RangePrefixAppend(if s[0].key != k then [s[0]] else [], Delete(s[1..], k), p);
    }
  }

  /** After a put, reading the key yields exactly the written entry; other keys are unchanged. */
  lemma RangePut(s: Store, k: string, v: Value, k2: string)
    ensures Range(Put(s, k, v), k2) == if k2 == k then [KeyValue(k, v)] else Range(s, k2)
  {
    RangeAppend(Delete(s, k), [KeyValue(k, v)], k2);
    RangeDelete(s, k, k2);
  }

  /** A put outside a prefix leaves the prefix read unchanged. */
  lemma RangePrefixPutOutside(s: Store, k: string, v: Value, p: string)
    requires !HasPrefix(p, k)
    ensures RangePrefix(Put(s, k, v), p) == RangePrefix(s, p)
  {
    RangePrefixAppend(Delete(s, k), [KeyValue(k, v)], p);
    RangePrefixDelete(s, k, p);
  }

  /**
   * A put inside a prefix replaces the key's entries in a prefix read by the one new
   * entry, in whatever order the read lists them.
   */
  lemma RangePrefixPutInside(s: Store, k: string, v: Value, p: string)
    requires HasPrefix(p, k)
    ensures multiset(RangePrefix(Put(s, k, v), p)) == multiset(RangePrefix(Delete(s, k), p)) + multiset{KeyValue(k, v)}
  {
    RangePrefixAppend(Delete(s, k), [KeyValue(k, v)], p);
  }

  lemma {:induction false} UniqueRange(s: Store, k: string)
    requires Unique(s)
    ensures |Range(s, k)| <= 1
    decreases |s|
  {
    if |s| > 0 {
      UniqueRange(s[1..], k);
      if s[0].key == k {
        RangeMissing(s[1..], k);
      }
    }
  }

  lemma {:induction false} RangeMissing(s: Store, k: string)
    requires forall i :: 0 <= i < |s| ==> s[i].key != k
    ensures Range(s, k) == []
    decreases |s|
  {
    if |s| > 0 {
      RangeMissing(s[1..], k);
    }
  }

  lemma {:induction false} UniquePut(s: Store, k: string, v: Value)
    requires Unique(s)
    ensures Unique(Put(s, k, v))
  {
    var d := Delete(s, k);
    UniqueDelete(s, k);
    var r := d + [KeyValue(k, v)];
    forall i, j | 0 <= i < j < |r|
      ensures r[i].key != r[j].key
    {
      if j == |r| - 1 {
        assert r[i] in d;
      }
    }
  }

  lemma {:induction false} UniqueDelete(s: Store, k: string)
    requires Unique(s)
    ensures Unique(Delete(s, k))
    decreases |s|
  {
    if |s| > 0 {
      UniqueDelete(s[1..], k);
      var rest := Delete(s[1..], k);
      var r := Delete(s, k);
      if s[0].key != k {
        assert r == [s[0]] + rest;
        forall i, j | 0 <= i < j < |r|
          ensures r[i].key != r[j].key
        {
          if i == 0 {
            assert r[j] in s[1..];
            var m :| 0 <= m < |s[1..]| && s[1..][m] == r[j];
            assert s[m + 1] == r[j];
          } else {
            assert r[i] == rest[i - 1] && r[j] == rest[j - 1];
          }
        }
      }
    }
  }
}
