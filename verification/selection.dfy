/**
 * `selection.Random`: choose up to `num` replication targets from the live workers,
 * leaving out the caller itself. The Go function works on the caller's slice in place:
 * it swaps the first occurrence of `itself` to the last slot and drops that slot, then
 * shuffles the rest with `rand.Shuffle` and returns a prefix. Randomness is a parameter:
 * `rolls` supplies the index choices of the shuffle (a missing roll reads as 0), so each
 * `rolls` value fixes one permutation.
 */
module Selection {
  import opened Seqs

  /** Position of the first occurrence of `x`, or `|s|` if there is none. */
  function FirstIndex<T(==)>(s: seq<T>, x: T): (i: nat)
    ensures i <= |s|
    ensures i < |s| ==> s[i] == x
    ensures forall k :: 0 <= k < i ==> s[k] != x
  {
    if |s| == 0 then 0
    else if s[0] == x then 0
    else 1 + FirstIndex(s[1..], x)
  }

  function Swap<T>(s: seq<T>, i: nat, j: nat): (r: seq<T>)
    requires i < |s| && j < |s|
    ensures |r| == |s|
    ensures multiset(r) == multiset(s)
  {
    s[i := s[j]][j := s[i]]
  }

  function Roll(rolls: seq<nat>, k: nat): (roll: nat)
  {
    if k < |rolls| then rolls[k] else 0
  }

  /** The index `rand.Shuffle` swaps position `i` with: drawn from `[0, i]`. */
  function Pick(rolls: seq<nat>, n: nat, i: nat): (j: nat)
    requires 0 < i < n
    ensures j <= i
  {
    Roll(rolls, n - 1 - i) % (i + 1)
  }

  /**
   * The slice while `rand.Shuffle(n, swap)` runs: the swaps for positions `n - 1`
   * down to `i + 1` are done, each exchanging position `k` with `Pick(rolls, n, k)`.
   */
  function ShuffleState<T>(s: seq<T>, n: nat, i: nat, rolls: seq<nat>): (r: seq<T>)
    requires i < n <= |s|
    ensures |r| == |s|
    ensures multiset(r[..n]) == multiset(s[..n])
    ensures r[n..] == s[n..]
    decreases n - i
  {
    if i == n - 1 then s
    else
      var t := ShuffleState(s, n, i + 1, rolls);
      var u := Swap(t, i + 1, Pick(rolls, n, i + 1));
      assert u[..n] == Swap(t[..n], i + 1, Pick(rolls, n, i + 1));
      assert u[n..] == t[n..];
      u
  }

  /** `rand.Shuffle` applied to the first `n` elements. */
  function Shuffle<T>(s: seq<T>, n: nat, rolls: seq<nat>): (r: seq<T>)
    requires n <= |s|
    ensures |r| == |s|
    ensures multiset(r[..n]) == multiset(s[..n])
    ensures r[n..] == s[n..]
  {
    if n == 0 then s else ShuffleState(s, n, 0, rolls)
  }

  /** The caller's slice after `Random`, and the slice `Random` returns. */
  datatype Selected<T> = Selected(backing: seq<T>, result: seq<T>)

  function RandomEffect<T(==)>(available: seq<T>, itself: T, num: int, rolls: seq<nat>): (e: Selected<T>)
  {
    if num <= 1 then Selected(available, [])
    else
      var i := FirstIndex(available, itself);
      var kept := if i < |available| then |available| - 1 else |available|;
      var excluded := if i < |available| then Swap(available, i, |available| - 1) else available;
      var shuffled := Shuffle(excluded, kept, rolls);
      Selected(shuffled, shuffled[..Min(num, kept)])
  }

  /** The targets `Random` returns. */
  function Random<T(==)>(available: seq<T>, itself: T, num: int, rolls: seq<nat>): (picked: seq<T>)
  {
    RandomEffect(available, itself, num, rolls).result
  }

  /**
   * The self-exclusion loop of `selection.Random` on an array holding the caller's slice:
   * a linear search that swaps the first occurrence of `itself` into the last slot and
   * keeps only the slots before it.
   */
  method ExcludeInPlace<T(==)>(available: seq<T>, itself: T) returns (excluded: seq<T>, kept: nat)
    ensures FirstIndex(available, itself) < |available| ==>
              kept == |available| - 1 && excluded == Swap(available, FirstIndex(available, itself), |available| - 1)
    ensures FirstIndex(available, itself) == |available| ==> kept == |available| && excluded == available
  {
    var a := new T[|available|](k requires 0 <= k < |available| => available[k]);
    assert a[..] == available;
    var i := 0;
    while i < a.Length && a[i] != itself
      invariant 0 <= i <= a.Length
      invariant forall k :: 0 <= k < i ==> available[k] != itself
    {
      i := i + 1;
    }
    kept := a.Length;
    if i < a.Length {
      var last := a.Length - 1;
      var tmp := a[i];
      a[i] := a[last];
      a[last] := tmp;
      kept := last;
    }
    excluded := a[..];
  }

  /** One more swap of `rand.Shuffle`: position `i` with its pick. */
  lemma ShuffleStateStep<T>(s: seq<T>, n: nat, i: nat, rolls: seq<nat>)
    requires 0 < i < n <= |s|
    ensures ShuffleState(s, n, i - 1, rolls) == Swap(ShuffleState(s, n, i, rolls), i, Pick(rolls, n, i))
  {
  }

  /** `rand.Shuffle(kept, swap)` on an array: the Fisher-Yates swaps from the top slot down. */
  method ShuffleInPlace<T>(s: seq<T>, kept: nat, rolls: seq<nat>) returns (r: seq<T>)
    requires kept <= |s|
    ensures r == Shuffle(s, kept, rolls)
  {
    var a := new T[|s|](k requires 0 <= k < |s| => s[k]);
    assert a[..] == s;
    if kept > 0 {
      var i: nat := kept - 1;
      while i > 0
        invariant 0 <= i < kept <= a.Length == |s|
        invariant a[..] == ShuffleState(s, kept, i, rolls)
        decreases i
      {
        var j := Pick(rolls, kept, i);
        ShuffleStateStep(s, kept, i, rolls);
        a[i], a[j] := a[j], a[i];
        i := i - 1;
      }
    }
    r := a[..];
  }

  /**
   * `selection.Random` as the Go code runs it: exclusion, shuffle, then a prefix of
   * `min(num, kept)` slots. `backing` is the caller's slice afterwards.
   */
  method RandomInPlace<T(==)>(available: seq<T>, itself: T, num: int, rolls: seq<nat>)
    returns (backing: seq<T>, result: seq<T>)
    ensures Selected(backing, result) == RandomEffect(available, itself, num, rolls)
  {
    if num <= 1 {
      return available, [];
    }
    var excluded, kept := ExcludeInPlace(available, itself);
    backing := ShuffleInPlace(excluded, kept, rolls);
    var m := num;
    if kept < m {
      m := kept;
    }
    result := backing[..m];
  }

  /** A count of at most one selects nothing, whatever the candidates. */
  lemma RandomDegenerate<T>(available: seq<T>, itself: T, num: int, rolls: seq<nat>)
    requires num <= 1
    ensures Random(available, itself, num, rolls) == []
    ensures RandomEffect(available, itself, num, rolls).backing == available
  {
  }

  /** Moving the first occurrence of `x` to the last slot leaves the other elements before it. */
  lemma ExcludeFirst<T>(s: seq<T>, x: T)
    requires x in s
    ensures FirstIndex(s, x) < |s|
    ensures var t := Swap(s, FirstIndex(s, x), |s| - 1);
            t[|s| - 1] == x && multiset(t[..|s| - 1]) == multiset(s) - multiset{x}
  {
    var n := |s|;
    var i := FirstIndex(s, x);
    assert i < n by {
      var k :| 0 <= k < n && s[k] == x;
    }
    var t := Swap(s, i, n - 1);
    DropLast(t, s, x);
  }

  /** Dropping the last slot of a rearrangement of `s` that ends in `x` leaves `s` without one `x`. */
  lemma DropLast<T>(t: seq<T>, s: seq<T>, x: T)
    requires |t| > 0 && t[|t| - 1] == x && multiset(t) == multiset(s)
    ensures multiset(t[..|t| - 1]) == multiset(s) - multiset{x}
  {
    LastSlot(t);
  }

  lemma LastSlot<T>(t: seq<T>)
    requires |t| > 0
    ensures multiset(t) == multiset(t[..|t| - 1]) + multiset{t[|t| - 1]}
  {
    assert t == t[..|t| - 1] + [t[|t| - 1]];
  }

  lemma PrefixSubMultiset<T>(t: seq<T>, k: nat)
    requires k <= |t|
    ensures multiset(t[..k]) <= multiset(t)
  {
    assert t == t[..k] + t[k..];
  }

  /** The caller's slice is only permuted, and the result is a prefix of it. */
  lemma RandomPrefix<T>(available: seq<T>, itself: T, num: int, rolls: seq<nat>)
    ensures var e := RandomEffect(available, itself, num, rolls);
            e.result == e.backing[..|e.result|]
  {
  }

  lemma RandomPermutes<T>(available: seq<T>, itself: T, num: int, rolls: seq<nat>)
    ensures multiset(RandomEffect(available, itself, num, rolls).backing) == multiset(available)
    ensures var e := RandomEffect(available, itself, num, rolls);
            e.result == e.backing[..|e.result|]
  {
    var b := RandomEffect(available, itself, num, rolls).backing;
    assert multiset(b) == multiset(available) by {
      if num > 1 {
        var n := |available|;
        var i := FirstIndex(available, itself);
        if i < n {
          SwapShufflePermutes(available, i, rolls);
        } else {
          ShufflePreservesAll(available, rolls);
        }
      }
    }
    RandomPrefix(available, itself, num, rolls);
  }

  /** Moving slot `i` to the end and shuffling the slots before it only rearranges the slice. */
  lemma SwapShufflePermutes<T>(s: seq<T>, i: nat, rolls: seq<nat>)
    requires i < |s|
    ensures multiset(Shuffle(Swap(s, i, |s| - 1), |s| - 1, rolls)) == multiset(s)
  {
    ShufflePreservesWithLast(Swap(s, i, |s| - 1), rolls);
  }

  lemma ShufflePreservesWithLast<T>(t: seq<T>, rolls: seq<nat>)
    requires |t| > 0
    ensures multiset(Shuffle(t, |t| - 1, rolls)) == multiset(t)
  {
    var n := |t|;
    var shuffled := Shuffle(t, n - 1, rolls);
    LastSlot(t);
    LastSlot(shuffled);
    assert shuffled[n - 1] == shuffled[n - 1..][0] == t[n - 1];
  }

  lemma ShufflePreservesAll<T>(t: seq<T>, rolls: seq<nat>)
    ensures multiset(Shuffle(t, |t|, rolls)) == multiset(t)
  {
    var shuffled := Shuffle(t, |t|, rolls);
    assert t[..|t|] == t;
    assert shuffled[..|t|] == shuffled;
  }

  /**
   * When `itself` is offered and the count exceeds one, its first occurrence ends in the
   * caller's last slot, the other slots hold exactly the other candidates, and the result
   * has `min(num, |available| - 1)` elements.
   */
  lemma RandomWithSelf<T>(available: seq<T>, itself: T, num: int, rolls: seq<nat>)
    requires num > 1 && itself in available
    ensures var e := RandomEffect(available, itself, num, rolls);
            var n := |available|;
            && |e.backing| == n && |e.result| == Min(num, n - 1)
            && e.backing[n - 1] == itself
            && multiset(e.backing[..n - 1]) == multiset(available) - multiset{itself}
  {
    ExcludeFirst(available, itself);
    SwapShuffleLast(available, FirstIndex(available, itself), rolls);
  }

  /** Moving slot `i` to the end and shuffling the slots before it leaves `s[i]` last and the rest before it. */
  lemma SwapShuffleLast<T>(s: seq<T>, i: nat, rolls: seq<nat>)
    requires i < |s|
    ensures var r := Shuffle(Swap(s, i, |s| - 1), |s| - 1, rolls);
            r[|s| - 1] == s[i] && multiset(r[..|s| - 1]) == multiset(s) - multiset{s[i]}
  {
    var t := Swap(s, i, |s| - 1);
    DropLast(t, s, s[i]);
    ShuffleFixesLast(t, rolls);
  }

  /** Shuffling all but the last slot keeps the last slot and rearranges the others. */
  lemma ShuffleFixesLast<T>(t: seq<T>, rolls: seq<nat>)
    requires |t| > 0
    ensures var r := Shuffle(t, |t| - 1, rolls);
            r[|t| - 1] == t[|t| - 1] && multiset(r[..|t| - 1]) == multiset(t[..|t| - 1])
  {
    var r := Shuffle(t, |t| - 1, rolls);
    assert r[|t| - 1] == r[|t| - 1..][0];
  }

  /** When `itself` is not offered, nothing is dropped: `min(num, |available|)` are returned. */
  lemma RandomWithoutSelf<T>(available: seq<T>, itself: T, num: int, rolls: seq<nat>)
    requires num > 1 && itself !in available
    ensures |Random(available, itself, num, rolls)| == Min(num, |available|)
  {
  }

  /** Candidates are only rearranged: the result holds no element more often than it was offered. */
  lemma RandomSubMultiset<T>(available: seq<T>, itself: T, num: int, rolls: seq<nat>)
    ensures multiset(Random(available, itself, num, rolls)) <= multiset(available)
  {
    var e := RandomEffect(available, itself, num, rolls);
    RandomPermutes(available, itself, num, rolls);
    PrefixSubMultiset(e.backing, |e.result|);
  }

  /** When `itself` is offered at most once, it is never selected. */
  lemma RandomExcludesSelf<T>(available: seq<T>, itself: T, num: int, rolls: seq<nat>)
    requires multiset(available)[itself] <= 1
    ensures itself !in Random(available, itself, num, rolls)
  {
    if num > 1 && itself in available {
      ExcludesOfferedSelf(available, itself, num, rolls);
    } else {
      RandomSubMultiset(available, itself, num, rolls);
    }
  }

  lemma ExcludesOfferedSelf<T>(available: seq<T>, itself: T, num: int, rolls: seq<nat>)
    requires multiset(available)[itself] == 1 && num > 1
    ensures itself !in Random(available, itself, num, rolls)
  {
    var n := |available|;
    var i := FirstIndex(available, itself);
    assert i < n by {
      assert itself in multiset(available);
      var k :| 0 <= k < n && available[k] == itself;
    }
    OfferedOnceExcluded(available, i, num, rolls);
    RandomOffered(available, itself, num, rolls);
  }

  /** With a count above one and `itself` offered, `Random` is that shuffle's prefix. */
  lemma RandomOffered<T>(available: seq<T>, itself: T, num: int, rolls: seq<nat>)
    requires num > 1 && FirstIndex(available, itself) < |available|
    ensures var n := |available|;
            Random(available, itself, num, rolls) ==
              Shuffle(Swap(available, FirstIndex(available, itself), n - 1), n - 1, rolls)[..Min(num, n - 1)]
  {
  }

  /**
   * Moving the only copy of `s[i]` to the end, shuffling the slots before it and taking
   * at most those slots never picks `s[i]`.
   */
  lemma OfferedOnceExcluded<T>(s: seq<T>, i: nat, num: int, rolls: seq<nat>)
    requires i < |s| && multiset(s)[s[i]] == 1 && num > 1
    ensures s[i] !in Shuffle(Swap(s, i, |s| - 1), |s| - 1, rolls)[..Min(num, |s| - 1)]
  {
    SwapShuffleLast(s, i, rolls);
    PrefixExcludes(Shuffle(Swap(s, i, |s| - 1), |s| - 1, rolls), Min(num, |s| - 1), multiset(s), s[i]);
  }

  /**
   * When all slots but the last hold `m` without its one copy of `x`, no prefix of
   * those slots holds `x`.
   */
  lemma PrefixExcludes<T>(r: seq<T>, k: nat, m: multiset<T>, x: T)
    requires k < |r| && m[x] == 1 && multiset(r[..|r| - 1]) == m - multiset{x}
    ensures x !in r[..k]
  {
    assert multiset(r[..|r| - 1])[x] == 0;
    assert r[..|r| - 1] == r[..k] + r[k..|r| - 1];
  }

  /**
   * Only the first occurrence of `itself` is dropped: when it is offered twice and the
   * count covers every other candidate, a second copy is selected.
   */
  lemma RandomKeepsDuplicateSelf<T>(available: seq<T>, itself: T, num: int, rolls: seq<nat>)
    requires multiset(available)[itself] >= 2
    requires num > 1 && num >= |available| - 1
    ensures itself in Random(available, itself, num, rolls)
  {
    var e := RandomEffect(available, itself, num, rolls);
    var n := |available|;
    RandomPermutes(available, itself, num, rolls);
    RandomWithSelf(available, itself, num, rolls);
    assert e.result == e.backing[..n - 1];
    assert multiset(e.result)[itself] >= 1;
  }

  /** The repository's test: four candidates including self and a count of five give three targets. */
  lemma RandomTestExample(rolls: seq<nat>)
    ensures var r := Random(["192.168.1.1", "192.168.1.2", "192.168.1.3", "192.168.1.4"], "192.168.1.2", 5, rolls);
            |r| == 3 && "192.168.1.2" !in r
  {
    var a := ["192.168.1.1", "192.168.1.2", "192.168.1.3", "192.168.1.4"];
    RandomWithSelf(a, "192.168.1.2", 5, rolls);
    assert a[1] == "192.168.1.2";
    assert multiset(a)["192.168.1.2"] == 1;
    RandomExcludesSelf(a, "192.168.1.2", 5, rolls);
  }
}
