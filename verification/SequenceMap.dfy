/**
 The chained hash map of src/shared/sequence_map.hpp: bucket heads and `next` links are
 indices into one entry vector, erase swaps the last entry into the hole, and the bucket
 vector doubles at three-quarters load.
 */
module SequenceMaps {
  import opened Machine

  type Key = seq<U32>

  datatype Entry<+V> = Entry(key: Key, value: V, next: int)

  const NO_ENTRY: int := -1
  const MIN_BUCKETS: nat := 16

  /**
   Below this many entries every `int32_t` index and bucket number is exact: the bucket vector,
   a power of two long, has not yet outgrown the 2^31 values of a bucket number.
   */
  const MAX_ENTRIES: nat := 0x6000_0000
  const MAX_BUCKETS: nat := 0x8000_0000

  ghost predicate PowerOfTwo(n: nat)
  {
    exists k: nat :: n == Pow2(k)
  }

  lemma SixteenIsPowerOfTwo()
    ensures PowerOfTwo(MIN_BUCKETS)
  {
    SmallPowers();
    assert Pow2(4) == MIN_BUCKETS;
  }

  /** A bucket vector that is not yet full-size still has a bucket number for each bucket once doubled. */
  lemma DoubleFits(n: nat)
    requires PowerOfTwo(n) && n < MAX_BUCKETS
    ensures PowerOfTwo(2 * n) && 2 * n <= MAX_BUCKETS
  {
    hide Pow2;
    var k: nat :| n == Pow2(k);
    SmallPowers();
    Pow2Sum(1, k);
    Pow2Sum(8, 8);
    Pow2Sum(16, 8);
    Pow2Sum(24, 6);
    if k > 30 {
      Pow2Sum(30, 1);
      Pow2Sum(31, k - 31);
    } else {
      Pow2Sum(k, 30 - k);
      FactorBelow(Pow2(k), Pow2(30 - k));
    }
  }

  lemma FactorBelow(a: nat, b: nat)
    requires b >= 1
    ensures a <= a * b
  {
  }

  /** The bound is exact: entry 0x6000_0000 doubles a full-size vector, and then bucket numbers wrap. */
  lemma LimitIsExact()
    ensures 4 * MAX_ENTRIES >= 3 * MAX_BUCKETS > 4 * (MAX_ENTRIES - 1)
    ensures BucketIndex(MAX_BUCKETS, 2 * MAX_BUCKETS) < 0
  {
  }

  lemma ToI32Exact(x: int)
    requires 0 <= x < MAX_BUCKETS
    ensures ToI32(x) == x
  {
  }

  function BucketIndex(hash: nat, bucketCount: nat): int
    requires bucketCount > 0
  {
    ToI32(hash % bucketCount)
  }

  function Bucket(hash: Key -> nat, key: Key, bucketCount: nat): (b: int)
    requires 0 < bucketCount <= MAX_BUCKETS
    ensures 0 <= b < bucketCount
  {
    BucketIndex(hash(key), bucketCount)
  }

  // ---------------------------------------------------------------- chains

  function NextIn(c: seq<int>, i: nat): int
  {
    if i + 1 < |c| then c[i + 1] else NO_ENTRY
  }

  /** Following `links` from `head` visits exactly the entry indices `c`, then stops. */
  ghost predicate Chain(links: seq<int>, head: int, c: seq<int>)
  {
    && head == (if c == [] then NO_ENTRY else c[0])
    && (forall i :: 0 <= i < |c| ==> 0 <= c[i] < |links|)
    && (forall i {:trigger NextIn(c, i)} :: 0 <= i < |c| ==> links[c[i]] == NextIn(c, i))
    && (forall i, j :: 0 <= i < j < |c| ==> c[i] != c[j])
  }

  ghost predicate Chains(buckets: seq<int>, links: seq<int>, chains: seq<seq<int>>)
  {
    && |chains| == |buckets|
    && forall b :: 0 <= b < |buckets| ==> Chain(links, buckets[b], chains[b])
  }

  /** Entry `e` hangs in chain `home[e]` if `linked[e]`, and in no chain otherwise. */
  ghost predicate Sorted(home: seq<int>, chains: seq<seq<int>>, linked: seq<bool>)
  {
    && |home| == |linked|
    && (forall e :: 0 <= e < |home| ==> 0 <= home[e] < |chains|)
    && (forall b, i :: 0 <= b < |chains| && 0 <= i < |chains[b]| ==>
          0 <= chains[b][i] < |home| && linked[chains[b][i]] && home[chains[b][i]] == b)
    && (forall e :: 0 <= e < |home| && linked[e] ==> e in chains[home[e]])
  }

  /** The chains partition the linked entries by bucket. */
  ghost predicate Partition(buckets: seq<int>, links: seq<int>, home: seq<int>,
                            chains: seq<seq<int>>, linked: seq<bool>)
  {
    && |links| == |home|
    && Chains(buckets, links, chains)
    && Sorted(home, chains, linked)
  }

  /** An unlinked entry may be appended. */
  lemma PartitionAppend(buckets: seq<int>, links: seq<int>, home: seq<int>,
                        chains: seq<seq<int>>, linked: seq<bool>, link: int, h: int)
    requires Partition(buckets, links, home, chains, linked)
    requires 0 <= h < |buckets|
    ensures Partition(buckets, links + [link], home + [h], chains, linked + [false])
  {
    forall b | 0 <= b < |buckets|
      ensures Chain(links + [link], buckets[b], chains[b])
    {
      assert Chain(links, buckets[b], chains[b]);
    }
  }

  lemma ChainPush(links: seq<int>, head: int, c: seq<int>, e: int)
    requires Chain(links, head, c)
    requires 0 <= e < |links| && e !in c
    ensures Chain(links[e := head], e, [e] + c)
  {
    var c' := [e] + c;
    forall i | 0 <= i < |c'|
      ensures links[e := head][c'[i]] == NextIn(c', i)
    {
      if i > 0 {
        assert c'[i] == c[i - 1] && links[c[i - 1]] == NextIn(c, i - 1);
      }
    }
  }

  lemma SortedPush(home: seq<int>, chains: seq<seq<int>>, linked: seq<bool>, e: int)
    requires Sorted(home, chains, linked)
    requires 0 <= e < |home| && !linked[e]
    ensures Sorted(home, chains[home[e] := [e] + chains[home[e]]], linked[e := true])
  {
    var h := home[e];
    var chains' := chains[h := [e] + chains[h]];
    forall f | 0 <= f < |home| && linked[e := true][f]
      ensures f in chains'[home[f]]
    {
      if f == e {
        assert chains'[h][0] == e;
      } else {
        var i :| 0 <= i < |chains[home[f]]| && chains[home[f]][i] == f;
        assert chains'[home[f]][if home[f] == h then i + 1 else i] == f;
      }
    }
  }

  lemma ChainsPush(buckets: seq<int>, links: seq<int>, chains: seq<seq<int>>, h: int, e: int)
    requires Chains(buckets, links, chains)
    requires 0 <= h < |buckets| && 0 <= e < |links|
    requires forall b :: 0 <= b < |chains| ==> e !in chains[b]
    ensures Chains(buckets[h := e], links[e := buckets[h]], chains[h := [e] + chains[h]])
  {
    var buckets', links', chains' := buckets[h := e], links[e := buckets[h]], chains[h := [e] + chains[h]];
    forall b | 0 <= b < |buckets'|
      ensures Chain(links', buckets'[b], chains'[b])
    {
      assert Chain(links, buckets[b], chains[b]);
      if b == h {
        ChainPush(links, buckets[h], chains[h], e);
      }
    }
  }

  /** An unlinked entry pushed on the front of the chain of its bucket. */
  lemma PartitionLink(buckets: seq<int>, links: seq<int>, home: seq<int>,
                      chains: seq<seq<int>>, linked: seq<bool>, e: int)
    requires Partition(buckets, links, home, chains, linked)
    requires 0 <= e < |links| && !linked[e]
    ensures var h := home[e];
            Partition(buckets[h := e], links[e := buckets[h]], home, chains[h := [e] + chains[h]], linked[e := true])
  {
    SortedPush(home, chains, linked, e);
    ChainsPush(buckets, links, chains, home[e], e);
  }

  /** The link that leads to position `p` of the chain of bucket `b`. */
  datatype Link = BucketLink(bucket: int) | EntryLink(entry: int)

  function LinkTo(b: int, c: seq<int>, p: nat): Link
    requires p <= |c|
  {
    if p == 0 then BucketLink(b) else EntryLink(c[p - 1])
  }

  /** The bucket heads and entry links after `*link = target`. */
  function Redirect(buckets: seq<int>, links: seq<int>, link: Link, target: int): (r: (seq<int>, seq<int>))
    requires link.BucketLink? ==> 0 <= link.bucket < |buckets|
    requires link.EntryLink? ==> 0 <= link.entry < |links|
    ensures |r.0| == |buckets| && |r.1| == |links|
  {
    match link
    case BucketLink(b) => (buckets[b := target], links)
    case EntryLink(e) => (buckets, links[e := target])
  }

  lemma ChainSkipHead(links: seq<int>, head: int, c: seq<int>)
    requires Chain(links, head, c) && c != []
    ensures Chain(links, links[c[0]], c[1..])
  {
    assert links[c[0]] == NextIn(c, 0);
    forall i | 0 <= i < |c[1..]|
      ensures links[c[1..][i]] == NextIn(c[1..], i)
    {
      assert links[c[i + 1]] == NextIn(c, i + 1);
    }
  }

  lemma ChainSkip(links: seq<int>, head: int, c: seq<int>, p: nat)
    requires Chain(links, head, c) && 0 < p < |c|
    ensures Chain(links[c[p - 1] := links[c[p]]], head, c[..p] + c[p + 1..])
  {
    var c' := c[..p] + c[p + 1..];
    var links' := links[c[p - 1] := links[c[p]]];
    assert forall i :: 0 <= i < |c'| ==> c'[i] == c[if i < p then i else i + 1];
    assert links[c[p]] == NextIn(c, p);
    forall i | 0 <= i < |c'|
      ensures 0 <= c'[i] < |links'| && links'[c'[i]] == NextIn(c', i)
    {
      var k := if i < p then i else i + 1;
      assert c'[i] == c[k];
      assert links[c[k]] == NextIn(c, k);
      assert c[k] == c[p - 1] <==> k == p - 1;
    }
    forall i, j | 0 <= i < j < |c'|
      ensures c'[i] != c'[j]
    {
      assert c'[i] == c[if i < p then i else i + 1] && c'[j] == c[if j < p then j else j + 1];
    }
  }

  lemma SortedSkip(home: seq<int>, chains: seq<seq<int>>, linked: seq<bool>, b: nat, p: nat)
    requires Sorted(home, chains, linked)
    requires b < |chains| && p < |chains[b]|
    requires forall i, j :: 0 <= i < j < |chains[b]| ==> chains[b][i] != chains[b][j]
    ensures Sorted(home, chains[b := chains[b][..p] + chains[b][p + 1..]], linked[chains[b][p] := false])
  {
    var c := chains[b];
    var e := c[p];
    var c' := c[..p] + c[p + 1..];
    var chains' := chains[b := c'];
    assert forall i :: 0 <= i < |c'| ==> c'[i] == if i < p then c[i] else c[i + 1];
    forall f | 0 <= f < |home| && linked[e := false][f]
      ensures f in chains'[home[f]]
    {
      if home[f] == b {
        var i :| 0 <= i < |c| && c[i] == f;
        assert c'[if i < p then i else i - 1] == f;
      }
    }
  }

  /** `*link = entry.next` takes exactly that entry out of its chain. */
  lemma PartitionUnlink(buckets: seq<int>, links: seq<int>, home: seq<int>,
                        chains: seq<seq<int>>, linked: seq<bool>, b: nat, p: nat)
    requires Partition(buckets, links, home, chains, linked)
    requires b < |buckets| && p < |chains[b]|
    ensures var e := chains[b][p];
            var (buckets', links') := Redirect(buckets, links, LinkTo(b, chains[b], p), links[e]);
            Partition(buckets', links', home, chains[b := chains[b][..p] + chains[b][p + 1..]], linked[e := false])
  {
    var c := chains[b];
    assert Chain(links, buckets[b], c);
    var (buckets', links') := Redirect(buckets, links, LinkTo(b, c, p), links[c[p]]);
    var chains' := chains[b := c[..p] + c[p + 1..]];
    SortedSkip(home, chains, linked, b, p);
    forall d | 0 <= d < |buckets|
      ensures Chain(links', buckets'[d], chains'[d])
    {
      if d == b && p == 0 {
        ChainSkipHead(links, buckets[b], c);
        assert chains'[b] == c[1..];
      } else if d == b {
        ChainSkip(links, buckets[b], c, p);
      } else {
        assert Chain(links, buckets[d], chains[d]);
        assert p > 0 ==> home[c[p - 1]] == b;
        assert forall i :: 0 <= i < |chains[d]| ==> home[chains[d][i]] == d;
      }
    }
  }

  // ------------------------------------------------------- swap with last

  function Renumber(last: int, hole: int, link: int): int
  {
    if link == last then hole else link
  }

  function RenumberAll(last: int, hole: int, links: seq<int>): (r: seq<int>)
    ensures |r| == |links|
    ensures forall i :: 0 <= i < |links| ==> r[i] == Renumber(last, hole, links[i])
  {
    seq(|links|, i requires 0 <= i < |links| => Renumber(last, hole, links[i]))
  }

  function RenumberChains(last: int, hole: int, chains: seq<seq<int>>): (r: seq<seq<int>>)
    ensures |r| == |chains|
    ensures forall b :: 0 <= b < |chains| ==> r[b] == RenumberAll(last, hole, chains[b])
  {
    seq(|chains|, b requires 0 <= b < |chains| => RenumberAll(last, hole, chains[b]))
  }

  /** The entry links after the last entry has moved into `hole` and been popped. */
  function MovedLinks(links: seq<int>, hole: int): (r: seq<int>)
    requires 0 <= hole < |links| - 1
    ensures |r| == |links| - 1
  {
    RenumberAll(|links| - 1, hole, links[hole := links[|links| - 1]])[..|links| - 1]
  }

  lemma ChainMove(links: seq<int>, head: int, c: seq<int>, hole: int)
    requires Chain(links, head, c)
    requires 0 <= hole < |links| - 1 && hole !in c
    ensures Chain(MovedLinks(links, hole), Renumber(|links| - 1, hole, head), RenumberAll(|links| - 1, hole, c))
  {
    var last := |links| - 1;
    var c' := RenumberAll(last, hole, c);
    forall i | 0 <= i < |c'|
      ensures 0 <= c'[i] < last && MovedLinks(links, hole)[c'[i]] == NextIn(c', i)
    {
      assert c[i] != hole && links[c[i]] == NextIn(c, i);
    }
    forall i, j | 0 <= i < j < |c'|
      ensures c'[i] != c'[j]
    {
      assert c[i] != hole && c[j] != hole && c[i] != c[j];
    }
  }

  lemma SortedMove(home: seq<int>, chains: seq<seq<int>>, linked: seq<bool>, hole: int)
    requires Sorted(home, chains, linked)
    requires 0 <= hole < |home| - 1
    requires forall e :: 0 <= e < |home| ==> (linked[e] <==> e != hole)
    ensures var last := |home| - 1;
            Sorted(home[hole := home[last]][..last], RenumberChains(last, hole, chains), linked[hole := true][..last])
  {
    var last := |home| - 1;
    var chains' := RenumberChains(last, hole, chains);
    var home' := home[hole := home[last]][..last];
    forall b, i | 0 <= b < |chains'| && 0 <= i < |chains'[b]|
      ensures 0 <= chains'[b][i] < last && home'[chains'[b][i]] == b
    {
      assert linked[chains[b][i]] && home[chains[b][i]] == b;
      assert chains'[b][i] == Renumber(last, hole, chains[b][i]);
    }
    forall e | 0 <= e < last
      ensures e in chains'[home'[e]]
    {
      var f := if e == hole then last else e;
      assert linked[f];
      var i :| 0 <= i < |chains[home[f]]| && chains[home[f]][i] == f;
      assert chains'[home[f]][i] == e;
    }
  }

  lemma ChainsMove(buckets: seq<int>, links: seq<int>, chains: seq<seq<int>>, hole: int)
    requires Chains(buckets, links, chains)
    requires 0 <= hole < |links| - 1
    requires forall b :: 0 <= b < |chains| ==> hole !in chains[b]
    ensures var last := |links| - 1;
            Chains(RenumberAll(last, hole, buckets), MovedLinks(links, hole), RenumberChains(last, hole, chains))
  {
    var last := |links| - 1;
    var buckets', chains' := RenumberAll(last, hole, buckets), RenumberChains(last, hole, chains);
    forall b | 0 <= b < |buckets'|
      ensures Chain(MovedLinks(links, hole), buckets'[b], chains'[b])
    {
      assert Chain(links, buckets[b], chains[b]);
      ChainMove(links, buckets[b], chains[b], hole);
    }
  }

  /**
   Moving the last entry into the unlinked `hole` and redirecting every link to it keeps the
   partition, whichever chain the moved entry is in.
   */
  lemma PartitionMove(buckets: seq<int>, links: seq<int>, home: seq<int>,
                      chains: seq<seq<int>>, linked: seq<bool>, hole: int)
    requires Partition(buckets, links, home, chains, linked)
    requires 0 <= hole < |links| - 1
    requires forall e :: 0 <= e < |links| ==> (linked[e] <==> e != hole)
    ensures var last := |links| - 1;
            Partition(RenumberAll(last, hole, buckets), MovedLinks(links, hole), home[hole := home[last]][..last],
                      RenumberChains(last, hole, chains), linked[hole := true][..last])
  {
    SortedMove(home, chains, linked, hole);
    ChainsMove(buckets, links, chains, hole);
  }

  lemma PartitionPop(buckets: seq<int>, links: seq<int>, home: seq<int>,
                     chains: seq<seq<int>>, linked: seq<bool>)
    requires Partition(buckets, links, home, chains, linked)
    requires links != [] && !linked[|links| - 1]
    ensures var last := |links| - 1;
            Partition(buckets, links[..last], home[..last], chains, linked[..last])
  {
    var last := |links| - 1;
    assert forall b, i :: 0 <= b < |chains| && 0 <= i < |chains[b]| ==> linked[chains[b][i]] && chains[b][i] != last;
    forall b | 0 <= b < |buckets|
      ensures Chain(links[..last], buckets[b], chains[b])
    {
      assert Chain(links, buckets[b], chains[b]);
    }
  }

  // -------------------------------------------------------- abstract value

  ghost predicate HasKey<V>(entries: seq<Entry<V>>, key: Key)
  {
    exists i :: 0 <= i < |entries| && entries[i].key == key
  }

  /** Non-empty keys are unique; empty keys are stored but can never be found. */
  ghost predicate DistinctKeys<V>(entries: seq<Entry<V>>)
  {
    forall i, j :: 0 <= i < j < |entries| && entries[i].key == entries[j].key ==> entries[i].key == []
  }

  /** The finite map the entries stand for. */
  function ContentsOf<V>(entries: seq<Entry<V>>): map<Key, V>
  {
    if entries == [] then map[]
    else
      var last := entries[|entries| - 1];
      var rest := ContentsOf(entries[..|entries| - 1]);
      if last.key == [] then rest else rest[last.key := last.value]
  }

  lemma {:induction false} ContentsCharacterized<V>(entries: seq<Entry<V>>)
    requires DistinctKeys(entries)
    ensures forall k :: k in ContentsOf(entries) <==> k != [] && HasKey(entries, k)
    ensures forall i :: 0 <= i < |entries| && entries[i].key != [] ==>
              entries[i].key in ContentsOf(entries) && ContentsOf(entries)[entries[i].key] == entries[i].value
  {
    if entries != [] {
      var rest := entries[..|entries| - 1];
      var last := entries[|entries| - 1];
      ContentsCharacterized(rest);
      forall k
        ensures HasKey(entries, k) <==> HasKey(rest, k) || k == last.key
      {
        if HasKey(entries, k) {
          var i :| 0 <= i < |entries| && entries[i].key == k;
          assert i < |rest| ==> rest[i].key == k;
        }
        if HasKey(rest, k) {
          var i :| 0 <= i < |rest| && rest[i].key == k;
          assert entries[i].key == k;
        }
        assert entries[|entries| - 1].key == last.key;
      }
      forall i | 0 <= i < |entries| && entries[i].key != []
        ensures entries[i].key in ContentsOf(entries) && ContentsOf(entries)[entries[i].key] == entries[i].value
      {
        if i < |rest| {
          assert rest[i] == entries[i];
        }
      }
    }
  }

  /** Keys and values determine the abstract map; `next` links do not matter. */
  lemma {:induction false} ContentsIgnoresLinks<V>(xs: seq<Entry<V>>, ys: seq<Entry<V>>)
    requires |xs| == |ys|
    requires forall i :: 0 <= i < |xs| ==> xs[i].key == ys[i].key && xs[i].value == ys[i].value
    ensures ContentsOf(xs) == ContentsOf(ys)
  {
    if xs != [] {
      ContentsIgnoresLinks(xs[..|xs| - 1], ys[..|ys| - 1]);
    }
  }

  function MovedFrom(last: nat, e: nat, i: nat): nat
  {
    if i == e then last else i
  }

  /** `ys` holds the keys and values of `xs` with the last entry swapped into position `e`. */
  ghost predicate SwapRemoved<V>(xs: seq<Entry<V>>, ys: seq<Entry<V>>, e: nat)
  {
    && e < |xs| == |ys| + 1
    && forall i {:trigger ys[i]} :: 0 <= i < |ys| ==>
         ys[i].key == xs[MovedFrom(|ys|, e, i)].key && ys[i].value == xs[MovedFrom(|ys|, e, i)].value
  }

  lemma SwapRemovedDistinct<V>(xs: seq<Entry<V>>, ys: seq<Entry<V>>, e: nat)
    requires DistinctKeys(xs) && SwapRemoved(xs, ys, e)
    ensures DistinctKeys(ys)
  {
    forall i, j | 0 <= i < j < |ys| && ys[i].key == ys[j].key
      ensures ys[i].key == []
    {
      var i', j' := MovedFrom(|ys|, e, i), MovedFrom(|ys|, e, j);
      assert xs[i'].key == xs[j'].key;
    }
  }

  /** A key other than the removed one is found in `ys` exactly where `xs` had it. */
  lemma SwapRemovedKey<V>(xs: seq<Entry<V>>, ys: seq<Entry<V>>, e: nat, k: Key) returns (i: nat)
    requires SwapRemoved(xs, ys, e) && HasKey(xs, k) && k != xs[e].key
    ensures i < |ys| && ys[i].key == k
  {
    var j :| 0 <= j < |xs| && xs[j].key == k;
    i := if j == |ys| then e else j;
    assert ys[i].key == xs[MovedFrom(|ys|, e, i)].key;
  }

  lemma ContentsSwapRemove<V>(xs: seq<Entry<V>>, ys: seq<Entry<V>>, e: nat)
    requires DistinctKeys(xs) && SwapRemoved(xs, ys, e) && xs[e].key != []
    ensures DistinctKeys(ys)
    ensures ContentsOf(ys) == ContentsOf(xs) - {xs[e].key}
  {
    SwapRemovedDistinct(xs, ys, e);
    ContentsCharacterized(xs);
    ContentsCharacterized(ys);
    var removed := ContentsOf(xs) - {xs[e].key};
    forall k | k in ContentsOf(ys)
      ensures k in removed && removed[k] == ContentsOf(ys)[k]
    {
      var i :| 0 <= i < |ys| && ys[i].key == k;
      assert xs[MovedFrom(|ys|, e, i)].key == k;
    }
    forall k | k in removed
      ensures k in ContentsOf(ys)
    {
      var i := SwapRemovedKey(xs, ys, e, k);
    }
  }

  /** Replacing the value of the entry that holds `key`. */
  lemma ContentsAssign<V>(xs: seq<Entry<V>>, e: nat, v: V)
    requires DistinctKeys(xs) && e < |xs| && xs[e].key != []
    ensures DistinctKeys(xs[e := xs[e].(value := v)])
    ensures ContentsOf(xs[e := xs[e].(value := v)]) == ContentsOf(xs)[xs[e].key := v]
  {
    var ys := xs[e := xs[e].(value := v)];
    ContentsCharacterized(xs);
    ContentsCharacterized(ys);
    var updated := ContentsOf(xs)[xs[e].key := v];
    forall k
      ensures k in ContentsOf(ys) <==> k in updated
      ensures k in updated ==> ContentsOf(ys)[k] == updated[k]
    {
      if k in ContentsOf(ys) {
        var i :| 0 <= i < |ys| && ys[i].key == k;
        assert xs[i].key == k;
        assert HasKey(xs, k);
      }
      if k in updated {
        assert xs[e].key == xs[e].key;
        assert HasKey(xs, k);
        var i :| 0 <= i < |xs| && xs[i].key == k;
        assert ys[i].key == k;
        assert HasKey(ys, k);
      }
    }
  }

  /** `same_sequence`: equal lengths, then atom by atom. */
  method SameSequence(key: Key, atoms: Key) returns (same: bool)
    ensures same <==> key == atoms
  {
    if |key| != |atoms| {
      return false;
    }
    var i := 0;
    while i < |atoms|
      invariant 0 <= i <= |atoms|
      invariant key[..i] == atoms[..i]
    {
      if key[i] != atoms[i] {
        return false;
      }
      i := i + 1;
    }
    return true;
  }

  // ------------------------------------------------------------- the class

  function LinksOf<V>(entries: seq<Entry<V>>): (r: seq<int>)
    ensures |r| == |entries|
    ensures forall i :: 0 <= i < |entries| ==> r[i] == entries[i].next
  {
    seq(|entries|, i requires 0 <= i < |entries| => entries[i].next)
  }

  function HomesOf<V>(hash: Key -> nat, entries: seq<Entry<V>>, bucketCount: nat): (r: seq<int>)
    requires 0 < bucketCount <= MAX_BUCKETS
    ensures |r| == |entries|
    ensures forall i :: 0 <= i < |entries| ==> r[i] == Bucket(hash, entries[i].key, bucketCount)
  {
    seq(|entries|, i requires 0 <= i < |entries| => Bucket(hash, entries[i].key, bucketCount))
  }

  /** Exactly the first `k` of `n` entries are linked. */
  function LinkedPrefix(n: nat, k: nat): (r: seq<bool>)
    ensures |r| == n
    ensures forall e :: 0 <= e < n ==> r[e] == (e < k)
  {
    seq(n, e => e < k)
  }

  ghost predicate Represents<V>(hash: Key -> nat, buckets: seq<int>, entries: seq<Entry<V>>,
                                chains: seq<seq<int>>, linked: seq<bool>)
  {
    && 0 < |buckets| <= MAX_BUCKETS
    && Partition(buckets, LinksOf(entries), HomesOf(hash, entries, |buckets|), chains, linked)
  }

  ghost predicate FullyLinked<V>(hash: Key -> nat, buckets: seq<int>, entries: seq<Entry<V>>,
                                 chains: seq<seq<int>>)
  {
    Represents(hash, buckets, entries, chains, LinkedPrefix(|entries|, |entries|))
  }

  lemma RehashStep<V>(hash: Key -> nat, buckets: seq<int>, entries: seq<Entry<V>>,
                      chains: seq<seq<int>>, i: nat)
    requires i < |entries|
    requires Represents(hash, buckets, entries, chains, LinkedPrefix(|entries|, i))
    ensures var b := Bucket(hash, entries[i].key, |buckets|);
            Represents(hash, buckets[b := i], entries[i := entries[i].(next := buckets[b])],
                       chains[b := [i] + chains[b]], LinkedPrefix(|entries|, i + 1))
  {
    var b := Bucket(hash, entries[i].key, |buckets|);
    var entries' := entries[i := entries[i].(next := buckets[b])];
    var links, homes := LinksOf(entries), HomesOf(hash, entries, |buckets|);
    PartitionLink(buckets, links, homes, chains, LinkedPrefix(|entries|, i), i);
    assert LinksOf(entries') == links[i := buckets[b]];
    assert HomesOf(hash, entries', |buckets|) == homes;
    assert LinkedPrefix(|entries|, i + 1) == LinkedPrefix(|entries|, i)[i := true];
  }

  lemma RehashStart<V>(hash: Key -> nat, entries: seq<Entry<V>>, n: nat)
    requires 0 < n <= MAX_BUCKETS
    ensures Represents(hash, seq(n, _ => NO_ENTRY), entries, seq(n, _ => []), LinkedPrefix(|entries|, 0))
  {
  }

  lemma FullyLinkedAppend<V>(hash: Key -> nat, buckets: seq<int>, entries: seq<Entry<V>>,
                             chains: seq<seq<int>>, key: Key, value: V)
    requires FullyLinked(hash, buckets, entries, chains)
    ensures var b := Bucket(hash, key, |buckets|);
            var n := |entries|;
            FullyLinked(hash, buckets[b := n], entries + [Entry(key, value, buckets[b])], chains[b := [n] + chains[b]])
  {
    var b := Bucket(hash, key, |buckets|);
    var n := |entries|;
    var links, homes := LinksOf(entries) + [buckets[b]], HomesOf(hash, entries, |buckets|) + [b];
    var linked := LinkedPrefix(n, n) + [false];
    PartitionAppend(buckets, LinksOf(entries), HomesOf(hash, entries, |buckets|), chains, LinkedPrefix(n, n),
                    buckets[b], b);
    PartitionLink(buckets, links, homes, chains, linked, n);
    var entries' := entries + [Entry(key, value, buckets[b])];
    assert LinksOf(entries') == links[n := buckets[b]];
    assert HomesOf(hash, entries', |buckets|) == homes;
    assert LinkedPrefix(n + 1, n + 1) == linked[n := true];
  }

  lemma ContentsAppend<V>(entries: seq<Entry<V>>, entry: Entry<V>)
    requires DistinctKeys(entries)
    requires entry.key == [] || !HasKey(entries, entry.key)
    ensures DistinctKeys(entries + [entry])
    ensures ContentsOf(entries + [entry]) ==
            if entry.key == [] then ContentsOf(entries) else ContentsOf(entries)[entry.key := entry.value]
  {
    assert (entries + [entry])[..|entries|] == entries;
  }

  /** `*link = target` on the entry side. */
  function RedirectEntries<V>(entries: seq<Entry<V>>, link: Link, target: int): (r: seq<Entry<V>>)
    requires link.EntryLink? ==> 0 <= link.entry < |entries|
    ensures |r| == |entries|
    ensures forall i :: 0 <= i < |entries| ==> r[i].key == entries[i].key && r[i].value == entries[i].value
  {
    if link.EntryLink? then entries[link.entry := entries[link.entry].(next := target)] else entries
  }

  function RedirectBuckets(buckets: seq<int>, link: Link, target: int): (r: seq<int>)
    requires link.BucketLink? ==> 0 <= link.bucket < |buckets|
    ensures |r| == |buckets|
  {
    if link.BucketLink? then buckets[link.bucket := target] else buckets
  }

  function RenumberEntries<V>(last: int, hole: int, entries: seq<Entry<V>>): (r: seq<Entry<V>>)
    ensures |r| == |entries|
    ensures forall i :: 0 <= i < |entries| ==>
              r[i] == entries[i].(next := Renumber(last, hole, entries[i].next))
  {
    seq(|entries|, i requires 0 <= i < |entries| =>
          entries[i].(next := Renumber(last, hole, entries[i].next)))
  }

  /** Taking the entry behind `link` out of its chain. */
  lemma UnlinkRepresents<V>(hash: Key -> nat, buckets: seq<int>, entries: seq<Entry<V>>,
                            chains: seq<seq<int>>, b: nat, p: nat)
    requires FullyLinked(hash, buckets, entries, chains)
    requires b < |buckets| && p < |chains[b]|
    ensures var e := chains[b][p];
            var link := LinkTo(b, chains[b], p);
            && 0 <= e < |entries|
            && (link.EntryLink? ==> 0 <= link.entry < |entries|)
            && Represents(hash, RedirectBuckets(buckets, link, entries[e].next),
                          RedirectEntries(entries, link, entries[e].next),
                          chains[b := chains[b][..p] + chains[b][p + 1..]],
                          LinkedPrefix(|entries|, |entries|)[e := false])
  {
    var n := |entries|;
    var e := chains[b][p];
    var link := LinkTo(b, chains[b], p);
    var links, homes := LinksOf(entries), HomesOf(hash, entries, |buckets|);
    assert Chain(links, buckets[b], chains[b]);
    PartitionUnlink(buckets, links, homes, chains, LinkedPrefix(n, n), b, p);
    var entries' := RedirectEntries(entries, link, entries[e].next);
    assert LinksOf(entries') == Redirect(buckets, links, link, entries[e].next).1;
    assert HomesOf(hash, entries', |buckets|) == homes;
  }

  lemma MovedHomes<V>(hash: Key -> nat, entries: seq<Entry<V>>, moved: seq<Entry<V>>, count: nat, hole: int)
    requires 0 < count <= MAX_BUCKETS && 0 <= hole < |entries| - 1
    requires moved == RenumberEntries(|entries| - 1, hole, entries[hole := entries[|entries| - 1]])[..|entries| - 1]
    ensures LinksOf(moved) == MovedLinks(LinksOf(entries), hole)
    ensures var homes := HomesOf(hash, entries, count);
            HomesOf(hash, moved, count) == homes[hole := homes[|entries| - 1]][..|entries| - 1]
  {
  }

  /** Filling the hole left by an unlinked entry with the last entry. */
  lemma MoveRepresents<V>(hash: Key -> nat, buckets: seq<int>, entries: seq<Entry<V>>,
                          chains: seq<seq<int>>, hole: int, moved: seq<Entry<V>>)
    requires 0 <= hole < |entries| - 1
    requires Represents(hash, buckets, entries, chains, LinkedPrefix(|entries|, |entries|)[hole := false])
    requires moved == RenumberEntries(|entries| - 1, hole, entries[hole := entries[|entries| - 1]])[..|entries| - 1]
    ensures FullyLinked(hash, RenumberAll(|entries| - 1, hole, buckets), moved,
                        RenumberChains(|entries| - 1, hole, chains))
  {
    hide Chains, Sorted;
    var n, last := |entries|, |entries| - 1;
    var links, homes := LinksOf(entries), HomesOf(hash, entries, |buckets|);
    PartitionMove(buckets, links, homes, chains, LinkedPrefix(n, n)[hole := false], hole);
    assert LinkedPrefix(last, last) == LinkedPrefix(n, n)[hole := false][hole := true][..last];
    MovedHomes(hash, entries, moved, |buckets|, hole);
  }

  lemma PopRepresents<V>(hash: Key -> nat, buckets: seq<int>, entries: seq<Entry<V>>, chains: seq<seq<int>>)
    requires entries != []
    requires Represents(hash, buckets, entries, chains, LinkedPrefix(|entries|, |entries|)[|entries| - 1 := false])
    ensures FullyLinked(hash, buckets, entries[..|entries| - 1], chains)
  {
    var n, last := |entries|, |entries| - 1;
    var links, homes := LinksOf(entries), HomesOf(hash, entries, |buckets|);
    PartitionPop(buckets, links, homes, chains, LinkedPrefix(n, n)[last := false]);
    assert LinksOf(entries[..last]) == links[..last];
    assert HomesOf(hash, entries[..last], |buckets|) == homes[..last];
    assert LinkedPrefix(last, last) == LinkedPrefix(n, n)[last := false][..last];
  }

  /** The vectors left by filling the hole at `e`: `unlinked` are the vectors with `e` in no chain. */
  function FilledLinks(n: nat, e: int, links: seq<int>): (r: seq<int>)
    ensures |r| == |links|
  {
    if e == n - 1 then links else RenumberAll(n - 1, e, links)
  }

  function FilledEntries<V>(e: int, unlinked: seq<Entry<V>>): (r: seq<Entry<V>>)
    requires 0 <= e < |unlinked|
    ensures |r| == |unlinked| - 1
  {
    var last := |unlinked| - 1;
    if e == last then unlinked[..last] else RenumberEntries(last, e, unlinked[e := unlinked[last]])[..last]
  }

  function FilledChains(n: nat, e: int, chains: seq<seq<int>>): (r: seq<seq<int>>)
    ensures |r| == |chains|
  {
    if e == n - 1 then chains else RenumberChains(n - 1, e, chains)
  }

  lemma FillRepresents<V>(hash: Key -> nat, buckets: seq<int>, entries: seq<Entry<V>>,
                          chains: seq<seq<int>>, e: int)
    requires 0 <= e < |entries|
    requires Represents(hash, buckets, entries, chains, LinkedPrefix(|entries|, |entries|)[e := false])
    ensures FullyLinked(hash, FilledLinks(|entries|, e, buckets), FilledEntries(e, entries),
                        FilledChains(|entries|, e, chains))
  {
    if e == |entries| - 1 {
      PopRepresents(hash, buckets, entries, chains);
    } else {
      MoveRepresents(hash, buckets, entries, chains, e, FilledEntries(e, entries));
    }
  }

  lemma FilledIsSwapRemoved<V>(entries: seq<Entry<V>>, unlinked: seq<Entry<V>>, e: int)
    requires 0 <= e < |entries| == |unlinked|
    requires forall i :: 0 <= i < |entries| ==>
             unlinked[i].key == entries[i].key && unlinked[i].value == entries[i].value
    ensures SwapRemoved(entries, FilledEntries(e, unlinked), e)
  {
  }

  lemma EraseContents<V>(entries: seq<Entry<V>>, link: Link, e: int)
    requires DistinctKeys(entries)
    requires 0 <= e < |entries| && entries[e].key != []
    requires link.EntryLink? ==> 0 <= link.entry < |entries|
    ensures var filled := FilledEntries(e, RedirectEntries(entries, link, entries[e].next));
            DistinctKeys(filled) && ContentsOf(filled) == ContentsOf(entries) - {entries[e].key}
  {
    var unlinked := RedirectEntries(entries, link, entries[e].next);
    FilledIsSwapRemoved(entries, unlinked, e);
    ContentsSwapRemove(entries, FilledEntries(e, unlinked), e);
  }

  /** Unlinking, then filling the hole, keeps the chains a partition of the remaining entries. */
  lemma EraseRepresents<V>(hash: Key -> nat, buckets: seq<int>, entries: seq<Entry<V>>, chains: seq<seq<int>>,
                           b: nat, p: nat, link: Link, e: int, unlinked: seq<seq<int>>)
    requires FullyLinked(hash, buckets, entries, chains)
    requires b < |buckets| && p < |chains[b]|
    requires link == LinkTo(b, chains[b], p) && e == chains[b][p]
    requires unlinked == chains[b := chains[b][..p] + chains[b][p + 1..]]
    ensures 0 <= e < |entries| && (link.EntryLink? ==> 0 <= link.entry < |entries|)
    ensures FullyLinked(hash, FilledLinks(|entries|, e, RedirectBuckets(buckets, link, entries[e].next)),
                        FilledEntries(e, RedirectEntries(entries, link, entries[e].next)),
                        FilledChains(|entries|, e, unlinked))
  {
    UnlinkRepresents(hash, buckets, entries, chains, b, p);
    FillRepresents(hash, RedirectBuckets(buckets, link, entries[e].next),
                   RedirectEntries(entries, link, entries[e].next), unlinked, e);
  }

  /** The map operation each call stands for. */
  datatype Op<+V> =
    | InsertOp(key: Key, value: V) | UpdateOp(key: Key, value: V) | EraseOp(key: Key) | FindOp(key: Key)
  datatype Reply<+V> = Inserted(added: bool) | Updated(existed: bool) | Erased(existed: bool) | Found(value: Option<V>)

  function Lookup<V>(m: map<Key, V>, key: Key): Option<V>
  {
    if key in m then Some(m[key]) else None
  }

  function Apply<V>(m: map<Key, V>, op: Op<V>): (map<Key, V>, Reply<V>)
  {
    match op
    case InsertOp(key, value) =>
      if key == [] then (m, Inserted(true))
      else if key in m then (m, Inserted(false))
      else (m[key := value], Inserted(true))
    case UpdateOp(key, value) => (if key in m then m[key := value] else m, Updated(key in m))
    case EraseOp(key) => (m - {key}, Erased(key in m))
    case FindOp(key) => (m, Found(Lookup(m, key)))
  }

  function ApplyAll<V>(m: map<Key, V>, ops: seq<Op<V>>): (map<Key, V>, seq<Reply<V>>)
  {
    if ops == [] then (m, [])
    else
      var (before, replies) := ApplyAll(m, ops[..|ops| - 1]);
      var (after, reply) := Apply(before, ops[|ops| - 1]);
      (after, replies + [reply])
  }

  class SequenceMap<V> {
    const hash: Key -> nat
    var buckets: seq<int>
    var entries: seq<Entry<V>>
    ghost var chains: seq<seq<int>>

    /** Everything but the load bound. */
    ghost predicate Structured()
      reads this
    {
      && MIN_BUCKETS <= |buckets| <= MAX_BUCKETS && PowerOfTwo(|buckets|)
      && DistinctKeys(entries)
      && FullyLinked(hash, buckets, entries, chains)
    }

    ghost predicate Valid()
      reads this
    {
      Structured() && 4 * |entries| < 3 * |buckets|
    }

    ghost function Contents(): map<Key, V>
      reads this
    {
      ContentsOf(entries)
    }

    constructor (hash: Key -> nat)
      ensures Valid() && Contents() == map[] && this.hash == hash && entries == []
    {
      this.hash := hash;
      entries := [];
      buckets := seq(MIN_BUCKETS, _ => NO_ENTRY);
      chains := seq(MIN_BUCKETS, _ => []);
      SixteenIsPowerOfTwo();
    }

    /** Nothing outside the chain of its own bucket can hold a key. */
    lemma OnlyInOwnChain(atoms: Key)
      requires Structured()
      requires var b := Bucket(hash, atoms, |buckets|);
               forall i :: 0 <= i < |chains[b]| ==>
                 0 <= chains[b][i] < |entries| && entries[chains[b][i]].key != atoms
      ensures atoms !in Contents()
    {
      ContentsCharacterized(entries);
      forall e | 0 <= e < |entries|
        ensures entries[e].key != atoms
      {
        assert LinkedPrefix(|entries|, |entries|)[e];
        assert e in chains[HomesOf(hash, entries, |buckets|)[e]];
      }
    }

    lemma ChainAt(b: int, p: nat)
      requires Structured() && 0 <= b < |buckets| && p <= |chains[b]|
      ensures p < |chains[b]| ==>
                0 <= chains[b][p] < |entries| && entries[chains[b][p]].next == NextIn(chains[b], p)
      ensures buckets[b] == (if chains[b] == [] then NO_ENTRY else chains[b][0])
      ensures forall i :: 0 <= i < |chains[b]| ==> 0 <= chains[b][i] < |entries|
    {
      assert Chain(LinksOf(entries), buckets[b], chains[b]);
    }

    lemma ContentsAt(e: nat)
      requires Structured() && e < |entries| && entries[e].key != []
      ensures entries[e].key in Contents() && Contents()[entries[e].key] == entries[e].value
    {
      ContentsCharacterized(entries);
    }

    lemma EmptyKeyAbsent()
      requires Structured()
      ensures [] !in Contents()
    {
      ContentsCharacterized(entries);
    }

    /** The chain walk shared by `find_sequence` and `find_mut_sequence`. */
    method FindIndex(atoms: Key) returns (r: int)
      requires Valid()
      ensures r == NO_ENTRY <==> atoms !in Contents()
      ensures r != NO_ENTRY ==>
                0 <= r < |entries| && entries[r].key == atoms && entries[r].value == Contents()[atoms]
    {
      if atoms == [] {
        EmptyKeyAbsent();
        return NO_ENTRY;
      }
      var bucket := Bucket(hash, atoms, |buckets|);
      r := buckets[bucket];
      ghost var c := chains[bucket];
      ghost var p := 0;
      ChainAt(bucket, 0);
      while r != NO_ENTRY
        invariant 0 <= p <= |c|
        invariant r == if p < |c| then c[p] else NO_ENTRY
        invariant forall i :: 0 <= i < p ==> entries[c[i]].key != atoms
        decreases |c| - p
      {
        var same := SameSequence(entries[r].key, atoms);
        if same {
          ContentsAt(r);
          return r;
        }
        ChainAt(bucket, p);
        r := entries[r].next;
        p := p + 1;
      }
      OnlyInOwnChain(atoms);
    }

    method Find(atoms: Key) returns (r: Option<V>)
      requires Valid()
      ensures r == Lookup(Contents(), atoms)
    {
      var i := FindIndex(atoms);
      r := if i == NO_ENTRY then None else Some(entries[i].value);
    }

    /** Writing through the value half of a mutable view. */
    method Assign(index: nat, value: V)
      requires Valid() && index < |entries| && entries[index].key != []
      modifies this
      ensures Valid() && Contents() == old(Contents())[old(entries[index].key) := value]
      ensures |entries| == old(|entries|)
    {
      ContentsAssign(entries, index, value);
      ghost var before := entries;
      entries := entries[index := entries[index].(value := value)];
      assert LinksOf(entries) == LinksOf(before);
      assert HomesOf(hash, entries, |buckets|) == HomesOf(hash, before, |buckets|);
    }

    /** Writing through the view that `find_mut` returns, when it finds one. */
    method Update(key: Key, value: V) returns (existed: bool)
      requires Valid()
      modifies this
      ensures Valid()
      ensures (Contents(), Updated(existed)) == Apply(old(Contents()), UpdateOp(key, value))
      ensures |entries| == old(|entries|)
    {
      var index := FindIndex(key);
      if index == NO_ENTRY {
        return false;
      }
      EmptyKeyAbsent();
      Assign(index, value);
      return true;
    }

    /** Insert-if-absent. An empty key is never found, so it is appended every time. */
    method Insert(key: Key, value: V) returns (index: nat, added: bool)
      requires Valid() && (key in Contents() || |entries| + 1 < MAX_ENTRIES)
      modifies this
      ensures Valid()
      ensures (Contents(), Inserted(added)) == Apply(old(Contents()), InsertOp(key, value))
      ensures index < |entries| && entries[index].key == key
      ensures |entries| == old(|entries|) + if added then 1 else 0
      ensures !added ==> entries == old(entries)
    {
      var existing := FindIndex(key);
      if existing != NO_ENTRY {
        EmptyKeyAbsent();
        return existing, false;
      }
      EnsureCapacityForInsert();
      index := Append(key, value);
      return index, true;
    }

    method Append(key: Key, value: V) returns (index: nat)
      requires Structured() && 4 * (|entries| + 1) < 3 * |buckets| && |entries| < MAX_ENTRIES
      requires key !in Contents()
      modifies this
      ensures Valid()
      ensures Contents() == if key == [] then old(Contents()) else old(Contents())[key := value]
      ensures |entries| == old(|entries|) + 1 && index == old(|entries|) && entries[index].key == key
    {
      var bucket := Bucket(hash, key, |buckets|);
      ToI32Exact(|entries|);
      var newIndex := ToI32(|entries|);
      FullyLinkedAppend(hash, buckets, entries, chains, key, value);
      ContentsCharacterized(entries);
      ContentsAppend(entries, Entry(key, value, buckets[bucket]));
      entries := entries + [Entry(key, value, buckets[bucket])];
      chains := chains[bucket := [newIndex] + chains[bucket]];
      buckets := buckets[bucket := newIndex];
      return newIndex;
    }

    method EnsureCapacityForInsert()
      requires Valid() && |entries| + 1 < MAX_ENTRIES
      modifies this
      ensures Structured() && 4 * (|entries| + 1) < 3 * |buckets|
      ensures |entries| == old(|entries|) && Contents() == old(Contents())
    {
      if (|entries| + 1) * 4 >= |buckets| * 3 {
        DoubleFits(|buckets|);
        Rehash(|buckets| * 2);
      }
    }

    /** Every chain is rebuilt in a bucket vector of the new size; keys and values stay. */
    method Rehash(requested: nat)
      requires requested <= MAX_BUCKETS && PowerOfTwo(requested) && |entries| <= MAX_ENTRIES
      requires DistinctKeys(entries)
      modifies this
      ensures Structured()
      ensures |buckets| == if requested < MIN_BUCKETS then MIN_BUCKETS else requested
      ensures |entries| == old(|entries|) && Contents() == old(Contents())
    {
      hide Partition, ContentsOf, LinksOf, HomesOf;
      var count := if requested < MIN_BUCKETS then MIN_BUCKETS else requested;
      var newBuckets := seq(count, _ => NO_ENTRY);
      ghost var newChains: seq<seq<int>> := seq(count, _ => []);
      RehashStart(hash, entries, count);
      var i := 0;
      while i < |entries|
        invariant 0 <= i <= |entries| == old(|entries|)
        invariant |newBuckets| == |newChains| == count
        invariant forall j :: 0 <= j < |entries| ==>
                    entries[j].key == old(entries[j].key) && entries[j].value == old(entries[j].value)
        invariant Represents(hash, newBuckets, entries, newChains, LinkedPrefix(|entries|, i))
      {
        var bucket := Bucket(hash, entries[i].key, count);
        RehashStep(hash, newBuckets, entries, newChains, i);
        entries := entries[i := entries[i].(next := newBuckets[bucket])];
        newChains := newChains[bucket := [i] + newChains[bucket]];
        newBuckets := newBuckets[bucket := i];
        i := i + 1;
      }
      buckets := newBuckets;
      chains := newChains;
      ContentsIgnoresLinks(entries, old(entries));
      SixteenIsPowerOfTwo();
    }

    function Target(link: Link): int
      requires link.BucketLink? ==> 0 <= link.bucket < |buckets|
      requires link.EntryLink? ==> 0 <= link.entry < |entries|
      reads this
    {
      match link
      case BucketLink(b) => buckets[b]
      case EntryLink(e) => entries[e].next
    }

    /** Walk to the link that leads to the entry, then remove the entry. */
    method Erase(atoms: Key) returns (existed: bool)
      requires Valid()
      modifies this
      ensures Valid()
      ensures (Contents(), Erased(existed)) == Apply(old(Contents()), EraseOp(atoms))
      ensures |entries| == old(|entries|) - if existed then 1 else 0
      ensures !existed ==> entries == old(entries)
    {
      assert atoms !in Contents() ==> Contents() - {atoms} == Contents();
      if atoms == [] {
        EmptyKeyAbsent();
        return false;
      }
      var link, p := FindLink(atoms);
      var entryIndex := Target(link);
      if entryIndex == NO_ENTRY {
        return false;
      }
      Remove(link, entryIndex, Bucket(hash, atoms, |buckets|), p);
      return true;
    }

    /** The link to the entry of `atoms`, or the empty link that ends its chain. */
    method FindLink(atoms: Key) returns (link: Link, ghost p: nat)
      requires Valid() && atoms != []
      ensures var b := Bucket(hash, atoms, |buckets|);
              && p <= |chains[b]| && link == LinkTo(b, chains[b], p)
              && (link.EntryLink? ==> 0 <= link.entry < |entries|)
              && Target(link) == (if p < |chains[b]| then chains[b][p] else NO_ENTRY)
      ensures Target(link) == NO_ENTRY <==> atoms !in Contents()
      ensures Target(link) != NO_ENTRY ==> 0 <= Target(link) < |entries| && entries[Target(link)].key == atoms
    {
      hide Chain, Sorted, DistinctKeys, ContentsOf, LinksOf, HomesOf;
      var bucket := Bucket(hash, atoms, |buckets|);
      link := BucketLink(bucket);
      ghost var c := chains[bucket];
      p := 0;
      ChainAt(bucket, 0);
      while Target(link) != NO_ENTRY
        invariant 0 <= p <= |c|
        invariant link == LinkTo(bucket, c, p)
        invariant link.EntryLink? ==> 0 <= link.entry < |entries|
        invariant Target(link) == if p < |c| then c[p] else NO_ENTRY
        invariant forall i :: 0 <= i < p ==> entries[c[i]].key != atoms
        decreases |c| - p
      {
        var entryIndex := Target(link);
        var same := SameSequence(entries[entryIndex].key, atoms);
        if same {
          ContentsAt(entryIndex);
          return;
        }
        ChainAt(bucket, p);
        link := EntryLink(entryIndex);
        p := p + 1;
      }
      OnlyInOwnChain(atoms);
    }

    /** Unlink, swap the last entry into the hole, redirect every link to it, pop. */
    method Remove(link: Link, entryIndex: int, ghost b: int, ghost p: int)
      requires Valid()
      requires 0 <= b < |buckets| && 0 <= p < |chains[b]|
      requires link == LinkTo(b, chains[b], p) && entryIndex == chains[b][p]
      requires 0 <= entryIndex < |entries| && entries[entryIndex].key != []
      modifies this
      ensures Valid()
      ensures Contents() == old(Contents()) - {old(entries[entryIndex].key)}
      ensures |entries| == old(|entries|) - 1
    {
      ghost var unlinked := chains[b := chains[b][..p] + chains[b][p + 1..]];
      EraseRepresents(hash, buckets, entries, chains, b, p, link, entryIndex, unlinked);
      EraseContents(entries, link, entryIndex);
      chains := FilledChains(|entries|, entryIndex, unlinked);
      SwapRemove(link, entryIndex);
    }

    method SwapRemove(link: Link, entryIndex: int)
      requires 0 <= entryIndex < |entries|
      requires link.BucketLink? ==> 0 <= link.bucket < |buckets|
      requires link.EntryLink? ==> 0 <= link.entry < |entries|
      modifies this`buckets, this`entries
      ensures var next := old(entries)[entryIndex].next;
              && buckets == FilledLinks(|old(entries)|, entryIndex, RedirectBuckets(old(buckets), link, next))
              && entries == FilledEntries(entryIndex, RedirectEntries(old(entries), link, next))
    {
      var next := entries[entryIndex].next;
      if link.BucketLink? {
        buckets := buckets[link.bucket := next];
      } else {
        entries := entries[link.entry := entries[link.entry].(next := next)];
      }
      var lastIndex := |entries| - 1;
      if entryIndex != lastIndex {
        entries := entries[entryIndex := entries[lastIndex]];
        RedirectHeads(lastIndex, entryIndex);
        RedirectNexts(lastIndex, entryIndex);
      }
      entries := entries[..lastIndex];
    }

    method RedirectHeads(lastIndex: int, entryIndex: int)
      modifies this`buckets
      ensures buckets == RenumberAll(lastIndex, entryIndex, old(buckets))
    {
      var i := 0;
      while i < |buckets|
        invariant 0 <= i <= |buckets| == old(|buckets|)
        invariant forall j :: 0 <= j < i ==> buckets[j] == Renumber(lastIndex, entryIndex, old(buckets[j]))
        invariant forall j :: i <= j < |buckets| ==> buckets[j] == old(buckets[j])
      {
        if buckets[i] == lastIndex {
          buckets := buckets[i := entryIndex];
        }
        i := i + 1;
      }
    }

    method RedirectNexts(lastIndex: int, entryIndex: int)
      modifies this`entries
      ensures entries == RenumberEntries(lastIndex, entryIndex, old(entries))
    {
      var i := 0;
      while i < |entries|
        invariant 0 <= i <= |entries| == old(|entries|)
        invariant forall j :: 0 <= j < i ==>
                    entries[j] == old(entries[j]).(next := Renumber(lastIndex, entryIndex, old(entries[j].next)))
        invariant forall j :: i <= j < |entries| ==> entries[j] == old(entries[j])
      {
        if entries[i].next == lastIndex {
          entries := entries[i := entries[i].(next := entryIndex)];
        }
        i := i + 1;
      }
    }

    /** Any sequence of calls replies, and ends, as the same sequence on a finite map. */
    method Run(ops: seq<Op<V>>) returns (replies: seq<Reply<V>>)
      requires Valid() && |entries| + |ops| < MAX_ENTRIES
      modifies this
      ensures Valid()
      ensures (Contents(), replies) == ApplyAll(old(Contents()), ops)
    {
      replies := [];
      for k := 0 to |ops|
        invariant Valid() && |entries| <= old(|entries|) + k
        invariant (Contents(), replies) == ApplyAll(old(Contents()), ops[..k])
      {
        assert ops[..k + 1][..k] == ops[..k];
        match ops[k]
        case InsertOp(key, value) =>
          var _, added := Insert(key, value);
          replies := replies + [Inserted(added)];
        case UpdateOp(key, value) =>
          var existed := Update(key, value);
          replies := replies + [Updated(existed)];
        case EraseOp(key) =>
          var existed := Erase(key);
          replies := replies + [Erased(existed)];
        case FindOp(key) =>
          var value := Find(key);
          replies := replies + [Found(value)];
      }
      assert ops[..|ops|] == ops;
    }
  }
}
