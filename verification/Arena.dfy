/** The bump allocator of src/frontend/arena.cpp: a list of blocks, the newest in front. */
module Arenas {
  import opened Machine

  class Block {
    const data: array<bv8>
    const next: Block?
    var used: nat

    constructor (cap: nat, next: Block?)
      ensures this.next == next && used == 0 && data.Length == cap && fresh(data)
    {
      this.data := new bv8[cap];
      this.next := next;
      this.used := 0;
    }
  }

  /** A reservation handed to a caller. */
  datatype Region = Region(block: Block, start: nat, length: nat)
  {
    function End(): nat { start + length }
  }

  /** What a reservation holds. */
  ghost function Bytes(r: Region): seq<bv8>
    reads r.block.data
  {
    if r.End() <= r.block.data.Length then r.block.data[r.start..r.End()] else []
  }

  predicate AllZero(s: seq<bv8>)
  {
    forall k :: 0 <= k < |s| ==> s[k] == 0
  }

  predicate Apart(r: Region, s: Region)
  {
    r.block != s.block || r.End() <= s.start || s.End() <= r.start
  }

  // --------------------------------------------------- how much is reserved

  /** The bytes reserved for a request; the mask `~7u` has 32 bits. */
  function Reserved(n: U64): (r: nat)
    ensures r < 0x1_0000_0000 && r % 8 == 0
  {
    var m := ((if n == 0 then 1 else n) + 7) % 0x1_0000_0000_0000_0000 % 0x1_0000_0000;
    m - m % 8
  }

  const MAX_REQUEST: nat := 0xffff_fff8

  /** A reservation holds the request exactly up to 2^32 - 8 bytes; beyond that it is always short. */
  lemma ReservationExact(n: U64)
    ensures Reserved(n) >= (if n == 0 then 1 else n) <==> n <= MAX_REQUEST
    ensures n <= MAX_REQUEST ==> Reserved(n) < (if n == 0 then 1 else n) + 8
  {
    if 0 < n <= MAX_REQUEST {
      assert (n + 7) % 0x1_0000_0000_0000_0000 % 0x1_0000_0000 == n + 7;
    }
  }

  /** Block `i` points to the block created before it. */
  ghost predicate Link(blocks: seq<Block>, i: nat)
    requires i < |blocks|
  {
    blocks[i].next == (if i == 0 then null else blocks[i - 1])
  }

  class Arena {
    const blockSize: nat
    var head: Block?
    ghost var blocks: seq<Block>
    ghost var regions: seq<Region>

    /** The blocks in order of creation, each linked to the one before and with its own storage. */
    ghost predicate Linked()
      reads this, blocks
    {
      && head == (if blocks == [] then null else blocks[|blocks| - 1])
      && (forall i :: 0 <= i < |blocks| ==> Link(blocks, i))
      && (forall i, j :: 0 <= i < j < |blocks| ==> blocks[i] != blocks[j] && blocks[i].data != blocks[j].data)
      && (forall b :: b in blocks ==> b.used <= b.data.Length && b.used % 8 == 0)
    }

    ghost predicate Placed(r: Region)
      reads this, blocks
    {
      r.block in blocks && r.End() <= r.block.used && r.start % 8 == 0
    }

    /** Reservations lie inside the used part of their block, on 8-byte boundaries, apart from each other. */
    ghost predicate Valid()
      reads this, blocks
    {
      && Linked()
      && (forall r :: r in regions ==> Placed(r))
      && (forall i, j :: 0 <= i < j < |regions| ==> Apart(regions[i], regions[j]))
    }

    constructor (blockSize: nat)
      ensures Valid() && blocks == [] && regions == [] && this.blockSize == blockSize
    {
      this.blockSize := blockSize;
      head := null;
      blocks := [];
      regions := [];
    }

    method NewBlock(minSize: nat)
      requires Valid()
      modifies this`head, this`blocks
      ensures Valid()
      ensures head != null && fresh(head) && fresh(head.data) && blocks == old(blocks) + [head]
      ensures head.used == 0 && head.data.Length == (if minSize > blockSize then minSize else blockSize)
    {
      var b := new Block(if minSize > blockSize then minSize else blockSize, head);
      assert b !in blocks && forall i :: 0 <= i < |blocks| ==> Link(blocks, i);
      head := b;
      blocks := blocks + [b];
      forall i | 0 <= i < |blocks|
        ensures Link(blocks, i)
      {
        if i < |old(blocks)| {
          assert Link(old(blocks), i);
        }
      }
    }

    /** A block that has `used` bytes taken has room for `size` more. */
    static predicate Roomy(block: Block?, used: nat, size: nat)
    {
      block != null && used + size <= block.data.Length
    }

    /** The head block has room for `size` more bytes, in a new block if need be. */
    method MakeRoom(size: nat)
      requires Valid()
      modifies this`head, this`blocks
      ensures Valid() && head != null && head.used + size <= head.data.Length
      ensures old(blocks) <= blocks && (head == old(head) || (fresh(head) && fresh(head.data)))
      ensures if Roomy(old(head), old(if head == null then 0 else head.used), size)
              then blocks == old(blocks) && head == old(head)
              else head.used == 0 && |blocks| == |old(blocks)| + 1
    {
      if head == null || head.used + size > head.data.Length {
        NewBlock(size);
      }
    }

    /** Takes the next `size` bytes of the head block. */
    method Bump(size: nat) returns (r: Region)
      requires Valid() && head != null && head.used + size <= head.data.Length && size % 8 == 0
      modifies this`regions, head`used
      ensures Valid() && regions == old(regions) + [r] && r == Region(head, old(head.used), size)
    {
      r := Region(head, head.used, size);
      ghost var before := regions;
      forall q | q in before
        ensures Apart(q, r)
      {
        assert Placed(q);
      }
      head.used := head.used + size;
      regions := before + [r];
      forall q | q in regions
        ensures Placed(q)
      {
        assert q == r || old(Placed(q));
      }
      forall i, j | 0 <= i < j < |regions|
        ensures Apart(regions[i], regions[j])
      {
        assert regions[i] == before[i] && before[i] in before;
      }
    }

    /** An earlier reservation has its bytes in other storage than the last one's, or beside them. */
    lemma LastApart(q: Region, r: Region)
      requires Valid() && regions != [] && r == regions[|regions| - 1] && q in regions[..|regions| - 1]
      ensures q.End() <= q.block.data.Length && r.End() <= r.block.data.Length
      ensures q.block.data == r.block.data ==> q.End() <= r.start || r.End() <= q.start
    {
      assert q in regions && r in regions;
      assert Placed(q) && Placed(r) && Apart(q, r);
    }

    /**
     A fresh reservation: the next bytes of the head block if they are enough, otherwise the first of a
     new one; 8-aligned, apart from every earlier one, all zero; no byte of an earlier one changes.
     */
    method Alloc(n: U64) returns (r: Region)
      requires Valid()
      modifies this, head, (if head == null then {} else {head.data})
      ensures Valid() && regions == old(regions) + [r] && old(blocks) <= blocks
      ensures r.length == Reserved(n) && r.block == head && r.End() <= r.block.data.Length
      ensures head == old(head) || (fresh(head) && fresh(head.data))
      ensures if Roomy(old(head), old(if head == null then 0 else head.used), Reserved(n))
              then blocks == old(blocks) && r.start == old(if head == null then 0 else head.used)
              else |blocks| == |old(blocks)| + 1 && r.start == 0
      ensures AllZero(Bytes(r))
      ensures forall q :: q in old(regions) ==> Bytes(q) == old(Bytes(q))
    {
      hide AllZero, Reserved, Valid;
      var size := Reserved(n);
      MakeRoom(size);
      r := Bump(size);
      label reserved:
      Zero(head.data, r.start, r.End());
      ZeroBytes(r);
      forall q | q in old(regions)
        ensures Bytes(q) == old(Bytes(q))
      {
        assert Bytes(q) == old@reserved(Bytes(q)) by {
          LastApart(q, r);
          if q.block.data == head.data {
            SliceKept(old@reserved(head.data[..]), head.data[..], r.start, r.End(), q.start, q.End());
          }
        }
      }
    }

    /** Every request of a run gets its own reservation, and each is still all zero at the end of the run. */
    method AllocAll(sizes: seq<U64>) returns (rs: seq<Region>)
      requires Valid()
      modifies this, head, (if head == null then {} else {head.data})
      ensures Valid() && regions == old(regions) + rs && |rs| == |sizes|
      ensures forall i :: 0 <= i < |rs| ==> rs[i].length == Reserved(sizes[i])
      ensures forall i :: 0 <= i < |rs| ==> AllZero(Bytes(rs[i]))
      ensures forall q :: q in old(regions) ==> Bytes(q) == old(Bytes(q))
    {
      hide AllZero, Bytes, Reserved, Valid;
      rs := [];
      for i := 0 to |sizes|
        invariant Valid() && regions == old(regions) + rs && |rs| == i
        invariant head == old(head) || (fresh(head) && fresh(head.data))
        invariant forall j :: 0 <= j < i ==> rs[j].length == Reserved(sizes[j])
        invariant forall j :: 0 <= j < i ==> AllZero(Bytes(rs[j]))
        invariant forall q :: q in old(regions) ==> Bytes(q) == old(Bytes(q))
      {
        var r := Alloc(sizes[i]);
        rs := rs + [r];
      }
    }

    /** `strdup`: the string and a terminating NUL, in a reservation of their own. */
    method Strdup(s: seq<bv8>) returns (r: Region)
      requires Valid() && |s| + 1 <= MAX_REQUEST
      modifies this, head, (if head == null then {} else {head.data})
      ensures Valid() && regions == old(regions) + [r] && |s| + 1 <= r.length == Reserved(|s| + 1)
      ensures r.End() <= r.block.data.Length && r.block.data[r.start..r.start + |s| + 1] == s + [0]
      ensures forall q :: q in old(regions) ==> Bytes(q) == old(Bytes(q))
    {
      hide AllZero, Reserved, Valid;
      ReservationExact(|s| + 1);
      r := Alloc(|s| + 1);
      label reserved:
      Copy(head.data, r.start, s);
      forall q | q in old(regions)
        ensures Bytes(q) == old(Bytes(q))
      {
        assert Bytes(q) == old@reserved(Bytes(q)) by {
          LastApart(q, r);
          if q.block.data == head.data {
            SliceKept(old@reserved(head.data[..]), head.data[..], r.start, r.End(), q.start, q.End());
          }
        }
      }
    }

    /** Walks the list and releases every block, each once. */
    method FreeAll() returns (freed: seq<Block>)
      requires Valid()
      modifies this`head, this`blocks, this`regions
      ensures Valid() && blocks == [] && regions == [] && head == null
      ensures multiset(freed) == multiset(old(blocks))
      ensures forall b :: b in freed ==> multiset(freed)[b] == 1
    {
      freed := [];
      var b := head;
      ghost var left := blocks;
      while b != null
        invariant left <= blocks && b == (if left == [] then null else left[|left| - 1])
        invariant multiset(freed) + multiset(left) == multiset(blocks)
        decreases |left|
        modifies {}
      {
        assert Link(blocks, |left| - 1);
        MoveLast(freed, left);
        freed := freed + [b];
        left := left[..|left| - 1];
        b := b.next;
      }
      OnceEach(blocks);
      head := null;
      blocks := [];
      regions := [];
    }
  }

  /** Writing `lo..hi` of a buffer leaves the bytes beside it alone. */
  lemma SliceKept(was: seq<bv8>, now: seq<bv8>, lo: nat, hi: nat, from: nat, end: nat)
    requires |was| == |now| && from <= end <= |was| && (end <= lo || hi <= from)
    requires forall k :: 0 <= k < |was| && !(lo <= k < hi) ==> now[k] == was[k]
    ensures now[from..end] == was[from..end]
  {
  }

  lemma ZeroBytes(r: Region)
    requires r.End() <= r.block.data.Length
    requires forall k :: r.start <= k < r.End() ==> r.block.data[k] == 0
    ensures AllZero(Bytes(r))
  {
  }

  /** Moving the last block over to the released ones loses and adds none. */
  lemma MoveLast(freed: seq<Block>, left: seq<Block>)
    requires left != []
    ensures multiset(freed + [left[|left| - 1]]) + multiset(left[..|left| - 1]) == multiset(freed) + multiset(left)
  {
    assert left == left[..|left| - 1] + [left[|left| - 1]];
  }

  lemma OnceEach(blocks: seq<Block>)
    requires forall i, j :: 0 <= i < j < |blocks| ==> blocks[i] != blocks[j]
    ensures forall b :: b in blocks ==> multiset(blocks)[b] == 1
  {
    forall b | b in blocks
      ensures multiset(blocks)[b] == 1
    {
      var i :| 0 <= i < |blocks| && blocks[i] == b;
      assert blocks == blocks[..i] + [b] + blocks[i + 1..];
      assert b !in blocks[..i] && b !in blocks[i + 1..];
    }
  }

  /** `memcpy` of the string, then the NUL. */
  method Copy(a: array<bv8>, at: nat, s: seq<bv8>)
    requires at + |s| + 1 <= a.Length
    modifies a
    ensures a[at..at + |s| + 1] == s + [0]
    ensures forall k :: 0 <= k < a.Length && !(at <= k <= at + |s|) ==> a[k] == old(a[k])
  {
    for i := 0 to |s|
      invariant forall j :: 0 <= j < i ==> a[at + j] == s[j]
      invariant forall k :: 0 <= k < a.Length && !(at <= k < at + i) ==> a[k] == old(a[k])
    {
      a[at + i] := s[i];
    }
    a[at + |s|] := 0;
  }

  /** `memset(ptr, 0, size)`. */
  method Zero(a: array<bv8>, from: nat, to: nat)
    requires from <= to <= a.Length
    modifies a
    ensures forall k :: from <= k < to ==> a[k] == 0
    ensures forall k :: 0 <= k < a.Length && !(from <= k < to) ==> a[k] == old(a[k])
  {
    for k := from to to
      invariant forall j :: from <= j < k ==> a[j] == 0
      invariant forall j :: 0 <= j < a.Length && !(from <= j < k) ==> a[j] == old(a[j])
    {
      a[k] := 0;
    }
  }
}
