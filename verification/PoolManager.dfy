// The pool manager: pools of equal blocks, kept in order of block size, searched for the tightest fit.

module PoolManager {
  import opened ByteMemory
  import opened Sequences

  /** A block: its header, `flag` (its `allocated` field) and `blockSize`, and the bytes the caller gets. */
  datatype Block = Block(flag: nat, size: nat, payload: seq<Byte>)

  const HEADER := 4

  function ZeroBlock(size: nat): Block {
    Block(0, 0, ZeroBytes(size))
  }

  function TakenBlock(size: nat): Block {
    Block(1, size, ZeroBytes(size))
  }

  /** How many headers are flagged allocated. */
  ghost function Taken(s: seq<Block>): (n: nat)
    ensures n <= |s|
  {
    if s == [] then 0 else (if s[0].flag == 1 then 1 else 0) + Taken(s[1..])
  }

  lemma {:induction false} TakenUpdate(s: seq<Block>, i: nat, b: Block)
    requires i < |s|
    ensures Taken(s[i := b]) ==
            Taken(s) - (if s[i].flag == 1 then 1 else 0) + if b.flag == 1 then 1 else 0
  {
    if i == 0 {
      assert s[0 := b][1..] == s[1..];
    } else {
      TakenUpdate(s[1..], i - 1, b);
      assert s[i := b][1..] == s[1..][i - 1 := b];
    }
  }

  lemma {:induction false} TakenNone(s: seq<Block>)
    requires forall i :: 0 <= i < |s| ==> s[i].flag != 1
    ensures Taken(s) == 0
  {
    if s != [] {
      TakenNone(s[1..]);
    }
  }

  /** The blocks of a pool are each free and wholly zero, or taken and labelled with the block size. */
  ghost predicate Wellformed(s: seq<Block>, blockSize: nat) {
    forall i {:trigger s[i]} :: 0 <= i < |s| ==>
      s[i] == ZeroBlock(blockSize) || (s[i].flag == 1 && s[i].size == blockSize && |s[i].payload| == blockSize)
  }

  ghost predicate HasFree(s: seq<Block>) {
    exists i :: 0 <= i < |s| && s[i].flag == 0
  }

  /** The first block that is not flagged. */
  ghost function FirstFree(s: seq<Block>): (k: nat)
    ensures k <= |s|
    ensures forall i :: 0 <= i < k ==> s[i].flag != 0
    ensures k < |s| ==> s[k].flag == 0
  {
    if s == [] || s[0].flag == 0 then 0 else 1 + FirstFree(s[1..])
  }

  /** A header as it lies in memory. */
  function HeaderBytes(b: Block): (h: seq<Byte>)
    requires b.flag < MODULUS16 && b.size < MODULUS16
    ensures |h| == HEADER
  {
    Bytes16(b.flag) + Bytes16(b.size)
  }

  /** How many bytes an allocation of block `i` clears: it reads the size field through a header pointer that already
      stands on the payload.  What lies there is the payload and then the next header or, after the last block, the
      bytes behind the pool. */
  function SizeWord(s: seq<Block>, i: nat, blockSize: nat, behind: seq<Byte>): nat
    requires i < |s| && Wellformed(s, blockSize) && blockSize < MODULUS16 && |behind| == HEADER
  {
    Get16(s[i].payload + if i + 1 < |s| then HeaderBytes(s[i + 1]) else behind, 2)
  }

  /** Clearing a free block stays inside it exactly when its own bytes hold the word, or the next block is free, or
      blocks have two bytes and the word is a flag; for a smaller last block it depends on what lies behind the pool. */
  lemma ClearedWithinBlockExactly(s: seq<Block>, i: nat, blockSize: nat, behind: seq<Byte>)
    requires i < |s| && Wellformed(s, blockSize) && 0 < blockSize < MODULUS16 && |behind| == HEADER
    requires s[i] == ZeroBlock(blockSize)
    ensures SizeWord(s, i, blockSize, behind) <= blockSize
            <==> || HEADER <= blockSize
                 || (i + 1 < |s| && (blockSize == 2 || s[i + 1].flag == 0))
                 || (i + 1 == |s| && blockSize == 3 && behind[0] == 0)
                 || (i + 1 == |s| && blockSize == 2 && Get16(behind, 0) <= 2)
                 || (i + 1 == |s| && blockSize == 1 && Get16(behind, 1) <= 1)
  {
    var next := if i + 1 < |s| then HeaderBytes(s[i + 1]) else behind;
    var m := s[i].payload + next;
    if blockSize < HEADER {
      assert m[2] == if blockSize == 3 then 0 else next[2 - blockSize];
      assert m[3] == next[3 - blockSize];
    }
  }

  /** A free block of three bytes before a taken one: its allocation clears 256 bytes. */
  lemma ThreeByteBlockOverruns(behind: seq<Byte>)
    requires |behind| == HEADER
    ensures Wellformed([ZeroBlock(3), TakenBlock(3)], 3)
    ensures SizeWord([ZeroBlock(3), TakenBlock(3)], 0, 3, behind) == 256
  {
    var m := ZeroBytes(3) + HeaderBytes(TakenBlock(3));
    assert m[2] == 0 && m[3] == 1;
  }

  lemma FirstFreeReached(s: seq<Block>, k: nat)
    requires k < |s| && s[k].flag == 0 && forall i :: 0 <= i < k ==> s[i].flag == 1
    ensures FirstFree(s) == k && HasFree(s)
  {
  }

  lemma {:induction false} StrideBelow(i: nat, n: nat, stride: nat)
    requires i < n
    ensures i * stride + stride <= n * stride
  {
    if i + 1 < n {
      StrideBelow(i, n - 1, stride);
    }
    assert n * stride == (n - 1) * stride + stride;
  }

  /** Taking a free block keeps a pool well formed, with one more header flagged. */
  lemma TakenOver(s: seq<Block>, i: nat, blockSize: nat)
    requires i < |s| && Wellformed(s, blockSize) && s[i] == ZeroBlock(blockSize)
    ensures var s' := s[i := TakenBlock(blockSize)]; Wellformed(s', blockSize) && Taken(s') == Taken(s) + 1
  {
    TakenUpdate(s, i, TakenBlock(blockSize));
  }

  lemma ClearedZeros(size: nat, cleared: nat)
    requires cleared <= size
    ensures ZeroBytes(cleared) + ZeroBytes(size)[cleared..] == ZeroBytes(size)
  {
  }

  class Pool {
    const pHeap: nat
    const poolId: nat
    const blockSize: nat
    const numBlocks: nat
    const blocks: array<Block>

    /** The four bytes behind the last block, which belong to someone else. */
    var behind: seq<Byte>

    ghost const end: nat
    var allocatedBlocks: nat
    var nextPool: Pool?

    ghost predicate Consistent()
      reads this`allocatedBlocks, this`behind, blocks
    {
      && |behind| == HEADER
      && 0 < blockSize < MODULUS16 && 0 < numBlocks < MODULUS16 && blocks.Length == numBlocks
      && Wellformed(blocks[..], blockSize)
      && allocatedBlocks == Taken(blocks[..])
    }

    /** A pool as its zeroed memory makes it. */
    constructor (pHeap: nat, poolId: nat, blockSize: nat, numBlocks: nat, behind: seq<Byte>)
      requires 0 < blockSize < MODULUS16 && 0 < numBlocks < MODULUS16 && |behind| == HEADER
      ensures Consistent() && fresh(blocks) && nextPool == null && allocatedBlocks == 0
      ensures blocks.Length == numBlocks && forall i :: 0 <= i < numBlocks ==> blocks[i].flag == 0
      ensures Sized() && this.pHeap == pHeap && this.poolId == poolId
      ensures this.blockSize == blockSize && this.numBlocks == numBlocks && this.behind == behind
    {
      this.pHeap, this.poolId, this.blockSize, this.numBlocks := pHeap, poolId, blockSize, numBlocks;
      blocks := new Block[numBlocks](_ => ZeroBlock(blockSize));
      this.behind, allocatedBlocks, nextPool := behind, 0, null;
      end := pHeap + numBlocks * (blockSize + HEADER);
      new;
      TakenNone(blocks[..]);
    }

    /** How many bytes the blocks take. */
    ghost function Footprint(): nat {
      numBlocks * (blockSize + HEADER)
    }

    /** `end` is one past the last byte of the pool's blocks. */
    ghost predicate Sized() {
      end == pHeap + Footprint()
    }

    /** The address of the header of block `i`. */
    function Address(i: nat): nat {
      pHeap + i * (blockSize + HEADER)
    }

    lemma AddressInside(i: nat)
      requires i < numBlocks && Sized()
      ensures pHeap <= Address(i) && Address(i) + HEADER + blockSize <= end
      ensures forall j: nat :: i < j < numBlocks ==> Address(i) + HEADER + blockSize <= Address(j)
    {
      var stride := blockSize + HEADER;
      StrideBelow(i, numBlocks, stride);
      forall j: nat | i < j < numBlocks
        ensures Address(i) + stride <= Address(j)
      {
        StrideBelow(i, j, stride);
      }
    }

    /** Clearing the first free block stays inside it. */
    ghost predicate ClearsInside()
      requires Consistent()
      reads this`allocatedBlocks, this`behind, blocks
    {
      var k := FirstFree(blocks[..]);
      k < numBlocks ==> SizeWord(blocks[..], k, blockSize, behind) <= blockSize
    }

    /** The block loop of MEM_BufferAllocWithId, up to the first free block. */
    method FindFree() returns (found: bool, index: nat)
      requires Consistent()
      ensures found == HasFree(blocks[..])
      ensures found ==> index == FirstFree(blocks[..]) < numBlocks && blocks[index].flag == 0
      ensures found ==> forall i :: 0 <= i < index ==> blocks[i].flag == 1
      ensures !found ==> forall i :: 0 <= i < numBlocks ==> blocks[i].flag == 1
    {
      found, index := false, 0;
      while index < numBlocks
        invariant index <= numBlocks && !found
        invariant forall i :: 0 <= i < index ==> blocks[i].flag == 1
      {
        assert blocks[..][index] == blocks[index];
        if blocks[index].flag == 0 {
          FirstFreeReached(blocks[..], index);
          found := true;
          return;
        }
        index := index + 1;
      }
    }

    /** What MEM_BufferAllocWithId does to the first free block. */
    method Take(index: nat)
      requires Consistent() && ClearsInside() && index == FirstFree(blocks[..]) < numBlocks
      modifies this`allocatedBlocks, blocks
      ensures Consistent() && old(blocks[index]).flag == 0 && allocatedBlocks == old(allocatedBlocks) + 1
      ensures blocks[..] == old(blocks[..])[index := blocks[index]]
      ensures var b := blocks[index];
              && b.flag == 1 && b.size == blockSize && |b.payload| == blockSize
              && forall j :: 0 <= j < blockSize ==> b.payload[j] == 0
    {
      ghost var before := blocks[..];
      assert before[index] == ZeroBlock(blockSize);
      TakenOver(before, index, blockSize);
      var cleared := SizeWord(blocks[..], index, blockSize, behind);
      var block := blocks[index].(flag := 1, size := blockSize);
      allocatedBlocks := allocatedBlocks + 1;
      ClearedZeros(blockSize, cleared);
      blocks[index] := block.(payload := ZeroBytes(cleared) + block.payload[cleared..]);
      assert blocks[..] == before[index := TakenBlock(blockSize)];
    }

    /** The memory update of MEM_BufferFree, when the header is flagged. */
    method Release(index: nat)
      requires Consistent() && index < numBlocks && blocks[index].flag == 1
      modifies blocks
      ensures blocks[..] == old(blocks[..])[index := blocks[index]]
      ensures var b := blocks[index];
              && b.flag == 0 && b.size == 0 && |b.payload| == blockSize
              && forall j :: 0 <= j < blockSize ==> b.payload[j] == 0
      ensures Wellformed(blocks[..], blockSize) && Taken(blocks[..]) == allocatedBlocks - 1
    {
      TakenUpdate(blocks[..], index, ZeroBlock(blockSize));
      var block := blocks[index];
      assert block == blocks[..][index];
      assert ZeroBytes(block.size) + block.payload[block.size..] == ZeroBytes(blockSize);
      blocks[index] := Block(0, 0, ZeroBytes(block.size) + block.payload[block.size..]);
      assert blocks[..] == old(blocks[..])[index := ZeroBlock(blockSize)];
    }

    /** The counter update of MEM_BufferFree. */
    method CountDown()
      requires 0 < blockSize < MODULUS16 && 0 < numBlocks < MODULUS16 && blocks.Length == numBlocks
      requires |behind| == HEADER
      requires Wellformed(blocks[..], blockSize) && Taken(blocks[..]) == allocatedBlocks - 1
      modifies this`allocatedBlocks
      ensures Consistent() && allocatedBlocks == old(allocatedBlocks) - 1
    {
      allocatedBlocks := allocatedBlocks - 1;
    }

    /** The pool's part of MEM_BufferFreeAllWithId. */
    method Clear()
      requires Consistent()
      modifies this`allocatedBlocks, blocks
      ensures Consistent() && allocatedBlocks == 0
      ensures forall i :: 0 <= i < numBlocks ==>
                && blocks[i].flag == 0 && blocks[i].size == 0 && |blocks[i].payload| == blockSize
                && forall j :: 0 <= j < blockSize ==> blocks[i].payload[j] == 0
    {
      forall i | 0 <= i < blocks.Length {
        blocks[i] := ZeroBlock(blockSize);
      }
      allocatedBlocks := 0;
      TakenNone(blocks[..]);
    }
  }

  /** The first pool whose blocks have `size` bytes or more. */
  ghost function FirstAtLeast(pools: seq<Pool>, size: nat): (k: nat)
    ensures k <= |pools|
    ensures forall i :: 0 <= i < k ==> pools[i].blockSize < size
    ensures k < |pools| ==> size <= pools[k].blockSize
  {
    if pools == [] || size <= pools[0].blockSize then 0 else 1 + FirstAtLeast(pools[1..], size)
  }

  /** Every block is free and zero. */
  ghost predicate Blank(p: Pool)
    reads p.blocks
  {
    forall i :: 0 <= i < p.blocks.Length ==>
      && p.blocks[i].flag == 0 && p.blocks[i].size == 0 && |p.blocks[i].payload| == p.blockSize
      && forall j :: 0 <= j < p.blockSize ==> p.blocks[i].payload[j] == 0
  }

  /** A pool that can serve the request now. */
  ghost predicate Fits(p: Pool, numBytes: nat, id: nat)
    reads p.blocks
  {
    numBytes <= p.blockSize && p.poolId == id && HasFree(p.blocks[..])
  }

  ghost predicate Sorted(pools: seq<Pool>) {
    forall i, j :: 0 <= i < j < |pools| ==> pools[i].blockSize <= pools[j].blockSize
  }

  /** Different pools, different memory. */
  ghost predicate Apart(p: Pool, q: Pool) {
    p != q && p.blocks != q.blocks && (p.end <= q.pHeap || q.end <= p.pHeap)
  }

  ghost predicate AllSized(pools: seq<Pool>) {
    forall i :: 0 <= i < |pools| ==> pools[i].Sized()
  }

  ghost predicate AllApart(pools: seq<Pool>) {
    forall i, j :: 0 <= i < j < |pools| ==> Apart(pools[i], pools[j])
  }

  lemma EachApart(pools: seq<Pool>, pool: Pool)
    requires AllApart(pools + [pool])
    ensures AllApart(pools) && pool !in pools && forall i :: 0 <= i < |pools| ==> Apart(pools[i], pool)
  {
    var all := pools + [pool];
    assert all[|pools|] == pool && forall i :: 0 <= i < |pools| ==> all[i] == pools[i];
  }

  /** Two pools of the longer sequence are two of the shorter one, or one of them and the new pool. */
  lemma PairInOrder(pools: seq<Pool>, k: nat, pool: Pool, i: nat, j: nat)
    requires Sorted(pools) && AllApart(pools) && k == FirstAtLeast(pools, pool.blockSize)
    requires forall i :: 0 <= i < |pools| ==> Apart(pools[i], pool)
    requires i < j <= |pools|
    ensures var r := InsertedAt(pools, k, pool); r[i].blockSize <= r[j].blockSize && Apart(r[i], r[j])
  {
    if i == k {
      assert pools[k].blockSize <= pools[j - 1].blockSize && Apart(pools[j - 1], pool);
    } else if j == k {
      assert Apart(pools[i], pool);
    } else {
      var i', j' := if i < k then i else i - 1, if j < k then j else j - 1;
      assert pools[i'].blockSize <= pools[j'].blockSize && Apart(pools[i'], pools[j']);
    }
  }

  lemma InsertedInOrder(pools: seq<Pool>, k: nat, pool: Pool)
    requires Sorted(pools) && AllApart(pools + [pool]) && k == FirstAtLeast(pools, pool.blockSize)
    requires AllSized(pools) && pool.Sized()
    ensures pool !in pools && AllSized(InsertedAt(pools, k, pool))
    ensures Sorted(InsertedAt(pools, k, pool)) && AllApart(InsertedAt(pools, k, pool))
  {
    EachApart(pools, pool);
    forall i: nat, j: nat | i < j <= |pools|
      ensures var r := InsertedAt(pools, k, pool); r[i].blockSize <= r[j].blockSize && Apart(r[i], r[j])
    {
      PairInOrder(pools, k, pool, i, j);
    }
  }

  lemma InsertedLinks(pools: seq<Pool>, k: nat, pool: Pool)
    requires k <= |pools|
    requires forall i {:trigger pools[i].nextPool} :: 0 <= i < |pools| ==>
               pools[i].nextPool == if i + 1 == k then pool else if i + 1 < |pools| then pools[i + 1] else null
    requires pool.nextPool == if k < |pools| then pools[k] else null
    ensures var r := InsertedAt(pools, k, pool);
            forall i {:trigger r[i].nextPool} :: 0 <= i < |r| ==>
              r[i].nextPool == if i + 1 < |r| then r[i + 1] else null
  {
  }

  lemma InsertedConsistent(pools: seq<Pool>, k: nat, pool: Pool)
    requires k <= |pools| && pool.Consistent()
    requires forall i {:trigger pools[i].Consistent()} :: 0 <= i < |pools| ==> pools[i].Consistent()
    ensures var r := InsertedAt(pools, k, pool);
            forall i {:trigger r[i].Consistent()} :: 0 <= i < |r| ==> r[i].Consistent()
  {
  }

  class Manager {
    var headPool: Pool?

    ghost var pools: seq<Pool>

    ghost function PoolAt(i: int): Pool?
      reads this`pools
    {
      if 0 <= i < |pools| then pools[i] else null
    }

    /** The list runs through the pools in order. */
    ghost predicate Chained()
      reads this, pools`nextPool
    {
      && headPool == PoolAt(0)
      && (forall i {:trigger pools[i].nextPool} :: 0 <= i < |pools| ==> pools[i].nextPool == PoolAt(i + 1))
      && Sorted(pools) && AllApart(pools) && AllSized(pools)
    }

    ghost predicate AllConsistent()
      reads this`pools, pools`allocatedBlocks, pools`behind, set p | p in pools :: p.blocks
    {
      forall i {:trigger pools[i].Consistent()} :: 0 <= i < |pools| ==> pools[i].Consistent()
    }

    ghost predicate Valid()
      reads this, pools, set p | p in pools :: p.blocks
    {
      Chained() && AllConsistent()
    }

    /** MEM_Init. */
    constructor ()
      ensures Valid() && pools == []
    {
      headPool := null;
      pools := [];
    }

    /** The new pool stands between `k - 1` and `k` in the links. */
    ghost predicate LinkedIn(pool: Pool, k: nat, oldHead: Pool?)
      reads this, pool, pools
    {
      && headPool == (if k == 0 then pool else oldHead)
      && (forall i {:trigger pools[i].nextPool} :: 0 <= i < |pools| ==>
            pools[i].nextPool == if i + 1 == k then pool else PoolAt(i + 1))
      && pool.nextPool == PoolAt(k)
    }

    /** The stores of MEM_AddBuffer inside its loop. */
    method LinkBefore(pool: Pool, temp: Pool, prev: Pool, ghost k: nat)
      requires Chained() && pool !in pools
      requires k < |pools| && temp == pools[k] && prev == if k == 0 then pools[0] else pools[k - 1]
      modifies this`headPool, pool`nextPool, pools`nextPool
      ensures LinkedIn(pool, k, old(headPool))
    {
      assert k != 0 ==> Apart(pools[0], pools[k]);
      assert forall i :: 0 <= i < |pools| && i + 1 != k && k != 0 ==> pools[i] != prev by {
        assert forall i, j :: 0 <= i < j < |pools| ==> Apart(pools[i], pools[j]);
      }
      if temp == headPool {
        headPool := pool;
      } else {
        prev.nextPool := pool;
      }
      pool.nextPool := temp;
    }

    /** The store of MEM_AddBuffer behind its loop, which repeats one made inside it or links the pool in at the end. */
    method LinkLast(pool: Pool, prev: Pool, ghost k: nat, ghost oldHead: Pool?)
      requires pool !in pools && Sorted(pools) && AllApart(pools) && k == FirstAtLeast(pools, pool.blockSize)
      requires |pools| > 0 && prev == if k == 0 then pools[0] else pools[k - 1]
      requires if k < |pools| then LinkedIn(pool, k, oldHead)
               else Chained() && headPool == oldHead && pool.nextPool == null
      modifies prev`nextPool
      ensures LinkedIn(pool, k, oldHead)
    {
      if pool.blockSize > prev.blockSize {
        assert k > 0 && forall i :: 0 <= i < |pools| && i != k - 1 ==> pools[i] != prev;
        prev.nextPool := pool;
      }
    }

    /** The links that MEM_AddBuffer sets: the new pool goes before the first whose blocks are no smaller. */
    method LinkIn(pool: Pool, ghost k: nat)
      requires Valid() && pool !in pools && pool.nextPool == null && k == FirstAtLeast(pools, pool.blockSize)
      modifies this`headPool, pool`nextPool, pools`nextPool
      ensures LinkedIn(pool, k, old(headPool))
    {
      if headPool == null {
        headPool := pool;
      } else {
        var temp := headPool;
        var prev := headPool;
        ghost var i := 0;
        while temp != null
          invariant 0 <= i <= k && temp == PoolAt(i) && prev == if i == 0 then pools[0] else pools[i - 1]
          decreases |pools| - i
        {
          if (pool.blockSize >= prev.blockSize && pool.blockSize <= temp.blockSize)
             || pool.blockSize <= prev.blockSize {
            LinkBefore(pool, temp, prev, k);
            break;
          }
          prev := temp;
          temp := temp.nextPool;
          i := i + 1;
        }
        LinkLast(pool, prev, k, old(headPool));
      }
    }

    /** MEM_AddBuffer, for a pool whose memory is zero. */
    method AddBuffer(pool: Pool)
      requires Valid() && pool.Consistent() && pool.nextPool == null && AllApart(pools + [pool]) && pool.Sized()
      modifies this, pool`nextPool, pools`nextPool
      ensures Valid() && pools == InsertedAt(old(pools), FirstAtLeast(old(pools), pool.blockSize), pool)
    {
      ghost var k := FirstAtLeast(pools, pool.blockSize);
      InsertedInOrder(pools, k, pool);
      LinkIn(pool, k);
      Adopt(pool, k);
    }

    /** The sequence of pools once the new one is linked in. */
    ghost method Adopt(pool: Pool, k: nat)
      requires k <= |pools| && AllConsistent() && pool.Consistent()
      requires LinkedIn(pool, k, PoolAt(0))
      requires var r := InsertedAt(pools, k, pool); Sorted(r) && AllApart(r) && AllSized(r)
      modifies this`pools
      ensures Valid() && pools == InsertedAt(old(pools), k, pool)
    {
      InsertedConsistent(pools, k, pool);
      InsertedLinks(pools, k, pool);
      pools := InsertedAt(pools, k, pool);
    }

    /** The first pool that fits, by its index. */
    ghost predicate FirstFit(i: nat, numBytes: nat, id: nat)
      reads this`pools, set p | p in pools :: p.blocks
    {
      && i < |pools| && Fits(pools[i], numBytes, id)
      && forall j :: 0 <= j < i ==> !Fits(pools[j], numBytes, id)
    }

    /** The pool loop of MEM_BufferAllocWithId, once at least one pool has been added: the first pool that fits and
        its first free block. */
    method Search(numBytes: nat, id: nat) returns (pool: Pool?, index: nat, ghost i: nat)
      requires Valid() && (numBytes != 0 ==> headPool != null)
      ensures pool == null ==> numBytes == 0 || forall j :: 0 <= j < |pools| ==> !Fits(pools[j], numBytes, id)
      ensures numBytes != 0 ==>
                forall j, k :: 0 <= j < |pools| && 0 <= k < pools[j].blocks.Length ==>
                  pools[j].poolId == id && numBytes <= pools[j].blockSize && pools[j].blocks[k].flag == 0 ==>
                  pool != null && pool.blockSize <= pools[j].blockSize
      ensures pool != null ==>
                && (forall k :: 0 <= k < index <= pool.blocks.Length ==> pool.blocks[k].flag == 1)
                && numBytes != 0 && FirstFit(i, numBytes, id) && pool == pools[i]
                && (forall j :: 0 <= j < |pools| && Fits(pools[j], numBytes, id) ==>
                      pool.blockSize <= pools[j].blockSize)
                && index == FirstFree(pool.blocks[..]) < pool.numBlocks
    {
      pool, index, i := null, 0, 0;
      var next := headPool;
      while numBytes != 0
        invariant 0 <= i <= |pools| && (numBytes != 0 ==> i < |pools|)
        invariant next == PoolAt(i) && pool == null
        invariant forall j :: 0 <= j < i ==> !Fits(pools[j], numBytes, id)
        decreases |pools| - i
      {
        assert pools[i].Consistent();
        if numBytes <= next.blockSize && next.poolId == id {
          var found, k := next.FindFree();
          if found {
            pool, index := next, k;
            return;
          }
        }
        next := next.nextPool;
        i := i + 1;
        if next == null {
          break;
        }
      }
    }

    /** Takes the block found in the `i`-th pool. */
    method TakeFrom(pool: Pool, index: nat, ghost i: nat)
      requires Valid() && i < |pools| && pool == pools[i]
      requires pool.ClearsInside() && index == FirstFree(pool.blocks[..]) < pool.numBlocks
      modifies pool`allocatedBlocks, pool.blocks
      ensures Valid() && old(pool.blocks[index]).flag == 0 && pool.allocatedBlocks == old(pool.allocatedBlocks) + 1
      ensures pool.blocks[..] == old(pool.blocks[..])[index := pool.blocks[index]]
      ensures var b := pool.blocks[index];
              && b.flag == 1 && b.size == pool.blockSize && |b.payload| == pool.blockSize
              && forall j :: 0 <= j < pool.blockSize ==> b.payload[j] == 0
      ensures forall j :: 0 <= j < |pools| && pools[j] != pool ==> pools[j].blocks[..] == old(pools[j].blocks[..])
    {
      assert forall j {:trigger pools[j].Consistent()} :: 0 <= j < |pools| && j != i ==>
          pools[j] != pool && pools[j].blocks != pool.blocks;
      pool.Take(index);
    }

    /** MEM_BufferAllocWithId, if clearing the block stays inside it. */
    method AllocWithId(numBytes: nat, id: nat) returns (pool: Pool?, index: nat)
      requires Valid() && (numBytes != 0 ==> headPool != null)
      requires numBytes != 0 ==> forall i: nat :: FirstFit(i, numBytes, id) ==> pools[i].ClearsInside()
      modifies pools`allocatedBlocks, set p | p in pools :: p.blocks
      ensures Valid() && pools == old(pools)
      ensures numBytes == 0 ==> pool == null
      ensures numBytes != 0 ==>
                forall j, k :: 0 <= j < |pools| && 0 <= k < pools[j].blocks.Length ==>
                  pools[j].poolId == id && numBytes <= pools[j].blockSize && old(pools[j].blocks[k]).flag == 0 ==>
                  pool != null && pool.blockSize <= pools[j].blockSize
      ensures pool != null ==>
                && pool in pools && index < pool.blocks.Length
                && pool.poolId == id && numBytes <= pool.blockSize && old(pool.blocks[index]).flag == 0
                && (forall k :: 0 <= k < index ==> old(pool.blocks[k]).flag == 1)
                && pool.blocks[..] == old(pool.blocks[..])[index := pool.blocks[index]]
      ensures pool != null ==>
                var b := pool.blocks[index];
                && b.flag == 1 && b.size == pool.blockSize && |b.payload| == pool.blockSize
                && (forall j :: 0 <= j < pool.blockSize ==> b.payload[j] == 0)
                && pool.allocatedBlocks == old(pool.allocatedBlocks) + 1
      ensures forall j :: 0 <= j < |pools| && pools[j] != pool ==> pools[j].blocks[..] == old(pools[j].blocks[..])
    {
      ghost var i;
      pool, index, i := Search(numBytes, id);
      if pool != null {
        TakeFrom(pool, index, i);
      }
    }

    /** The search of MEM_BufferFree: the pool in whose memory `address` lies. */
    method Owner(address: nat, ghost pool: Pool, ghost index: nat) returns (owner: Pool?)
      requires Valid() && pool in pools && index < pool.numBlocks && address == pool.Address(index)
      ensures owner == pool
    {
      owner := headPool;
      ghost var k: nat :| k < |pools| && pools[k] == pool;
      ghost var i := 0;
      assert pools[k].Sized();
      pool.AddressInside(index);
      while owner != null
        invariant 0 <= i <= k && owner == PoolAt(i)
        decreases |pools| - i
      {
        assert pools[i].Sized();
        if owner.pHeap <= address && address < owner.pHeap + owner.numBlocks * (owner.blockSize + HEADER) {
          return;
        }
        owner := owner.nextPool;
        i := i + 1;
      }
    }

    /** Zeroes a taken block of a pool and lowers the counter of its owner. */
    method ReleaseAndCount(pool: Pool, index: nat, owner: Pool)
      requires pool.Consistent() && index < pool.numBlocks && pool.blocks[index].flag == 1 && owner == pool
      modifies pool`allocatedBlocks, pool.blocks
      ensures pool.Consistent() && pool.allocatedBlocks == old(pool.allocatedBlocks) - 1
      ensures pool.blocks[..] == old(pool.blocks[..])[index := pool.blocks[index]]
      ensures var b := pool.blocks[index];
              && b.flag == 0 && b.size == 0 && |b.payload| == pool.blockSize
              && forall j :: 0 <= j < pool.blockSize ==> b.payload[j] == 0
    {
      pool.Release(index);
      owner.CountDown();
    }

    /** Frees a taken block of the `i`-th pool. */
    method FreeBlock(pool: Pool, index: nat, ghost i: nat)
      requires Valid() && i < |pools| && pool == pools[i] && index < pool.blocks.Length && pool.blocks[index].flag == 1
      modifies pool`allocatedBlocks, pool.blocks
      ensures Valid() && pool.allocatedBlocks == old(pool.allocatedBlocks) - 1
      ensures pool.blocks[..] == old(pool.blocks[..])[index := pool.blocks[index]]
      ensures var b := pool.blocks[index];
              && b.flag == 0 && b.size == 0 && |b.payload| == pool.blockSize
              && forall j :: 0 <= j < pool.blockSize ==> b.payload[j] == 0
      ensures forall p :: p in pools && p != pool ==> p.blocks[..] == old(p.blocks[..])
    {
      assert pool.Consistent();
      assert forall j {:trigger pools[j].Consistent()} :: 0 <= j < |pools| && j != i ==>
          pools[j] != pool && pools[j].blocks != pool.blocks;
      var owner := Owner(pool.Address(index), pool, index);
      ReleaseAndCount(pool, index, owner);
    }

    /** MEM_BufferFree.  A buffer is null or a block of one of the pools. */
    method Free(pool: Pool?, index: nat) returns (success: bool)
      requires Valid() && (pool != null ==> pool in pools && index < pool.blocks.Length)
      modifies pools`allocatedBlocks, set p | p in pools :: p.blocks
      ensures Valid() && pools == old(pools)
      ensures success <==> pool != null && old(pool.blocks[index]).flag == 1
      ensures success ==>
                && pool.allocatedBlocks == old(pool.allocatedBlocks) - 1
                && pool.blocks[..] == old(pool.blocks[..])[index := pool.blocks[index]]
                && var b := pool.blocks[index];
                   && b.flag == 0 && b.size == 0 && |b.payload| == pool.blockSize
                   && forall j :: 0 <= j < pool.blockSize ==> b.payload[j] == 0
      ensures forall p :: p in pools && (p != pool || !success) ==> p.blocks[..] == old(p.blocks[..])
    {
      if pool == null {
        return false;
      }
      success := pool.blocks[index].flag == 1;
      if success {
        ghost var i :| 0 <= i < |pools| && pools[i] == pool;
        FreeBlock(pool, index, i);
      }
    }

    /** Frees the whole `i`-th pool. */
    method ClearPool(pool: Pool, ghost i: nat)
      requires Valid() && i < |pools| && pool == pools[i]
      modifies pool`allocatedBlocks, pool.blocks
      ensures Valid() && Blank(pool)
      ensures forall j :: 0 <= j < |pools| && j != i ==> pools[j].blocks[..] == old(pools[j].blocks[..])
    {
      assert pool.Consistent();
      assert forall j {:trigger pools[j].Consistent()} :: 0 <= j < |pools| && j != i ==>
          pools[j] != pool && pools[j].blocks != pool.blocks;
      pool.Clear();
    }

    /** MEM_BufferFreeAllWithId. */
    method FreeAllWithId(id: nat)
      requires Valid()
      modifies pools`allocatedBlocks, set p | p in pools :: p.blocks
      ensures Valid() && pools == old(pools)
      ensures forall j :: 0 <= j < |pools| && pools[j].poolId == id ==> Blank(pools[j])
      ensures forall j :: 0 <= j < |pools| && pools[j].poolId != id ==> pools[j].blocks[..] == old(pools[j].blocks[..])
    {
      var pool := headPool;
      ghost var i := 0;
      while pool != null
        invariant 0 <= i <= |pools| && pool == PoolAt(i) && Valid()
        invariant forall j :: 0 <= j < i && pools[j].poolId == id ==> Blank(pools[j])
        invariant forall j :: 0 <= j < |pools| && (i <= j || pools[j].poolId != id) ==>
                    pools[j].blocks[..] == old(pools[j].blocks[..])
        decreases |pools| - i
      {
        if pool.poolId == id {
          ClearPool(pool, i);
        }
        pool := pool.nextPool;
        i := i + 1;
      }
    }
  }
}
