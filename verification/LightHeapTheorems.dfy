// What the light heap guarantees beyond one call.

module LightHeapTheorems {
  import opened ByteMemory
  import opened LightHeapSpec

  // ---------- The 32 bit corner cases of carving ----------

  /**
   * The tail test of the source adds a header to the request in 32 bits.  It agrees with the integer test
   * exactly when the sum does not wrap, or wraps to something the tail is too small for anyway.
   */
  lemma TailTestAgrees(end: nat, L: Layout, n: nat)
    requires L.tail + HDR <= end + 1 <= MODULUS32 && n < MODULUS32
    ensures (TailTest(end, L.tail, n) <==> TailFits(L, end, n))
            <==> n + HDR < MODULUS32 || end + 1 - L.tail - HDR < n + HDR - MODULUS32
  {
  }

  /** A request of 0xFFFFFFF0 bytes passes the test on any tail. */
  lemma HugeRequestPasses(end: nat, tail: nat)
    requires tail + HDR <= end + 1 <= MODULUS32
    ensures TailTest(end, tail, 0xFFFF_FFF0)
  {
  }

  /**
   * When a carve stays in the heap.  If `memHeapEnd` is the last byte, always, but for the wrap-around above.
   * If it is the word-aligned address past the heap, one more case overruns it: a request of 1 modulo 4 bytes
   * that the test finds to fit exactly, whose following header is rounded up past the end.
   */
  lemma CarveSafeExactly(base: nat, limit: nat, end: nat, L: Layout, n: nat)
    requires WellFormed(L, base, limit) && limit % 4 == 0 && n < MODULUS32 && end < MODULUS32
    requires limit == end || limit == end + 1
    ensures CarveSafe(end, limit, L.tail, n) <==>
              && (n + HDR < MODULUS32 || end + 1 - L.tail - HDR < n + HDR - MODULUS32)
              && !(limit == end && n % 4 == 1 && L.tail + HDR + n + HDR == end + 1)
  {
    assert Aligned(L.tail);
    var q, r := L.tail / 4, n / 4;
    assert L.tail == 4 * q && n == 4 * r + n % 4;
  }

  /** The overrun is by one word: a heap of 64 bytes at 0x1000, asked for 33 bytes. */
  lemma OddRequestOverruns()
    ensures TailTest(0x1040, 0x1000, 33) && NewTail(0x1000, 33) + HDR == 0x1044
  {
  }

  // ---------- Placement ----------

  lemma PlacementUnique(L: Layout, end: nat, n: nat, r: nat, r': nat)
    requires 0 !in L.free && Chosen(L, end, n, r) && Chosen(L, end, n, r')
    ensures r == r'
  {
  }

  /** A request fails exactly when neither a free block nor the tail can hold it. */
  lemma NullExactly(L: Layout, end: nat, n: nat, r: nat)
    requires 0 !in L.free && L.tail in L.free && Chosen(L, end, n, r)
    ensures r == 0 <==> NoneFits(L, n) && !TailFits(L, end, n)
  {
  }

  // ---------- Freeing undoes allocating ----------

  /**
   * Freeing a block just allocated restores chain, free list and tail exactly when the block was carved
   * from the tail, or a live block lies above it.
   */
  lemma FreeUndoesAllocate(L: Layout, base: nat, limit: nat, n: nat, r: nat)
    requires WellFormed(L, base, limit) && r in L.free && (r == L.tail || Fits(L, r, n))
    ensures FreeLayout(AllocLayout(L, n, r), r) == L <==> r == L.tail || LiveAbove(L, r)
  {
    var L1 := AllocLayout(L, n, r);
    var L2 := L1.(free := L1.free + {r});
    if r == L.tail {
      assert !LiveAbove(L2, r);
      assert UpTo(L2.chain, r) == L.chain;
      assert UpTo(L2.free, r) == L.free;
    } else {
      assert L2 == L;
    }
  }

  /** Two blocks, the lower one taken and freed with nothing live above it: the heap comes back as one block. */
  lemma FreeDoesNotRestore()
    ensures var L := Layout({0x1000, 0x1020}, {0x1000, 0x1020}, 0x1020);
            && WellFormed(L, 0x1000, 0x1040) && Fits(L, 0x1000, 16) && Chosen(L, 0x103F, 16, 0x1000)
            && FreeLayout(AllocLayout(L, 16, 0x1000), 0x1000) != L
  {
    var L := Layout({0x1000, 0x1020}, {0x1000, 0x1020}, 0x1020);
    NextUnique(L.chain, 0x1000, 0x1020);
    assert Aligned(0x1000) && Aligned(0x1020);
    FreeUndoesAllocate(L, 0x1000, 0x1040, 16, 0x1000);
  }

  /** After freeing, the upper limit of the heap is the freed payload exactly when nothing above it is in use. */
  lemma FreedBecomesTail(L: Layout, base: nat, limit: nat, a: nat)
    requires WellFormed(L, base, limit) && Live(L, a)
    ensures FreeLayout(L, a).tail == a <==> !LiveAbove(L, a)
    ensures FreeLayout(L, a).chain == if LiveAbove(L, a) then L.chain else UpTo(L.chain, a)
    ensures forall u :: Live(L, u) && u != a <==> Live(FreeLayout(L, a), u)
  {
    var L1 := L.(free := L.free + {a});
    assert forall u :: Live(L1, u) <==> Live(L, u) && u != a;
    if LiveAbove(L, a) {
      var u :| Live(L, u) && a < u;
      assert Live(L1, u);
    } else {
      assert !LiveAbove(L1, a);
    }
  }

  // ---------- Conservation ----------

  /** Capacities of the live blocks from `a` on along the chain. */
  ghost function LiveFrom(L: Layout, base: nat, limit: nat, a: nat): int
    requires WellFormed(L, base, limit) && a in L.chain
    decreases L.tail - a
  {
    if a == L.tail then 0
    else
      assert IsNext(L.chain, a, Next(L.chain, a)) && L.tail in L.chain;
      (if a in L.free then 0 else Capacity(L, a)) + LiveFrom(L, base, limit, Next(L.chain, a))
  }

  function From(s: set<nat>, a: nat): set<nat>
  {
    set x | x in s && a <= x
  }

  lemma ChainStep(L: Layout, base: nat, limit: nat, a: nat)
    requires WellFormed(L, base, limit) && a in L.chain && a != L.tail
    ensures var b := Next(L.chain, a);
            b in L.chain && a < b && From(L.chain, a) == {a} + From(L.chain, b)
  {
  }

  /** The first free block at or after `a`. */
  ghost function FreeAt(L: Layout, a: nat): nat
    requires 0 < a
  {
    Next(L.free, a - 1)
  }

  lemma FreeStep(L: Layout, base: nat, limit: nat, a: nat, b: nat)
    requires WellFormed(L, base, limit) && a in L.chain && a != L.tail && b == Next(L.chain, a)
    ensures 0 < b && FreeAt(L, b) == if a in L.free then Next(L.free, a) else FreeAt(L, a)
    ensures a in L.free ==> FreeAt(L, a) == a
  {
  }

  lemma FreeAtFree(L: Layout, base: nat, limit: nat, a: nat)
    requires WellFormed(L, base, limit) && a in L.chain
    ensures FreeAt(L, a) in L.free
  {
  }

  /** What the first block at or after `a` adds to each sum. */
  lemma AccountTerms(L: Layout, base: nat, limit: nat, a: nat, b: nat)
    requires WellFormed(L, base, limit) && a in L.chain && a != L.tail && b == Next(L.chain, a) && b in L.chain
    requires FreeAt(L, a) in L.free && FreeAt(L, b) in L.free
    ensures LiveFrom(L, base, limit, a) == (if a in L.free then 0 else b - a - HDR) + LiveFrom(L, base, limit, b)
    ensures FreeFrom(L, base, limit, FreeAt(L, a))
            == (if a in L.free then b - a - HDR else 0) + FreeFrom(L, base, limit, FreeAt(L, b))
  {
    FreeStep(L, base, limit, a, b);
  }

  lemma {:induction false} AccountFrom(L: Layout, base: nat, limit: nat, a: nat)
    requires WellFormed(L, base, limit) && a in L.chain
    ensures FreeAt(L, a) in L.free
    ensures LiveFrom(L, base, limit, a) + FreeFrom(L, base, limit, FreeAt(L, a)) + HDR * |From(L.chain, a)|
            == L.tail + HDR - a
    decreases L.tail - a
  {
    FreeAtFree(L, base, limit, a);
    if a == L.tail {
      assert From(L.chain, a) == {a};
      NextUnique(L.free, a - 1, a);
    } else {
      var b := Next(L.chain, a);
      ChainStep(L, base, limit, a);
      AccountFrom(L, base, limit, b);
      AccountTerms(L, base, limit, a, b);
      assert |From(L.chain, a)| == 1 + |From(L.chain, b)|;
    }
  }

  /**
   * Conservation: the free size, the capacities of the live blocks and one header per block together are
   * `memHeapEnd` minus the heap's start, in every well-formed heap.
   */
  lemma Conservation(L: Layout, base: nat, limit: nat, end: nat)
    requires WellFormed(L, base, limit)
    ensures FreeBytes(L, base, limit, end) + LiveFrom(L, base, limit, base) + HDR * |L.chain| == end - base
  {
    AccountFrom(L, base, limit, base);
    assert From(L.chain, base) == L.chain;
    NextUnique(L.free, 0, FreeAt(L, base));
  }

  /** The free size is a 32 bit number already, but for a full heap whose end is given as its last byte. */
  lemma FreeBytesRange(L: Layout, base: nat, limit: nat, end: nat)
    requires WellFormed(L, base, limit) && end < MODULUS32 && (limit == end || limit == end + 1)
    ensures -1 <= FreeBytes(L, base, limit, end) < MODULUS32
    ensures FreeBytes(L, base, limit, end) == -1 <==>
              limit == end + 1 && L.tail + HDR == limit && FreeFrom(L, base, limit, FirstFree(L)) == 0
  {
    assert IsNext(L.free, 0, FirstFree(L));
    FreeFromNonNegative(L, base, limit, FirstFree(L));
    LiveFromNonNegative(L, base, limit, base);
    Conservation(L, base, limit, end);
  }

  /** A heap of one header, whose last byte is given as its end, has -1 bytes free. */
  lemma FullHeapFreeBytes()
    ensures WellFormed(InitialLayout(0x1000), 0x1000, 0x1010)
    ensures FreeBytes(InitialLayout(0x1000), 0x1000, 0x1010, 0x100F) == -1
  {
    assert Aligned(0x1000);
    NextUnique(InitialLayout(0x1000).free, 0, 0x1000);
  }

  lemma {:induction false} FreeFromNonNegative(L: Layout, base: nat, limit: nat, a: nat)
    requires WellFormed(L, base, limit) && a in L.free
    ensures FreeFrom(L, base, limit, a) >= 0
    decreases L.tail - a
  {
    if a != L.tail {
      assert IsNext(L.free, a, Next(L.free, a)) && IsNext(L.chain, a, Next(L.chain, a)) && L.tail in L.free;
      FreeFromNonNegative(L, base, limit, Next(L.free, a));
    }
  }

  lemma {:induction false} LiveFromNonNegative(L: Layout, base: nat, limit: nat, a: nat)
    requires WellFormed(L, base, limit) && a in L.chain
    ensures LiveFrom(L, base, limit, a) >= 0
    decreases L.tail - a
  {
    if a != L.tail {
      ChainStep(L, base, limit, a);
      LiveFromNonNegative(L, base, limit, Next(L.chain, a));
    }
  }
}
