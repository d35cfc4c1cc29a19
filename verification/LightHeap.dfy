// The light memory manager: headers and payloads share one byte array, and the code walks and
// rewrites the two linked structures in it.

module LightHeap {
  import opened ByteMemory
  import opened LightHeapSpec
  import opened LightHeapLinks

  class Heap {
    /** Address of the first byte, and the address the linker gives for the end. */
    const base: nat
    const memHeapEnd: nat
    const mem: array<Byte>

    var initialized: bool
    /** FreeBlockHdrList.head and FreeBlockHdrList.tail. */
    var head: nat
    var tail: nat

    ghost var layout: Layout
    ghost var fields: Fields

    /** The heap as the linker places it, before anything has run. */
    constructor (base: nat, memHeapEnd: nat, mem: array<Byte>)
      requires ConfiguredHeap(base, mem.Length, memHeapEnd)
      ensures Valid() && !initialized && layout == InitialLayout(base)
      ensures this.base == base && this.memHeapEnd == memHeapEnd && this.mem == mem
    {
      this.base, this.memHeapEnd, this.mem := base, memHeapEnd, mem;
      initialized, head, tail := false, 0, 0;
      layout := InitialLayout(base);
      fields := Fields(_ => 0, _ => 0, _ => 0, _ => 0);
    }

    ghost function Limit(): nat
    {
      base + mem.Length
    }

    /** A heap not yet initialized behaves as the one that initialization makes. */
    ghost predicate Valid()
      reads this, mem
    {
      && ConfiguredHeap(base, mem.Length, memHeapEnd)
      && if initialized then Represents(mem[..], base, fields, layout, head, tail)
         else layout == InitialLayout(base) && head == 0 && tail == 0
    }

    // ---------- Header fields ----------

    method SetLink(a: nat, f: FieldName, v: nat, ghost s: set<nat>)
      requires Holds(mem[..], base, s, fields) && a in s && !f.Used? && v < MODULUS32
      modifies this`fields, mem
      ensures fields == Put(old(fields), a, f, v) && Holds(mem[..], base, s, fields)
      ensures HeadersOnly(old(mem[..]), mem[..], base, s)
    {
      ghost var m0 := mem[..];
      var i, b := a - base + Offset(f), Bytes32(v);
      mem[i], mem[i + 1], mem[i + 2], mem[i + 3] := b[0], b[1], b[2], b[3];
      fields := Put(fields, a, f, v);
      WordStoreHolds(m0, mem[..], base, s, old(fields), a, f, v);
      StoreHeadersOnly(m0, mem[..], base, s, a);
    }

    method SetUsed(a: nat, v: nat, ghost s: set<nat>)
      requires Holds(mem[..], base, s, fields) && a in s && v < MODULUS16
      modifies this`fields, mem
      ensures fields == Put(old(fields), a, Used, v) && Holds(mem[..], base, s, fields)
      ensures HeadersOnly(old(mem[..]), mem[..], base, s)
    {
      ghost var m0 := mem[..];
      var i, b := a - base, Bytes16(v);
      mem[i], mem[i + 1] := b[0], b[1];
      fields := Put(fields, a, Used, v);
      MarkStoreHolds(m0, mem[..], base, s, old(fields), a, v);
      StoreHeadersOnly(m0, mem[..], base, s, a);
    }

    method WriteHeader(a: nat, used: nat, next: nat, nextFree: nat, prevFree: nat, ghost s: set<nat>)
      requires Room(mem[..], base, s) && Holds(mem[..], base, s - {a}, fields) && a in s
      requires used < MODULUS16 && next < MODULUS32 && nextFree < MODULUS32 && prevFree < MODULUS32
      modifies this`fields, mem
      ensures fields == WithHeader(old(fields), a, used, next, nextFree, prevFree)
      ensures Holds(mem[..], base, s, fields)
      ensures HeadersOnly(old(mem[..]), mem[..], base, s)
    {
      ghost var F, m := fields, mem[..];
      AdoptHeader(m, base, s, F, a);
      ghost var F0 := WithHeader(F, a, UsedIn(m, base, a), NextIn(m, base, a),
                                 NextFreeIn(m, base, a), PrevFreeIn(m, base, a));
      fields := F0;
      SetUsed(a, used, s);
      SetLink(a, NextLink, next, s);
      SetLink(a, NextFree, nextFree, s);
      SetLink(a, PrevFree, prevFree, s);
      RewrittenHeader(mem[..], base, s, F, F0, a, used, next, nextFree, prevFree);
      fields := WithHeader(F, a, used, next, nextFree, prevFree);
    }

    // ---------- Relinking ----------

    /** The stores that mark a free block as used and unlink it from the free list. */
    method TakeLinks(a: nat)
      requires Holds(mem[..], base, layout.chain, fields) && a in layout.chain
      requires fields.nextFree(a) in layout.chain && fields.nextFree(a) != a
      requires head in layout.chain && (head != a ==> fields.prevFree(a) in layout.chain && fields.nextFree(head) <= a)
      modifies this`fields, this`head, mem
      ensures fields == TakenFields(old(fields), old(head), a)
      ensures head == if old(head) == a then old(fields).nextFree(a) else old(head)
      ensures Holds(mem[..], base, layout.chain, fields)
      ensures HeadersOnly(old(mem[..]), mem[..], base, layout.chain)
    {
      ghost var s := layout.chain;
      SetUsed(a, BLOCK_USED, s);
      var next, prev := NextFreeIn(mem[..], base, a), PrevFreeIn(mem[..], base, a);
      if head == a {
        head := next;
        SetLink(next, PrevFree, 0, s);
      } else {
        assert NextFreeIn(mem[..], base, head) <= a;
        SetLink(next, PrevFree, prev, s);
        SetLink(prev, NextFree, next, s);
      }
    }

    /** Marks a free block other than the tail as used and unlinks it from the free list. */
    method TakeFree(a: nat)
      requires Valid() && initialized && a in layout.free && a != tail
      modifies this, mem
      ensures Valid() && initialized
      ensures layout == old(layout.(free := layout.free - {a}))
      ensures Untouched(old(mem[..]), mem[..], base, old(layout))
      ensures HeadersOnly(old(mem[..]), mem[..], base, layout.chain)
    {
      ghost var L, m0, F0 := layout, mem[..], fields;
      assert IsNext(L.free, a, F0.nextFree(a));
      TakeKeepsHead(F0.nextFree, F0.prevFree, L.free, head, a);
      TakeLinks(a);
      TakeResult(m0, mem[..], base, F0, L, old(head), a);
      assert Untouched(m0, mem[..], base, L) by {
        HeadersOnlyUntouched(m0, mem[..], base, L, Limit(), L.chain);
      }
      layout := L.(free := L.free - {a});
    }

    method MarkCarved(a: nat, t: nat)
      requires Holds(mem[..], base, layout.chain, fields) && a in layout.chain && t < MODULUS32
      modifies this`fields, mem
      ensures fields == old(Put(Put(Put(fields, a, Used, BLOCK_USED), a, NextLink, t), a, NextFree, t))
      ensures Holds(mem[..], base, layout.chain, fields)
      ensures HeadersOnly(old(mem[..]), mem[..], base, layout.chain)
    {
      SetUsed(a, BLOCK_USED, layout.chain);
      SetLink(a, NextLink, t, layout.chain);
      SetLink(a, NextFree, t, layout.chain);
    }

    /** The stores that carve the tail `a` off, with the header behind it at `t`. */
    method CarveLinks(a: nat, t: nat)
      requires Room(mem[..], base, layout.chain + {t}) && Holds(mem[..], base, layout.chain, fields)
      requires a in layout.chain && t !in layout.chain && t < MODULUS32 && a == tail
      requires if head == a then fields.prevFree(a) == 0
               else fields.prevFree(a) in layout.chain && fields.prevFree(a) != a
      modifies this`fields, this`head, mem
      ensures fields == CarvedFields(old(fields), old(head), a, t) && head == if old(head) == a then t else old(head)
      ensures Holds(mem[..], base, layout.chain + {t}, fields)
      ensures HeadersOnly(old(mem[..]), mem[..], base, layout.chain + {t})
    {
      ghost var s, m0, F0 := layout.chain + {t}, mem[..], fields;
      MarkCarved(a, t);
      ghost var m1 := mem[..];
      var prev := PrevFreeIn(mem[..], base, a);
      assert s - {t} == layout.chain;
      WriteHeader(t, BLOCK_FREE, 0, 0, prev, s);
      if head == a {
        assert head == tail && prev == 0;
        head := t;
      } else {
        SetLink(prev, NextFree, t, s);
      }
      HeadersOnlyTransitive(m0, m1, mem[..], base, layout.chain, s);
    }

    /** Makes the tail a used block of at least `n` bytes, with a new tail behind it. */
    method CarveTail(n: nat)
      requires Valid() && initialized
      requires NewTail(tail, n) + HDR <= Limit()
      modifies this, mem
      ensures Valid() && initialized
      ensures layout == old(AllocLayout(layout, n, tail))
      ensures Untouched(old(mem[..]), mem[..], base, old(layout))
      ensures HeadersOnly(old(mem[..]), mem[..], base, layout.chain)
    {
      ghost var L, m0, F0 := layout, mem[..], fields;
      var a := tail;
      var t := RoundUpWord(a + HDR + n);
      assert t == NewTail(a, n) by {
        assert Aligned(a);
        RoundUpIsNewTail(a, n);
      }
      ghost var s := L.chain + {t};
      assert Room(m0, base, s) by { CarveKeepsWellFormed(L, base, Limit(), n); }
      CarveKeepsHead(F0.nextFree, F0.prevFree, L.free, head, a, t);
      CarveLinks(a, t);
      tail := t;
      layout := AllocLayout(L, n, a);
      assert Untouched(m0, mem[..], base, L) by {
        HeadersOnlyUntouched(m0, mem[..], base, L, Limit(), s);
      }
      CarveResult(m0, mem[..], base, F0, L, old(head), n);
    }

    /** The address-ordered insertion of the free operation; `prev` matters when `a` is not the new head. */
    method InsertFree(a: nat, prev: nat)
      requires Valid() && initialized && Live(layout, a)
      requires head <= a ==> prev in layout.free && prev < a < fields.nextFree(prev)
      modifies this, mem
      ensures Valid() && initialized
      ensures layout == old(layout.(free := layout.free + {a}))
      ensures HeadersOnly(old(mem[..]), mem[..], base, layout.chain)
    {
      ghost var L, m0, F0 := layout, mem[..], fields;
      if a < head {
        SetLink(a, NextFree, head, L.chain);
        SetLink(a, PrevFree, 0, L.chain);
        SetLink(head, PrevFree, a, L.chain);
        head := a;
      } else {
        assert IsNext(L.free, prev, F0.nextFree(prev));
        var next := NextFreeIn(mem[..], base, prev);
        SetLink(a, NextFree, next, L.chain);
        SetLink(a, PrevFree, prev, L.chain);
        SetLink(next, PrevFree, a, L.chain);
        SetLink(prev, NextFree, a, L.chain);
      }
      SetUsed(a, BLOCK_FREE, L.chain);
      InsertResult(m0, mem[..], base, F0, L, old(head), a, prev);
      layout := L.(free := L.free + {a});
    }

    /** MEM_BufferFreeBlocksCleanUp: walks the chain and the free list in step from a free block. */
    method CleanUp(a: nat)
      requires Valid() && initialized && a in layout.free && a < tail
      modifies this, mem
      ensures Valid() && initialized
      ensures layout == old(CleanedLayout(layout, a))
      ensures HeadersOnly(old(mem[..]), mem[..], base, old(layout).chain)
    {
      ghost var L, m0 := layout, mem[..];
      var next: nat, nextFree: nat := NextIn(mem[..], base, a), NextFreeIn(mem[..], base, a);
      ghost var w := a;
      while next == nextFree
        invariant w in L.free && a <= w && next <= L.tail
        invariant IsNext(L.chain, w, next) && IsNext(L.free, w, nextFree)
        invariant forall x: nat :: x in L.chain && a < x <= w ==> x in L.free
        invariant Represents(mem[..], base, fields, L, head, tail) && mem[..] == m0 && layout == L
        invariant head == old(head) && tail == old(tail) && initialized
        decreases L.tail - w
      {
        if next == 0 {
          assert !LiveAbove(L, a);
          assert NextIn(mem[..], base, a) == NextFreeIn(mem[..], base, a) && UsedIn(mem[..], base, a) == BLOCK_FREE;
          CutBehind(a);
          return;
        }
        w := next;
        next, nextFree := NextIn(mem[..], base, next), NextFreeIn(mem[..], base, nextFree);
      }
      assert LiveAbove(L, a) by {
        assert next != 0 && Live(L, next);
      }
    }

    method CutBehind(a: nat)
      requires Valid() && initialized && a in layout.free && !LiveAbove(layout, a)
      modifies this, mem
      ensures Valid() && initialized
      ensures layout == old(Layout(UpTo(layout.chain, a), UpTo(layout.free, a), a))
      ensures HeadersOnly(old(mem[..]), mem[..], base, old(layout).chain)
    {
      ghost var L, m0, F0 := layout, mem[..], fields;
      SetLink(a, NextLink, 0, L.chain);
      SetLink(a, NextFree, 0, L.chain);
      tail := a;
      CutResult(m0, mem[..], base, F0, L, head, a);
      layout := Layout(UpTo(L.chain, a), UpTo(L.free, a), a);
    }

    // ---------- The public operations ----------

    lemma LayoutWellFormed()
      requires Valid()
      ensures WellFormed(layout, base, Limit()) && Limit() <= memHeapEnd + 1 <= MODULUS32
    {
    }

    method Init()
      requires Valid()
      modifies this, mem
      ensures Valid() && initialized && layout == old(layout)
      ensures Untouched(old(mem[..]), mem[..], base, layout)
      ensures HeadersOnly(old(mem[..]), mem[..], base, layout.chain)
    {
      if !initialized {
        ghost var s := {base};
        ghost var F0 := fields;
        WriteHeader(base, BLOCK_FREE, 0, 0, 0, s);
        InitResult(mem[..], base, F0);
        head, tail := base, base;
        initialized := true;
      }
    }

    /** memset of `n` zero bytes at the start of the payload of block `a`. */
    method ZeroPayload(a: nat, n: nat)
      requires Valid() && initialized && PayloadRoom(layout, a, n)
      modifies mem
      ensures Valid() && Zeroed(mem[..], a + HDR - base, n)
      ensures SameOutside(old(mem[..]), mem[..], a + HDR - base, n)
    {
      ghost var m0 := mem[..];
      var lo := a + HDR - base;
      forall k | lo <= k < lo + n {
        mem[k] := 0;
      }
      PayloadWriteHarmless(m0, mem[..], base, fields, layout, head, tail, a, n);
    }

    /** MEM_BufferAllocate. */
    method Allocate(n: nat) returns (buffer: nat)
      requires Valid() && n < MODULUS32
      requires RequestSafe(layout, memHeapEnd, Limit(), n)
      modifies this, mem
      ensures Valid() && initialized
      ensures Allocated(old(mem[..]), mem[..], base, memHeapEnd, old(layout), layout, n, buffer)
      ensures BlockOnly(old(mem[..]), mem[..], base, layout.chain, buffer, if buffer == 0 then 0 else n)
      ensures buffer == 0 && old(initialized) ==> mem[..] == old(mem[..])
    {
      ghost var m0, L := mem[..], layout;
      if !initialized {
        Init();
      }
      ghost var m1 := mem[..];
      buffer := AllocateReady(n);
      AllocationAfterInit(m0, m1, mem[..], base, memHeapEnd, L, layout, n, buffer);
      HeadersThenBlock(m0, m1, mem[..], base, L.chain, layout.chain, buffer, if buffer == 0 then 0 else n);
    }

    /** MEM_BufferAllocate once the heap is initialized. */
    method AllocateReady(n: nat) returns (buffer: nat)
      requires Valid() && initialized && n < MODULUS32
      requires RequestSafe(layout, memHeapEnd, Limit(), n)
      modifies this, mem
      ensures Valid() && initialized
      ensures Allocated(old(mem[..]), mem[..], base, memHeapEnd, old(layout), layout, n, buffer)
      ensures BlockOnly(old(mem[..]), mem[..], base, layout.chain, buffer, if buffer == 0 then 0 else n)
      ensures buffer == 0 && old(initialized) ==> mem[..] == old(mem[..])
    {
      ghost var m0, L := mem[..], layout;
      LayoutWellFormed();
      SafeRequestExact(memHeapEnd, Limit(), L, n);
      var found := Place(n);
      ghost var m1 := mem[..];
      buffer := ClearPlaced(found, n);
      AllocationDone(m0, m1, mem[..], base, Limit(), memHeapEnd, L, layout, n, found, buffer);
    }

    /** The memset of the block placed, if there is one. */
    method ClearPlaced(found: nat, n: nat) returns (buffer: nat)
      requires Valid() && initialized && (found != 0 ==> PayloadRoom(layout, found, n))
      modifies mem
      ensures Valid() && buffer == if found == 0 then 0 else found + HDR
      ensures if found == 0 then mem[..] == old(mem[..])
              else SameOutside(old(mem[..]), mem[..], buffer - base, n) && Zeroed(mem[..], buffer - base, n)
    {
      if found == 0 {
        return 0;
      }
      ZeroPayload(found, n);
      return found + HDR;
    }

    /** The end of the search: carve the tail, or else take the lowest block that is large enough, if there is one. */
    method AtTail(n: nat, usable: nat) returns (found: nat)
      requires Valid() && initialized && n < MODULUS32 && Searched(layout, n, tail, usable)
      requires NoneFitsClosely(layout, n) ==> TailExact(layout, memHeapEnd, Limit(), n)
      modifies this, mem
      ensures Valid() && initialized
      ensures Chosen(old(layout), memHeapEnd, n, found) && layout == AllocLayout(old(layout), n, found)
      ensures found != 0 ==> PayloadRoom(layout, found, n)
      ensures Untouched(old(mem[..]), mem[..], base, old(layout))
      ensures HeadersOnly(old(mem[..]), mem[..], base, layout.chain)
      ensures found == 0 ==> mem[..] == old(mem[..])
    {
      var footprint := tail + HDR - 1;
      assert footprint <= memHeapEnd;
      var available := memHeapEnd - footprint;
      SearchEnds(layout, memHeapEnd, n, usable);
      if available >= (n + HDR) % MODULUS32 {
        found := tail;
        CarveTail(n);
      } else if usable != 0 {
        TakeFree(usable);
        found := usable;
      } else {
        found := 0;
      }
    }

    /** The two size tests of the search, on a free block that is not the tail. */
    method SizeTest(n: nat, current: nat, next: nat, usable: nat) returns (close: bool, usable': nat)
      requires Valid() && initialized && Searched(layout, n, current, usable)
      requires current != tail && IsNext(layout.chain, current, next) && next != 0
      ensures close <==> FitsClosely(layout, current, n)
      ensures usable' == if usable == 0 && Fits(layout, current, n) then current else usable
    {
      SizeTests(layout, base, Limit(), current, next, n);
      close, usable' := false, usable;
      var available := next - current - HDR;
      if available >= n {
        if usable == 0 {
          usable' := current;
        }
        if available - n < available / 2 {
          close := true;
        }
      }
    }

    /** The relinking for a close fit, which ends the search. */
    method TakeClose(n: nat, current: nat, ghost usable: nat)
      requires Valid() && initialized && Searched(layout, n, current, usable) && FitsClosely(layout, current, n)
      modifies this, mem
      ensures Valid() && initialized && current != 0
      ensures Chosen(old(layout), memHeapEnd, n, current) && layout == AllocLayout(old(layout), n, current)
      ensures PayloadRoom(layout, current, n)
      ensures Untouched(old(mem[..]), mem[..], base, old(layout))
      ensures HeadersOnly(old(mem[..]), mem[..], base, layout.chain)
    {
      SearchFindsClose(layout, memHeapEnd, n, current, usable);
      TakeFree(current);
    }

    /** The search loop and the relinking of MEM_BufferAllocate: the header of the block found, or 0. */
    method Place(n: nat) returns (found: nat)
      requires Valid() && initialized && n < MODULUS32
      requires NoneFitsClosely(layout, n) ==> TailExact(layout, memHeapEnd, Limit(), n)
      modifies this, mem
      ensures Valid() && initialized
      ensures Chosen(old(layout), memHeapEnd, n, found) && layout == AllocLayout(old(layout), n, found)
      ensures found != 0 ==> PayloadRoom(layout, found, n)
      ensures Untouched(old(mem[..]), mem[..], base, old(layout))
      ensures HeadersOnly(old(mem[..]), mem[..], base, layout.chain)
      ensures found == 0 ==> mem[..] == old(mem[..])
    {
      ghost var L, m0, F0, head0 := layout, mem[..], fields, head;
      var current: nat, usable: nat := head, 0;
      while true
        invariant layout == L && mem[..] == m0 && fields == F0 && head == head0 && tail == L.tail && initialized
        invariant Searched(L, n, current, usable)
        decreases L.tail - current
      {
        SearchRead(m0, base, F0, L, head0, current);
        assert UsedIn(mem[..], base, current) == BLOCK_FREE;
        var next, nextFree := NextIn(mem[..], base, current), NextFreeIn(mem[..], base, current);
        if next == 0 {
          assert current == tail;
          found := AtTail(n, usable);
          return;
        }
        assert current < tail && nextFree != 0;
        var close, usable' := SizeTest(n, current, next, usable);
        if close {
          TakeClose(n, current, usable);
          return current;
        }
        SearchStep(L, n, current, usable, nextFree);
        current, usable := nextFree, usable';
        assert current != NextFreeIn(mem[..], base, current);
      }
    }

    /** MEM_BufferFree; freeing the null pointer is the error it reports. */
    method Free(buffer: nat) returns (ok: bool)
      requires Valid() && Owned(layout, buffer)
      modifies this, mem
      ensures Valid() && ok == (buffer != 0)
      ensures buffer == 0 ==> mem[..] == old(mem[..]) && layout == old(layout) && initialized == old(initialized)
      ensures buffer != 0 ==> initialized && Freed(old(mem[..]), mem[..], base, old(layout), layout, BlockOf(buffer))
      ensures HeadersOnly(old(mem[..]), mem[..], base, old(layout).chain)
    {
      if buffer == 0 {
        return false;
      }
      ghost var m0, L := mem[..], layout;
      var a := buffer - HDR;
      LiveBlockRead(m0, base, fields, L, head, a);
      assert UsedIn(mem[..], base, a) == BLOCK_USED && NextIn(mem[..], base, a) != 0 && a < tail;
      var prev := 0;
      if head <= a {
        prev := FindPrevious(a);
      }
      InsertFree(a, prev);
      ghost var m1 := mem[..];
      CleanUp(a);
      HeadersOnlyTransitive(m0, m1, mem[..], base, L.chain, L.chain);
      FreeComplete(m0, mem[..], base, Limit(), L, a);
      return true;
    }

    /** The walk from the head of the free list to the last free block below `a`. */
    method FindPrevious(a: nat) returns (prev: nat)
      requires Valid() && initialized && Live(layout, a) && head <= a
      ensures prev in layout.free && prev < a < fields.nextFree(prev)
    {
      prev := head;
      FreeBlockRead(mem[..], base, fields, layout, head, prev);
      while NextFreeIn(mem[..], base, prev) < a
        invariant prev in layout.free && prev < a && InMemory(mem[..], base, prev)
        decreases a - prev
      {
        FreeBlockRead(mem[..], base, fields, layout, head, prev);
        prev := NextFreeIn(mem[..], base, prev);
      }
      FreeBlockRead(mem[..], base, fields, layout, head, prev);
    }

    /** MEM_BufferGetSize, with its 16 bit result. */
    method GetSize(buffer: nat) returns (size: nat)
      requires Valid() && Owned(layout, buffer)
      ensures size == if buffer == 0 then 0 else Capacity(layout, BlockOf(buffer)) % MODULUS16
    {
      if buffer == 0 {
        return 0;
      }
      LiveBlockRead(mem[..], base, fields, layout, head, buffer - HDR);
      return (NextIn(mem[..], base, buffer - HDR) - (buffer - HDR) - HDR) % MODULUS16;
    }

    method CopyBytes(to: nat, from: nat, n: nat)
      requires to + n <= mem.Length && from + n <= mem.Length
      modifies mem
      ensures Copied(old(mem[..]), mem[..], from, to, n) && SameOutside(old(mem[..]), mem[..], to, n)
    {
      forall k | to <= k < to + n {
        mem[k] := mem[k - to + from];
      }
    }

    /** memcpy of `n` bytes between payloads. */
    method CopyPayload(result: nat, buffer: nat, n: nat)
      requires Valid() && initialized && HDR < buffer && HDR < result
      requires PayloadRoom(layout, BlockOf(result), n) && PayloadRoom(layout, BlockOf(buffer), n) && result != buffer
      modifies mem
      ensures Valid() && Copied(old(mem[..]), mem[..], buffer - base, result - base, n)
      ensures SameOutside(old(mem[..]), mem[..], result - base, n)
    {
      ghost var m0 := mem[..];
      CopyBytes(result - base, buffer - base, n);
      PayloadWriteHarmless(m0, mem[..], base, fields, layout, head, tail, BlockOf(result), n);
    }

    /** MEM_BufferRealloc; the source asserts that the new size fits 16 bits. */
    method Realloc(buffer: nat, newSize: nat) returns (result: nat)
      requires Valid() && Owned(layout, buffer) && newSize < MODULUS16
      requires newSize != 0 && (buffer == 0 || newSize > Capacity(layout, BlockOf(buffer)) % MODULUS16) ==>
                 RequestSafe(layout, memHeapEnd, Limit(), newSize)
      modifies this, mem
      ensures Valid()
      ensures newSize == 0 && buffer != 0 ==>
                result == 0 && Freed(old(mem[..]), mem[..], base, old(layout), layout, BlockOf(buffer))
      ensures newSize == 0 && buffer == 0 ==> result == 0 && mem[..] == old(mem[..]) && layout == old(layout)
      ensures newSize != 0 && buffer == 0 ==>
                Allocated(old(mem[..]), mem[..], base, memHeapEnd, old(layout), layout, newSize, result)
      ensures newSize != 0 && buffer != 0 ==> old(Capacity(layout, BlockOf(buffer))) >= 0
      ensures newSize != 0 && buffer != 0 ==>
                Reallocated(old(mem[..]), mem[..], base, memHeapEnd, old(layout), layout, buffer, newSize, result)
    {
      if newSize == 0 {
        var _ := Free(buffer);
        return 0;
      } else if buffer == 0 {
        result := Allocate(newSize);
      } else {
        result := ReallocLive(buffer, newSize);
      }
    }

    method ReallocLive(buffer: nat, newSize: nat) returns (result: nat)
      requires Valid() && Owned(layout, buffer) && buffer != 0 && 0 < newSize < MODULUS16
      requires newSize > Capacity(layout, BlockOf(buffer)) % MODULUS16 ==>
                 RequestSafe(layout, memHeapEnd, Limit(), newSize)
      modifies this, mem
      ensures Valid() && old(Capacity(layout, BlockOf(buffer))) >= 0
      ensures Reallocated(old(mem[..]), mem[..], base, memHeapEnd, old(layout), layout, buffer, newSize, result)
    {
      assert Capacity(layout, BlockOf(buffer)) >= 0 by {
        LiveBlockRead(mem[..], base, fields, layout, head, BlockOf(buffer));
      }
      var blockSize := GetSize(buffer);
      if newSize <= blockSize {
        return buffer;
      }
      result := Relocate(buffer, newSize, blockSize);
    }

    method Relocate(buffer: nat, newSize: nat, blockSize: nat) returns (result: nat)
      requires Valid() && initialized && Live(layout, BlockOf(buffer)) && buffer != 0
      requires blockSize <= Capacity(layout, BlockOf(buffer)) && blockSize < newSize < MODULUS16
      requires RequestSafe(layout, memHeapEnd, Limit(), newSize)
      modifies this, mem
      ensures Valid() && Chosen(old(layout), memHeapEnd, newSize, BlockOf(result))
      ensures result == 0 ==> layout == old(layout) && mem[..] == old(mem[..])
      ensures result != 0 ==>
                Moved(old(mem[..]), mem[..], base, old(layout), layout, buffer, newSize, result, blockSize)
    {
      ghost var m0, L := mem[..], layout;
      LayoutWellFormed();
      result := AllocateReady(newSize);
      if result != 0 {
        MoveLive(buffer, newSize, result, blockSize, m0, L);
      }
    }

    /** The copy into the new block and the release of the old one. */
    method MoveLive(buffer: nat, newSize: nat, result: nat, blockSize: nat, ghost m0: seq<Byte>, ghost L: Layout)
      requires Valid() && initialized && buffer != 0 && result != 0
      requires WellFormed(L, base, Limit()) && Live(L, BlockOf(buffer))
      requires blockSize <= Capacity(L, BlockOf(buffer)) && blockSize < newSize
      requires NewBlock(m0, mem[..], base, L, layout, newSize, result)
      modifies this, mem
      ensures Valid()
      ensures Moved(m0, mem[..], base, L, layout, buffer, newSize, result, blockSize)
    {
      ghost var m1, L1 := mem[..], layout;
      LayoutWellFormed();
      BothPayloads(m0, m1, base, Limit(), L, L1, BlockOf(buffer), newSize, result, blockSize);
      CopyPayload(result, buffer, blockSize);
      ghost var m2 := mem[..];
      var _ := Free(buffer);
      ReallocMoved(m0, m1, m2, mem[..], base, Limit(), L, L1, layout, buffer, newSize, result, blockSize);
    }

    // ---------- Queries ----------

    /** MEM_GetHeapUpperLimit. */
    method HeapUpperLimit() returns (address: nat)
      requires Valid()
      ensures address == (if initialized then layout.tail else 0) + HDR
    {
      return tail + HDR;
    }

    /** Reads both links of a free block that is not the tail. */
    method FreeLinks(a: nat) returns (next: nat, nextFree: nat)
      requires Valid() && initialized && a in layout.free && a != tail
      ensures WellFormed(layout, base, Limit()) && nextFree in layout.free && a < nextFree
      ensures FreeFrom(layout, base, Limit(), a)
              == next - a - HDR + FreeFrom(layout, base, Limit(), nextFree)
    {
      FreeTerm(mem[..], base, Limit(), fields, layout, head, a);
      next, nextFree := NextIn(mem[..], base, a), NextFreeIn(mem[..], base, a);
    }

    /** MEM_GetFreeHeapSize, in 32 bit arithmetic; before initialization it counts from address 0. */
    method FreeHeapSize() returns (size: nat)
      requires Valid()
      ensures initialized ==> WellFormed(layout, base, Limit())
                              && WrappedTo(FreeBytes(layout, base, Limit(), memHeapEnd), size)
      ensures !initialized ==> WrappedTo(memHeapEnd - HDR, size)
    {
      ghost var total, m, L, limit := 0, mem[..], layout, Limit();
      size := 0;
      var current := head;
      if initialized {
        FirstFreeIsHead(L, head);
      }
      while current != tail
        invariant WrappedTo(total, size)
        invariant !initialized ==> current == tail && total == 0
        invariant initialized ==> current in L.free
        invariant initialized ==> total + FreeFrom(L, base, limit, current) == FreeFrom(L, base, limit, head)
        decreases tail - current
      {
        var next, nextFree := FreeLinks(current);
        var term := next - current - HDR;
        assert FreeFrom(L, base, limit, current) == term + FreeFrom(L, base, limit, nextFree);
        var newSize := AddWrapped(size, term);
        ghost var newTotal := total + term;
        WrappedSum(total, size, term, newTotal, newSize);
        size, total := newSize, newTotal;
        current := nextFree;
      }
      var rest := memHeapEnd - tail - HDR;
      ghost var all := total + rest;
      var newSize := AddWrapped(size, rest);
      WrappedSum(total, size, rest, all, newSize);
      size := newSize;
    }
  }
}
