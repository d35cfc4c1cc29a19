// The calls of the light memory manager are the steps of its runs, and one run that loses content.

module LightHeapSteps {
  import opened ByteMemory
  import opened LightHeapSpec
  import opened LightHeapLinks
  import opened LightHeapRuns
  import LightHeap

  function PlaceOf(h: LightHeap.Heap): Place
  {
    Place(h.base, h.base + h.mem.Length, h.memHeapEnd)
  }

  ghost function SnapshotOf(h: LightHeap.Heap): Snapshot
    reads h, h.mem
  {
    Snapshot(h.mem[..], h.layout)
  }

  /** MEM_BufferAllocate is the step Alloc. */
  method AllocStep(h: LightHeap.Heap, n: nat) returns (buffer: nat)
    requires h.Valid() && n < MODULUS32 && RequestSafe(h.layout, h.memHeapEnd, h.Limit(), n)
    modifies h, h.mem
    ensures h.Valid() && Good(PlaceOf(h), old(SnapshotOf(h)))
    ensures Step(PlaceOf(h), old(SnapshotOf(h)), Alloc(n, buffer), SnapshotOf(h))
  {
    ghost var at, s := PlaceOf(h), SnapshotOf(h);
    h.LayoutWellFormed();
    assert Good(at, s);
    buffer := h.Allocate(n);
    assert Allocated(s.mem, h.mem[..], at.base, at.end, s.layout, h.layout, n, buffer);
  }

  /** MEM_BufferFree is the step Release. */
  method ReleaseStep(h: LightHeap.Heap, buffer: nat)
    requires h.Valid() && Owned(h.layout, buffer)
    modifies h, h.mem
    ensures h.Valid() && Good(PlaceOf(h), old(SnapshotOf(h)))
    ensures Step(PlaceOf(h), old(SnapshotOf(h)), Release(buffer), SnapshotOf(h))
  {
    var ok := h.Free(buffer);
  }

  /** MEM_BufferRealloc of a live block to a positive size is the step Realloc. */
  method ReallocStep(h: LightHeap.Heap, buffer: nat, newSize: nat) returns (result: nat)
    requires h.Valid() && buffer != 0 && Owned(h.layout, buffer) && 0 < newSize < MODULUS16
    requires newSize > Capacity(h.layout, BlockOf(buffer)) % MODULUS16 ==>
               RequestSafe(h.layout, h.memHeapEnd, h.Limit(), newSize)
    modifies h, h.mem
    ensures h.Valid() && Good(PlaceOf(h), old(SnapshotOf(h)))
    ensures Step(PlaceOf(h), old(SnapshotOf(h)), Realloc(buffer, newSize, result), SnapshotOf(h))
  {
    result := h.Realloc(buffer, newSize);
  }

  /** A client stores a byte in its payload, which is the step Write and leaves the heap valid. */
  method WriteStep(h: LightHeap.Heap, buffer: nat, k: nat, value: Byte)
    requires h.Valid() && buffer != 0 && Owned(h.layout, buffer) && k < Capacity(h.layout, BlockOf(buffer))
    modifies h.mem
    ensures h.Valid() && Good(PlaceOf(h), old(SnapshotOf(h)))
    ensures Step(PlaceOf(h), old(SnapshotOf(h)), Write(buffer), SnapshotOf(h))
    ensures h.base <= buffer && buffer - h.base + k < h.mem.Length
    ensures h.mem[..] == old(h.mem[..])[buffer - h.base + k := value]
  {
    ghost var m0, a := h.mem[..], BlockOf(buffer);
    CapacityRoom(h.layout, h.base, h.Limit(), a, k + 1);
    h.mem[buffer - h.base + k] := value;
    assert InPayload(h.layout, a, buffer + k) by {
      RoomInPayload(h.layout, a, k + 1, buffer + k);
    }
    PayloadWriteHarmless(m0, h.mem[..], h.base, h.fields, h.layout, h.head, h.tail, a, k + 1);
  }

  // ---------- A reallocation that loses content ----------

  lemma OnlyTail(L: Layout, end: nat, n: nat, r: nat)
    requires L.free == {L.tail} && 0 !in L.free && TailFits(L, end, n) && Chosen(L, end, n, r)
    ensures r == L.tail
  {
  }

  lemma FirstCapacity(L: Layout, a: nat, b: nat)
    requires L.chain == {a, b} && 0 < a < b
    ensures Capacity(L, a) == b - a - HDR
  {
    NextUnique(L.chain, a, b);
  }

  /** A heap of 65600 bytes with a block of 65540 bytes, whose fifth byte is 7. */
  method LargeBlock() returns (h: LightHeap.Heap, buffer: nat)
    ensures fresh(h) && fresh(h.mem) && h.Valid() && h.base == 0x1000 && h.mem.Length == 65600
    ensures h.memHeapEnd == 0x1000 + 65599 && h.layout == Layout({0x1000, 69652}, {69652}, 69652)
    ensures buffer == 0x1000 + HDR && Capacity(h.layout, 0x1000) == 65540
    ensures h.mem[..][buffer - h.base + 4] == 7
  {
    var mem := new Byte[65600](_ => 0);
    h := new LightHeap.Heap(0x1000, 0x1000 + 65599, mem);
    ghost var at := PlaceOf(h);
    buffer := AllocStep(h, 65540);
    OnlyTail(InitialLayout(0x1000), at.end, 65540, BlockOf(buffer));
    assert h.layout == Layout({0x1000, 69652}, {69652}, 69652);
    FirstCapacity(h.layout, 0x1000, 69652);
    WriteStep(h, buffer, 4, 7);
  }

  /** That block is moved to a block of 10 bytes without its fifth byte. */
  method LargeReallocation() returns (ghost at: Place, ghost s: Snapshot, ghost s': Snapshot, buffer: nat, result: nat)
    ensures Good(at, s) && Step(at, s, Realloc(buffer, 10, result), s')
    ensures result != 0 && Capacity(s.layout, BlockOf(buffer)) == 65540
    ensures at.base <= buffer && buffer - at.base + 4 < |s.mem| && s.mem[buffer - at.base + 4] == 7
    ensures !ContentKept(at, s, s', buffer, result, 10)
  {
    var h;
    h, buffer := LargeBlock();
    at, s := PlaceOf(h), SnapshotOf(h);
    result := ReallocStep(h, buffer, 10);
    s' := SnapshotOf(h);
    OnlyTail(s.layout, at.end, 10, BlockOf(result));
    LargeBlockTruncated(at, s, s', buffer, result);
  }
}
