// Runs of the light heap: any sequence of allocations, releases, reallocations and client writes.
// A step is what the contracts of the methods of Heap promise, seen on values.

module LightHeapRuns {
  import opened ByteMemory
  import opened LightHeapSpec
  import opened LightHeapLinks

  datatype Event =
    | Alloc(n: nat, buffer: nat)
    | Release(buffer: nat)
    | Realloc(buffer: nat, newSize: nat, result: nat)
    | Write(buffer: nat)

  /** Where the heap lies: its first address, the address past it, and what the linker calls its end. */
  datatype Place = Place(base: nat, limit: nat, end: nat)

  datatype Snapshot = Snapshot(mem: seq<Byte>, layout: Layout)

  ghost predicate Good(at: Place, s: Snapshot)
  {
    WellFormed(s.layout, at.base, at.limit) && at.base + |s.mem| == at.limit
    && at.limit <= at.end + 1 <= MODULUS32
  }

  /** Only bytes of the payload of one live block differ. */
  ghost predicate Written(at: Place, s: Snapshot, s': Snapshot, a: nat)
  {
    && s'.layout == s.layout && |s'.mem| == |s.mem| && Live(s.layout, a)
    && forall p: nat {:trigger InPayload(s.layout, a, p)} ::
         at.base <= p < at.base + |s.mem| && !InPayload(s.layout, a, p) ==> s'.mem[p - at.base] == s.mem[p - at.base]
  }

  ghost predicate Step(at: Place, s: Snapshot, e: Event, s': Snapshot)
    requires Good(at, s)
  {
    match e
    case Alloc(n, buffer) =>
      && n < MODULUS32 && RequestSafe(s.layout, at.end, at.limit, n)
      && Allocated(s.mem, s'.mem, at.base, at.end, s.layout, s'.layout, n, buffer)
    case Release(buffer) =>
      && Owned(s.layout, buffer)
      && if buffer == 0 then s' == s else Freed(s.mem, s'.mem, at.base, s.layout, s'.layout, BlockOf(buffer))
    case Realloc(buffer, newSize, result) =>
      && Live(s.layout, BlockOf(buffer)) && buffer != 0 && 0 < newSize < MODULUS16
      && Capacity(s.layout, BlockOf(buffer)) >= 0
      && (newSize > Capacity(s.layout, BlockOf(buffer)) % MODULUS16 ==>
            RequestSafe(s.layout, at.end, at.limit, newSize))
      && Reallocated(s.mem, s'.mem, at.base, at.end, s.layout, s'.layout, buffer, newSize, result)
    case Write(buffer) =>
      Written(at, s, s', BlockOf(buffer))
  }

  // ---------- Every step keeps the heap well formed ----------

  lemma AllocKeepsWellFormed(at: Place, L: Layout, n: nat, r: nat)
    requires WellFormed(L, at.base, at.limit) && at.limit <= at.end + 1 <= MODULUS32 && n < MODULUS32
    requires RequestSafe(L, at.end, at.limit, n) && Chosen(L, at.end, n, r)
    ensures WellFormed(AllocLayout(L, n, r), at.base, at.limit)
    ensures r == 0 || r in L.free
  {
  }

  lemma FreeKeepsWellFormed(L: Layout, base: nat, limit: nat, a: nat)
    requires WellFormed(L, base, limit) && Live(L, a)
    ensures WellFormed(FreeLayout(L, a), base, limit)
  {
  }

  lemma StepKeepsGood(at: Place, s: Snapshot, e: Event, s': Snapshot)
    requires Good(at, s) && Step(at, s, e, s')
    ensures Good(at, s')
  {
    match e
    case Alloc(n, buffer) =>
      AllocKeepsWellFormed(at, s.layout, n, BlockOf(buffer));
    case Release(buffer) =>
      if buffer != 0 {
        FreeKeepsWellFormed(s.layout, at.base, at.limit, BlockOf(buffer));
      }
    case Realloc(buffer, newSize, result) =>
      ReallocKeepsWellFormed(at, s, s', buffer, newSize, result);
    case Write(_) =>
  }

  lemma ReallocKeepsWellFormed(at: Place, s: Snapshot, s': Snapshot, buffer: nat, newSize: nat, result: nat)
    requires Good(at, s) && Step(at, s, Realloc(buffer, newSize, result), s')
    ensures Good(at, s')
  {
    var L, a, b := s.layout, BlockOf(buffer), BlockOf(result);
    if newSize > Capacity(L, a) % MODULUS16 && result != 0 {
      AllocKeepsWellFormed(at, L, newSize, b);
      CapacityRoom(L, at.base, at.limit, a, 0);
      AllocKeepsOthers(L, at.base, at.limit, newSize, b, a, 0);
      FreeKeepsWellFormed(AllocLayout(L, newSize, b), at.base, at.limit, a);
    }
  }

  // ---------- Runs ----------

  ghost predicate Run(at: Place, ss: seq<Snapshot>, es: seq<Event>)
  {
    && |ss| == |es| + 1
    && forall i :: 0 <= i < |es| ==> Good(at, ss[i]) ==> Step(at, ss[i], es[i], ss[i + 1])
  }

  /** Safety over whole runs: from a good heap, only good heaps. */
  lemma {:induction false} RunKeepsGood(at: Place, ss: seq<Snapshot>, es: seq<Event>, i: nat)
    requires Run(at, ss, es) && Good(at, ss[0]) && i < |ss|
    ensures Good(at, ss[i])
    decreases i
  {
    if i > 0 {
      RunKeepsGood(at, ss, es, i - 1);
      StepKeepsGood(at, ss[i - 1], es[i - 1], ss[i]);
    }
  }

  /** The event is not about block `a`. */
  predicate Spares(e: Event, a: nat)
  {
    match e
    case Alloc(_, _) => true
    case Release(buffer) => BlockOf(buffer) != a
    case Realloc(buffer, _, _) => BlockOf(buffer) != a
    case Write(buffer) => BlockOf(buffer) != a
  }

  /** The `n` bytes of payload that block `a` has in both snapshots are the same. */
  ghost predicate SamePayload(at: Place, s: Snapshot, s': Snapshot, a: nat, n: nat)
  {
    && PayloadRoom(s.layout, a, n) && PayloadRoom(s'.layout, a, n)
    && SameWithin(s.mem, s'.mem, a + HDR - at.base, a + HDR + n - at.base)
  }

  lemma UntouchedPayload(base: nat, m: seq<Byte>, m': seq<Byte>, L: Layout, a: nat, n: nat)
    requires Untouched(m, m', base, L) && PayloadRoom(L, a, n) && base <= a
    ensures SameWithin(m, m', a + HDR - base, a + HDR + n - base)
  {
    forall k {:trigger m'[k]} | 0 <= k < |m| && a + HDR - base <= k < a + HDR + n - base
      ensures m'[k] == m[k]
    {
      RoomInPayload(L, a, n, base + k);
    }
  }

  lemma StepKeepsPayload(at: Place, s: Snapshot, e: Event, s': Snapshot, a: nat, n: nat)
    requires Good(at, s) && Step(at, s, e, s') && Spares(e, a) && PayloadRoom(s.layout, a, n)
    ensures SamePayload(at, s, s', a, n)
  {
    match e
    case Alloc(size, buffer) =>
      AllocKeepsWellFormed(at, s.layout, size, BlockOf(buffer));
      AllocKeepsOthers(s.layout, at.base, at.limit, size, BlockOf(buffer), a, n);
      UntouchedPayload(at.base, s.mem, s'.mem, s.layout, a, n);
    case Release(buffer) =>
      if buffer != 0 {
        FreeKeepsOthers(s.layout, BlockOf(buffer), a, n);
        UntouchedPayload(at.base, s.mem, s'.mem, s.layout, a, n);
      }
    case Realloc(buffer, newSize, result) =>
      ReallocKeepsPayload(at, s, s', buffer, newSize, result, a, n);
    case Write(buffer) =>
      forall k {:trigger s'.mem[k]} | 0 <= k < |s.mem| && a + HDR - at.base <= k < a + HDR + n - at.base
        ensures s'.mem[k] == s.mem[k]
      {
        RoomInPayload(s.layout, a, n, at.base + k);
        assert !InPayload(s.layout, BlockOf(buffer), at.base + k);
      }
  }

  lemma ReallocKeepsPayload(at: Place, s: Snapshot, s': Snapshot, buffer: nat, newSize: nat, result: nat, a: nat,
                            n: nat)
    requires Good(at, s) && Step(at, s, Realloc(buffer, newSize, result), s')
    requires BlockOf(buffer) != a && PayloadRoom(s.layout, a, n)
    ensures SamePayload(at, s, s', a, n)
  {
    var L, x, b := s.layout, BlockOf(buffer), BlockOf(result);
    if newSize > Capacity(L, x) % MODULUS16 {
      if result != 0 {
        AllocKeepsOthers(L, at.base, at.limit, newSize, b, a, n);
        CapacityRoom(L, at.base, at.limit, x, 0);
        AllocKeepsOthers(L, at.base, at.limit, newSize, b, x, 0);
        FreeKeepsOthers(AllocLayout(L, newSize, b), x, a, n);
      }
      UntouchedPayload(at.base, s.mem, s'.mem, L, a, n);
    }
  }

  /** A live block keeps its payload, byte for byte, through every run that neither writes nor releases it. */
  lemma {:induction false} RunKeepsPayload(at: Place, ss: seq<Snapshot>, es: seq<Event>, i: nat, j: nat, a: nat, n: nat)
    requires Run(at, ss, es) && Good(at, ss[0]) && i <= j < |ss|
    requires PayloadRoom(ss[i].layout, a, n)
    requires forall k :: i <= k < j ==> Spares(es[k], a)
    ensures SamePayload(at, ss[i], ss[j], a, n)
    decreases j
  {
    if i < j {
      RunKeepsPayload(at, ss, es, i, j - 1, a, n);
      RunKeepsGood(at, ss, es, j - 1);
      StepKeepsPayload(at, ss[j - 1], es[j - 1], ss[j], a, n);
    }
  }

  /** In every heap of a run, live payloads overlap neither each other nor any header, and lie in the heap. */
  lemma RunPayloadsDisjoint(at: Place, ss: seq<Snapshot>, es: seq<Event>, i: nat, a: nat, p: nat)
    requires Run(at, ss, es) && Good(at, ss[0]) && i < |ss|
    requires InPayload(ss[i].layout, a, p)
    ensures at.base + HDR <= p < at.limit
    ensures forall h :: h in ss[i].layout.chain ==> !(h <= p < h + HDR)
    ensures forall b :: InPayload(ss[i].layout, b, p) ==> b == a
  {
    RunKeepsGood(at, ss, es, i);
    PayloadOffHeaders(ss[i].layout, ss[i].layout.chain, a, p);
    assert a < ss[i].layout.tail;
    forall b | InPayload(ss[i].layout, b, p)
      ensures b == a
    {
      PayloadsDisjoint(ss[i].layout, a, b, p);
    }
  }

  /** A client that stays inside its own payloads cannot damage the linked structures in memory. */
  lemma ClientWriteHarmless(at: Place, s: Snapshot, s': Snapshot, a: nat, F: Fields, head: nat)
    requires Good(at, s) && Written(at, s, s', a)
    requires Represents(s.mem, at.base, F, s.layout, head, s.layout.tail)
    ensures Represents(s'.mem, at.base, F, s.layout, head, s.layout.tail)
  {
    assert IsNext(s.layout.chain, a, Next(s.layout.chain, a));
    var n := Capacity(s.layout, a);
    assert a < s.layout.tail;
    CapacityRoom(s.layout, at.base, at.limit, a, n);
    assert SameOutside(s.mem, s'.mem, a + HDR - at.base, n) by {
      forall k {:trigger s'.mem[k]} | 0 <= k < |s.mem| && !(a + HDR - at.base <= k < a + HDR - at.base + n)
        ensures s'.mem[k] == s.mem[k]
      {
        assert !InPayload(s.layout, a, at.base + k);
      }
    }
    PayloadWriteHarmless(s.mem, s'.mem, at.base, F, s.layout, head, s.layout.tail, a, n);
  }

  // ---------- Reallocation and content ----------

  /** The bytes that the smaller of the old capacity and the new size covers are the same in the result. */
  ghost predicate ContentKept(at: Place, s: Snapshot, s': Snapshot, buffer: nat, result: nat, n: nat)
  {
    && at.base <= buffer && buffer - at.base + n <= |s.mem|
    && at.base <= result && result - at.base + n <= |s'.mem|
    && s'.mem[result - at.base..result - at.base + n] == s.mem[buffer - at.base..buffer - at.base + n]
  }

  function Min(x: nat, y: nat): nat
  {
    if x < y then x else y
  }

  /** Bytes `lo` to `hi` of the payload are zero. */
  ghost predicate ZeroBetween(at: Place, s: Snapshot, buffer: nat, lo: nat, hi: nat)
  {
    forall k {:trigger s.mem[k]} :: 0 <= k < |s.mem| && buffer - at.base + lo <= k < buffer - at.base + hi ==>
      s.mem[k] == 0
  }

  /**
   * When a successful reallocation keeps content.  The 16 bit block size makes it lose the bytes behind a
   * multiple of 65536, so besides the case where these bytes were zero anyway it keeps content exactly for
   * capacities below 65536 and for sizes that the truncated capacity covers.
   */
  lemma ReallocKeepsContent(at: Place, s: Snapshot, s': Snapshot, buffer: nat, newSize: nat, result: nat)
    requires Good(at, s) && Step(at, s, Realloc(buffer, newSize, result), s') && result != 0
    ensures var capacity := Capacity(s.layout, BlockOf(buffer));
            ContentKept(at, s, s', buffer, result, Min(capacity, newSize))
            <==> || capacity < MODULUS16
                 || newSize <= capacity % MODULUS16
                 || ZeroBetween(at, s, buffer, capacity % MODULUS16, newSize)
  {
    var L, a := s.layout, BlockOf(buffer);
    var capacity := Capacity(L, a);
    var blockSize := capacity % MODULUS16;
    CapacityRoom(L, at.base, at.limit, a, capacity);
    if newSize > blockSize {
      var n := Min(capacity, newSize);
      MinOfTruncated(capacity, newSize, blockSize, n);
      MovedKeeps(at, s, s', buffer, result, blockSize, newSize, n);
    }
  }

  lemma MinOfTruncated(capacity: nat, newSize: nat, blockSize: nat, n: nat)
    requires blockSize == capacity % MODULUS16 && blockSize < newSize < MODULUS16 && n == Min(capacity, newSize)
    ensures blockSize <= n && n == if capacity < MODULUS16 then blockSize else newSize
  {
  }

  lemma MovedKeeps(at: Place, s: Snapshot, s': Snapshot, buffer: nat, result: nat, blockSize: nat, newSize: nat, n: nat)
    requires at.base <= buffer && at.base <= result && blockSize <= n <= newSize && |s'.mem| == |s.mem|
    requires buffer - at.base + n <= |s.mem|
    requires Copied(s.mem, s'.mem, buffer - at.base, result - at.base, blockSize)
    requires Zeroed(s'.mem, result - at.base + blockSize, newSize - blockSize)
    ensures ContentKept(at, s, s', buffer, result, n) <==> ZeroBetween(at, s, buffer, blockSize, n)
  {
    var from, to := buffer - at.base, result - at.base;
    assert forall k {:trigger s'.mem[to + k]} :: 0 <= k < n ==>
        s'.mem[to + k] == if k < blockSize then s.mem[from + k] else 0;
    if ZeroBetween(at, s, buffer, blockSize, n) {
      assert s'.mem[to..to + n] == s.mem[from..from + n];
    }
    if ContentKept(at, s, s', buffer, result, n) {
      forall k {:trigger s.mem[k]} | 0 <= k < |s.mem| && from + blockSize <= k < from + n
        ensures s.mem[k] == 0
      {
        var j := k - from;
        assert s'.mem[to..to + n][j] == s.mem[from..from + n][j];
        assert s'.mem[to + j] == s.mem[k] && j >= blockSize;
      }
    }
  }

  /** A block of 65540 bytes resized to 10 loses its fifth byte, unless that was zero. */
  lemma LargeBlockTruncated(at: Place, s: Snapshot, s': Snapshot, buffer: nat, result: nat)
    requires Good(at, s) && Step(at, s, Realloc(buffer, 10, result), s') && result != 0
    requires Capacity(s.layout, BlockOf(buffer)) == 65540
    requires buffer - at.base + 4 < |s.mem| && s.mem[buffer - at.base + 4] != 0
    ensures !ContentKept(at, s, s', buffer, result, 10)
  {
    ReallocKeepsContent(at, s, s', buffer, 10, result);
  }
}
