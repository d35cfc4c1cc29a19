// What the light memory manager's heap is, apart from how it is stored.
//
// A heap is one address range.  Block headers sit at the addresses of `chain`; the payload of a block
// runs from the end of its header to the next header.  `free` are the headers of the free blocks, and
// the highest header `tail` is always free: it stands for everything that was never carved.

module LightHeapSpec {
  import opened ByteMemory

  const HDR: nat := 16
  const BLOCK_FREE: nat := 0xBA00
  const BLOCK_USED: nat := 0xBABE

  datatype Layout = Layout(chain: set<nat>, free: set<nat>, tail: nat)

  // ---------- Neighbours in a set of addresses; 0 is the null pointer ----------

  ghost predicate IsNext(s: set<nat>, a: nat, b: nat)
  {
    if b == 0 then forall x :: x in s ==> x <= a
    else b in s && a < b && forall x :: x in s ==> x <= a || b <= x
  }

  ghost predicate IsPrev(s: set<nat>, a: nat, b: nat)
  {
    if b == 0 then forall x :: x in s ==> a <= x
    else b in s && b < a && forall x :: x in s ==> x <= b || a <= x
  }

  lemma {:induction false} Least(s: set<nat>) returns (b: nat)
    requires s != {}
    ensures b in s && forall x :: x in s ==> b <= x
  {
    var y :| y in s;
    var rest := s - {y};
    assert forall x :: x in s <==> x == y || x in rest;
    if rest == {} {
      b := y;
    } else {
      var c := Least(rest);
      b := if y < c then y else c;
    }
  }

  lemma LeastExists(s: set<nat>)
    requires s != {}
    ensures exists b :: b in s && forall x :: x in s ==> b <= x
  {
    var b := Least(s);
  }

  /** The least member of `s` above `a`, or 0 when there is none. */
  ghost function Next(s: set<nat>, a: nat): (b: nat)
    ensures IsNext(s, a, b)
  {
    var above := set x | x in s && a < x;
    if above == {} then
      assert forall x :: x in s && a < x ==> x in above;
      0
    else
      LeastExists(above);
      var b :| b in above && forall x :: x in above ==> b <= x;
      assert forall x :: x in s && a < x ==> x in above;
      b
  }

  lemma NextAfterRemove(s: set<nat>, a: nat, b: nat, x: nat, y: nat)
    requires 0 !in s && a in s && x in s && x != a
    requires IsNext(s, a, b) && IsNext(s, x, y)
    ensures IsNext(s - {a}, x, if y == a then b else y)
  {
  }

  lemma PrevAfterRemove(s: set<nat>, a: nat, b: nat, x: nat, y: nat)
    requires 0 !in s && a in s && x in s && x != a
    requires IsPrev(s, a, b) && IsPrev(s, x, y)
    ensures IsPrev(s - {a}, x, if y == a then b else y)
  {
  }

  lemma NextAfterInsert(s: set<nat>, a: nat, x: nat, y: nat)
    requires 0 !in s && 0 < a && IsNext(s, x, y)
    ensures IsNext(s + {a}, x, if x < a && (y == 0 || a < y) then a else y)
  {
  }

  lemma PrevAfterInsert(s: set<nat>, a: nat, x: nat, y: nat)
    requires 0 !in s && 0 < a && IsPrev(s, x, y)
    ensures IsPrev(s + {a}, x, if a < x && (y == 0 || y < a) then a else y)
  {
  }

  /** `a` is next after `x` exactly when `x` is the one before `a`. */
  lemma NextPrevInverse(s: set<nat>, x: nat, y: nat, a: nat, b: nat)
    requires 0 !in s && x in s && a in s
    requires IsNext(s, x, y) && IsPrev(s, a, b)
    ensures y == a <==> b == x
  {
  }

  lemma NextUnique(s: set<nat>, a: nat, b: nat)
    requires 0 !in s && IsNext(s, a, b)
    ensures b == Next(s, a)
  {
  }

  // ---------- Layouts ----------

  /** Headers are word aligned, inside the range, apart by at least a header; the highest one is free. */
  ghost predicate WellFormed(L: Layout, base: nat, limit: nat)
  {
    && 0 < base && base in L.chain
    && L.free <= L.chain
    && L.tail in L.free
    && (forall a {:trigger Aligned(a)} :: a in L.chain ==> Aligned(a))
    && (forall a :: a in L.chain ==> base <= a <= L.tail)
    && L.tail + HDR <= limit
    && Spaced(L.chain)
  }

  predicate Aligned(a: nat)
  {
    a % 4 == 0
  }

  ghost predicate Spaced(s: set<nat>)
  {
    forall a, b :: a in s && b in s && a < b ==> a + HDR <= b
  }

  ghost predicate Live(L: Layout, a: nat)
  {
    a in L.chain && a !in L.free
  }

  /** Address `p` lies in the payload of the live block whose header is at `a`. */
  ghost predicate InPayload(L: Layout, a: nat, p: nat)
  {
    Live(L, a) && a + HDR <= p && forall h :: h in L.chain && a < h ==> p < h
  }

  /** Block `a` is live and its payload has at least `n` bytes. */
  ghost predicate PayloadRoom(L: Layout, a: nat, n: nat)
  {
    Live(L, a) && forall h :: h in L.chain && a < h ==> a + HDR + n <= h
  }

  /** Bytes between a header and the next one; a meaningful size for every block but the tail. */
  ghost function Capacity(L: Layout, a: nat): int
  {
    Next(L.chain, a) - a - HDR
  }

  /** A heap of `length` bytes is word aligned; `end` is its last byte or the address just past it. */
  predicate ConfiguredHeap(base: nat, length: nat, end: nat)
  {
    && 0 < base && base % 4 == 0 && length % 4 == 0 && HDR <= length
    && end < MODULUS32
    && (end == base + length || end + 1 == base + length)
  }

  function InitialLayout(base: nat): Layout
  {
    Layout({base}, {base}, base)
  }

  // ---------- Placement ----------

  ghost predicate Fits(L: Layout, a: nat, n: nat)
  {
    a in L.free && a != L.tail && Capacity(L, a) >= n
  }

  ghost predicate FitsClosely(L: Layout, a: nat, n: nat)
  {
    Fits(L, a, n) && Capacity(L, a) < 2 * n
  }

  /** The tail holds the request and the header that must follow it; `end` is the last usable byte. */
  predicate TailFits(L: Layout, end: nat, n: nat)
  {
    L.tail + HDR + n + HDR <= end + 1
  }

  ghost predicate NoneFitsClosely(L: Layout, n: nat)
  {
    forall a :: !FitsClosely(L, a, n)
  }

  ghost predicate NoneFits(L: Layout, n: nat)
  {
    forall a :: !Fits(L, a, n)
  }

  /**
   * The block that a request for `n` bytes must get: the lowest close fit; else the tail, if it is large
   * enough; else the lowest fit; else none, written 0.
   */
  ghost predicate Chosen(L: Layout, end: nat, n: nat, r: nat)
  {
    || (FitsClosely(L, r, n) && forall a :: FitsClosely(L, a, n) ==> r <= a)
    || (NoneFitsClosely(L, n) && TailFits(L, end, n) && r == L.tail)
    || (NoneFitsClosely(L, n) && !TailFits(L, end, n) && Fits(L, r, n) && forall a :: Fits(L, a, n) ==> r <= a)
    || (NoneFits(L, n) && !TailFits(L, end, n) && r == 0)
  }

  /** State of the search at free block `at`: no close fit below it, `usable` the lowest fit below it if any. */
  ghost predicate Searched(L: Layout, n: nat, at: nat, usable: nat)
  {
    && at in L.free
    && (usable != 0 ==> Fits(L, usable, n) && usable < at)
    && (forall x: nat :: Fits(L, x, n) && x < at ==> usable != 0 && usable <= x)
    && (forall x :: FitsClosely(L, x, n) ==> at <= x)
  }

  lemma SearchStep(L: Layout, n: nat, at: nat, usable: nat, next: nat)
    requires Searched(L, n, at, usable) && 0 !in L.free && at != L.tail
    requires IsNext(L.free, at, next) && next != 0
    requires !FitsClosely(L, at, n)
    ensures Searched(L, n, next, if usable == 0 && Fits(L, at, n) then at else usable)
  {
  }

  lemma SearchFindsClose(L: Layout, end: nat, n: nat, at: nat, usable: nat)
    requires Searched(L, n, at, usable) && FitsClosely(L, at, n)
    ensures Chosen(L, end, n, at)
  {
  }

  lemma SearchEnds(L: Layout, end: nat, n: nat, usable: nat)
    requires Searched(L, n, L.tail, usable) && (forall x :: x in L.free ==> x <= L.tail)
    ensures NoneFitsClosely(L, n)
    ensures Chosen(L, end, n, if TailFits(L, end, n) then L.tail else usable)
  {
  }

  /** Halving rounds down, so the test of the source relies on capacities being even. */
  lemma ShiftTest(next: nat, a: nat, n: nat, available: nat)
    requires next % 4 == 0 && a % 4 == 0 && available == next - a - HDR && available >= n
    ensures available - n < available / 2 <==> available < 2 * n
  {
    var q := next / 4 - a / 4 - HDR / 4;
    assert available == 4 * q;
    HalfOfEven(available, 2 * q);
  }

  lemma HalfOfEven(x: nat, half: int)
    requires x == 2 * half
    ensures x / 2 == half
  {
  }

  // ---------- The 32 bit arithmetic of the source ----------

  /** The macro ROUNDUP_WORD; masking with ~3 clears the two low bits. */
  function RoundUpWord(x: nat): (r: nat)
    requires x < MODULUS32
    ensures 0 < x <= MODULUS32 - 4 ==> r % 4 == 0 && x <= r < x + 4
  {
    var d := (x + MODULUS32 - 1) % MODULUS32;
    (d - d % 4 + 4) % MODULUS32
  }

  /** The tail test as computed, with the 32 bit sum wrapping. */
  predicate TailTest(end: nat, tail: nat, n: nat)
    requires tail + HDR <= end + 1
  {
    end - (tail + HDR - 1) >= (n + HDR) % MODULUS32
  }

  /** Where the header after a carved block belongs, over the integers. */
  function NewTail(tail: nat, n: nat): (t: nat)
    ensures tail + HDR + n <= t < tail + HDR + n + 4 && t % 4 == 0
  {
    (tail + HDR + n + 3) / 4 * 4
  }

  lemma RoundUpIsNewTail(tail: nat, n: nat)
    requires 0 < tail && tail + HDR + n <= MODULUS32 - 4 && tail % 4 == 0
    ensures RoundUpWord(tail + HDR + n) == NewTail(tail, n)
  {
  }

  /** If the source decides to carve, the request and the new header really lie inside the heap. */
  predicate CarveSafe(end: nat, limit: nat, tail: nat, n: nat)
    requires tail + HDR <= end + 1
  {
    TailTest(end, tail, n) ==> NewTail(tail, n) + HDR <= limit
  }

  /** The request does not get as far as an unsafe carve: it finds a close fit, or carving is safe. */
  ghost predicate RequestSafe(L: Layout, end: nat, limit: nat, n: nat)
    requires L.tail + HDR <= end + 1
  {
    NoneFitsClosely(L, n) ==> CarveSafe(end, limit, L.tail, n)
  }

  /** The tail test decides what it should, and what it lets through stays in the heap. */
  predicate TailExact(L: Layout, end: nat, limit: nat, n: nat)
    requires L.tail + HDR <= end + 1
  {
    && (TailTest(end, L.tail, n) <==> TailFits(L, end, n))
    && (TailFits(L, end, n) ==> NewTail(L.tail, n) + HDR <= limit)
  }

  lemma TailTestExact(end: nat, limit: nat, L: Layout, n: nat)
    requires L.tail + HDR <= end + 1 <= MODULUS32 && limit <= end + 1 && n < MODULUS32
    requires CarveSafe(end, limit, L.tail, n)
    ensures TailExact(L, end, limit, n)
  {
  }

  lemma SafeRequestExact(end: nat, limit: nat, L: Layout, n: nat)
    requires L.tail + HDR <= end + 1 <= MODULUS32 && limit <= end + 1 && n < MODULUS32
    requires RequestSafe(L, end, limit, n)
    ensures NoneFitsClosely(L, n) ==> TailExact(L, end, limit, n)
  {
    if NoneFitsClosely(L, n) {
      TailTestExact(end, limit, L, n);
    }
  }

  function AllocLayout(L: Layout, n: nat, r: nat): Layout
  {
    if r == 0 then L
    else if r == L.tail then
      var t := NewTail(r, n);
      Layout(L.chain + {t}, L.free - {r} + {t}, t)
    else
      L.(free := L.free - {r})
  }

  // ---------- Freeing ----------

  function UpTo(s: set<nat>, a: nat): set<nat>
  {
    set x | x in s && x <= a
  }

  ghost predicate LiveAbove(L: Layout, a: nat)
  {
    exists u :: Live(L, u) && a < u
  }

  /** What the cleanup pass makes of a layout in which `a` is free: cut behind `a` unless a live block lies above. */
  ghost function CleanedLayout(L: Layout, a: nat): Layout
  {
    if LiveAbove(L, a) then L else Layout(UpTo(L.chain, a), UpTo(L.free, a), a)
  }

  ghost function FreeLayout(L: Layout, a: nat): Layout
  {
    CleanedLayout(L.(free := L.free + {a}), a)
  }

  // ---------- Accounting ----------

  /** Capacities of the free blocks from `a` up to the tail, which is not among them. */
  ghost function FreeFrom(L: Layout, base: nat, limit: nat, a: nat): int
    requires WellFormed(L, base, limit) && a in L.free
    decreases L.tail - a
  {
    if a == L.tail then 0
    else
      assert IsNext(L.free, a, Next(L.free, a)) && L.tail in L.free;
      Capacity(L, a) + FreeFrom(L, base, limit, Next(L.free, a))
  }

  ghost function FirstFree(L: Layout): nat
  {
    Next(L.free, 0)
  }

  lemma FirstFreeIsHead(L: Layout, head: nat)
    requires 0 !in L.free && head in L.free && IsPrev(L.free, head, 0)
    ensures FirstFree(L) == head
  {
  }

  /** What MEM_GetFreeHeapSize adds up, over the integers: `end` minus the tail's header end is the last term. */
  ghost function FreeBytes(L: Layout, base: nat, limit: nat, end: nat): int
    requires WellFormed(L, base, limit)
  {
    assert IsNext(L.free, 0, FirstFree(L)) && L.tail in L.free;
    FreeFrom(L, base, limit, FirstFree(L)) + end - L.tail - HDR
  }

  /** 32 bit addition of a term that may be negative. */
  function AddWrapped(x: nat, term: int): (sum: nat)
    ensures sum < MODULUS32
  {
    (x + term) % MODULUS32
  }

  ghost predicate WrappedTo(sum: int, wrapped: nat)
  {
    wrapped == sum % MODULUS32
  }

  lemma WrappedSum(sum: int, wrapped: nat, term: int, sum': int, wrapped': nat)
    requires WrappedTo(sum, wrapped)
    requires sum' == sum + term && wrapped' == AddWrapped(wrapped, term)
    ensures WrappedTo(sum', wrapped')
  {
  }
}
