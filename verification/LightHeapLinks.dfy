// The two linked structures of the light heap: how header fields encode a layout, and what each
// relinking of the source does to the layout encoded.

module LightHeapLinks {
  import opened ByteMemory
  import opened LightHeapSpec

  /** The header fields of blockHeader_t, each as a function of the header's address. */
  type Field = nat -> nat

  datatype Fields = Fields(used: Field, next: Field, nextFree: Field, prevFree: Field)

  datatype FieldName = Used | NextLink | NextFree | PrevFree

  /** Where in a header the field lies: a 16 bit mark, 16 bits of padding, and three pointers. */
  function Offset(f: FieldName): nat
  {
    match f
    case Used => 0
    case NextLink => 4
    case NextFree => 8
    case PrevFree => 12
  }

  predicate InMemory(m: seq<Byte>, base: nat, a: nat)
  {
    base <= a && a - base + HDR <= |m|
  }

  function UsedIn(m: seq<Byte>, base: nat, a: nat): nat
    requires InMemory(m, base, a)
  {
    Get16(m, a - base)
  }

  function NextIn(m: seq<Byte>, base: nat, a: nat): nat
    requires InMemory(m, base, a)
  {
    Get32(m, a - base + 4)
  }

  function NextFreeIn(m: seq<Byte>, base: nat, a: nat): nat
    requires InMemory(m, base, a)
  {
    Get32(m, a - base + 8)
  }

  function PrevFreeIn(m: seq<Byte>, base: nat, a: nat): nat
    requires InMemory(m, base, a)
  {
    Get32(m, a - base + 12)
  }

  // ---------- Memory and fields ----------

  ghost predicate Room(m: seq<Byte>, base: nat, s: set<nat>)
  {
    Spaced(s) && forall a :: a in s ==> InMemory(m, base, a)
  }

  /** The headers at the addresses `s` lie in memory and have the fields `F`. */
  ghost predicate Holds(m: seq<Byte>, base: nat, s: set<nat>, F: Fields)
  {
    && Room(m, base, s)
    && (forall a {:trigger UsedIn(m, base, a)} :: a in s ==> UsedIn(m, base, a) == F.used(a))
    && (forall a {:trigger NextIn(m, base, a)} :: a in s ==> NextIn(m, base, a) == F.next(a))
    && (forall a {:trigger NextFreeIn(m, base, a)} :: a in s ==> NextFreeIn(m, base, a) == F.nextFree(a))
    && (forall a {:trigger PrevFreeIn(m, base, a)} :: a in s ==> PrevFreeIn(m, base, a) == F.prevFree(a))
  }

  function With(f: Field, a: nat, v: nat): Field
  {
    (x: nat) => if x == a then v else f(x)
  }

  function Put(F: Fields, a: nat, f: FieldName, v: nat): Fields
  {
    match f
    case Used => F.(used := With(F.used, a, v))
    case NextLink => F.(next := With(F.next, a, v))
    case NextFree => F.(nextFree := With(F.nextFree, a, v))
    case PrevFree => F.(prevFree := With(F.prevFree, a, v))
  }

  function WithHeader(F: Fields, t: nat, used: nat, next: nat, nextFree: nat, prevFree: nat): Fields
  {
    Put(Put(Put(Put(F, t, Used, used), t, NextLink, next), t, NextFree, nextFree), t, PrevFree, prevFree)
  }

  /** Whatever is in memory where a header is about to be written can be read as its fields. */
  lemma AdoptHeader(m: seq<Byte>, base: nat, s: set<nat>, F: Fields, a: nat)
    requires Room(m, base, s) && Holds(m, base, s - {a}, F) && a in s
    ensures Holds(m, base, s, WithHeader(F, a, UsedIn(m, base, a), NextIn(m, base, a),
                                         NextFreeIn(m, base, a), PrevFreeIn(m, base, a)))
  {
  }

  lemma RewrittenHeader(m: seq<Byte>, base: nat, s: set<nat>, F: Fields, F0: Fields, a: nat,
                        used: nat, next: nat, nextFree: nat, prevFree: nat)
    requires Holds(m, base, s, WithHeader(F0, a, used, next, nextFree, prevFree)) && a in s
    requires forall x :: x in s && x != a ==> F0.used(x) == F.used(x)
    requires forall x :: x in s && x != a ==> F0.next(x) == F.next(x)
    requires forall x :: x in s && x != a ==> F0.nextFree(x) == F.nextFree(x)
    requires forall x :: x in s && x != a ==> F0.prevFree(x) == F.prevFree(x)
    ensures Holds(m, base, s, WithHeader(F, a, used, next, nextFree, prevFree))
  {
  }

  lemma OtherHeaderKept(m: seq<Byte>, m': seq<Byte>, base: nat, a: nat, x: nat)
    requires InMemory(m, base, a) && InMemory(m, base, x) && (x + HDR <= a || a + HDR <= x)
    requires SameOutside(m, m', a - base, HDR)
    ensures UsedIn(m', base, x) == UsedIn(m, base, x) && NextIn(m', base, x) == NextIn(m, base, x)
    ensures NextFreeIn(m', base, x) == NextFreeIn(m, base, x) && PrevFreeIn(m', base, x) == PrevFreeIn(m, base, x)
  {
  }

  lemma WordStored(m: seq<Byte>, m': seq<Byte>, base: nat, a: nat, f: FieldName, v: nat)
    requires InMemory(m, base, a) && !f.Used?
    requires SameOutside(m, m', a - base + Offset(f), 4) && Get32(m', a - base + Offset(f)) == v
    ensures UsedIn(m', base, a) == UsedIn(m, base, a)
    ensures NextIn(m', base, a) == if f.NextLink? then v else NextIn(m, base, a)
    ensures NextFreeIn(m', base, a) == if f.NextFree? then v else NextFreeIn(m, base, a)
    ensures PrevFreeIn(m', base, a) == if f.PrevFree? then v else PrevFreeIn(m, base, a)
  {
  }

  lemma MarkStored(m: seq<Byte>, m': seq<Byte>, base: nat, a: nat, v: nat)
    requires InMemory(m, base, a)
    requires SameOutside(m, m', a - base, 2) && Get16(m', a - base) == v
    ensures UsedIn(m', base, a) == v && NextIn(m', base, a) == NextIn(m, base, a)
    ensures NextFreeIn(m', base, a) == NextFreeIn(m, base, a) && PrevFreeIn(m', base, a) == PrevFreeIn(m, base, a)
  {
  }

  lemma WordStoreHolds(m: seq<Byte>, m': seq<Byte>, base: nat, s: set<nat>, F: Fields, a: nat, f: FieldName, v: nat)
    requires Holds(m, base, s, F) && a in s && !f.Used?
    requires SameOutside(m, m', a - base + Offset(f), 4) && Get32(m', a - base + Offset(f)) == v
    ensures Holds(m', base, s, Put(F, a, f, v))
  {
    forall x | x in s && x != a {
      OtherHeaderKept(m, m', base, a, x);
    }
    WordStored(m, m', base, a, f, v);
  }

  lemma MarkStoreHolds(m: seq<Byte>, m': seq<Byte>, base: nat, s: set<nat>, F: Fields, a: nat, v: nat)
    requires Holds(m, base, s, F) && a in s
    requires SameOutside(m, m', a - base, 2) && Get16(m', a - base) == v
    ensures Holds(m', base, s, Put(F, a, Used, v))
  {
    forall x | x in s && x != a {
      OtherHeaderKept(m, m', base, a, x);
    }
    MarkStored(m, m', base, a, v);
  }

  // The fields encode a layout: `next` links the chain; the free list, in address order and doubly
  // linked, holds exactly the free blocks.  The free-list fields of a live block are stale.

  ghost predicate ChainLinked(next: Field, chain: set<nat>)
  {
    forall a {:trigger next(a)} :: a in chain ==> IsNext(chain, a, next(a))
  }

  ghost predicate Marked(used: Field, chain: set<nat>, free: set<nat>)
  {
    forall a {:trigger used(a)} :: a in chain ==> used(a) == if a in free then BLOCK_FREE else BLOCK_USED
  }

  ghost predicate FreeLinked(nextFree: Field, prevFree: Field, free: set<nat>)
  {
    && 0 !in free
    && (forall a {:trigger nextFree(a)} :: a in free ==> IsNext(free, a, nextFree(a)))
    && (forall a {:trigger prevFree(a)} :: a in free ==> IsPrev(free, a, prevFree(a)))
  }

  ghost predicate IsHead(free: set<nat>, head: nat)
  {
    head in free && IsPrev(free, head, 0)
  }

  ghost predicate Linked(F: Fields, L: Layout, head: nat)
  {
    && ChainLinked(F.next, L.chain)
    && Marked(F.used, L.chain, L.free)
    && FreeLinked(F.nextFree, F.prevFree, L.free)
    && IsHead(L.free, head)
  }

  /** The memory holds a well-formed heap of this layout, with these list ends. */
  ghost predicate Represents(m: seq<Byte>, base: nat, F: Fields, L: Layout, head: nat, tail: nat)
  {
    WellFormed(L, base, base + |m|) && tail == L.tail && Holds(m, base, L.chain, F) && Linked(F, L, head)
  }

  lemma InitResult(m: seq<Byte>, base: nat, F: Fields)
    requires 0 < base && base % 4 == 0 && HDR <= |m|
    requires Holds(m, base, {base}, WithHeader(F, base, BLOCK_FREE, 0, 0, 0))
    ensures Represents(m, base, WithHeader(F, base, BLOCK_FREE, 0, 0, 0), InitialLayout(base), base, base)
  {
  }

  /** What the search reads of a free block: its mark and the next free block. */
  lemma FreeBlockRead(m: seq<Byte>, base: nat, F: Fields, L: Layout, head: nat, a: nat)
    requires Represents(m, base, F, L, head, L.tail) && a in L.free
    ensures InMemory(m, base, a) && UsedIn(m, base, a) == BLOCK_FREE
    ensures NextIn(m, base, a) == 0 <==> a == L.tail
    ensures a != L.tail ==> NextFreeIn(m, base, a) != 0
    ensures IsNext(L.chain, a, NextIn(m, base, a)) && IsNext(L.free, a, NextFreeIn(m, base, a))
  {
  }

  /** What the search reads at a free block before it goes on to the next one. */
  lemma SearchRead(m: seq<Byte>, base: nat, F: Fields, L: Layout, head: nat, a: nat)
    requires Represents(m, base, F, L, head, L.tail) && a in L.free
    ensures InMemory(m, base, a) && UsedIn(m, base, a) == BLOCK_FREE && (NextIn(m, base, a) == 0 <==> a == L.tail)
    ensures a != L.tail ==>
              && IsNext(L.chain, a, NextIn(m, base, a)) && a < L.tail
              && NextFreeIn(m, base, a) in L.free && a < NextFreeIn(m, base, a)
              && IsNext(L.free, a, NextFreeIn(m, base, a)) && InMemory(m, base, NextFreeIn(m, base, a))
              && NextFreeIn(m, base, a) != NextFreeIn(m, base, NextFreeIn(m, base, a))
  {
    FreeBlockRead(m, base, F, L, head, a);
    if a != L.tail {
      FreeBlockRead(m, base, F, L, head, NextFreeIn(m, base, a));
    }
  }

  /** One term of the free-size sum. */
  lemma FreeTerm(m: seq<Byte>, base: nat, limit: nat, F: Fields, L: Layout, head: nat, a: nat)
    requires Represents(m, base, F, L, head, L.tail) && limit == base + |m| && a in L.free && a != L.tail
    ensures InMemory(m, base, a) && NextFreeIn(m, base, a) in L.free && a < NextFreeIn(m, base, a)
    ensures FreeFrom(L, base, limit, a)
            == NextIn(m, base, a) - a - HDR + FreeFrom(L, base, limit, NextFreeIn(m, base, a))
  {
    FreeBlockRead(m, base, F, L, head, a);
    NextUnique(L.chain, a, NextIn(m, base, a));
    NextUnique(L.free, a, NextFreeIn(m, base, a));
  }

  lemma LiveBlockRead(m: seq<Byte>, base: nat, F: Fields, L: Layout, head: nat, a: nat)
    requires Represents(m, base, F, L, head, L.tail) && Live(L, a)
    ensures InMemory(m, base, a) && UsedIn(m, base, a) == BLOCK_USED && a < L.tail
    ensures NextIn(m, base, a) != 0 && NextIn(m, base, a) == a + HDR + Capacity(L, a) && Capacity(L, a) >= 0
  {
  }

  /** The two size tests of the search; capacities are multiples of 4, so the shift picks the close fits. */
  lemma SizeTests(L: Layout, base: nat, limit: nat, a: nat, next: nat, n: nat)
    requires WellFormed(L, base, limit) && a in L.free && a != L.tail && IsNext(L.chain, a, next)
    ensures next - a - HDR >= 0
    ensures next - a - HDR >= n <==> Fits(L, a, n)
    ensures next - a - HDR >= n ==>
              (next - a - HDR - n < (next - a - HDR) / 2 <==> FitsClosely(L, a, n))
  {
    NextUnique(L.chain, a, next);
    if next - a - HDR >= n {
      assert Aligned(a) && Aligned(next);
      ShiftTest(next, a, n, next - a - HDR);
    }
  }

  // ---------- Taking a free block other than the last out of the free list ----------

  lemma TakeKeepsFreeLinks(nf: Field, pf: Field, nf': Field, pf': Field, free: set<nat>, a: nat)
    requires FreeLinked(nf, pf, free) && a in free
    requires forall x :: x in free && x != a ==> nf'(x) == if x == pf(a) then nf(a) else nf(x)
    requires forall x :: x in free && x != a ==> pf'(x) == if x == nf(a) then pf(a) else pf(x)
    ensures FreeLinked(nf', pf', free - {a})
  {
    forall x | x in free - {a}
      ensures IsNext(free - {a}, x, nf'(x))
      ensures IsPrev(free - {a}, x, pf'(x))
    {
      NextAfterRemove(free, a, nf(a), x, nf(x));
      PrevAfterRemove(free, a, pf(a), x, pf(x));
      NextPrevInverse(free, x, nf(x), a, pf(a));
      NextPrevInverse(free, a, nf(a), x, pf(x));
    }
  }

  lemma TakeKeepsHead(nf: Field, pf: Field, free: set<nat>, head: nat, a: nat)
    requires FreeLinked(nf, pf, free) && a in free && IsHead(free, head) && nf(a) != 0
    ensures nf(a) in free
    ensures a == head <==> pf(a) == 0
    ensures a != head ==> pf(a) in free && nf(head) <= a
    ensures IsHead(free - {a}, if a == head then nf(a) else head)
  {
  }

  /** The stores that take block `a`. */
  function TakenFields(F: Fields, head: nat, a: nat): Fields
  {
    var next, prev := F.nextFree(a), F.prevFree(a);
    var marked := Put(F, a, Used, BLOCK_USED);
    if head == a then Put(marked, next, PrevFree, 0)
    else Put(Put(marked, next, PrevFree, prev), prev, NextFree, next)
  }

  lemma TakeKeepsLinks(F: Fields, L: Layout, head: nat, a: nat)
    requires Linked(F, L, head) && L.free <= L.chain && a in L.free && F.nextFree(a) != 0
    ensures Linked(TakenFields(F, head, a), L.(free := L.free - {a}), if a == head then F.nextFree(a) else head)
  {
    var F' := TakenFields(F, head, a);
    TakeKeepsHead(F.nextFree, F.prevFree, L.free, head, a);
    TakeKeepsFreeLinks(F.nextFree, F.prevFree, F'.nextFree, F'.prevFree, L.free, a);
  }

  lemma TakeResult(m: seq<Byte>, m': seq<Byte>, base: nat, F: Fields, L: Layout, head: nat, a: nat)
    requires Represents(m, base, F, L, head, L.tail) && a in L.free && a != L.tail
    requires |m'| == |m| && Holds(m', base, L.chain, TakenFields(F, head, a))
    ensures Represents(m', base, TakenFields(F, head, a), L.(free := L.free - {a}),
                       if a == head then F.nextFree(a) else head, L.tail)
  {
    assert IsNext(L.free, a, F.nextFree(a));
    TakeKeepsLinks(F, L, head, a);
  }

  // ---------- Carving a block from the tail ----------

  lemma CarveKeepsFreeLinks(nf: Field, pf: Field, nf': Field, pf': Field, free: set<nat>, a: nat, t: nat)
    requires FreeLinked(nf, pf, free) && a in free && nf(a) == 0 && a < t
    requires forall x :: x in free && x != a ==> nf'(x) == if x == pf(a) then t else nf(x)
    requires forall x :: x in free && x != a ==> pf'(x) == pf(x)
    requires nf'(t) == 0 && pf'(t) == pf(a)
    ensures FreeLinked(nf', pf', free - {a} + {t})
  {
    var kept := free - {a};
    assert IsNext(free, a, nf(a)) && IsPrev(free, a, pf(a));
    forall x | x in kept
      ensures IsNext(kept + {t}, x, nf'(x))
    {
      NextAfterRemove(free, a, 0, x, nf(x));
      NextPrevInverse(free, x, nf(x), a, pf(a));
      NextAfterInsert(kept, t, x, if nf(x) == a then 0 else nf(x));
    }
    forall x | x in kept
      ensures IsPrev(kept + {t}, x, pf'(x))
    {
      PrevAfterRemove(free, a, pf(a), x, pf(x));
      PrevAfterInsert(kept, t, x, pf(x));
    }
  }

  lemma CarveKeepsChain(next: Field, next': Field, chain: set<nat>, a: nat, t: nat)
    requires ChainLinked(next, chain) && a in chain && next(a) == 0
    requires a < t && 0 !in chain
    requires next'(a) == t && next'(t) == 0
    requires forall x :: x in chain && x != a ==> next'(x) == next(x)
    ensures ChainLinked(next', chain + {t})
  {
  }

  lemma CarveKeepsHead(nf: Field, pf: Field, free: set<nat>, head: nat, a: nat, t: nat)
    requires FreeLinked(nf, pf, free) && a in free && IsHead(free, head) && a < t
    ensures a == head <==> pf(a) == 0
    ensures a != head ==> pf(a) in free
    ensures nf(a) == 0 ==> IsHead(free - {a} + {t}, if a == head then t else head)
  {
  }

  lemma CarveKeepsWellFormed(L: Layout, base: nat, limit: nat, n: nat)
    requires WellFormed(L, base, limit)
    requires NewTail(L.tail, n) + HDR <= limit
    ensures WellFormed(AllocLayout(L, n, L.tail), base, limit)
  {
  }

  /** The stores that carve block `a` and put a new tail at `t`. */
  function CarvedFields(F: Fields, head: nat, a: nat, t: nat): Fields
  {
    var prev := F.prevFree(a);
    var carved := Put(Put(Put(F, a, Used, BLOCK_USED), a, NextLink, t), a, NextFree, t);
    var ended := WithHeader(carved, t, BLOCK_FREE, 0, 0, prev);
    if head == a then ended else Put(ended, prev, NextFree, t)
  }

  lemma CarvedPointwise(F: Fields, s: set<nat>, head: nat, a: nat, t: nat)
    requires 0 !in s && a in s && t !in s && (a == head <==> F.prevFree(a) == 0)
    requires F.prevFree(a) != a && F.prevFree(a) != t && t != 0
    ensures var F' := CarvedFields(F, head, a, t);
            && (forall x {:trigger F'.used(x)} :: x in s ==> F'.used(x) == if x == a then BLOCK_USED else F.used(x))
            && (forall x {:trigger F'.next(x)} :: x in s ==> F'.next(x) == if x == a then t else F.next(x))
            && (forall x {:trigger F'.nextFree(x)} :: x in s && x != a ==>
                  F'.nextFree(x) == if x == F.prevFree(a) then t else F.nextFree(x))
            && (forall x {:trigger F'.prevFree(x)} :: x in s && x != a ==> F'.prevFree(x) == F.prevFree(x))
            && F'.used(t) == BLOCK_FREE && F'.next(t) == 0 && F'.nextFree(t) == 0 && F'.prevFree(t) == F.prevFree(a)
  {
  }

  lemma CarveKeepsLinks(F: Fields, L: Layout, head: nat, n: nat)
    requires Linked(F, L, head) && L.free <= L.chain && L.tail in L.free
    requires F.nextFree(L.tail) == 0 && F.next(L.tail) == 0 && 0 !in L.chain && NewTail(L.tail, n) !in L.chain
    ensures var t := NewTail(L.tail, n);
            Linked(CarvedFields(F, head, L.tail, t), AllocLayout(L, n, L.tail), if L.tail == head then t else head)
  {
    var a, t := L.tail, NewTail(L.tail, n);
    var F' := CarvedFields(F, head, a, t);
    CarvedPointwise(F, L.chain, head, a, t);
    CarveKeepsChain(F.next, F'.next, L.chain, a, t);
    CarveKeepsHead(F.nextFree, F.prevFree, L.free, head, a, t);
    CarveKeepsFreeLinks(F.nextFree, F.prevFree, F'.nextFree, F'.prevFree, L.free, a, t);
  }

  lemma CarveResult(m: seq<Byte>, m': seq<Byte>, base: nat, F: Fields, L: Layout, head: nat, n: nat)
    requires Represents(m, base, F, L, head, L.tail)
    requires NewTail(L.tail, n) + HDR <= base + |m| && |m'| == |m|
    requires var t := NewTail(L.tail, n);
             Holds(m', base, L.chain + {t}, CarvedFields(F, head, L.tail, t))
    ensures var t := NewTail(L.tail, n);
            Represents(m', base, CarvedFields(F, head, L.tail, t), AllocLayout(L, n, L.tail),
                       if L.tail == head then t else head, t)
  {
    assert IsNext(L.chain, L.tail, F.next(L.tail)) && IsNext(L.free, L.tail, F.nextFree(L.tail));
    CarveKeepsWellFormed(L, base, base + |m|, n);
    CarveKeepsLinks(F, L, head, n);
  }

  // ---------- Inserting a live block into the free list ----------

  lemma InsertKeepsFreeLinks(nf: Field, pf: Field, nf': Field, pf': Field, free: set<nat>, a: nat)
    requires FreeLinked(nf, pf, free) && a !in free && 0 < a
    requires IsPrev(free, a, pf'(a)) && IsNext(free, a, nf'(a))
    requires forall x :: x in free ==> nf'(x) == if x == pf'(a) then a else nf(x)
    requires forall x :: x in free ==> pf'(x) == if x == nf'(a) then a else pf(x)
    ensures FreeLinked(nf', pf', free + {a})
  {
    forall x | x in free
      ensures IsNext(free + {a}, x, nf'(x))
    {
      NextAfterInsert(free, a, x, nf(x));
    }
    forall x | x in free
      ensures IsPrev(free + {a}, x, pf'(x))
    {
      PrevAfterInsert(free, a, x, pf(x));
    }
  }

  /** The stores that put block `a` into the free list, behind `prev` unless it becomes the head. */
  function InsertedFields(F: Fields, head: nat, a: nat, prev: nat): Fields
  {
    if a < head then
      Put(Put(Put(Put(F, a, NextFree, head), a, PrevFree, 0), head, PrevFree, a), a, Used, BLOCK_FREE)
    else
      var next := F.nextFree(prev);
      Put(Put(Put(Put(Put(F, a, NextFree, next), a, PrevFree, prev), next, PrevFree, a), prev, NextFree, a),
          a, Used, BLOCK_FREE)
  }

  lemma InsertedPointwise(F: Fields, s: set<nat>, head: nat, a: nat, prev: nat)
    requires a !in s && (if a < head then head in s else prev in s && F.nextFree(prev) in s)
    ensures var F' := InsertedFields(F, head, a, prev);
            var p, q := if a < head then 0 else prev, if a < head then head else F.nextFree(prev);
            && F'.next == F.next
            && (forall x {:trigger F'.used(x)} :: F'.used(x) == if x == a then BLOCK_FREE else F.used(x))
            && F'.nextFree(a) == q && F'.prevFree(a) == p
            && (forall x {:trigger F'.nextFree(x)} :: x in s ==>
                  F'.nextFree(x) == if x == p && head <= a then a else F.nextFree(x))
            && (forall x {:trigger F'.prevFree(x)} :: x in s ==> F'.prevFree(x) == if x == q then a else F.prevFree(x))
  {
  }

  lemma InsertKeepsLinks(F: Fields, L: Layout, head: nat, a: nat, prev: nat)
    requires Linked(F, L, head) && L.free <= L.chain && 0 !in L.chain && Live(L, a)
    requires head <= a ==> prev in L.free && prev < a < F.nextFree(prev)
    ensures Linked(InsertedFields(F, head, a, prev), L.(free := L.free + {a}), if a < head then a else head)
  {
    var F' := InsertedFields(F, head, a, prev);
    var p, q := if a < head then 0 else prev, if a < head then head else F.nextFree(prev);
    assert IsPrev(L.free, a, p) && IsNext(L.free, a, q) by {
      if head <= a { assert IsNext(L.free, prev, q); }
    }
    InsertedPointwise(F, L.free, head, a, prev);
    assert Marked(F'.used, L.chain, L.free + {a});
    InsertKeepsFreeLinks(F.nextFree, F.prevFree, F'.nextFree, F'.prevFree, L.free, a);
  }

  lemma InsertResult(m: seq<Byte>, m': seq<Byte>, base: nat, F: Fields, L: Layout, head: nat, a: nat, prev: nat)
    requires Represents(m, base, F, L, head, L.tail) && Live(L, a)
    requires head <= a ==> prev in L.free && prev < a < F.nextFree(prev)
    requires |m'| == |m| && Holds(m', base, L.chain, InsertedFields(F, head, a, prev))
    ensures Represents(m', base, InsertedFields(F, head, a, prev), L.(free := L.free + {a}),
                       if a < head then a else head, L.tail)
  {
    InsertKeepsLinks(F, L, head, a, prev);
  }

  // ---------- Cutting everything above a free block ----------

  function CutFields(F: Fields, a: nat): Fields
  {
    Put(Put(F, a, NextLink, 0), a, NextFree, 0)
  }

  lemma CutResult(m: seq<Byte>, m': seq<Byte>, base: nat, F: Fields, L: Layout, head: nat, a: nat)
    requires Represents(m, base, F, L, head, L.tail) && a in L.free
    requires |m'| == |m| && Holds(m', base, L.chain, CutFields(F, a))
    ensures Represents(m', base, CutFields(F, a), Layout(UpTo(L.chain, a), UpTo(L.free, a), a), head, a)
  {
  }

  // ---------- What relinking leaves alone ----------

  ghost predicate OffHeaders(s: set<nat>, p: int)
  {
    forall h :: h in s ==> !(h <= p < h + HDR)
  }

  /** Only bytes inside the headers at `s` may differ. */
  ghost predicate HeadersOnly(m: seq<Byte>, m': seq<Byte>, base: nat, s: set<nat>)
  {
    |m'| == |m|
    && forall p {:trigger OffHeaders(s, p)} ::
         base <= p < base + |m| && OffHeaders(s, p) ==> m'[p - base] == m[p - base]
  }

  lemma HeadersOnlyTransitive(m0: seq<Byte>, m1: seq<Byte>, m2: seq<Byte>, base: nat, s: set<nat>, s': set<nat>)
    requires HeadersOnly(m0, m1, base, s) && HeadersOnly(m1, m2, base, s') && s <= s'
    ensures HeadersOnly(m0, m2, base, s')
  {
    forall p | OffHeaders(s', p)
      ensures OffHeaders(s, p)
    {
    }
  }

  lemma StoreHeadersOnly(m: seq<Byte>, m': seq<Byte>, base: nat, s: set<nat>, a: nat)
    requires SameOutside(m, m', a - base, HDR) && a in s
    ensures HeadersOnly(m, m', base, s)
  {
  }

  /** Only bytes inside the headers at `s`, and `n` bytes from `buffer` on, may differ. */
  ghost predicate BlockOnly(m: seq<Byte>, m': seq<Byte>, base: nat, s: set<nat>, buffer: nat, n: nat)
  {
    |m'| == |m|
    && forall p {:trigger OffHeaders(s, p)} ::
         base <= p < base + |m| && OffHeaders(s, p) && !(buffer <= p < buffer + n) ==> m'[p - base] == m[p - base]
  }

  lemma HeadersThenBlock(m0: seq<Byte>, m1: seq<Byte>, m2: seq<Byte>, base: nat, s: set<nat>, s': set<nat>,
                         buffer: nat, n: nat)
    requires HeadersOnly(m0, m1, base, s) && BlockOnly(m1, m2, base, s', buffer, n) && s <= s'
    ensures BlockOnly(m0, m2, base, s', buffer, n)
  {
    forall p | OffHeaders(s', p)
      ensures OffHeaders(s, p)
    {
    }
  }

  lemma PayloadIsBlock(m: seq<Byte>, m': seq<Byte>, base: nat, s: set<nat>, buffer: nat, n: nat)
    requires SameOutside(m, m', buffer - base, n)
    ensures BlockOnly(m, m', base, s, buffer, n)
  {
  }

  /** No byte of a live payload differs. */
  ghost predicate Untouched(m: seq<Byte>, m': seq<Byte>, base: nat, L: Layout)
  {
    |m'| == |m|
    && forall a: nat, p: nat {:trigger InPayload(L, a, p)} ::
         InPayload(L, a, p) && base <= p < base + |m| ==> m'[p - base] == m[p - base]
  }

  /** Live payloads are clear of every header, present or carved behind the tail. */
  lemma PayloadOffHeaders(L: Layout, s: set<nat>, a: nat, p: nat)
    requires Spaced(L.chain) && L.tail in L.free && L.free <= L.chain && (forall h :: h in L.chain ==> h <= L.tail)
    requires forall h :: h in s ==> h in L.chain || L.tail <= h
    requires InPayload(L, a, p)
    ensures OffHeaders(s, p)
  {
  }

  lemma HeadersOnlyUntouched(m: seq<Byte>, m': seq<Byte>, base: nat, L: Layout, limit: nat, s: set<nat>)
    requires WellFormed(L, base, limit) && HeadersOnly(m, m', base, s)
    requires forall h :: h in s ==> h in L.chain || L.tail <= h
    ensures Untouched(m, m', base, L)
  {
    forall a: nat, p: nat | InPayload(L, a, p) && base <= p < base + |m|
      ensures m'[p - base] == m[p - base]
    {
      PayloadOffHeaders(L, s, a, p);
    }
  }

  // ---------- Payloads ----------

  lemma PayloadsDisjoint(L: Layout, a: nat, b: nat, p: nat)
    requires InPayload(L, a, p) && InPayload(L, b, p)
    ensures a == b
  {
  }

  ghost predicate Zeroed(m: seq<Byte>, lo: int, n: nat)
  {
    0 <= lo && lo + n <= |m| && forall k :: lo <= k < lo + n ==> m[k] == 0
  }

  /** Writing inside a live payload keeps the heap. */
  lemma PayloadWriteHarmless(m: seq<Byte>, m': seq<Byte>, base: nat, F: Fields, L: Layout, head: nat, tail: nat,
                             a: nat, n: nat)
    requires Represents(m, base, F, L, head, tail) && PayloadRoom(L, a, n)
    requires SameOutside(m, m', a + HDR - base, n)
    ensures Represents(m', base, F, L, head, tail)
  {
    forall x | x in L.chain
      ensures UsedIn(m', base, x) == UsedIn(m, base, x) && NextIn(m', base, x) == NextIn(m, base, x)
      ensures NextFreeIn(m', base, x) == NextFreeIn(m, base, x) && PrevFreeIn(m', base, x) == PrevFreeIn(m, base, x)
    {
    }
  }

  /** The payload of a block just allocated is no part of a payload that was live before. */
  lemma NewPayloadApart(m: seq<Byte>, m': seq<Byte>, base: nat, L: Layout, L': Layout, a: nat, n: nat)
    requires PayloadRoom(L', a, n) && a in L.free && L.free <= L.chain <= L'.chain
    requires SameOutside(m, m', a + HDR - base, n) && base <= a
    ensures Untouched(m, m', base, L)
  {
  }

  // ---------- What an operation promises ----------

  /** The block whose payload a pointer is; 0 for the null pointer. */
  function BlockOf(buffer: nat): nat
  {
    if buffer < HDR then 0 else buffer - HDR
  }

  /** A client's pointer is null or the payload of a live block. */
  ghost predicate Owned(L: Layout, buffer: nat)
  {
    buffer == 0 || Live(L, BlockOf(buffer))
  }

  /** A new live block of at least `n` bytes, cleared, made from what was free; live payloads are as before. */
  ghost predicate NewBlock(m: seq<Byte>, m': seq<Byte>, base: nat, L: Layout, L': Layout, n: nat, buffer: nat)
  {
    && HDR < buffer && BlockOf(buffer) in L.free
    && L' == AllocLayout(L, n, BlockOf(buffer))
    && Untouched(m, m', base, L)
    && PayloadRoom(L', BlockOf(buffer), n)
    && Zeroed(m', buffer - base, n)
  }

  ghost predicate Allocated(m: seq<Byte>, m': seq<Byte>, base: nat, end: nat, L: Layout, L': Layout, n: nat,
                            buffer: nat)
  {
    && Chosen(L, end, n, BlockOf(buffer))
    && if buffer == 0 then L' == L && Untouched(m, m', base, L) else NewBlock(m, m', base, L, L', n, buffer)
  }

  ghost predicate Freed(m: seq<Byte>, m': seq<Byte>, base: nat, L: Layout, L': Layout, a: nat)
  {
    L' == FreeLayout(L, a) && Untouched(m, m', base, L)
  }

  /** The three ways a reallocation to a positive size can end: in place, without memory, or moved. */
  ghost predicate Reallocated(m: seq<Byte>, m': seq<Byte>, base: nat, end: nat, L: Layout, L': Layout,
                              buffer: nat, newSize: nat, result: nat)
    requires Live(L, BlockOf(buffer)) && Capacity(L, BlockOf(buffer)) >= 0
  {
    var blockSize := Capacity(L, BlockOf(buffer)) % MODULUS16;
    if newSize <= blockSize then
      result == buffer && L' == L && m' == m
    else
      && Chosen(L, end, newSize, BlockOf(result))
      && if result == 0 then L' == L && m' == m
         else Moved(m, m', base, L, L', buffer, newSize, result, blockSize)
  }

  /** The first `blockSize` bytes are in the new block, zeros follow, and the old block is released. */
  ghost predicate Moved(m: seq<Byte>, m': seq<Byte>, base: nat, L: Layout, L': Layout,
                        buffer: nat, newSize: nat, result: nat, blockSize: nat)
  {
    && HDR < result && BlockOf(result) in L.free && blockSize < newSize
    && L' == FreeLayout(AllocLayout(L, newSize, BlockOf(result)), BlockOf(buffer))
    && Untouched(m, m', base, L)
    && PayloadRoom(L', BlockOf(result), newSize)
    && Copied(m, m', buffer - base, result - base, blockSize)
    && Zeroed(m', result - base + blockSize, newSize - blockSize)
  }

  ghost predicate Copied(m: seq<Byte>, m': seq<Byte>, from: int, to: int, n: nat)
  {
    && 0 <= from && from + n <= |m| && 0 <= to && to + n <= |m'|
    && forall k {:trigger m'[k]} :: to <= k < to + n ==> m'[k] == m[k - to + from]
  }

  // ---------- Putting the steps of an operation together ----------

  lemma UntouchedTransitive(m0: seq<Byte>, m1: seq<Byte>, m2: seq<Byte>, base: nat, L: Layout)
    requires Untouched(m0, m1, base, L) && Untouched(m1, m2, base, L)
    ensures Untouched(m0, m2, base, L)
  {
  }

  /** An insertion into the free list followed by the cleanup pass is what a free operation is. */
  lemma FreeComplete(m: seq<Byte>, m': seq<Byte>, base: nat, limit: nat, L: Layout, a: nat)
    requires WellFormed(L, base, limit) && HeadersOnly(m, m', base, L.chain)
    ensures Freed(m, m', base, L, FreeLayout(L, a), a)
  {
    HeadersOnlyUntouched(m, m', base, L, limit, L.chain);
  }

  /** Relinking and then clearing together make a new block. */
  lemma ClearedAllocation(m: seq<Byte>, m1: seq<Byte>, m2: seq<Byte>, base: nat, limit: nat,
                          end: nat, L: Layout, L': Layout, n: nat, a: nat)
    requires WellFormed(L, base, limit) && L' == AllocLayout(L, n, a) && Chosen(L, end, n, a) && a != 0
    requires Untouched(m, m1, base, L)
    requires PayloadRoom(L', a, n) && SameOutside(m1, m2, a + HDR - base, n) && Zeroed(m2, a + HDR - base, n)
    ensures NewBlock(m, m2, base, L, L', n, a + HDR)
  {
  }

  /** The end of an allocation: nothing placed and nothing changed, or the block placed cleared. */
  lemma AllocationDone(m0: seq<Byte>, m1: seq<Byte>, m2: seq<Byte>, base: nat, limit: nat, end: nat,
                       L: Layout, L': Layout, n: nat, found: nat, buffer: nat)
    requires WellFormed(L, base, limit) && Chosen(L, end, n, found) && L' == AllocLayout(L, n, found)
    requires Untouched(m0, m1, base, L) && HeadersOnly(m0, m1, base, L'.chain)
    requires buffer == if found == 0 then 0 else found + HDR
    requires if found == 0 then m1 == m0 && m2 == m1
             else PayloadRoom(L', found, n) && SameOutside(m1, m2, buffer - base, n) && Zeroed(m2, buffer - base, n)
    ensures Allocated(m0, m2, base, end, L, L', n, buffer)
    ensures BlockOnly(m0, m2, base, L'.chain, buffer, if buffer == 0 then 0 else n)
  {
    if found != 0 {
      PayloadIsBlock(m1, m2, base, L'.chain, buffer, n);
      HeadersThenBlock(m0, m1, m2, base, L'.chain, L'.chain, buffer, n);
      ClearedAllocation(m0, m1, m2, base, limit, end, L, L', n, found);
    }
  }

  lemma AllocationAfterInit(m: seq<Byte>, m1: seq<Byte>, m2: seq<Byte>, base: nat, end: nat,
                            L: Layout, L': Layout, n: nat, buffer: nat)
    requires Untouched(m, m1, base, L) && Allocated(m1, m2, base, end, L, L', n, buffer)
    ensures Allocated(m, m2, base, end, L, L', n, buffer)
  {
  }

  /** The bytes of a live payload that lie below the next header. */
  lemma RoomInPayload(L: Layout, a: nat, n: nat, p: nat)
    requires PayloadRoom(L, a, n) && a + HDR <= p < a + HDR + n
    ensures InPayload(L, a, p)
  {
  }

  /** A block keeps its payload when another one is freed, even if that cuts the chain. */
  lemma FreeKeepsOthers(L: Layout, a: nat, b: nat, n: nat)
    requires PayloadRoom(L, b, n) && Live(L, a) && a != b
    ensures PayloadRoom(FreeLayout(L, a), b, n)
  {
    assert Live(L.(free := L.free + {a}), b);
  }

  lemma AllocKeepsOthers(L: Layout, base: nat, limit: nat, n: nat, r: nat, b: nat, size: nat)
    requires WellFormed(L, base, limit) && PayloadRoom(L, b, size)
    requires r == 0 || r in L.free
    ensures PayloadRoom(AllocLayout(L, n, r), b, size) && b != r
    ensures forall p :: InPayload(L, b, p) ==> InPayload(AllocLayout(L, n, r), b, p)
  {
  }

  /** Allocating, copying and freeing, seen from the new block. */
  lemma MovedContent(m: seq<Byte>, m1: seq<Byte>, m2: seq<Byte>, m3: seq<Byte>, base: nat,
                     L: Layout, L1: Layout, a: nat, b: nat, blockSize: nat, newSize: nat)
    requires base <= a && base <= b && PayloadRoom(L, a, blockSize) && PayloadRoom(L1, b, newSize)
    requires blockSize < newSize && b + HDR - base + newSize <= |m| && a + HDR - base + blockSize <= |m|
    requires Untouched(m, m1, base, L) && Zeroed(m1, b + HDR - base, newSize)
    requires Copied(m1, m2, a + HDR - base, b + HDR - base, blockSize)
    requires SameOutside(m1, m2, b + HDR - base, blockSize)
    requires Untouched(m2, m3, base, L1)
    ensures Copied(m, m3, a + HDR - base, b + HDR - base, blockSize)
    ensures Zeroed(m3, b + HDR - base + blockSize, newSize - blockSize)
  {
    var from, to := a + HDR - base, b + HDR - base;
    forall k {:trigger m3[k]} | to <= k < to + newSize
      ensures m3[k] == m2[k]
    {
      RoomInPayload(L1, b, newSize, base + k);
    }
    forall k {:trigger m1[k]} | from <= k < from + blockSize
      ensures m1[k] == m[k]
    {
      RoomInPayload(L, a, blockSize, base + k);
    }
  }

  /** After allocating the new block, old and new payload can both be addressed, and do not overlap. */
  lemma BothPayloads(m: seq<Byte>, m1: seq<Byte>, base: nat, limit: nat, L: Layout, L1: Layout,
                     a: nat, newSize: nat, result: nat, blockSize: nat)
    requires WellFormed(L, base, limit) && Live(L, a)
    requires blockSize <= Capacity(L, a) && blockSize <= newSize
    requires NewBlock(m, m1, base, L, L1, newSize, result)
    ensures PayloadRoom(L, a, blockSize) && a + HDR + blockSize <= limit
    ensures PayloadRoom(L1, a, blockSize) && PayloadRoom(L1, BlockOf(result), blockSize)
    ensures BlockOf(result) != a && BlockOf(result) in L.free && HDR < result
  {
  }

  lemma ReallocMoved(m: seq<Byte>, m1: seq<Byte>, m2: seq<Byte>, m3: seq<Byte>, base: nat, limit: nat,
                     L: Layout, L1: Layout, L': Layout, buffer: nat, newSize: nat, result: nat, blockSize: nat)
    requires WellFormed(L, base, limit) && WellFormed(L1, base, limit) && limit == base + |m|
    requires Live(L, BlockOf(buffer)) && HDR < buffer
    requires blockSize <= Capacity(L, BlockOf(buffer)) && blockSize < newSize
    requires NewBlock(m, m1, base, L, L1, newSize, result)
    requires Copied(m1, m2, buffer - base, result - base, blockSize)
    requires SameOutside(m1, m2, result - base, blockSize)
    requires Freed(m2, m3, base, L1, L', BlockOf(buffer))
    ensures Moved(m, m3, base, L, L', buffer, newSize, result, blockSize)
  {
    var a, b := BlockOf(buffer), BlockOf(result);
    BothPayloads(m, m1, base, limit, L, L1, a, newSize, result, blockSize);
    MovedContent(m, m1, m2, m3, base, L, L1, a, b, blockSize, newSize);
    MovedUntouched(m, m1, m2, m3, base, limit, L, L1, a, b, newSize, blockSize);
    FreeKeepsOthers(L1, a, b, newSize);
  }

  lemma CapacityRoom(L: Layout, base: nat, limit: nat, a: nat, n: nat)
    requires WellFormed(L, base, limit) && Live(L, a) && n <= Capacity(L, a)
    ensures PayloadRoom(L, a, n) && a + HDR + n <= limit
  {
  }

  lemma MovedUntouched(m: seq<Byte>, m1: seq<Byte>, m2: seq<Byte>, m3: seq<Byte>, base: nat, limit: nat,
                       L: Layout, L1: Layout, a: nat, b: nat, newSize: nat, blockSize: nat)
    requires WellFormed(L, base, limit) && b in L.free && L1 == AllocLayout(L, newSize, b) && b != 0
    requires PayloadRoom(L1, b, newSize) && blockSize <= newSize
    requires Untouched(m, m1, base, L)
    requires SameOutside(m1, m2, b + HDR - base, blockSize)
    requires Untouched(m2, m3, base, L1)
    ensures Untouched(m, m3, base, L)
  {
    NewPayloadApart(m1, m2, base, L, L1, b, blockSize);
    UntouchedTransitive(m, m1, m2, base, L);
    forall x: nat, p: nat | InPayload(L, x, p)
      ensures InPayload(L1, x, p)
    {
      AllocKeepsOthers(L, base, limit, newSize, b, x, 0);
    }
    UntouchedTransitive(m, m2, m3, base, L);
  }
}
