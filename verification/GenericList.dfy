// The generic doubly linked list.  A list knows its ends and its size; an element knows its neighbours
// and the list it is in.

module GenericList {
  import opened Sequences

  datatype Status = Ok | DuplicateError | Full | OrphanElement

  /** list_element_t, and the fields of the task control block of which it is the first member. */
  class Element {
    var next: Element?
    var prev: Element?
    var list: List?

    var priority: nat
    var haveToRun: nat

    constructor ()
      ensures list == null && next == null && prev == null && priority == 0 && haveToRun == 0
    {
      next, prev, list := null, null, null;
      priority, haveToRun := 0, 0;
    }
  }

  /** The neighbours of position `i`. */
  ghost function After(s: seq<Element>, i: int): Element? {
    if -1 <= i < |s| - 1 then s[i + 1] else null
  }

  lemma AfterLast(s: seq<Element>, i: nat)
    requires i <= |s| && After(s, i - 1) == null
    ensures i == |s|
  {
  }

  ghost function Before(s: seq<Element>, i: int): Element? {
    if 0 < i <= |s| then s[i - 1] else null
  }

  /** Skipping `s[k]` is all that it takes for the links of the others to be those of `Without(s, k)`. */
  lemma WithoutNeighbours(s: seq<Element>, k: nat, j: nat)
    requires k < |s| && Distinct(s) && j < |s| - 1
    ensures var i := if j < k then j else j + 1;
            && Without(s, k)[j] == s[i]
            && After(Without(s, k), j) == (if s[i] == Before(s, k) then After(s, k) else After(s, i))
            && Before(Without(s, k), j) == (if s[i] == After(s, k) then Before(s, k) else Before(s, i))
  {
  }

  /** Linking `x` between `s[k]` and its predecessor is all that it takes to insert it there. */
  lemma InsertedNeighbours(s: seq<Element>, k: nat, x: Element, j: nat)
    requires k <= |s| && Distinct(s) && x !in s && j <= |s| && j != k
    ensures var i := if j < k then j else j - 1;
            && InsertedAt(s, k, x)[j] == s[i]
            && After(InsertedAt(s, k, x), j) == (if s[i] == Before(s, k) then x else After(s, i))
            && Before(InsertedAt(s, k, x), j) == (if s[i] == After(s, k - 1) then x else Before(s, i))
  {
  }

  lemma InsertedEnds(s: seq<Element>, k: nat, x: Element)
    requires k <= |s|
    ensures var r := InsertedAt(s, k, x);
            && r[k] == x && After(r, k) == After(s, k - 1) && Before(r, k) == Before(s, k)
            && After(r, -1) == (if k == 0 then x else After(s, -1))
            && Before(r, |r|) == (if k == |s| then x else Before(s, |s|))
  {
  }

  class List {
    var head: Element?
    var tail: Element?
    var size: nat
    var max: nat

    /** Whether the build checks for duplicates. */
    const checkDuplicates: bool

    /** The elements, head first. */
    ghost var elems: seq<Element>

    ghost predicate Linked(s: seq<Element>)
      reads s
    {
      && (forall i {:trigger s[i].list} :: 0 <= i < |s| ==> s[i].list == this)
      && (forall i {:trigger s[i].next} :: 0 <= i < |s| ==> s[i].next == After(s, i))
      && (forall i {:trigger s[i].prev} :: 0 <= i < |s| ==> s[i].prev == Before(s, i))
    }

    /** The fields of the list and of its elements say that it consists of `s`. */
    ghost predicate Holds(s: seq<Element>)
      reads this`head, this`tail, this`size, this`max, s
    {
      && size == |s| && (max != 0 ==> size <= max)
      && head == After(s, -1)
      && tail == Before(s, |s|)
      && Distinct(s) && Linked(s)
    }

    ghost predicate Valid()
      reads this, elems
    {
      Holds(elems)
    }

    /** LIST_Init. */
    constructor (max: nat, checkDuplicates: bool)
      ensures Valid() && elems == [] && this.max == max && this.checkDuplicates == checkDuplicates
    {
      head, tail, size := null, null, 0;
      this.max, this.checkDuplicates := max, checkDuplicates;
      elems := [];
    }

    /** LIST_Error_Check. */
    method ErrorCheck(newElement: Element) returns (status: Status)
      requires Valid()
      ensures status in {Ok, Full, DuplicateError}
      ensures status == Full <==> max != 0 && |elems| == max
      ensures status == DuplicateError <==> status != Full && checkDuplicates && newElement in elems
    {
      if max != 0 && max == size {
        return Full;
      }
      if checkDuplicates {
        var element := head;
        ghost var i := 0;
        while element != null
          invariant 0 <= i <= |elems| && element == if i < |elems| then elems[i] else null
          invariant newElement !in elems[..i]
          decreases |elems| - i
        {
          if element == newElement {
            return DuplicateError;
          }
          element := element.next;
          i := i + 1;
        }
      }
      return Ok;
    }

    /** When the fields are those of `s`, but for `x` linked in at `k`, they are those of the sequence with `x`. */
    lemma InsertedLinked(s: seq<Element>, k: nat, x: Element)
      requires k <= |s| && Distinct(s) && x !in s && size == |s| + 1 && (max != 0 ==> size <= max)
      requires head == (if k == 0 then x else After(s, -1)) && tail == (if k == |s| then x else Before(s, |s|))
      requires x.list == this && x.next == After(s, k - 1) && x.prev == Before(s, k)
      requires forall i {:trigger s[i].list} :: 0 <= i < |s| ==> s[i].list == this
      requires forall i {:trigger s[i].next} :: 0 <= i < |s| ==>
                 s[i].next == if s[i] == Before(s, k) then x else After(s, i)
      requires forall i {:trigger s[i].prev} :: 0 <= i < |s| ==>
                 s[i].prev == if s[i] == After(s, k - 1) then x else Before(s, i)
      ensures Holds(InsertedAt(s, k, x))
    {
      var r := InsertedAt(s, k, x);
      assert Distinct(r) by {
        InsertedMembers(s, k, x);
      }
      InsertedEnds(s, k, x);
      forall j | 0 <= j < |r|
        ensures r[j].next == After(r, j) && r[j].prev == Before(r, j) && r[j].list == this
      {
        if j != k {
          InsertedNeighbours(s, k, x, j);
          var i := if j < k then j else j - 1;
          assert r[j] == s[i];
        }
      }
    }

    /** Where the `next` fields lead from the head. */
    ghost predicate Path(path: seq<Element>)
      reads this`head, path
    {
      && path != [] && head == path[0]
      && forall i {:trigger path[i].next} :: 0 <= i < |path| - 1 ==> path[i].next == path[i + 1]
    }

    lemma {:induction false} PathSeen(path: seq<Element>, s: seq<Element>, i: nat)
      requires Path(path) && Holds(s) && i < |path| && i < |s|
      ensures s[i] == path[i]
    {
      if i > 0 {
        PathSeen(path, s, i - 1);
        assert path[i - 1].next == path[i] && s[i - 1].next == s[i];
      }
    }

    /** A list whose links come back to an element consists of no sequence as long as its size says. */
    lemma CycleHoldsNothing(path: seq<Element>, i: nat, j: nat)
      requires Path(path) && i < j < |path| <= size && path[i] == path[j]
      ensures forall s: seq<Element> :: !Holds(s)
    {
      forall s: seq<Element>
        ensures !Holds(s)
      {
        if Holds(s) {
          PathSeen(path, s, i);
          PathSeen(path, s, j);
        }
      }
    }

    /** Nor does one whose links end too early. */
    lemma ShortHoldsNothing(path: seq<Element>)
      requires Path(path) && path[|path| - 1].next == null && |path| < size
      ensures forall s: seq<Element> :: !Holds(s)
    {
      forall s: seq<Element>
        ensures !Holds(s)
      {
        if Holds(s) {
          var last := |path| - 1;
          assert s[last].next == After(s, last) != null;
          PathSeen(path, s, last);
        }
      }
    }

    /** The stores of LIST_AddTail. */
    method TailStores(element: Element, ghost s: seq<Element>)
      requires size != 0 ==> tail != null && tail in s
      modifies this`head, this`tail, this`size, element`next, element`prev, element`list, s`next
      ensures head == if old(size) == 0 then element else old(head)
      ensures tail == element && size == old(size) + 1
      ensures element.list == this && element.next == null && element.prev == old(tail)
      ensures forall i {:trigger s[i].next} :: 0 <= i < |s| && s[i] != element ==>
                s[i].next == if old(size) != 0 && s[i] == old(tail) then element else old(s[i].next)
    {
      if size == 0 {
        head := element;
      } else {
        tail.next := element;
      }
      element.prev := tail;
      element.list := this;
      element.next := null;
      tail := element;
      size := size + 1;
    }

    /** The stores of LIST_AddHead. */
    method HeadStores(element: Element, ghost s: seq<Element>)
      requires size != 0 ==> head != null && head in s
      modifies this`head, this`tail, this`size, element`next, element`prev, element`list, s`prev
      ensures tail == if old(size) == 0 then element else old(tail)
      ensures head == element && size == old(size) + 1
      ensures element.list == this && element.next == old(head) && element.prev == null
      ensures forall i {:trigger s[i].prev} :: 0 <= i < |s| && s[i] != element ==>
                s[i].prev == if old(size) != 0 && s[i] == old(head) then element else old(s[i].prev)
    {
      if size == 0 {
        tail := element;
      } else {
        head.prev := element;
      }
      element.prev := null;
      element.list := this;
      element.next := head;
      head := element;
      size := size + 1;
    }

    /** The update of LIST_AddTail.  A listed element cuts the list off behind itself. */
    method LinkTail(element: Element)
      requires Valid() && (max == 0 || size < max)
      modifies this, element`next, element`prev, element`list, elems`next
      ensures max == old(max) && (Valid() <==> element !in old(elems))
      ensures Valid() ==> elems == old(elems) + [element]
      ensures !Valid() ==> forall s: seq<Element> :: !Holds(s)
    {
      ghost var s := elems;
      TailStores(element, s);
      if element !in s {
        InsertedLinked(s, |s|, element);
        assert s + [element] == InsertedAt(s, |s|, element);
        elems := s + [element];
      } else {
        ghost var k: nat :| k < |s| && s[k] == element;
        ShortHoldsNothing(s[..k + 1]);
      }
    }

    /** The update of LIST_AddHead.  A listed element makes the list a circle. */
    method LinkHead(element: Element)
      requires Valid() && (max == 0 || size < max)
      modifies this, element`next, element`prev, element`list, elems`prev
      ensures max == old(max) && (Valid() <==> element !in old(elems))
      ensures Valid() ==> elems == [element] + old(elems)
      ensures !Valid() ==> forall s: seq<Element> :: !Holds(s)
    {
      ghost var s := elems;
      HeadStores(element, s);
      if element !in s {
        InsertedLinked(s, 0, element);
        assert [element] + s == InsertedAt(s, 0, element);
        elems := [element] + s;
      } else {
        ghost var k: nat :| k < |s| && s[k] == element;
        CycleHoldsNothing([element] + s[..k + 1], 0, k + 1);
      }
    }

    /** The pointer updates of LIST_AddPrevElement: the new element goes between `element` and its predecessor. */
    method LinkBetween(element: Element, newElement: Element, ghost s: seq<Element>)
      requires (element.prev == null || element.prev in s) && element in s && element.prev != element
      modifies this`head, newElement`next, newElement`prev, newElement`list, s`next, s`prev
      ensures head == if old(element.prev) == null then newElement else old(head)
      ensures newElement.list == this && newElement.next == element
      ensures forall i {:trigger s[i].next} :: 0 <= i < |s| && s[i] != newElement ==>
                s[i].next == if s[i] == old(element.prev) then newElement else old(s[i].next)
      ensures newElement !in s ==>
                && newElement.prev == old(element.prev)
                && forall i {:trigger s[i].prev} :: 0 <= i < |s| ==>
                     s[i].prev == if s[i] == element then newElement else old(s[i].prev)
    {
      if element.prev == null {
        head := newElement;
      } else {
        element.prev.next := newElement;
      }
      newElement.list := this;
      newElement.next := element;
      newElement.prev := element.prev;
      element.prev := newElement;
    }

    /** LIST_AddTail.  Without the check for duplicates the list is one afterwards exactly when the element was new. */
    method AddTail(element: Element) returns (status: Status)
      requires Valid()
      modifies this, element`next, element`prev, element`list, elems`next
      ensures max == old(max) && status in {Ok, Full, DuplicateError}
      ensures status == Full <==> max != 0 && old(|elems|) == max
      ensures status == DuplicateError <==> status != Full && checkDuplicates && element in old(elems)
      ensures Valid() <==> status != Ok || element !in old(elems)
      ensures status == Ok && Valid() ==> elems == old(elems) + [element]
      ensures status != Ok ==> unchanged(this) && unchanged(element) && unchanged(old(elems))
      ensures !Valid() ==> forall s: seq<Element> :: !Holds(s)
    {
      status := ErrorCheck(element);
      if status == Ok {
        LinkTail(element);
      }
    }

    /** LIST_AddHead.  The same holds. */
    method AddHead(element: Element) returns (status: Status)
      requires Valid()
      modifies this, element`next, element`prev, element`list, elems`prev
      ensures max == old(max) && status in {Ok, Full, DuplicateError}
      ensures status == Full <==> max != 0 && old(|elems|) == max
      ensures status == DuplicateError <==> status != Full && checkDuplicates && element in old(elems)
      ensures Valid() <==> status != Ok || element !in old(elems)
      ensures status == Ok && Valid() ==> elems == [element] + old(elems)
      ensures status != Ok ==> unchanged(this) && unchanged(element) && unchanged(old(elems))
      ensures !Valid() ==> forall s: seq<Element> :: !Holds(s)
    {
      status := ErrorCheck(element);
      if status == Ok {
        LinkHead(element);
      }
    }

    /** LIST_RemoveHead. */
    method RemoveHead() returns (element: Element?)
      requires Valid()
      modifies this, elems`list, elems`prev
      ensures Valid() && max == old(max)
      ensures old(elems) == [] ==> element == null && elems == []
      ensures old(elems) != [] ==> element == old(elems)[0] && elems == old(elems)[1..] && element.list == null
    {
      if size == 0 {
        return null;
      }
      element := head;
      size := size - 1;
      if size == 0 {
        tail := null;
      } else {
        element.next.prev := null;
      }
      element.list := null;
      head := element.next;
      elems := elems[1..];
    }

    /** The four pointer updates of LIST_RemoveElement: the neighbours of `element`, or the list's ends, skip it. */
    method Bypass(element: Element, ghost s: seq<Element>)
      requires (element.prev == null || element.prev in s) && (element.next == null || element.next in s)
      modifies this`head, this`tail, s`next, s`prev
      ensures head == if old(element.prev) == null then old(element.next) else old(head)
      ensures tail == if old(element.next) == null then old(element.prev) else old(tail)
      ensures forall i {:trigger s[i].next} :: 0 <= i < |s| ==>
                s[i].next == if s[i] == old(element.prev) then old(element.next) else old(s[i].next)
      ensures forall i {:trigger s[i].prev} :: 0 <= i < |s| ==>
                s[i].prev == if s[i] == old(element.next) then old(element.prev) else old(s[i].prev)
    {
      if element.prev == null {
        head := element.next;
      }
      if element.next == null {
        tail := element.prev;
      }
      if element.prev != null {
        element.prev.next := element.next;
      }
      if element.next != null {
        element.next.prev := element.prev;
      }
    }

    /** When the fields are those of `s`, but for `s[k]` skipped, they are those of the sequence without it. */
    lemma RemovedLinked(s: seq<Element>, k: nat)
      requires k < |s| && Distinct(s) && size == |s| - 1 && (max != 0 ==> size <= max)
      requires head == (if k == 0 then After(s, 0) else After(s, -1))
      requires tail == (if k == |s| - 1 then Before(s, k) else Before(s, |s|))
      requires forall i {:trigger s[i].list} :: 0 <= i < |s| && i != k ==> s[i].list == this
      requires forall i {:trigger s[i].next} :: 0 <= i < |s| ==>
                 s[i].next == if s[i] == Before(s, k) then After(s, k) else After(s, i)
      requires forall i {:trigger s[i].prev} :: 0 <= i < |s| ==>
                 s[i].prev == if s[i] == After(s, k) then Before(s, k) else Before(s, i)
      ensures Holds(Without(s, k))
    {
      var r := Without(s, k);
      assert Distinct(r) by {
        WithoutMembers(s, k);
      }
      forall j | 0 <= j < |r|
        ensures r[j].next == After(r, j) && r[j].prev == Before(r, j) && r[j].list == this
      {
        WithoutNeighbours(s, k, j);
        var i := if j < k then j else j + 1;
        assert r[j] == s[i];
      }
    }

    /** LIST_RemoveElement on a member of this list, known to be at index `k`. */
    method RemoveMember(element: Element, ghost k: nat)
      requires Valid() && k < |elems| && elems[k] == element
      modifies this, element`list, elems`next, elems`prev
      ensures Valid() && max == old(max)
      ensures elems == Without(old(elems), k) && element.list == null
    {
      ghost var s := elems;
      assert element.prev == Before(s, k) && element.next == After(s, k);
      Bypass(element, s);
      size := size - 1;
      element.list := null;
      RemovedLinked(s, k);
      elems := Without(s, k);
    }

    /** Where the links lead once the element at `j` has been put before the one at `k` as well. */
    lemma ListedBefore(s: seq<Element>, k: nat, j: nat)
      requires k < |s| && j < |s| && Distinct(s) && size == |s| + 1
      requires head == (if k == 0 then s[j] else s[0]) && s[j].next == s[k]
      requires forall i {:trigger s[i].next} :: 0 <= i < |s| && i != j ==>
                 s[i].next == if i + 1 == k then s[j] else After(s, i)
      ensures forall t: seq<Element> :: !Holds(t)
    {
      if j < k {
        ShortHoldsNothing(s[..j + 1] + s[k..]);
      } else {
        CycleHoldsNothing(s[..k] + [s[j]] + s[k..j + 1], k, j + 1);
      }
    }

    /** The update of LIST_AddPrevElement.  A listed element makes a circle, or cuts out what was between. */
    method LinkBefore(element: Element, newElement: Element, ghost k: nat)
      requires Valid() && k < |elems| && elems[k] == element && (max == 0 || size < max)
      modifies this, newElement`next, newElement`prev, newElement`list, elems`next, elems`prev
      ensures max == old(max) && newElement.next == element
      ensures head == if old(element.prev) == null then newElement else old(head)
      ensures Valid() <==> newElement !in old(elems)
      ensures Valid() ==> elems == InsertedAt(old(elems), k, newElement)
      ensures !Valid() ==> forall s: seq<Element> :: !Holds(s)
    {
      ghost var s := elems;
      assert element.prev == Before(s, k) && element == After(s, k - 1);
      LinkBetween(element, newElement, s);
      assert forall i {:trigger s[i].next} :: 0 <= i < |s| && s[i] != newElement ==>
          s[i].next == if s[i] == Before(s, k) then newElement else After(s, i);
      size := size + 1;
      if newElement !in s {
        assert forall i {:trigger s[i].prev} :: 0 <= i < |s| ==>
            s[i].prev == if s[i] == After(s, k - 1) then newElement else Before(s, i);
        InsertedLinked(s, k, newElement);
        elems := InsertedAt(s, k, newElement);
      } else {
        ghost var j: nat :| j < |s| && s[j] == newElement;
        ListedBefore(s, k, j);
        assert !Valid();
      }
    }

    /** LIST_AddPrevElement before a member of this list, known to be at index `k`.  Without the check for duplicates
        the list is one afterwards exactly when the element was new. */
    method AddBefore(element: Element, newElement: Element, ghost k: nat) returns (status: Status)
      requires Valid() && k < |elems| && elems[k] == element
      modifies this, newElement`next, newElement`prev, newElement`list, elems`next, elems`prev
      ensures max == old(max) && status in {Ok, Full, DuplicateError}
      ensures status == Full <==> max != 0 && old(|elems|) == max
      ensures status == DuplicateError <==> status != Full && checkDuplicates && newElement in old(elems)
      ensures Valid() <==> status != Ok || newElement !in old(elems)
      ensures status == Ok && Valid() ==> elems == InsertedAt(old(elems), k, newElement)
      ensures status == Ok ==> newElement.next == element
      ensures status == Ok ==> head == if old(element.prev) == null then newElement else old(head)
      ensures status != Ok ==> unchanged(this) && unchanged(newElement) && unchanged(old(elems))
      ensures !Valid() ==> forall s: seq<Element> :: !Holds(s)
    {
      status := ErrorCheck(newElement);
      if status == Ok {
        LinkBefore(element, newElement, k);
      }
    }

    /** LIST_RemoveElement: the element leaves the list it is in, if any. */
    static method RemoveElement(element: Element) returns (status: Status)
      requires element.list != null ==> element.list.Valid() && element in element.list.elems
      modifies element.list, element`list, ElementsOf(element.list)`next, ElementsOf(element.list)`prev
      ensures element.list == null
      ensures var list := old(element.list);
              if list == null then status == OrphanElement
              else
                && status == Ok && list.Valid() && list.max == old(list.max)
                && exists k: nat :: k < old(|list.elems|) && old(list.elems)[k] == element
                                    && list.elems == Without(old(list.elems), k)
    {
      if element.list == null {
        return OrphanElement;
      }
      ghost var k: nat :| k < |element.list.elems| && element.list.elems[k] == element;
      element.list.RemoveMember(element, k);
      return Ok;
    }

    /** LIST_AddPrevElement: the new element enters just before the given one, in the list that one is in, if any. */
    static method AddPrevElement(element: Element, newElement: Element) returns (status: Status)
      requires element.list != null ==> element.list.Valid() && element in element.list.elems
      modifies element.list, newElement`next, newElement`prev, newElement`list
      modifies ElementsOf(element.list)`next, ElementsOf(element.list)`prev
      ensures var list := old(element.list);
              if list == null then status == OrphanElement && unchanged(newElement) && unchanged(element)
              else
                && list.max == old(list.max) && status in {Ok, Full, DuplicateError}
                && (status == Full <==> list.max != 0 && old(|list.elems|) == list.max)
                && (status == DuplicateError <==>
                      status != Full && list.checkDuplicates && newElement in old(list.elems))
                && (status != Ok ==> unchanged(list) && unchanged(newElement) && unchanged(old(list.elems)))
                && (list.Valid() <==> status != Ok || newElement !in old(list.elems))
                && (status == Ok ==>
                      && newElement.next == element
                      && list.head == if old(element.prev) == null then newElement else old(list.head))
                && (status == Ok && list.Valid() ==>
                      exists k: nat :: k < old(|list.elems|) && old(list.elems)[k] == element
                                       && list.elems == InsertedAt(old(list.elems), k, newElement))
                && (!list.Valid() ==> forall s: seq<Element> :: !list.Holds(s))
    {
      if element.list == null {
        return OrphanElement;
      }
      ghost var k: nat :| k < |element.list.elems| && element.list.elems[k] == element;
      status := element.list.AddBefore(element, newElement, k);
    }
  }

  /** In a build that does not check for duplicates, putting the only element of a list before itself makes it its own
      successor, so that whoever walks along the list never comes to its end. */
  method ListedTwice() returns (list: List, a: Element)
    ensures fresh(list) && fresh(a) && !list.checkDuplicates
    ensures list.head == a && a.next == a && forall s: seq<Element> :: !list.Holds(s)
  {
    list := new List(0, false);
    a := new Element();
    var status := list.AddTail(a);
    assert list.elems[0] == a && a.list == list;
    status := List.AddPrevElement(a, a);
  }

  /** An element is in one list at most. */
  lemma ListsDisjoint(a: List, b: List, i: nat, j: nat)
    requires a.Valid() && b.Valid() && a != b && i < |a.elems| && j < |b.elems|
    ensures a.elems[i] != b.elems[j]
  {
    assert a.elems[i].list == a && b.elems[j].list == b;
  }

  ghost function ElementsOf(list: List?): seq<Element>
    reads list
  {
    if list == null then [] else list.elems
  }
}
