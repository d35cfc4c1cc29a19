// The bare-metal task list as a value: the order of the tasks, their priorities and which are ready.
// A smaller number is a higher priority; the head of the list is the most urgent task.

module TaskListSpec {
  import opened GenericList
  import opened Sequences

  datatype State = State(order: seq<Element>, prio: map<Element, nat>, ready: set<Element>)

  /** What a task body, or an interrupt handler before the next scan, does to the scheduler's state. */
  datatype Action =
    | Signal(task: Element)
    | Block(task: Element)
    | Create(task: Element, priority: nat)
    | Destroy(task: Element)
    | SetPriority(task: Element, priority: nat)

  /** Every listed task is listed once and has a priority. */
  ghost predicate Proper(s: State) {
    && Distinct(s.order)
    && (forall t :: t in s.order ==> t in s.prio)
    && s.ready <= s.prio.Keys
  }

  ghost predicate Sorted(s: State)
    requires Proper(s)
  {
    forall i, j :: 0 <= i < j < |s.order| ==> s.prio[s.order[i]] <= s.prio[s.order[j]]
  }

  /** The same for an order and priorities alone. */
  ghost predicate InOrder(order: seq<Element>, prio: map<Element, nat>) {
    && (forall i :: 0 <= i < |order| ==> order[i] in prio)
    && (forall i, j :: 0 <= i < j < |order| ==> prio[order[i]] <= prio[order[j]])
  }

  /** The first place whose task is no more urgent than `priority`. */
  ghost function Place(order: seq<Element>, prio: map<Element, nat>, priority: nat): (k: nat)
    requires forall t :: t in order ==> t in prio
    ensures k <= |order|
    ensures forall i :: 0 <= i < k ==> prio[order[i]] < priority
    ensures k < |order| ==> priority <= prio[order[k]]
  {
    if order == [] || priority <= prio[order[0]] then 0 else 1 + Place(order[1..], prio, priority)
  }

  lemma PlaceOfListed(order: seq<Element>, prio: map<Element, nat>, task: Element)
    requires task in order && forall t :: t in order ==> t in prio
    ensures Place(order, prio, prio[task]) < |order|
  {
    var k := Index(order, task);
    assert order[k] == task;
  }

  ghost function Index(order: seq<Element>, task: Element): (k: nat)
    requires task in order
    ensures k < |order| && order[k] == task
  {
    if order[0] == task then 0 else 1 + Index(order[1..], task)
  }

  ghost function Removed(order: seq<Element>, task: Element): seq<Element> {
    if task in order then Without(order, Index(order, task)) else order
  }

  ghost function Inserted(s: State, task: Element): seq<Element>
    requires Proper(s) && task in s.prio
  {
    InsertedAt(s.order, Place(s.order, s.prio, s.prio[task]), task)
  }

  /** The state once `task` has the priority given and stands where that puts it. */
  ghost function Ranked(s: State, task: Element, priority: nat): State
    requires Proper(s)
  {
    var rest := State(Removed(s.order, task), s.prio[task := priority], s.ready);
    RemovedProper(s, task);
    rest.(order := Inserted(rest, task))
  }

  /** A client creates only tasks that are not listed, and re-ranks a task only beside others. */
  ghost predicate Allowed(s: State, a: Action) {
    match a
    case Signal(t) => t in s.prio
    case Block(t) => t in s.prio
    case Create(t, _) => t in s.prio && t !in s.order
    case Destroy(t) => t in s.prio
    case SetPriority(t, _) => t in s.prio && Removed(s.order, t) != []
  }

  ghost function Apply(s: State, a: Action): State
    requires Proper(s)
  {
    if !Allowed(s, a) then s else
    match a
    case Signal(t) => s.(ready := s.ready + {t})
    case Block(t) => s.(ready := s.ready - {t})
    case Create(t, p) => Ranked(s, t, p).(ready := s.ready + {t})
    case Destroy(t) => s.(order := Removed(s.order, t))
    case SetPriority(t, p) => Ranked(s, t, p)
  }

  lemma RemovedProper(s: State, task: Element)
    requires Proper(s)
    ensures Distinct(Removed(s.order, task)) && task !in Removed(s.order, task)
    ensures forall t :: t in Removed(s.order, task) <==> t in s.order && t != task
  {
    if task in s.order {
      WithoutMembers(s.order, Index(s.order, task));
    }
  }

  lemma WithoutInOrder(order: seq<Element>, prio: map<Element, nat>, k: nat)
    requires k < |order| && InOrder(order, prio)
    ensures InOrder(Without(order, k), prio)
  {
    var r := Without(order, k);
    forall i, j | 0 <= i < j < |r|
      ensures r[i] in prio && r[j] in prio && prio[r[i]] <= prio[r[j]]
    {
      var i', j' := if i < k then i else i + 1, if j < k then j else j + 1;
      assert r[i] == order[i'] && r[j] == order[j'];
    }
  }

  lemma RemovedSorted(s: State, task: Element)
    requires Proper(s) && Sorted(s)
    ensures Proper(s.(order := Removed(s.order, task))) && Sorted(s.(order := Removed(s.order, task)))
  {
    RemovedProper(s, task);
    if task in s.order {
      WithoutInOrder(s.order, s.prio, Index(s.order, task));
    }
  }

  /** Between those before that are no less urgent and those after that are no more urgent, a task stands in order. */
  lemma InsertedInOrder(order: seq<Element>, prio: map<Element, nat>, k: nat, task: Element)
    requires InOrder(order, prio) && k <= |order| && task in prio
    requires forall i :: 0 <= i < k ==> prio[order[i]] <= prio[task]
    requires k < |order| ==> prio[task] <= prio[order[k]]
    ensures InOrder(InsertedAt(order, k, task), prio)
  {
    var r := InsertedAt(order, k, task);
    forall i, j | 0 <= i < j < |r|
      ensures r[i] in prio && r[j] in prio && prio[r[i]] <= prio[r[j]]
    {
      if i == k {
        assert r[j] == order[j - 1];
      } else if j == k {
        assert r[i] == order[i];
      } else {
        var i', j' := if i < k then i else i - 1, if j < k then j else j - 1;
        assert r[i] == order[i'] && r[j] == order[j'];
      }
    }
  }

  lemma InsertedSorted(s: State, task: Element)
    requires Proper(s) && Sorted(s) && task in s.prio && task !in s.order
    ensures Proper(s.(order := Inserted(s, task))) && Sorted(s.(order := Inserted(s, task)))
  {
    var k := Place(s.order, s.prio, s.prio[task]);
    InsertedMembers(s.order, k, task);
    InsertedInOrder(s.order, s.prio, k, task);
  }

  /** `task` has come into the order, behind every more urgent task and before the others. */
  ghost predicate PutInPlace(order: seq<Element>, order': seq<Element>, task: Element, prio: map<Element, nat>,
                             priority: nat)
    requires forall t :: t in order ==> t in prio
  {
    && task in order' && |order'| == |order| + 1
    && var k := Index(order', task);
       && order' == InsertedAt(order, k, task)
       && (forall i :: 0 <= i < k ==> prio[order[i]] < priority)
       && (k < |order| ==> priority <= prio[order[k]])
  }

  lemma IndexOfInserted(order: seq<Element>, k: nat, task: Element)
    requires k <= |order| && task !in order
    ensures task in InsertedAt(order, k, task) && Index(InsertedAt(order, k, task), task) == k
  {
    var r := InsertedAt(order, k, task);
    assert r[k] == task;
    assert forall i :: 0 <= i < |r| && i != k ==> r[i] == order[if i < k then i else i - 1];
  }

  lemma PlacePutsInPlace(order: seq<Element>, task: Element, prio: map<Element, nat>, priority: nat)
    requires (forall t :: t in order ==> t in prio) && task !in order
    ensures PutInPlace(order, InsertedAt(order, Place(order, prio, priority), task), task, prio, priority)
  {
    IndexOfInserted(order, Place(order, prio, priority), task);
  }

  /** `task` has left the order, if it was in it, and nothing else has changed. */
  ghost predicate TakenOut(order: seq<Element>, order': seq<Element>, task: Element) {
    if task in order then
      && |order| == |order'| + 1 && task !in order'
      && order == InsertedAt(order', Index(order, task), task)
    else order' == order
  }

  lemma RemovedTakenOut(s: State, task: Element)
    requires Proper(s)
    ensures TakenOut(s.order, Removed(s.order, task), task)
  {
    RemovedProper(s, task);
    if task in s.order {
      var k := Index(s.order, task);
      assert s.order == InsertedAt(Without(s.order, k), k, task);
    }
  }

  lemma RankedProper(s: State, task: Element, priority: nat)
    requires Proper(s)
    ensures Proper(Ranked(s, task, priority))
    ensures forall t :: t in Ranked(s, task, priority).order <==> t in s.order || t == task
  {
    RemovedProper(s, task);
    var rest := Removed(s.order, task);
    InsertedMembers(rest, Place(rest, s.prio[task := priority], priority), task);
  }

  lemma RankedSorted(s: State, task: Element, priority: nat)
    requires Proper(s) && Sorted(s)
    ensures Proper(Ranked(s, task, priority)) && Sorted(Ranked(s, task, priority))
  {
    RemovedProper(s, task);
    RemovedSorted(s, task);
    var rest := State(Removed(s.order, task), s.prio[task := priority], s.ready);
    assert Sorted(rest) by {
      assert forall i :: 0 <= i < |rest.order| ==> rest.prio[rest.order[i]] == s.prio[rest.order[i]];
    }
    InsertedSorted(rest, task);
  }

  lemma RankedKeeps(s: State, task: Element, priority: nat)
    requires Proper(s)
    ensures Proper(Ranked(s, task, priority)) && (Sorted(s) ==> Sorted(Ranked(s, task, priority)))
  {
    RankedProper(s, task, priority);
    if Sorted(s) {
      RankedSorted(s, task, priority);
    }
  }

  lemma RemovedKeeps(s: State, task: Element)
    requires Proper(s)
    ensures var r := s.(order := Removed(s.order, task)); Proper(r) && (Sorted(s) ==> Sorted(r))
  {
    RemovedProper(s, task);
    if Sorted(s) {
      RemovedSorted(s, task);
    }
  }

  /** Every action keeps the list sorted by priority, whatever the order of the calls. */
  lemma ApplyKeeps(s: State, a: Action)
    requires Proper(s)
    ensures Proper(Apply(s, a))
    ensures Sorted(s) ==> Sorted(Apply(s, a))
  {
    match a {
      case Signal(t) =>
      case Block(t) =>
      case Create(t, p) =>
        RankedKeeps(s, t, p);
      case Destroy(t) =>
        RemovedKeeps(s, t);
      case SetPriority(t, p) =>
        RankedKeeps(s, t, p);
    }
  }

  ghost function ApplyAll(s: State, actions: seq<Action>): State
    requires Proper(s)
    decreases |actions|
  {
    if actions == [] then s else
    ApplyKeeps(s, actions[0]);
    ApplyAll(Apply(s, actions[0]), actions[1..])
  }

  lemma {:induction false} ApplyAllKeeps(s: State, actions: seq<Action>)
    requires Proper(s)
    ensures Proper(ApplyAll(s, actions))
    ensures Sorted(s) ==> Sorted(ApplyAll(s, actions))
    decreases |actions|
  {
    if actions != [] {
      ApplyKeeps(s, actions[0]);
      ApplyAllKeeps(Apply(s, actions[0]), actions[1..]);
    }
  }

  lemma RemovedInserted(order: seq<Element>, k: nat, task: Element)
    requires Distinct(order) && task !in order && k <= |order|
    ensures Removed(InsertedAt(order, k, task), task) == order
  {
  }

  /** Destroying a task just created restores the list. */
  lemma DestroyUndoesCreate(s: State, task: Element, priority: nat)
    requires Proper(s) && task in s.prio && task !in s.order
    ensures var created := Apply(s, Create(task, priority));
            Proper(created) && Apply(created, Destroy(task)).order == s.order
  {
    var k := Place(s.order, s.prio[task := priority], priority);
    var r := InsertedAt(s.order, k, task);
    RankedProper(s, task, priority);
    assert Apply(s, Create(task, priority)).order == r;
    RemovedInserted(s.order, k, task);
  }

  /** The first ready task in the list, or the length of the list. */
  ghost function FirstReady(order: seq<Element>, ready: set<Element>): (k: nat)
    ensures k <= |order|
    ensures forall i :: 0 <= i < k ==> order[i] !in ready
    ensures k < |order| ==> order[k] in ready
  {
    if order == [] || order[0] in ready then 0 else 1 + FirstReady(order[1..], ready)
  }

  ghost predicate NoneReady(s: State) {
    forall t :: t in s.order ==> t !in s.ready
  }

  lemma StillNoneReady(order: seq<Element>, ready: set<Element>, i: nat)
    requires i <= FirstReady(order, ready) && i < |order|
    ensures if order[i] in ready then FirstReady(order, ready) == i else i < FirstReady(order, ready)
  {
  }

  lemma NoneReadyExactly(s: State)
    ensures NoneReady(s) <==> FirstReady(s.order, s.ready) == |s.order|
  {
  }

  /** Running to completion: the first ready task runs, its body has the effect that comes next in `script`, and the
      scan starts again at the head; it ends when no listed task is ready, or when the script does. */
  ghost function Run(s: State, script: seq<seq<Action>>): (r: (State, seq<Element>))
    requires Proper(s)
    decreases |script|
  {
    var k := FirstReady(s.order, s.ready);
    if k == |s.order| || script == [] then (s, []) else
    ApplyAllKeeps(s, script[0]);
    var r := Run(ApplyAll(s, script[0]), script[1..]);
    (r.0, [s.order[k]] + r.1)
  }

  /** The state when the `j`-th body starts. */
  ghost function Reached(s: State, script: seq<seq<Action>>, j: nat): (r: State)
    requires Proper(s) && j <= |script|
    ensures Proper(r)
    decreases j
  {
    if j == 0 then s else
    ApplyAllKeeps(s, script[0]);
    Reached(ApplyAll(s, script[0]), script[1..], j - 1)
  }

  lemma ReachedNext(s: State, script: seq<seq<Action>>, j: nat)
    requires Proper(s) && j < |script|
    ensures Reached(s, script, j + 1) == ApplyAll(Reached(s, script, j), script[j])
    decreases j
  {
    if j > 0 {
      ApplyAllKeeps(s, script[0]);
      ReachedNext(ApplyAll(s, script[0]), script[1..], j - 1);
    }
  }

  /** A task that is ready while no ready task is more urgent, and before every other ready task in the list. */
  ghost predicate MostUrgent(s: State, t: Element)
    requires Proper(s)
  {
    && t in s.order && t in s.ready
    && (forall u :: u in s.order && u in s.ready ==> s.prio[t] <= s.prio[u])
    && (forall i :: 0 <= i < Index(s.order, t) ==> s.order[i] !in s.ready)
  }

  lemma FirstReadyMostUrgent(s: State)
    requires Proper(s) && Sorted(s) && FirstReady(s.order, s.ready) < |s.order|
    ensures MostUrgent(s, s.order[FirstReady(s.order, s.ready)])
  {
  }

  /** Every body runs for a task that is ready, with no ready task more urgent at that moment. */
  lemma {:induction false} RunsMostUrgent(s: State, script: seq<seq<Action>>, j: nat)
    requires Proper(s) && Sorted(s) && j < |Run(s, script).1|
    ensures j < |script| && MostUrgent(Reached(s, script, j), Run(s, script).1[j])
    decreases j
  {
    if j == 0 {
      FirstReadyMostUrgent(s);
    } else {
      ApplyAllKeeps(s, script[0]);
      RunsMostUrgent(ApplyAll(s, script[0]), script[1..], j - 1);
    }
  }

  /** A run that ends before its script does ends with no task ready, and the list is sorted throughout. */
  lemma {:induction false} RunEndsIdle(s: State, script: seq<seq<Action>>)
    requires Proper(s)
    ensures var r := Run(s, script);
            && |r.1| <= |script| && Proper(r.0) && (Sorted(s) ==> Sorted(r.0))
            && r.0 == Reached(s, script, |r.1|)
            && (|r.1| < |script| ==> NoneReady(r.0))
    decreases |script|
  {
    if FirstReady(s.order, s.ready) < |s.order| && script != [] {
      ApplyAllKeeps(s, script[0]);
      RunEndsIdle(ApplyAll(s, script[0]), script[1..]);
    }
  }

  // ---------- Readiness ----------

  lemma {:induction false} KeysKept(s: State, actions: seq<Action>)
    requires Proper(s)
    ensures ApplyAll(s, actions).prio.Keys == s.prio.Keys
    decreases |actions|
  {
    if actions != [] {
      ApplyKeeps(s, actions[0]);
      KeysKept(Apply(s, actions[0]), actions[1..]);
    }
  }

  predicate Wakes(a: Action, t: Element) {
    (a.Signal? || a.Create?) && a.task == t
  }

  predicate WakesSomewhere(actions: seq<Action>, t: Element) {
    exists q :: 0 <= q < |actions| && Wakes(actions[q], t)
  }

  lemma {:induction false} StaysAsleep(s: State, actions: seq<Action>, t: Element)
    requires Proper(s) && t !in s.ready && !WakesSomewhere(actions, t)
    ensures t !in ApplyAll(s, actions).ready
    decreases |actions|
  {
    if actions != [] {
      assert !Wakes(actions[0], t);
      assert forall q :: 0 <= q < |actions[1..]| ==> actions[1..][q] == actions[q + 1];
      ApplyKeeps(s, actions[0]);
      StaysAsleep(Apply(s, actions[0]), actions[1..], t);
    }
  }

  lemma {:induction false} StaysAwake(s: State, actions: seq<Action>, t: Element)
    requires Proper(s) && t in s.ready && Block(t) !in actions
    ensures t in ApplyAll(s, actions).ready
    decreases |actions|
  {
    if actions != [] {
      ApplyKeeps(s, actions[0]);
      StaysAwake(Apply(s, actions[0]), actions[1..], t);
    }
  }

  /** After a body that blocks a task, and does not wake it later on, the task is not ready. */
  lemma {:induction false} BlockedAfter(s: State, actions: seq<Action>, p: nat, t: Element)
    requires Proper(s) && t in s.prio && p < |actions| && actions[p] == Block(t)
    requires !WakesSomewhere(actions[p + 1..], t)
    ensures t !in ApplyAll(s, actions).ready
    decreases |actions|
  {
    ApplyKeeps(s, actions[0]);
    var rest := actions[1..];
    if p == 0 {
      StaysAsleep(Apply(s, actions[0]), rest, t);
    } else {
      assert rest[p - 1] == actions[p] && rest[p..] == actions[p + 1..];
      BlockedAfter(Apply(s, actions[0]), rest, p - 1, t);
    }
  }

  /** After a body that signals a task, and does not block it later on, the task is ready. */
  lemma {:induction false} SignalledAfter(s: State, actions: seq<Action>, p: nat, t: Element)
    requires Proper(s) && t in s.prio && p < |actions| && actions[p] == Signal(t)
    requires Block(t) !in actions[p + 1..]
    ensures t in ApplyAll(s, actions).ready
    decreases |actions|
  {
    ApplyKeeps(s, actions[0]);
    var rest := actions[1..];
    if p == 0 {
      StaysAwake(Apply(s, actions[0]), rest, t);
    } else {
      assert rest[p - 1] == actions[p] && rest[p..] == actions[p + 1..];
      SignalledAfter(Apply(s, actions[0]), rest, p - 1, t);
    }
  }

  lemma {:induction false} RanReady(s: State, script: seq<seq<Action>>, j: nat)
    requires Proper(s) && j < |Run(s, script).1|
    ensures j < |script| && Run(s, script).1[j] in Reached(s, script, j).ready
    decreases j
  {
    if j > 0 {
      ApplyAllKeeps(s, script[0]);
      RanReady(ApplyAll(s, script[0]), script[1..], j - 1);
    }
  }

  lemma {:induction false} ReachedKeys(s: State, script: seq<seq<Action>>, j: nat)
    requires Proper(s) && j <= |script|
    ensures Reached(s, script, j).prio.Keys == s.prio.Keys
    decreases j
  {
    if j > 0 {
      ReachedKeys(s, script, j - 1);
      ReachedNext(s, script, j - 1);
      KeysKept(Reached(s, script, j - 1), script[j - 1]);
    }
  }

  lemma {:induction false} AsleepThrough(s: State, script: seq<seq<Action>>, t: Element, i: nat, j: nat)
    requires Proper(s) && i <= j <= |script| && t !in Reached(s, script, i).ready
    requires forall m :: i <= m < j ==> !WakesSomewhere(script[m], t)
    ensures t !in Reached(s, script, j).ready
    decreases j
  {
    if i < j {
      AsleepThrough(s, script, t, i, j - 1);
      ReachedNext(s, script, j - 1);
      StaysAsleep(Reached(s, script, j - 1), script[j - 1], t);
    }
  }

  lemma AsleepAfter(s: State, script: seq<seq<Action>>, t: Element, i: nat, p: nat)
    requires Proper(s) && t in s.prio && i < |script|
    requires p < |script[i]| && script[i][p] == Block(t) && !WakesSomewhere(script[i][p + 1..], t)
    ensures t !in Reached(s, script, i + 1).ready
  {
    ReachedKeys(s, script, i);
    BlockedAfter(Reached(s, script, i), script[i], p, t);
    ReachedNext(s, script, i);
  }

  /** A task blocked by a body, and not woken later in it, runs again only after a body in between wakes it. */
  lemma BlockedUntilWoken(s: State, script: seq<seq<Action>>, t: Element, i: nat, p: nat, j: nat)
    requires Proper(s) && t in s.prio && i < j < |Run(s, script).1| <= |script| && Run(s, script).1[j] == t
    requires p < |script[i]| && script[i][p] == Block(t) && !WakesSomewhere(script[i][p + 1..], t)
    ensures exists m :: i < m < j && WakesSomewhere(script[m], t)
  {
    RanReady(s, script, j);
    if forall m :: i < m < j ==> !WakesSomewhere(script[m], t) {
      AsleepAfter(s, script, t, i, p);
      AsleepThrough(s, script, t, i + 1, j);
    }
  }

  /** No body runs for a task that an earlier body has blocked for good. */
  ghost predicate RunsOnlyWoken(script: seq<seq<Action>>, ran: seq<Element>)
    requires |ran| <= |script|
  {
    forall i, p, j {:trigger script[i][p], ran[j]} :: 0 <= i < j < |ran| && 0 <= p < |script[i]| ==>
      script[i][p] == Block(ran[j]) && !WakesSomewhere(script[i][p + 1..], ran[j]) ==>
      exists m :: i < m < j && WakesSomewhere(script[m], ran[j])
  }

  lemma RunOnlyWoken(s: State, script: seq<seq<Action>>)
    requires Proper(s)
    ensures |Run(s, script).1| <= |script| && RunsOnlyWoken(script, Run(s, script).1)
  {
    RunEndsIdle(s, script);
    var ran := Run(s, script).1;
    forall i, p, j {:trigger script[i][p], ran[j]} | 0 <= i < j < |ran| && 0 <= p < |script[i]|
        && script[i][p] == Block(ran[j]) && !WakesSomewhere(script[i][p + 1..], ran[j])
      ensures exists m :: i < m < j && WakesSomewhere(script[m], ran[j])
    {
      RanReady(s, script, j);
      ReachedKeys(s, script, j);
      BlockedUntilWoken(s, script, ran[j], i, p, j);
    }
  }

  /** What the last word about a task in a body makes of it. */
  lemma LastWords(s: State, body: seq<Action>)
    requires Proper(s) && forall a :: a in body ==> a.task in s.prio
    ensures forall p :: 0 <= p < |body| && body[p].Block? && !WakesSomewhere(body[p + 1..], body[p].task) ==>
              body[p].task !in ApplyAll(s, body).ready
    ensures forall p :: 0 <= p < |body| && body[p].Signal? && Block(body[p].task) !in body[p + 1..] ==>
              body[p].task in ApplyAll(s, body).ready
  {
    forall p | 0 <= p < |body| && body[p].Block? && !WakesSomewhere(body[p + 1..], body[p].task)
      ensures body[p].task !in ApplyAll(s, body).ready
    {
      BlockedAfter(s, body, p, body[p].task);
    }
    forall p | 0 <= p < |body| && body[p].Signal? && Block(body[p].task) !in body[p + 1..]
      ensures body[p].task in ApplyAll(s, body).ready
    {
      SignalledAfter(s, body, p, body[p].task);
    }
  }

  /** Creating a listed task again, in a build that checks for duplicates, is refused but has already overwritten its
      priority.  The list is still sorted exactly when the new priority fits between the neighbours. */
  lemma RefusedCreateSorted(s: State, k: nat, priority: nat)
    requires Proper(s) && Sorted(s) && k < |s.order|
    ensures var t := State(s.order, s.prio[s.order[k] := priority], s.ready);
            && Proper(t)
            && (Sorted(t) <==>
                && (k > 0 ==> s.prio[s.order[k - 1]] <= priority)
                && (k + 1 < |s.order| ==> priority <= s.prio[s.order[k + 1]]))
  {
  }

  lemma BlockedOnce(s: State, a: Element, script: seq<seq<Action>>)
    requires Proper(s) && s.order == [a] && a in s.ready && script == [[Block(a)], [Block(a)]]
    ensures var r := Run(s, script); r.1 == [a] && NoneReady(r.0)
  {
    var t := Apply(s, Block(a));
    assert FirstReady(s.order, s.ready) == 0 && s.order[0] == a;
    assert script[0][1..] == [] && ApplyAll(s, script[0]) == t;
    assert FirstReady(t.order, t.ready) == |t.order|;
    assert Run(t, script[1..]) == (t, []);
  }

  lemma TwoCreates(s: State, a: Element, b: Element)
    requires Proper(s) && s.order == [] && a != b && a in s.prio && b in s.prio
    ensures var s1 := Apply(s, Create(b, 2));
            && Proper(s1) && s1.order == [b]
            && Apply(s1, Create(a, 1)).order == [a, b] && Apply(s1, Create(a, 1)).prio[b] == 2
  {
    var s1 := Apply(s, Create(b, 2));
    assert InsertedAt([], 0, b) == [b];
    assert s1.order == [b] && s1.prio[b] == 2;
    assert InsertedAt([b], 0, a) == [a, b];
  }
}
