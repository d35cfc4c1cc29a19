// The bare-metal scheduler: the task list over the generic list, and the dispatcher that runs ready tasks to
// completion.

module TaskList {
  import opened GenericList
  import opened Sequences
  import opened TaskListSpec

  lemma RerankedState(s: State, task: Element, priority: nat, rest: seq<Element>, prio: map<Element, nat>)
    requires Proper(s) && task in s.prio && rest == Removed(s.order, task) && rest != []
    requires prio == s.prio[task := priority]
    ensures task !in rest && (forall t :: t in rest ==> t in prio)
    ensures Apply(s, SetPriority(task, priority))
            == State(InsertedAt(rest, Place(rest, prio, priority), task), prio, s.ready)
  {
  }

  /** What remains of a run once the bodies of `ran` have brought the scheduler to `now`. */
  ghost predicate Continues(s: State, script: seq<seq<Action>>, ran: seq<Element>, now: State)
    requires Proper(s) && Proper(now) && |ran| <= |script|
  {
    var rest := Run(now, script[|ran|..]);
    Run(s, script) == (rest.0, ran + rest.1)
  }

  lemma ContinuesFirst(s: State, script: seq<seq<Action>>)
    requires Proper(s)
    ensures Continues(s, script, [], s)
  {
    assert script[0..] == script;
    var r := Run(s, script);
    assert [] + r.1 == r.1;
  }

  lemma ContinuesLast(s: State, script: seq<seq<Action>>, ran: seq<Element>, now: State)
    requires Proper(s) && Proper(now) && |ran| <= |script| && Continues(s, script, ran, now)
    requires NoneReady(now) || |ran| == |script|
    ensures Run(s, script) == (now, ran)
  {
    NoneReadyExactly(now);
    assert Run(now, script[|ran|..]) == (now, []);
    assert ran + [] == ran;
  }

  /** The first body to run, and the rest. */
  lemma RunOne(now: State, script: seq<seq<Action>>)
    requires Proper(now) && script != [] && FirstReady(now.order, now.ready) < |now.order|
    ensures Proper(ApplyAll(now, script[0]))
    ensures var r := Run(ApplyAll(now, script[0]), script[1..]);
            Run(now, script) == (r.0, [now.order[FirstReady(now.order, now.ready)]] + r.1)
  {
    ApplyAllKeeps(now, script[0]);
  }

  lemma ContinuesOne(s: State, script: seq<seq<Action>>, ran: seq<Element>, now: State)
    requires Proper(s) && Proper(now) && |ran| < |script| && Continues(s, script, ran, now)
    requires FirstReady(now.order, now.ready) < |now.order|
    ensures Proper(ApplyAll(now, script[|ran|]))
    ensures Continues(s, script, ran + [now.order[FirstReady(now.order, now.ready)]], ApplyAll(now, script[|ran|]))
  {
    var rest, t := script[|ran|..], now.order[FirstReady(now.order, now.ready)];
    RunOne(now, rest);
    assert rest[1..] == script[|ran + [t]|..];
    AppendAssociative(ran, [t], Run(ApplyAll(now, rest[0]), rest[1..]).1);
  }

  class Scheduler {
    const tasks: List
    var curTask: Element?

    /** Every task control block there is. */
    ghost const all: set<Element>

    ghost predicate Valid()
      reads tasks, tasks.elems, all
    {
      && tasks.Valid() && tasks.max == 0
      && (forall t :: t in tasks.elems ==> t in all)
      && (forall t {:trigger t in all} :: t in all ==>
            t.haveToRun <= 1 && (t.list != null ==> t.list == tasks && t in tasks.elems))
    }

    ghost function Prio(): map<Element, nat>
      reads all`priority
    {
      map t | t in all :: t.priority
    }

    ghost function Ready(): set<Element>
      reads all`haveToRun
    {
      set t | t in all && t.haveToRun != 0
    }

    ghost function View(): State
      reads tasks`elems, all`priority, all`haveToRun
    {
      State(tasks.elems, Prio(), Ready())
    }

    lemma ViewProper()
      requires Valid()
      ensures Proper(View())
    {
    }

    /** OSA_Init. */
    constructor (ghost all: set<Element>, checkDuplicates: bool)
      requires forall t :: t in all ==> t.list == null && t.haveToRun <= 1
      ensures Valid() && this.all == all && fresh(tasks) && View().order == []
      ensures tasks.checkDuplicates == checkDuplicates
    {
      tasks := new List(0, checkDuplicates);
      curTask := null;
      this.all := all;
    }

    /** The walk of OSA_TaskCreate and OSA_TaskSetPriority: the first task that is no more urgent, and the last seen. */
    method FindPlace(priority: nat) returns (next: Element?, last: Element?, ghost k: nat)
      requires Valid()
      ensures k == Place(tasks.elems, Prio(), priority)
      ensures next == After(tasks.elems, k - 1)
      ensures next != null ==> last == next && priority <= next.priority
      ensures next == null ==> last == tasks.tail && (last != null ==> last.priority < priority)
      ensures last == null <==> tasks.elems == []
    {
      next, last, k := tasks.head, null, 0;
      while next != null
        invariant 0 <= k <= |tasks.elems| && next == After(tasks.elems, k - 1)
        invariant last == if k == 0 then null else tasks.elems[k - 1]
        invariant Place(tasks.elems, Prio(), priority) == k + Place(tasks.elems[k..], Prio(), priority)
        decreases |tasks.elems| - k
      {
        last := next;
        if priority <= next.priority {
          return;
        }
        next := next.next;
        k := k + 1;
      }
    }

    /** What the walk has found, once it is over, for the priority that `task` now has. */
    ghost predicate Walked(task: Element, next: Element?, last: Element?, k: nat)
      reads tasks, task, last
    {
      && k <= |tasks.elems| && next == After(tasks.elems, k - 1) && (last == null <==> tasks.elems == [])
      && if next == null then last == tasks.tail && (last != null ==> last.priority < task.priority)
         else last == next && task.priority <= last.priority
    }

    /** The link updates of OSA_TaskCreate, whose last test allows for an empty list. */
    method EnqueueLinks(task: Element, next: Element?, last: Element?, ghost k: nat)
      requires tasks.Valid() && tasks.max == 0 && task !in tasks.elems
      requires Walked(task, next, last, k)
      modifies tasks, task`next, task`prev, task`list, tasks.elems`next, tasks.elems`prev
      ensures tasks.Valid() && tasks.max == 0 && tasks.elems == InsertedAt(old(tasks.elems), k, task)
    {
      if next != null {
        var status := tasks.AddBefore(next, task, k);
      }
      if last == null || task.priority > last.priority {
        var status := tasks.AddTail(task);
      }
    }

    /** The link updates of OSA_TaskSetPriority, whose last test reads the last task without asking for one. */
    method RequeueLinks(task: Element, next: Element?, last: Element?, ghost k: nat)
      requires tasks.Valid() && tasks.max == 0 && task !in tasks.elems && last != null
      requires Walked(task, next, last, k)
      modifies tasks, task`next, task`prev, task`list, tasks.elems`next, tasks.elems`prev
      ensures tasks.Valid() && tasks.max == 0 && tasks.elems == InsertedAt(old(tasks.elems), k, task)
    {
      if next != null {
        var status := tasks.AddBefore(next, task, k);
      }
      if task.priority > last.priority {
        var status := tasks.AddTail(task);
      }
    }

    /** Puts an unlisted task in when the walk for it is over. */
    method PutIn(task: Element, next: Element?, last: Element?, ghost k: nat)
      requires Valid() && task in all && task !in tasks.elems && Walked(task, next, last, k)
      modifies tasks, task`next, task`prev, task`list, tasks.elems`next, tasks.elems`prev
      ensures Valid() && tasks.elems == InsertedAt(old(tasks.elems), k, task)
      ensures Prio() == old(Prio()) && Ready() == old(Ready())
    {
      EnqueueLinks(task, next, last, k);
      assert tasks.elems[k] == task;
    }

    /** Puts an unlisted task where its priority belongs. */
    method Enqueue(task: Element, ghost order: seq<Element>, ghost prio: map<Element, nat>, ghost priority: nat)
      requires Valid() && task in all && order == tasks.elems && task !in order
      requires prio == Prio() && task.priority == priority
      modifies tasks, task`next, task`prev, task`list, tasks.elems`next, tasks.elems`prev
      ensures Valid() && tasks.elems == InsertedAt(order, Place(order, prio, priority), task)
      ensures Prio() == prio && Ready() == old(Ready())
    {
      var next, last, k := FindPlace(task.priority);
      PutIn(task, next, last, k);
    }

    /** The fields of a task control block that are not links. */
    method SetRank(task: Element, priority: nat, ready: bool)
      requires Valid() && task in all
      modifies task`priority, task`haveToRun
      ensures Valid() && Prio() == old(Prio())[task := priority] && task.priority == priority
      ensures Ready() == old(Ready()) + if ready then {task} else {}
    {
      task.priority := priority;
      if ready {
        task.haveToRun := 1;
      }
    }

    /** LIST_RemoveElement on a task, listed or not. */
    method Delist(task: Element)
      requires Valid() && task in all
      modifies tasks, task`list, tasks.elems`next, tasks.elems`prev
      ensures Valid() && tasks.elems == Removed(old(tasks.elems), task)
      ensures Prio() == old(Prio()) && Ready() == old(Ready())
    {
      if task.list != null {
        ghost var k := Index(tasks.elems, task);
        tasks.RemoveMember(task, k);
      }
    }

    /** OSA_TaskSetPriority up to its last test: it dereferences a null pointer there exactly when no other task is
        listed. */
    method SetPriorityWalk(task: Element, priority: nat) returns (next: Element?, last: Element?, ghost k: nat)
      requires Valid() && task in all
      modifies tasks, task`priority, task`haveToRun, task`list, tasks.elems`next, tasks.elems`prev
      ensures Valid() && tasks.elems == Removed(old(tasks.elems), task)
      ensures Prio() == old(Prio())[task := priority] && Ready() == old(Ready()) && task.priority == priority
      ensures k == Place(tasks.elems, Prio(), priority) && Walked(task, next, last, k)
      ensures last == null <==> Removed(old(tasks.elems), task) == []
    {
      SetRank(task, priority, false);
      Delist(task);
      next, last, k := FindPlace(priority);
    }

    /** Puts a task back, beside others, when the walk for it is over. */
    method Requeue(task: Element, next: Element?, last: Element?, ghost k: nat)
      requires Valid() && task in all && task !in tasks.elems && last != null && Walked(task, next, last, k)
      modifies tasks, task`next, task`prev, task`list, tasks.elems`next, tasks.elems`prev
      ensures Valid() && tasks.elems == InsertedAt(old(tasks.elems), k, task)
      ensures Prio() == old(Prio()) && Ready() == old(Ready())
    {
      RequeueLinks(task, next, last, k);
      assert tasks.elems[k] == task;
    }

    /** A listed task cannot be put in a second time: the build that checks refuses, the other one spoils the list. */
    method EnqueueListed(task: Element) returns (refused: bool)
      requires Valid() && task in all && task in tasks.elems
      modifies tasks, tasks.elems`next, tasks.elems`prev, tasks.elems`list
      ensures refused == tasks.checkDuplicates
      ensures refused ==> Valid() && tasks.elems == old(tasks.elems) && Prio() == old(Prio()) && Ready() == old(Ready())
      ensures !refused ==> forall s: seq<Element> :: !tasks.Holds(s)
    {
      var next, last, k := FindPlace(task.priority);
      PlaceOfListed(tasks.elems, Prio(), task);
      assert next == tasks.elems[k] && task.priority <= last.priority;
      var status := tasks.AddBefore(next, task, k);
      refused := status == DuplicateError;
    }

    /** OSA_TaskCreate for a listed task: in a build that checks for duplicates the call is refused after the fact; in
        one that does not, the task list is no list any more. */
    method TaskCreateListed(task: Element, priority: nat) returns (refused: bool)
      requires Valid() && task in all && task in tasks.elems
      modifies tasks, all
      ensures refused == tasks.checkDuplicates
      ensures refused ==>
                && Valid()
                && View() == State(old(View()).order, old(View()).prio[task := priority], old(View()).ready + {task})
      ensures !refused ==> forall s: seq<Element> :: !tasks.Holds(s)
    {
      SetRank(task, priority, true);
      refused := EnqueueListed(task);
    }

    /** OSA_TaskCreate for a task that is not listed. */
    method TaskCreate(task: Element, priority: nat)
      requires Valid() && task in all && task !in tasks.elems
      modifies tasks, all
      ensures Valid() && View() == Apply(old(View()), Create(task, priority))
      ensures Ready() == old(Ready()) + {task} && Prio() == old(Prio())[task := priority]
      ensures task.haveToRun == 1 && task.priority == priority
      ensures PutInPlace(old(tasks.elems), tasks.elems, task, Prio(), priority)
    {
      ghost var s := View();
      SetRank(task, priority, true);
      Enqueue(task, s.order, s.prio[task := priority], priority);
      PlacePutsInPlace(s.order, task, s.prio[task := priority], priority);
    }

    /** Takes a task out of the list, if it is in it, and puts it where its new priority belongs. */
    method Rerank(task: Element, priority: nat, ghost rest: seq<Element>, ghost prio: map<Element, nat>)
      requires Valid() && task in all && rest == Removed(tasks.elems, task) && rest != []
      requires prio == Prio()[task := priority] && task !in rest && forall t :: t in rest ==> t in prio
      modifies tasks, all
      ensures Valid() && tasks.elems == InsertedAt(rest, Place(rest, prio, priority), task)
      ensures Prio() == prio && Ready() == old(Ready())
    {
      var next, last, k := SetPriorityWalk(task, priority);
      Requeue(task, next, last, k);
    }

    /** OSA_TaskSetPriority, called while another task is listed. */
    method TaskSetPriority(task: Element, priority: nat)
      requires Valid() && task in all && Removed(tasks.elems, task) != []
      modifies tasks, all
      ensures Valid() && View() == Apply(old(View()), SetPriority(task, priority))
      ensures Ready() == old(Ready()) && Prio() == old(Prio())[task := priority]
      ensures PutInPlace(Removed(old(tasks.elems), task), tasks.elems, task, Prio(), priority)
    {
      ghost var s := View();
      ghost var rest, prio := Removed(s.order, task), s.prio[task := priority];
      RerankedState(s, task, priority, rest, prio);
      PlacePutsInPlace(rest, task, prio, priority);
      Rerank(task, priority, rest, prio);
    }

    /** OSA_TaskDestroy. */
    method TaskDestroy(task: Element)
      requires Valid() && task in all
      modifies tasks, all
      ensures Valid() && View() == Apply(old(View()), Destroy(task))
      ensures Ready() == old(Ready()) && Prio() == old(Prio())
      ensures TakenOut(old(tasks.elems), tasks.elems, task)
    {
      ViewProper();
      RemovedTakenOut(View(), task);
      Delist(task);
    }

    /** The flag by which semaphores, events and queues wake and stop a task. */
    method SetReady(task: Element, ready: bool)
      requires Valid() && task in all
      modifies task`haveToRun
      ensures Valid() && Prio() == old(Prio())
      ensures Ready() == if ready then old(Ready()) + {task} else old(Ready()) - {task}
    {
      task.haveToRun := if ready then 1 else 0;
    }

    /** One thing a task body does. */
    method Perform(a: Action)
      requires Valid() && a.task in all
      modifies tasks, all
      ensures Valid() && View() == Apply(old(View()), a)
      ensures Ready() == if a.Signal? || (a.Create? && a.task !in old(tasks.elems)) then old(Ready()) + {a.task}
                         else if a.Block? then old(Ready()) - {a.task}
                         else old(Ready())
      ensures Prio() == if (a.Create? && a.task !in old(tasks.elems))
                           || (a.SetPriority? && Removed(old(tasks.elems), a.task) != [])
                        then old(Prio())[a.task := a.priority] else old(Prio())
      ensures a.Signal? || a.Block? || (a.Create? && a.task in old(tasks.elems)) ==> tasks.elems == old(tasks.elems)
      ensures a.Create? && a.task !in old(tasks.elems) ==>
                PutInPlace(old(tasks.elems), tasks.elems, a.task, Prio(), a.priority)
      ensures a.SetPriority? ==>
                var rest := Removed(old(tasks.elems), a.task);
                if rest == [] then tasks.elems == old(tasks.elems)
                else PutInPlace(rest, tasks.elems, a.task, Prio(), a.priority)
      ensures a.Destroy? ==> TakenOut(old(tasks.elems), tasks.elems, a.task)
    {
      match a {
        case Signal(t) =>
          SetReady(t, true);
        case Block(t) =>
          SetReady(t, false);
        case Create(t, p) =>
          if t.list == null {
            TaskCreate(t, p);
          }
        case Destroy(t) =>
          TaskDestroy(t);
        case SetPriority(t, p) =>
          if tasks.size > 1 || (tasks.size == 1 && t.list == null) {
            TaskSetPriority(t, p);
          }
      }
    }

    /** A task body, run to completion. */
    method RunBody(body: seq<Action>)
      requires Valid() && forall a :: a in body ==> a.task in all
      modifies tasks, all
      ensures Valid() && View() == ApplyAll(old(View()), body)
      ensures forall p :: 0 <= p < |body| && body[p].Block? && !WakesSomewhere(body[p + 1..], body[p].task) ==>
                body[p].task !in Ready()
      ensures forall p :: 0 <= p < |body| && body[p].Signal? && Block(body[p].task) !in body[p + 1..] ==>
                body[p].task in Ready()
    {
      ghost var s := View();
      ViewProper();
      LastWords(s, body);
      for i := 0 to |body|
        invariant Valid() && Proper(View())
        invariant ApplyAll(s, body) == ApplyAll(View(), body[i..])
      {
        ApplyKeeps(View(), body[i]);
        Perform(body[i]);
      }
    }

    /** OSA_TaskShouldYield. */
    method TaskShouldYield() returns (status: nat)
      requires Valid()
      ensures status == if NoneReady(View()) then 0 else 1
    {
      status := 0;
      var element := tasks.head;
      ghost var i := 0;
      while element != null
        invariant 0 <= i <= FirstReady(tasks.elems, Ready()) && element == After(tasks.elems, i - 1) && status == 0
        decreases |tasks.elems| - i
      {
        if element.haveToRun == 1 {
          status := 1;
          break;
        }
        element := element.next;
        i := i + 1;
      }
      NoneReadyExactly(View());
    }

    /** The run of `script` from the state `s` has so far run the bodies of `ran`. */
    ghost predicate InRun(s: State, script: seq<seq<Action>>, ran: seq<Element>)
      reads tasks, tasks.elems, all
    {
      Valid() && Proper(s) && Proper(View()) && |ran| <= |script| && Continues(s, script, ran, View())
    }

    /** Runs the body of the first ready task. */
    method Dispatch(task: Element, body: seq<Action>, ghost s: State, ghost script: seq<seq<Action>>,
                    ghost ran: seq<Element>)
      requires InRun(s, script, ran) && |ran| < |script| && body == script[|ran|]
      requires forall a :: a in body ==> a.task in all
      requires FirstReady(tasks.elems, Ready()) < |tasks.elems| && task == tasks.elems[FirstReady(tasks.elems, Ready())]
      modifies this`curTask, tasks, all
      ensures InRun(s, script, ran + [task]) && curTask == task
    {
      curTask := task;
      ContinuesOne(s, script, ran, View());
      RunBody(body);
    }

    /** Goes past a task that is not ready. */
    method Skip(task: Element, ghost i: nat, ghost s: State, ghost script: seq<seq<Action>>, ghost ran: seq<Element>)
      returns (next: Element?)
      requires InRun(s, script, ran)
      requires i <= FirstReady(tasks.elems, Ready()) && i < |tasks.elems| && task == tasks.elems[i] && task !in Ready()
      modifies this`curTask
      ensures InRun(s, script, ran) && tasks.elems == old(tasks.elems) && curTask == task
      ensures next == After(tasks.elems, i) && i + 1 <= FirstReady(tasks.elems, Ready())
    {
      StillNoneReady(tasks.elems, Ready(), i);
      curTask := task;
      next := task.next;
    }

    /** The inner loop of OSA_ProcessTasks, from the head of the list; a null element says that it has ended. */
    method RunReady(script: seq<seq<Action>>, before: seq<Element>, ghost s: State)
      returns (ran: seq<Element>, element: Element?)
      requires InRun(s, script, before) && forall body, a :: body in script && a in body ==> a.task in all
      modifies this`curTask, tasks, all
      ensures InRun(s, script, ran)
      ensures if element == null then NoneReady(View()) else |ran| == |script| && !NoneReady(View())
    {
      ran, element := before, tasks.head;
      ghost var i := 0;
      while element != null
        invariant InRun(s, script, ran)
        invariant 0 <= i <= FirstReady(tasks.elems, Ready()) && element == After(tasks.elems, i - 1)
        decreases |script| - |ran|, |tasks.elems| - i
      {
        StillNoneReady(tasks.elems, Ready(), i);
        var task: Element := element;
        if task.haveToRun != 0 {
          if |ran| == |script| {
            NoneReadyExactly(View());
            return;
          }
          Dispatch(task, script[|ran|], s, script, ran);
          ran := ran + [task];
          element := tasks.head;
          i := 0;
        } else {
          element := Skip(task, i, s, script, ran);
          i := i + 1;
        }
      }
      AfterLast(tasks.elems, i);
      NoneReadyExactly(View());
    }

    /** OSA_ProcessTasks.  The `j`-th body to run does what `script[j]` says; if the script ends first, so does the
        model. */
    method ProcessTasks(script: seq<seq<Action>>) returns (ran: seq<Element>, done: bool)
      requires Valid()
      requires forall body, a :: body in script && a in body ==> a.task in all
      modifies this`curTask, tasks, all
      ensures Valid() && (View(), ran) == Run(old(View()), script)
      ensures done <==> NoneReady(View())
      ensures |ran| <= |script| && RunsOnlyWoken(script, ran)
    {
      ran := [];
      ghost var s := View();
      ViewProper();
      NoneReadyExactly(s);
      ContinuesFirst(s, script);
      var element := tasks.head;
      while element != null
        invariant InRun(s, script, ran)
        invariant element == null ==> NoneReady(View())
        decreases if element == null then 0 else 1
      {
        ran, element := RunReady(script, ran, s);
        if element != null {
          break;
        }
      }
      done := element == null;
      RunOnlyWoken(s, script);
      ContinuesLast(s, script, ran, View());
    }
  }

  method TwoTasks() returns (scheduler: Scheduler, a: Element, b: Element)
    ensures fresh(scheduler) && fresh(scheduler.tasks) && fresh(a) && fresh(b) && scheduler.Valid()
    ensures scheduler.tasks.checkDuplicates && scheduler.all == {a, b} && a != b
    ensures scheduler.View().order == [a, b] && scheduler.View().prio[b] == 2
  {
    a := new Element();
    b := new Element();
    scheduler := new Scheduler({a, b}, true);
    CreateTwo(scheduler, a, b);
  }

  method CreateTwo(scheduler: Scheduler, a: Element, b: Element)
    requires scheduler.Valid() && scheduler.View().order == []
    requires a in scheduler.all && b in scheduler.all && a != b
    modifies scheduler.tasks, scheduler.all
    ensures scheduler.Valid() && scheduler.View().order == [a, b] && scheduler.View().prio[b] == 2
  {
    scheduler.ViewProper();
    TwoCreates(scheduler.View(), a, b);
    scheduler.TaskCreate(b, 2);
    scheduler.TaskCreate(a, 1);
  }

  /** A task just created is one that has to run. */
  method CreatedYields(scheduler: Scheduler, task: Element, priority: nat) returns (status: nat)
    requires scheduler.Valid() && task in scheduler.all && task !in scheduler.tasks.elems
    modifies scheduler.tasks, scheduler.all
    ensures scheduler.Valid() && status == 1
  {
    scheduler.TaskCreate(task, priority);
    assert task in scheduler.tasks.elems && task in scheduler.Ready();
    status := scheduler.TaskShouldYield();
  }

  /** The only task, whose body blocks it, runs once. */
  method BlocksItself(scheduler: Scheduler, a: Element) returns (ran: seq<Element>, done: bool)
    requires scheduler.Valid() && scheduler.tasks.elems == [] && a in scheduler.all
    modifies scheduler`curTask, scheduler.tasks, scheduler.all
    ensures ran == [a] && done
  {
    scheduler.TaskCreate(a, 1);
    assert scheduler.tasks.elems == [a] && a in scheduler.Ready();
    scheduler.ViewProper();
    BlockedOnce(scheduler.View(), a, [[Block(a)], [Block(a)]]);
    ran, done := scheduler.ProcessTasks([[Block(a)], [Block(a)]]);
  }

  lemma Unsorted(s: State, a: Element, b: Element)
    requires Proper(s) && s.order == [a, b] && s.prio[a] == 3 && s.prio[b] == 2
    ensures !Sorted(s)
  {
    assert s.order[0] == a && s.order[1] == b;
  }

  /** Two tasks of priorities 1 and 2 are listed; creating the first again, with 3, is refused and unsorts the list. */
  method RefusedCreateUnsorts() returns (scheduler: Scheduler)
    ensures fresh(scheduler) && scheduler.Valid() && Proper(scheduler.View()) && !Sorted(scheduler.View())
  {
    var a, b;
    scheduler, a, b := TwoTasks();
    assert a == scheduler.View().order[0];
    var refused := scheduler.TaskCreateListed(a, 3);
    scheduler.ViewProper();
    Unsorted(scheduler.View(), a, b);
  }
}
