/** The kernel's task list: a doubly linked list with head, tail and current pointers. */
module Scheduler {
  import opened Bits
  import opened HeapTable
  import opened HeapRuns
  import opened KernelHeap
  import opened AddressSpace
  import opened Paging
  import opened RoundRobin

  class Task {
    const self: Word           // the task record's own address
    const pageDirectory: Word  // chunk of its address space
    var next: Task?
    var prev: Task?

    constructor (self: Word, pageDirectory: Word)
      ensures this.self == self && this.pageDirectory == pageDirectory
      ensures next == null && prev == null
    {
      this.self, this.pageDirectory, next, prev := self, pageDirectory, null, null;
    }
  }

  /** next and prev run through the tasks in order, in both directions. */
  ghost predicate Linked(ts: seq<Task>)
    reads ts
  {
    && (forall i {:trigger ts[i].prev} | 0 <= i < |ts| :: ts[i].prev == if i == 0 then null else ts[i - 1])
    && (forall i {:trigger ts[i].next} | 0 <= i < |ts| :: ts[i].next == if i == |ts| - 1 then null else ts[i + 1])
  }

  lemma Neighbours(ts: seq<Task>, i: nat)
    requires Linked(ts) && i < |ts|
    ensures ts[i].prev == (if i == 0 then null else ts[i - 1])
    ensures ts[i].next == (if i == |ts| - 1 then null else ts[i + 1])
  {
  }

  lemma LinksStayInside(ts: seq<Task>)
    requires Linked(ts)
    ensures forall t | t in ts :: (t.next == null || t.next in ts) && (t.prev == null || t.prev in ts)
  {
  }

  /** Take a task out between its neighbours; its own links stay. */
  method Unlink(task: Task, ghost ts: seq<Task>, ghost i: nat)
    requires Linked(ts) && Distinct(ts) && i < |ts| && ts[i] == task
    modifies ts
    ensures Linked(Without(ts, i)) && task.prev == old(task.prev) && task.next == old(task.next)
  {
    Neighbours(ts, i);
    if task.prev != null {
      task.prev.next := task.next;
    }
    if task.next != null {
      task.next.prev := task.prev;
    }
  }

  class Scheduler {
    var head: Task?
    var tail: Task?
    var current: Task?
    ghost var ring: Ring<Task>

    /** prev and next mirror the order of the ring, head and tail are its ends, and there
        is a current task exactly when there is a task. */
    ghost predicate Valid()
      reads this, ring.tasks
    {
      var ts := ring.tasks;
      && Ok(ring)
      && head == (if ts == [] then null else ts[0])
      && tail == (if ts == [] then null else ts[|ts| - 1])
      && current == (if ts == [] then null else ts[ring.cur])
      && Linked(ts)
    }

    constructor ()
      ensures Valid() && ring == Ring([], 0)
    {
      head, tail, current, ring := null, null, null, Ring([], 0);
    }

    /** The list part of task_new. */
    method Append(task: Task)
      requires Valid() && task !in ring.tasks && task.next == null && task.prev == null
      modifies this, task, ring.tasks
      ensures Valid() && ring == Added(old(ring), task) && RingStep(old(ring), Add(task), ring)
      ensures ring.tasks == old(ring.tasks) + [task]
      ensures tail == task && task.next == null && task.prev == old(tail)
      ensures old(tail) != null ==> old(tail).next == task && head == old(head) && current == old(current)
      ensures old(tail) == null ==> head == task && current == task
    {
      ring := Added(ring, task);
      if head == null {
        head := task;
        tail := task;
        current := task;
        return;
      }
      tail.next := task;
      task.prev := tail;
      tail := task;
    }

    /** task_get_next, also evaluated in the middle of a removal. */
    function GetNext(): Task?
      requires current != null
      reads this, current
    {
      if current.next == null then head else current.next
    }

    lemma GetNextIsSuccessor()
      requires Valid() && current != null
      ensures GetNext() == Successor(ring)
    {
    }

    /** The pointer part of task_list_remove. */
    method Repoint(task: Task)
      requires current != null
      modifies `head, `tail, `current
      ensures head == if task == old(head) then task.next else old(head)
      ensures tail == if task == old(tail) then task.prev else old(tail)
      ensures current == if task != old(current) then old(current)
                         else if task.next == null then head else task.next
    {
      if task == head {
        head := task.next;
      }
      if task == tail {
        tail := task.prev;
      }
      if task == current {
        current := GetNext();
      }
    }

    /** The statements of task_list_remove: the list stays well formed. */
    method TakeOut(task: Task) returns (ghost i: nat)
      requires Valid() && task in ring.tasks
      modifies this, ring.tasks
      ensures Valid()
      ensures i < |old(ring).tasks| && old(ring).tasks[i] == task && ring == Removed(old(ring), i)
    {
      hide Linked, Without, Removed, Ok, Distinct;
      i :| i < |ring.tasks| && ring.tasks[i] == task;
      RemovalFacts(ring, i);
      ghost var ts, after := ring.tasks, Removed(ring, i);
      Neighbours(ts, i);
      Unlink(task, ts, i);
      assert Linked(after.tasks);
      Repoint(task);
      assert head == (if |ts| == 1 then null else after.tasks[0]);
      assert tail == (if |ts| == 1 then null else after.tasks[|ts| - 2]);
      assert current == (if |ts| == 1 then null else after.tasks[after.cur]);
      ring := after;
    }

    /** task_list_remove. */
    method ListRemove(task: Task) returns (ghost i: nat)
      requires Valid() && task in ring.tasks
      modifies this, ring.tasks
      ensures Valid()
      ensures i < |old(ring).tasks| && old(ring).tasks[i] == task && ring == Removed(old(ring), i)
      ensures RingStep(old(ring), Remove(task), ring)
      ensures ring.tasks == old(ring.tasks)[..i] + old(ring.tasks)[i + 1..]
      ensures current == if old(current) != task then old(current)
                         else if |old(ring.tasks)| == 1 then null
                         else old(ring.tasks)[if i + 1 == |old(ring.tasks)| then 0 else i + 1]
      ensures task !in ring.tasks && head != task && tail != task && current != task
      ensures forall t | t in ring.tasks :: t.next != task && t.prev != task
    {
      hide Linked, Without, Removed, Ok, Distinct;
      i := TakeOut(task);
      RemovalFacts(old(ring), i);
      LinksStayInside(ring.tasks);
    }

    /** task_next: the successor becomes current. */
    method Next()
      requires Valid() && current != null
      modifies this
      ensures Valid() && ring == Advanced(old(ring)) && current == Successor(old(ring))
      ensures RingStep(old(ring), TaskOp.Switch, ring)
      ensures current == if old(current.next) == null then old(head) else old(current.next)
      ensures ring.tasks == old(ring.tasks) && head == old(head) && tail == old(tail)
    {
      var next := GetNext();
      GetNextIsSuccessor();
      assert next != null;
      Switch(next);
      ring := Advanced(ring);
    }

    /** task_switch. */
    method Switch(task: Task)
      modifies `current
      ensures current == task
    {
      current := task;
    }
  }
  // ---- Tasks and their memory ----

  const TASK_SIZE: Word := 64

  /** The blocks a task holds: its record and its address space. */
  ghost predicate HoldsTask(h: Heap, task: Task, sp: Space)
    reads h, h.pool
  {
    && Wired(h.saddr, h.pool[..], sp) && Owned(h.live, sp)
    && task.pageDirectory == h.AddressOf(sp.chunk)
    && task.self >= h.saddr && task.self == h.AddressOf(h.BlockOf(task.self))
    && h.BlockOf(task.self) in h.live && h.BlockOf(task.self) !in Blocks(sp)
  }

  /** A fresh task's pages map to themselves, present, open to the user and read-only. */
  lemma FreshPages()
    ensures forall p: nat | p < PAGES :: var e := Identity(READ_ONLY)[p];
      Frame(e) == PAGE * p && Bit(e, 0) && !Bit(e, 1) && Bit(e, 2)
  {
    hide Bit;
    FlagValues();
    forall p: nat | p < PAGES
      ensures var e := Identity(READ_ONLY)[p];
        Frame(e) == PAGE * p && Bit(e, 0) && !Bit(e, 1) && Bit(e, 2)
    {
      OrFlags(PAGE * p, READ_ONLY);
      FlagDigits(Identity(READ_ONLY)[p], READ_ONLY);
    }
  }

  /** task_new, with memory for the record and the address space at hand. */
  method TaskNew(h: Heap, s: Scheduler) returns (task: Task, ghost sp: Space)
    requires h.Valid() && s.Valid() && FreeCount(h.entries[..]) >= WORDS + 3
    modifies h`live, h.entries, h.pool, s, s.ring.tasks
    ensures h.Valid() && s.Valid() && fresh(task) && s.ring == Added(old(s.ring), task)
    ensures s.ring.tasks == old(s.ring.tasks) + [task]
    ensures s.tail == task && task.next == null && task.prev == old(s.tail)
    ensures old(s.tail) != null ==> s.head == old(s.head) && s.current == old(s.current)
    ensures old(s.tail) == null ==> s.head == task && s.current == task
    ensures HoldsTask(h, task, sp)
    ensures var b := h.BlockOf(task.self);
      && b !in old(h.live) && Blocks(sp) !! old(h.live).Keys
      && h.live == old(h.live)[b := 1] + Singles(Blocks(sp))
      && SameOutside(old(h.pool[..]), h.pool[..], Blocks(sp) + {b})
      && Flat(h.saddr, h.pool[..], sp) == Identity(READ_ONLY)
      && forall p: nat | p < PAGES :: var e := Flat(h.saddr, h.pool[..], sp)[p];
           Frame(e) == PAGE * p && Bit(e, 0) && !Bit(e, 1) && Bit(e, 2)
  {
    hide Identity, Bit, Linked, Ok, Wired, Flat, FreeCount, Represents, DirFilled, Shape;
    var self := KzallocBlock(h, TASK_SIZE);
    ghost var b := h.BlockOf(self);
    var chunk;
    chunk, sp := New4Gb(h, READ_ONLY);
    assert b in old(h.live)[b := 1].Keys;
    FreshPages();
    task := new Task(self, chunk);
    s.Append(task);
  }

  /** task_free: the address space and the record are given back, and the list forgets
      the task. */
  method TaskFree(h: Heap, s: Scheduler, task: Task, ghost sp: Space) returns (ghost i: nat)
    requires h.Valid() && s.Valid() && task in s.ring.tasks && HoldsTask(h, task, sp)
    modifies h`live, h.entries, s, s.ring.tasks
    ensures h.Valid() && s.Valid() && task !in s.ring.tasks
    ensures RingStep(old(s.ring), Remove(task), s.ring)
    ensures i < |old(s.ring.tasks)| && old(s.ring.tasks)[i] == task
    ensures s.ring.tasks == old(s.ring.tasks)[..i] + old(s.ring.tasks)[i + 1..]
    ensures h.live == old(h.live) - (Blocks(sp) + {h.BlockOf(task.self)})
  {
    hide Linked, Ok, Wired, Represents, RingStep, Owned, Blocks, Freed, HeapStep, Removed;
    Free4Gb(h, task.pageDirectory, sp);
    i := s.ListRemove(task);
    RemoveOne(old(h.live), Blocks(sp), h.BlockOf(task.self));
    h.Free(task.self);
  }

  /** Creating a task and freeing it restores the heap table byte for byte. */
  lemma NewTaskFreeRestores(t: Table, live: Runs, b: nat, sp: Space, t': Table)
    requires Represents(t, live) && b !in live && Blocks(sp) !! live.Keys && |t| == |t'|
    requires Represents(t', live[b := 1] + Singles(Blocks(sp)) - (Blocks(sp) + {b}))
    ensures t' == t
  {
    assert live[b := 1] + Singles(Blocks(sp)) - (Blocks(sp) + {b}) == live;
    EncodingUnique(t, t', live);
  }
}
