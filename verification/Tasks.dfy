/** task.c: the linked list of task objects and the saved register records, updated in place. */
module Tasks {
  import opened Words
  import opened TaskList

  /** struct Registers: what is saved of a task that is not running. */
  datatype Registers = Registers(edi: u32, esi: u32, ebp: u32, ebx: u32, edx: u32, ecx: u32, eax: u32,
                                 ip: u32, cs: u32, flags: u32, esp: u32, ss: u32)

  /** struct InterruptFrame: pushad's slots (its stack pointer is `reserved`) and the trap frame. */
  datatype Frame = Frame(edi: u32, esi: u32, ebp: u32, reserved: u32, ebx: u32, edx: u32, ecx: u32, eax: u32,
                         ip: u32, cs: u32, flags: u32, esp: u32, ss: u32)

  /** The register record that describes an interrupted task. */
  function Saved(f: Frame): Registers {
    Registers(f.edi, f.esi, f.ebp, f.ebx, f.edx, f.ecx, f.eax, f.ip, f.cs, f.flags, f.esp, f.ss)
  }

  /** task_init's record: everything zero but the entry point, the user segments and the stack top. */
  function InitialRegisters(entry: u32): Registers {
    Registers(0, 0, 0, 0, 0, 0, 0, entry, 0x1B, 0, 0x3F_F000, 0x23)
  }

  /** The record carries the frame's values, field by field. */
  predicate HoldsFrame(r: Registers, f: Frame) {
    && r.edi == f.edi && r.esi == f.esi && r.ebp == f.ebp && r.ebx == f.ebx
    && r.edx == f.edx && r.ecx == f.ecx && r.eax == f.eax
    && r.ip == f.ip && r.cs == f.cs && r.flags == f.flags && r.esp == f.esp && r.ss == f.ss
  }

  /** The record of a task that starts at `entry` in user mode, with an empty stack. */
  predicate HoldsStart(r: Registers, entry: u32) {
    && r.ip == entry && r.cs == 0x1B && r.ss == 0x23 && r.esp == 0x3F_F000 && r.flags == 0
    && r.edi == r.esi == r.ebp == r.ebx == r.edx == r.ecx == r.eax == 0
  }

  function Opt(t: int): Option<int> {
    if t == 0 then None else Some(t)
  }

  // ---- the shape of the linked structure ----

  ghost predicate NextAt(order: seq<int>, next: map<int, int>, i: int)
    requires 0 <= i < |order|
  {
    order[i] in next && next[order[i]] == if i + 1 < |order| then order[i + 1] else 0
  }

  /** A back link names the predecessor, or a task that has left the chain. */
  ghost predicate PrevAt(order: seq<int>, prev: map<int, int>, i: int)
    requires 0 <= i < |order|
  {
    && order[i] in prev && prev[order[i]] != order[i]
    && if i == 0 then prev[order[0]] !in order
       else prev[order[i]] != 0 && (prev[order[i]] == order[i - 1] || prev[order[i]] !in order)
  }

  ghost predicate Ends(order: seq<int>, head: int, tail: int, current: int) {
    if order == [] then head == 0 && current == 0
    else
      && head == order[0] && current in order
      && tail != 0 && (tail == order[|order| - 1] || tail !in order)
  }

  /** `order` is the chain of next links from the head, ended by null. */
  ghost predicate Chained(order: seq<int>, next: map<int, int>, prev: map<int, int>) {
    && Distinct(order) && 0 !in order
    && (forall i :: 0 <= i < |order| ==> NextAt(order, next, i))
    && (forall i :: 0 <= i < |order| ==> PrevAt(order, prev, i))
  }

  /** The back links of the tasks in the list. */
  ghost function LinksOf(order: seq<int>, prev: map<int, int>): map<int, Option<int>> {
    map t | t in prev && t in order :: Opt(prev[t])
  }

  /** The list as a value. */
  ghost function AbsOf(order: seq<int>, prev: map<int, int>, tail: int, current: int): Sched<int> {
    Sched(order, LinksOf(order, prev), Opt(tail), Opt(current))
  }

  lemma LinksRestrict(order: seq<int>, order': seq<int>, prev: map<int, int>)
    requires forall x :: x in order' ==> x in order
    ensures LinksOf(order', prev) == Restricted(LinksOf(order, prev), order')
  {
    var l, r := LinksOf(order', prev), Restricted(LinksOf(order, prev), order');
    assert forall t :: t in l <==> t in r;
  }

  /** The chain after task_list_remove's one write through the back link. */
  lemma ChainedDrop(order: seq<int>, next: map<int, int>, prev: map<int, int>, i: nat)
    requires Chained(order, next, prev) && i < |order|
    requires i == 0 || (order[i] in prev && prev[order[i]] == order[i - 1])
    ensures order[i] in prev && order[i] in next
    ensures Chained(Drop(order, i), if prev[order[i]] != 0 then next[prev[order[i]] := next[order[i]]] else next, prev)
  {
    var order' := Drop(order, i);
    assert PrevAt(order, prev, i) && NextAt(order, next, i);
    var next' := if prev[order[i]] != 0 then next[prev[order[i]] := next[order[i]]] else next;
    DropFacts(order, i);
    forall k | 0 <= k < |order'| ensures NextAt(order', next', k) && PrevAt(order', prev, k) {
      var j := if k >= i then k + 1 else k;
      assert order'[k] == order[j];
      assert NextAt(order, next, j) && PrevAt(order, prev, j);
      if i == 0 {
        assert prev[order[0]] !in order;
      }
    }
  }

  /** When the back link is stale that write misses the chain. */
  lemma ChainedMissed(order: seq<int>, next: map<int, int>, prev: map<int, int>, i: nat)
    requires Chained(order, next, prev) && i < |order|
    requires order[i] in prev && i > 0 && prev[order[i]] != order[i - 1]
    ensures prev[order[i]] != 0 && order[i] in next
    ensures Chained(order, next[prev[order[i]] := next[order[i]]], prev)
  {
    assert PrevAt(order, prev, i) && NextAt(order, next, i);
    var next' := next[prev[order[i]] := next[order[i]]];
    forall k | 0 <= k < |order| ensures NextAt(order, next', k) {
      assert NextAt(order, next, k);
    }
  }

  lemma EndsAfterRemove(order: seq<int>, next: map<int, int>, prev: map<int, int>, head: int, tail: int, current: int,
                        i: nat)
    requires Chained(order, next, prev) && Ends(order, head, tail, current) && i < |order|
    ensures order[i] in prev && order[i] in next
    ensures var leaves := i == 0 || prev[order[i]] == order[i - 1];
            var head' := if i == 0 then next[order[i]] else head;
            var tail' := if tail == order[i] then prev[order[i]] else tail;
            var current' := if current != order[i] then current
                            else if next[order[i]] == 0 then head' else next[order[i]];
            Ends(if leaves then Drop(order, i) else order, head', tail', current')
  {
    DropFacts(order, i);
    assert NextAt(order, next, i) && NextAt(order, next, 0) && PrevAt(order, prev, i);
    var order' := Drop(order, i);
    assert i + 1 < |order| ==> order'[i] == order[i + 1];
    assert order' != [] ==> order'[|order'| - 1] == if i + 1 < |order| then order[|order| - 1] else order[i - 1];
  }

  /** The new globals are those of the removal on values. */
  lemma RemoveMatches(order: seq<int>, next: map<int, int>, prev: map<int, int>, head: int, tail: int, current: int,
                      i: nat)
    requires Chained(order, next, prev) && Ends(order, head, tail, current) && i < |order|
    ensures order[i] in prev && order[i] in next
    ensures var leaves := i == 0 || prev[order[i]] == order[i - 1];
            var head' := if i == 0 then next[order[i]] else head;
            var tail' := if tail == order[i] then prev[order[i]] else tail;
            var current' := if current != order[i] then current
                            else if next[order[i]] == 0 then head' else next[order[i]];
            AbsOf(if leaves then Drop(order, i) else order, prev, tail', current')
            == RemoveAt(AbsOf(order, prev, tail, current), i)
  {
    assert NextAt(order, next, i) && PrevAt(order, prev, i);
    assert i > 0 ==> order[i - 1] in order;
    CurrentMatches(order, next, head, i);
    ChainedHasLinks(order, next, prev);
    BackLinkIs(order, prev, tail, current, i);
    if i == 0 || prev[order[i]] == order[i - 1] {
      DropFacts(order, i);
      LinksRestrict(order, Drop(order, i), prev);
    } else {
      LinksRestrict(order, order, prev);
    }
  }

  lemma BackLinkIs(order: seq<int>, prev: map<int, int>, tail: int, current: int, i: nat)
    requires i < |order| && order[i] in prev && 0 !in order && PrevAt(order, prev, i)
    ensures order[i] in AbsOf(order, prev, tail, current).prev
    ensures BackLinkRight(AbsOf(order, prev, tail, current), i) <==>
              if i == 0 then prev[order[i]] == 0 else prev[order[i]] == order[i - 1]
  {
  }

  lemma CurrentMatches(order: seq<int>, next: map<int, int>, head: int, i: nat)
    requires i < |order| && head == order[0] && 0 !in order && NextAt(order, next, i)
    ensures var head' := if i == 0 then next[order[i]] else head;
            var c := if next[order[i]] == 0 then head' else next[order[i]];
            && (i + 1 < |order| ==> Opt(c) == Some(order[i + 1]))
            && (i + 1 == |order| && i > 0 ==> Opt(c) == Some(Drop(order, i)[0]) == Some(order[0]))
            && (|order| == 1 ==> Opt(c) == None && Drop(order, i) == [])
  {
    assert i + 1 < |order| ==> order[i + 1] in order;
  }

  lemma ChainedHasLinks(order: seq<int>, next: map<int, int>, prev: map<int, int>)
    requires Chained(order, next, prev)
    ensures forall t :: t in order ==> t in prev
  {
    forall t | t in order ensures t in prev {
      assert PrevAt(order, prev, IndexOf(order, t));
    }
  }

  lemma HeadIsFirst(order: seq<int>, i: nat)
    requires Distinct(order) && i < |order|
    ensures order[i] == order[0] <==> i == 0
  {
  }

  lemma AddMatches(order: seq<int>, prev: map<int, int>, tail: int, current: int, task: int)
    requires order != [] && task !in order && task != 0 && tail != 0
    requires forall t :: t in order ==> t in prev
    ensures AbsOf(if tail == order[|order| - 1] then order + [task] else order, prev[task := tail], task, current)
         == Add(AbsOf(order, prev, tail, current), task)
  {
  }

  /** No listed task's back link names this address. */
  predicate NoneNames(order: seq<int>, prev: map<int, int>, task: int) {
    forall t :: t in order && t in prev ==> prev[t] != task
  }

  /** The chain with a task behind its last one is in order unless a stale back link names the new task. */
  lemma ChainedAppend(order: seq<int>, next: map<int, int>, prev: map<int, int>, task: int)
    requires Chained(order, next, prev) && order != [] && task !in order && task != 0
    ensures var last := order[|order| - 1];
            Chained(order + [task], next[task := 0][last := task], prev[task := last]) <==> NoneNames(order, prev, task)
  {
    var last := order[|order| - 1];
    var order', next', prev' := order + [task], next[task := 0][last := task], prev[task := last];
    ChainedHasLinks(order, next, prev);
    forall k | 0 <= k < |order'|
      ensures NextAt(order', next', k) && (NoneNames(order, prev, task) ==> PrevAt(order', prev', k))
    {
      if k < |order| {
        assert NextAt(order, next, k) && PrevAt(order, prev, k);
        assert order[k] in order;
      }
    }
    if t :| t in order && prev[t] == task {
      StaleLinkBreaks(order, prev, task, IndexOf(order, t));
    }
  }

  lemma StaleLinkBreaks(order: seq<int>, prev: map<int, int>, task: int, i: nat)
    requires i < |order| && order[i] in prev && prev[order[i]] == task && task !in order && Distinct(order)
    ensures !PrevAt(order + [task], prev[task := order[|order| - 1]], i)
  {
    assert (order + [task])[|order|] == task;
    assert i > 0 ==> order[i - 1] in order;
  }

  lemma ChainedBesides(order: seq<int>, next: map<int, int>, prev: map<int, int>, tail: int, task: int)
    requires Chained(order, next, prev) && task !in order && tail !in order
    ensures Chained(order, next[task := 0][tail := task], prev[task := tail])
  {
    var next', prev' := next[task := 0][tail := task], prev[task := tail];
    forall k | 0 <= k < |order| ensures NextAt(order, next', k) && PrevAt(order, prev', k) {
      assert NextAt(order, next, k) && PrevAt(order, prev, k);
    }
  }

  /** The globals current_task, task_head and task_tail, and the fields of every task structure by
      its address; 0 is the null pointer. */
  class Scheduler {
    var current: int
    var head: int
    var tail: int
    var next: map<int, int>
    var prev: map<int, int>
    var registers: map<int, Registers>
    ghost var order: seq<int>

    constructor ()
      ensures Valid() && order == [] && registers == map[]
    {
      current, head, tail := 0, 0, 0;
      next, prev, registers := map[], map[], map[];
      order := [];
    }

    ghost predicate Valid()
      reads this
    {
      Chained(order, next, prev) && Ends(order, head, tail, current)
    }

    ghost function Abs(): Sched<int>
      reads this
    {
      AbsOf(order, prev, tail, current)
    }

    /** task_get_next. */
    method GetNext() returns (t: int)
      requires Valid() && current != 0
      ensures t == NextIn(order, current)
    {
      assert NextAt(order, next, IndexOf(order, current));
      if next[current] == 0 {
        return head;
      }
      return next[current];
    }

    /** The first task of an empty list. */
    method LinkFirst(task: int)
      requires Valid() && head == 0 && task != 0
      modifies this
      ensures Valid() && Abs() == Add(old(Abs()), task) && registers == old(registers)
    {
      next, prev := next[task := 0], prev[task := 0];
      head := task;
      tail := task;
      current := task;
      order := [task];
      assert NextAt(order, next, 0) && PrevAt(order, prev, 0);
    }

    /** Any later task goes behind the tail. */
    method LinkBehindTail(task: int)
      requires Valid() && order != [] && task != 0 && task !in order
      modifies this
      ensures Abs() == Add(old(Abs()), task) && registers == old(registers)
      ensures Valid() <==> old(TailAstray() || NoneNames(order, prev, task))
    {
      ChainedHasLinks(order, next, prev);
      AddMatches(order, prev, tail, current, task);
      if tail == order[|order| - 1] {
        ChainedAppend(order, next, prev, task);
        order := order + [task];
      } else {
        ChainedBesides(order, next, prev, tail, task);
      }
      next := next[task := 0][tail := task];
      prev := prev[task := tail];
      tail := task;
    }

    /** The tail is a task that is not in the list, so what is linked behind it is not either. */
    ghost predicate TailAstray()
      reads this
    {
      order != [] && tail != order[|order| - 1]
    }

    /** task_new, after the page directory: a cleared structure with the initial registers, linked
        behind the tail. Its address may be that of a task that was freed: the list stays in order exactly
        if the new task does not get into it or no stale back link of a listed task names it. */
    method TaskNew(task: int, entry: u32)
      requires Valid() && task != 0 && task !in order
      modifies this
      ensures Valid() <==> old(TailAstray() || NoneNames(order, prev, task))
      ensures Abs() == Add(old(Abs()), task)
      ensures registers == old(registers)[task := InitialRegisters(entry)] && HoldsStart(registers[task], entry)
    {
      registers := registers[task := InitialRegisters(entry)];
      if head == 0 {
        LinkFirst(task);
      } else {
        LinkBehindTail(task);
      }
    }

    /** The writes of task_list_remove, one field after the other. */
    method Unlink(task: int)
      requires task in next && task in prev && prev[task] != task
      modifies `next, `head, `tail, `current
      ensures next == if prev[task] != 0 then old(next)[prev[task] := old(next)[task]] else old(next)
      ensures head == if task == old(head) then old(next)[task] else old(head)
      ensures tail == if task == old(tail) then prev[task] else old(tail)
      ensures current == if task != old(current) then old(current)
                         else if old(next)[task] == 0 then head else old(next)[task]
    {
      if prev[task] != 0 {
        next := next[prev[task] := next[task]];
      }
      if task == head {
        head := next[task];
      }
      if task == tail {
        tail := prev[task];
      }
      if task == current {
        current := if next[current] == 0 then head else next[current];
      }
    }

    /** task_list_remove. */
    method ListRemove(task: int)
      requires Valid() && task in order
      modifies this
      ensures Valid()
      ensures Abs() == Remove(old(Abs()), task)
      ensures registers == old(registers)
    {
      ghost var i := IndexOf(order, task);
      assert PrevAt(order, prev, i) && NextAt(order, next, i);
      EndsAfterRemove(order, next, prev, head, tail, current, i);
      RemoveMatches(order, next, prev, head, tail, current, i);
      ghost var leaves := i == 0 || prev[task] == order[i - 1];
      if leaves {
        ChainedDrop(order, next, prev, i);
      } else {
        ChainedMissed(order, next, prev, i);
      }
      HeadIsFirst(order, i);
      Unlink(task);
      if leaves {
        order := Drop(order, i);
      }
    }

    /** task_next, up to the jump into user mode. */
    method SwitchToNext()
      requires Valid() && current != 0
      modifies `current
      ensures Valid()
      ensures Abs() == Next(old(Abs()))
      ensures current == NextIn(order, old(current))
    {
      var nextTask := GetNext();
      current := nextTask;
    }
  }
}
