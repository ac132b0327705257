/** Interrupts and system calls as atomic steps (every gate is an interrupt gate): what each saves,
    and which task runs next. */
module Traps {
  import opened Words
  import opened TaskList
  import opened Tasks
  import opened ProcessTable

  const TOTAL_INTERRUPTS := 256

  /** What a registered interrupt callback does to the scheduler. */
  datatype Callback = Unregistered | Exception | Clock | Keyboard

  /** idt_init and classic_keyboard_init: 0..31 exceptions, 32 clock, 33 keyboard. Gates 0 and 0x80 have handlers
      of their own and do not lead here, so the callback of interrupt 0 is never called. */
  function Callbacks(): seq<Callback> {
    seq(TOTAL_INTERRUPTS, n => if n < 0x20 then Exception else if n == 0x20 then Clock
                               else if n == 0x21 then Keyboard else Unregistered)
  }

  /** The running task and every task's saved register record. */
  datatype Machine = Machine(current: int, registers: map<int, Registers>)

  function SaveCurrent(m: Machine, frame: Frame): Machine {
    m.(registers := m.registers[m.current := Saved(frame)])
  }

  /** A trap, as far as records and the running task are concerned. An unregistered interrupt saves
      nothing and resumes; everything else saves the running task first. A load links a new task with
      its initial record; it is switched to unless its arguments or its memory cannot be set up. */
  datatype Event =
    | Ignored(frame: Frame)
    | Resumed(frame: Frame)
    | Switched(frame: Frame, to: int)
    | Created(frame: Frame, task: int, entry: u32)
    | Loaded(frame: Frame, task: int, entry: u32)

  function WithNewTask(m: Machine, frame: Frame, task: int, entry: u32): Machine {
    var saved := SaveCurrent(m, frame);
    saved.(registers := saved.registers[task := InitialRegisters(entry)])
  }

  ghost predicate Step(m: Machine, e: Event, m': Machine) {
    match e
    case Ignored(_) => m' == m
    case Resumed(frame) => m' == SaveCurrent(m, frame)
    case Switched(frame, to) => m' == SaveCurrent(m, frame).(current := to)
    case Created(frame, task, entry) => task != m.current && m' == WithNewTask(m, frame, task, entry)
    case Loaded(frame, task, entry) =>
      task != m.current && m' == WithNewTask(m, frame, task, entry).(current := task)
  }

  /** The list after the running task's end: removal moves on to the next task, and task_next, unless
      the kernel has stopped, moves on once more. */
  function AfterExit<T(==)>(s: Sched<T>, stopped: bool): Sched<T>
    requires s.current.Some? && s.current.value in s.order
  {
    var s' := Remove(s, s.current.value);
    if stopped then s' else AfterNext(s')
  }

  /** task_next, if there is a task to go on from. */
  function AfterNext<T(==)>(s: Sched<T>): Sched<T> {
    if s.current.None? || s.current.value !in s.order then s else Next(s)
  }

  /** Who runs when the running task of a well-formed list exits: the one task left of two, the one behind the
      successor of three or more, and nobody when it was the only one. */
  ghost predicate RunsAfterExit(s: Sched<int>, now: int) {
    WellFormed(s) && s.current.Some? ==>
      var (n, i) := (|s.order|, IndexOf(s.order, s.current.value));
      && (n == 1 ==> now == 0)
      && (n == 2 ==> now == s.order[1 - i])
      && (n >= 3 ==> now == s.order[if i + 2 < n then i + 2 else i + 2 - n])
  }

  /** Every task of the list belongs to a process that has a slot. */
  predicate Owned(order: seq<int>, owner: map<int, int>, ids: map<int, int>) {
    forall t :: t in order ==> t in owner && owner[t] in ids
  }

  lemma OnlyFewer<T>(s: Sched<T>, t: T)
    requires t in s.order
    ensures forall x :: x in Remove(s, t).order ==> x in s.order
  {
  }

  lemma StillOwned(s: Sched<int>, t: int, owner: map<int, int>, ids: map<int, int>)
    requires t in s.order && Owned(s.order, owner, ids)
    ensures Owned(Remove(s, t).order, owner, ids)
  {
    OnlyFewer(s, t);
  }

  // ---- the handlers ----

  /** How a load command ends. Refused: no task is made. Undone: the task's memory cannot be mapped, so
      it is linked and removed again. Stranded: the process is there and current, but its arguments
      cannot be stored, so the caller goes on. Started: the new task runs. */
  datatype Outcome =
    | Refused
    | Undone(task: int, entry: u32)
    | Stranded(task: int, entry: u32, process: int)
    | Started(task: int, entry: u32, process: int)

  class Kernel {
    const sched: Scheduler
    const table: Table
    const callbacks: seq<Callback>
    var owner: map<int, int>  // the process of every task
    var lost: bool            // task_next was called without a current task

    constructor (sched: Scheduler, table: Table)
      ensures this.sched == sched && this.table == table && callbacks == Callbacks() && owner == map[] && !lost
    {
      this.sched, this.table := sched, table;
      callbacks := Callbacks();
      owner, lost := map[], false;
    }

    /** The kernel has not stopped, and every listed task belongs to a process with a slot. */
    ghost predicate Running()
      reads this, sched, table, table.processes
    {
      && sched.Valid() && sched.current != 0 && table.Indexed() && !table.panicked && !lost
      && callbacks == Callbacks() && Owned(sched.order, owner, table.ids)
    }

    /** The process has left the table; the kernel panicked exactly if it was the current one and the
        last. */
    ghost predicate Exited(processes: seq<int>, current: int, process: int)
      reads table, table.processes
    {
      && table.Indexed() && |processes| == MAX_PROCESSES && process in table.ids
      && table.processes[..] == processes[table.ids[process] := 0]
      && (table.panicked <==> current == process && table.Empty())
    }

    ghost predicate Stopped()
      reads this, table
    {
      table.panicked || lost
    }

    ghost function View(): Machine
      reads sched
    {
      Machine(sched.current, sched.registers)
    }

    /** task_current_save_state, field by field. */
    method CurrentSaveState(frame: Frame)
      requires sched.Valid() && sched.current != 0
      modifies sched`registers
      ensures sched.Valid() && sched.Abs() == old(sched.Abs())
      ensures View() == SaveCurrent(old(View()), frame)
      ensures sched.current in sched.registers && HoldsFrame(sched.registers[sched.current], frame)
    {
      var record := Registers(
        frame.edi, frame.esi, frame.ebp, frame.ebx, frame.edx, frame.ecx, frame.eax,
        frame.ip, frame.cs, frame.flags, frame.esp, frame.ss);
      sched.registers := sched.registers[sched.current := record];
    }

    /** process_terminate for the running task's process: the task leaves the list, which already moves
        on to the next one, and the process leaves the table. */
    method TerminateProcess()
      requires Running()
      modifies sched, table, table.processes
      ensures sched.Valid() && sched.registers == old(sched.registers)
      ensures table.ids == old(table.ids) && owner == old(owner) && Owned(sched.order, owner, table.ids)
      ensures Exited(old(table.processes[..]), old(table.current), old(owner[sched.current]))
      ensures sched.Abs() == Remove(old(sched.Abs()), old(sched.current))
    {
      var process := owner[sched.current];
      StillOwned(sched.Abs(), sched.current, owner, table.ids);
      sched.ListRemove(sched.current);
      table.Unlink(process);
    }

    /** task_next. Without a current task it follows a null pointer. */
    method TaskNext()
      requires sched.Valid() && !lost
      modifies `lost, sched`current
      ensures sched.Valid() && (lost || sched.current != 0)
      ensures lost <==> old(sched.Abs()).order == []
      ensures sched.Abs() == AfterNext(old(sched.Abs()))
    {
      if sched.current == 0 {
        lost := true;
        return;
      }
      sched.SwitchToNext();
    }

    /** process_terminate and task_next: the list moves on twice, unless the kernel panics in between or
        no task is left. */
    method TerminateCurrent()
      requires Running()
      modifies this, sched, table, table.processes
      ensures sched.Valid() && sched.registers == old(sched.registers) && (Running() || Stopped())
      ensures Exited(old(table.processes[..]), old(table.current), old(owner[sched.current]))
      ensures lost <==> !table.panicked && Remove(old(sched.Abs()), old(sched.current)).order == []
      ensures sched.Abs() == AfterExit(old(sched.Abs()), table.panicked)
      ensures !table.panicked ==> RunsAfterExit(old(sched.Abs()), sched.current)
      ensures table.ids == old(table.ids) && owner == old(owner)
    {
      ghost var s := sched.Abs();
      TerminateProcess();
      if !table.panicked {
        TaskNext();
        ExitRuns(s, sched.current);
      }
    }

    /** interrupt_handler, to which every gate leads but 0 (divide_by_zero, which only prints) and 0x80. */
    method InterruptHandler(interrupt: int, frame: Frame)
      requires Running() && 0 <= interrupt < TOTAL_INTERRUPTS
      modifies this, sched, table, table.processes
      ensures sched.Valid() && (Running() || Stopped())
      ensures Step(old(View()),
                   if interrupt <= 32 then Switched(frame, sched.current)
                   else if interrupt == 33 then Resumed(frame)
                   else Ignored(frame),
                   View())
      ensures interrupt <= 33 ==>
                old(sched.current) in sched.registers && HoldsFrame(sched.registers[old(sched.current)], frame)
      ensures interrupt >= 32 ==> Running() && table.processes[..] == old(table.processes[..])
      ensures interrupt < 32 ==> Exited(old(table.processes[..]), old(table.current), old(owner[sched.current]))
      ensures interrupt < 32 && !table.panicked ==> RunsAfterExit(old(sched.Abs()), sched.current)
      ensures interrupt == 32 ==> sched.current == old(NextIn(sched.order, sched.current))
      ensures sched.Abs() ==
                if interrupt < 32 then AfterExit(old(sched.Abs()), table.panicked)
                else if interrupt == 32 then Next(old(sched.Abs()))
                else old(sched.Abs())
    {
      if callbacks[interrupt] != Unregistered {
        CurrentSaveState(frame);
        match callbacks[interrupt]
        case Exception => TerminateCurrent();
        case Clock => sched.SwitchToNext();
        case _ =>
      }
    }

    /** A new task structure at an address that no live or stale pointer of the list names, on a
        list whose tail is in place. */
    ghost predicate Fresh(task: int)
      reads sched
    {
      && task != 0 && task !in sched.order && task != sched.tail && task != sched.current
      && sched.order != [] && sched.tail == sched.order[|sched.order| - 1]
      && forall t :: t in sched.order && t in sched.prev ==> sched.prev[t] != task
    }

    /** What a load can have made: a fresh task and, if it was carried through, a fresh process and a
        slot for it. Only a command with arguments can be stranded. */
    ghost predicate Possible(command: int, outcome: Outcome)
      reads sched, table, table.processes
    {
      match outcome
      case Refused => true
      case Undone(task, _) => Fresh(task)
      case Stranded(task, _, process) =>
        command == 7 && Fresh(task) && process != 0 && process !in table.ids && 0 in table.processes[..]
      case Started(task, _, process) =>
        Fresh(task) && process != 0 && process !in table.ids && 0 in table.processes[..]
    }

    /** The end of a load that went through: the task belongs to the process, which is in the table. */
    method LinkProcess(task: int, entry: u32, process: int)
      requires Running() && Fresh(task) && process != 0 && process !in table.ids && 0 in table.processes[..]
      modifies this, sched, table, table.processes
      ensures Running() && sched.current == old(sched.current) && table.current == process
      ensures sched.Abs() == Add(old(sched.Abs()), task) && task in sched.order
      ensures sched.registers == old(sched.registers)[task := InitialRegisters(entry)]
    {
      sched.TaskNew(task, entry);
      owner := owner[task := process];
      var res;
      ghost var slot;
      res, slot := table.LoadSwitch(0, process);
    }

    /** What a load leaves of the list and of records and running task. */
    function ListAfter(s: Sched<int>, outcome: Outcome): Sched<int> {
      match outcome
      case Refused => s
      case Undone(task, _) => if task in Add(s, task).order then Remove(Add(s, task), task) else Add(s, task)
      case Stranded(task, _, _) => Add(s, task)
      case Started(task, _, _) => Add(s, task).(current := Some(task))
    }

    function EventOf(frame: Frame, outcome: Outcome): Event {
      match outcome
      case Refused => Resumed(frame)
      case Undone(task, entry) => Created(frame, task, entry)
      case Stranded(task, entry, _) => Created(frame, task, entry)
      case Started(task, entry, _) => Loaded(frame, task, entry)
    }

    /** The load commands, once the caller's registers are saved. */
    method Load(ghost command: int, outcome: Outcome)
      requires Running() && Possible(command, outcome)
      modifies this, sched, table, table.processes
      ensures Running() && sched.Abs() == ListAfter(old(sched.Abs()), outcome)
      ensures match outcome
              case Refused => View() == old(View())
              case Undone(task, entry) =>
                View() == old(View().(registers := sched.registers[task := InitialRegisters(entry)]))
              case Stranded(task, entry, process) =>
                View() == old(View().(registers := sched.registers[task := InitialRegisters(entry)]))
                && table.current == process
              case Started(task, entry, process) =>
                View() == Machine(task, old(sched.registers[task := InitialRegisters(entry)]))
                && table.current == process
    {
      match outcome {
        case Refused =>
        case Undone(task, entry) => Undo(task, entry);
        case Stranded(task, entry, process) => LinkProcess(task, entry, process);
        case Started(task, entry, process) =>
          LinkProcess(task, entry, process);
          sched.current := task;
      }
    }

    /** task_new followed by task_free. */
    method Undo(task: int, entry: u32)
      requires Running() && Fresh(task)
      modifies sched
      ensures Running() && View() == old(View().(registers := sched.registers[task := InitialRegisters(entry)]))
      ensures task in Add(old(sched.Abs()), task).order
      ensures sched.Abs() == Remove(Add(old(sched.Abs()), task), task)
    {
      OnlyFewer(Add(sched.Abs(), task), task);
      sched.TaskNew(task, entry);
      sched.ListRemove(task);
    }

    /** isr80h_handler. */
    method Isr80hHandler(command: int, frame: Frame, outcome: Outcome)
      requires Running() && Possible(command, outcome)
      modifies this, sched, table, table.processes
      ensures sched.Valid() && (Running() || Stopped())
      ensures Step(old(View()),
                   if command == 9 then Switched(frame, sched.current)
                   else if command == 6 || command == 7 then EventOf(frame, outcome)
                   else Resumed(frame),
                   View())
      ensures old(sched.current) in sched.registers && HoldsFrame(sched.registers[old(sched.current)], frame)
      ensures sched.Abs() ==
                if command == 9 then AfterExit(old(sched.Abs()), table.panicked)
                else if command == 6 || command == 7 then ListAfter(old(sched.Abs()), outcome)
                else old(sched.Abs())
      ensures if command == 9 then Exited(old(table.processes[..]), old(table.current), old(owner[sched.current]))
              else Running()
      ensures command == 9 && !table.panicked ==> RunsAfterExit(old(sched.Abs()), sched.current)
    {
      CurrentSaveState(frame);
      if command == 9 {
        TerminateCurrent();
      } else if command == 6 || command == 7 {
        Load(command, outcome);
      }
    }
  }

  /** A load that is undone leaves a well-formed list as it was. */
  lemma UndoneLeavesList<T>(s: Sched<T>, t: T)
    requires WellFormed(s) && s.order != [] && t !in s.order
    ensures Remove(Add(s, t), t) == s
  {
    AddKeepsWellFormed(s, t);
    RemoveFromWellFormed(Add(s, t), t);
    IndexIsUnique(Add(s, t).order, |s.order|);
  }

  /** After an exit on a well-formed list the dead task's successor runs next if and only if the list
      had two tasks. With three or more it is passed over and the one behind it runs. */
  lemma ExitSkipsSuccessor<T>(s: Sched<T>, i: nat)
    requires WellFormed(s) && i < |s.order| && s.current == Some(s.order[i])
    ensures Remove(s, s.order[i]).order == [] <==> |s.order| == 1
    ensures |s.order| == 1 ==> AfterExit(s, false).current == None
    ensures |s.order| >= 2 ==>
              (AfterExit(s, false).current == Some(s.order[if i + 1 < |s.order| then i + 1 else 0]) <==> |s.order| == 2)
    ensures |s.order| >= 3 ==>
              AfterExit(s, false).current == Some(s.order[if i + 2 < |s.order| then i + 2 else i + 2 - |s.order|])
  {
    var t := s.order[i];
    IndexIsUnique(s.order, i);
    RemoveFromWellFormed(s, t);
    if |s.order| >= 2 {
      var s' := Remove(s, t);
      var k := if i < |s'.order| then i else 0;
      DropFacts(s.order, i);
      IndexIsUnique(s'.order, k);
    }
  }

  lemma ExitRuns(s: Sched<int>, now: int)
    requires s.current.Some? && s.current.value in s.order && 0 !in s.order
    requires Opt(now) == AfterExit(s, false).current
    ensures RunsAfterExit(s, now)
  {
    if WellFormed(s) {
      ExitSkipsSuccessor(s, IndexOf(s.order, s.current.value));
    }
  }

  // ---- every run ----

  ghost predicate Run(states: seq<Machine>, events: seq<Event>) {
    && |states| == |events| + 1
    && forall i :: 0 <= i < |events| ==> StepAt(states, events, i)
  }

  ghost predicate StepAt(states: seq<Machine>, events: seq<Event>, i: int)
    requires |states| == |events| + 1 && 0 <= i < |events|
  {
    Step(states[i], events[i], states[i + 1])
  }

  /** The trap creates task t. */
  predicate Makes(e: Event, t: int) {
    (e.Created? || e.Loaded?) && e.task == t
  }

  /** How task t was last heard of: it was there at the beginning with some record, it was created to start at an
      entry point, or it was interrupted with a frame. */
  datatype Seen = Never | There(record: Registers) | Made(entry: u32) | Stopped(frame: Frame)

  /** Read off the history of traps alone, without looking at any later record. */
  ghost function LastSeen(states: seq<Machine>, events: seq<Event>, t: int, k: nat): Seen
    requires |states| == |events| + 1 && k <= |events|
  {
    if k == 0 then (if t in states[0].registers then There(states[0].registers[t]) else Never)
    else if Makes(events[k - 1], t) then Made(events[k - 1].entry)
    else if states[k - 1].current == t then Stopped(events[k - 1].frame)
    else LastSeen(states, events, t, k - 1)
  }

  /** The record is as the task was last heard of, field by field. */
  ghost predicate Faithful(registers: map<int, Registers>, t: int, seen: Seen) {
    match seen
    case Never => t !in registers
    case There(record) => t in registers && registers[t] == record
    case Made(entry) => t in registers && HoldsStart(registers[t], entry)
    case Stopped(frame) => t in registers && HoldsFrame(registers[t], frame)
  }

  /** In every run of traps, the saved record of every task that is not running carries exactly the frame
      of its last interrupt; a task that has never run keeps its initial record. */
  lemma {:induction false} RecordsAreFaithful(states: seq<Machine>, events: seq<Event>, t: int, k: nat)
    requires Run(states, events) && k <= |events| && t != states[k].current
    ensures Faithful(states[k].registers, t, LastSeen(states, events, t, k))
  {
    if k > 0 {
      assert StepAt(states, events, k - 1);
      if t != states[k - 1].current {
        RecordsAreFaithful(states, events, t, k - 1);
      }
    }
  }
}
