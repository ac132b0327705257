/** The table of processes, the running process, and loading and unlinking. */
module ProcessTable {
  import opened Words

  const MAX_PROCESSES := 12

  class Table {
    const processes: array<int>   // process addresses; 0 is an empty slot
    var ids: map<int, int>        // the id field of every process record
    var current: int
    var panicked: bool
    ghost var started: bool       // some process has been loaded and switched to

    constructor ()
      ensures Valid() && Indexed() && Empty() && ids == map[] && !started && !panicked && fresh(processes)
    {
      processes := new int[MAX_PROCESSES](_ => 0);
      ids := map[];
      current, panicked, started := 0, false, false;
    }

    /** Every entry's id is its slot, and once a process was started the running process is in the
        table, unless the kernel panicked because the table is empty. */
    ghost predicate Valid()
      reads this, processes
    {
      && processes.Length == MAX_PROCESSES
      && (forall i :: 0 <= i < MAX_PROCESSES && processes[i] != 0 ==> processes[i] in ids && ids[processes[i]] == i)
      && (started && !panicked ==> Listed(current))
      && (panicked ==> Empty())
    }

    /** Every record ever loaded names a slot of the table. */
    ghost predicate Indexed()
      reads this, processes
    {
      processes.Length == MAX_PROCESSES && 0 !in ids && forall p :: p in ids ==> 0 <= ids[p] < MAX_PROCESSES
    }

    ghost predicate Empty()
      reads this, processes
      requires processes.Length == MAX_PROCESSES
    {
      forall i :: 0 <= i < MAX_PROCESSES ==> processes[i] == 0
    }

    ghost predicate Listed(p: int)
      reads this, processes
      requires processes.Length == MAX_PROCESSES
    {
      p != 0 && exists i :: 0 <= i < MAX_PROCESSES && processes[i] == p
    }

    /** process_get_free_slot. */
    method GetFreeSlot() returns (slot: int)
      requires processes.Length == MAX_PROCESSES
      ensures slot >= 0 ==> slot < MAX_PROCESSES && processes[slot] == 0
                            && forall i :: 0 <= i < slot ==> processes[i] != 0
      ensures slot < 0 ==> slot == -EISTKN && forall i :: 0 <= i < MAX_PROCESSES ==> processes[i] != 0
    {
      for i := 0 to MAX_PROCESSES
        invariant forall j :: 0 <= j < i ==> processes[j] != 0
      {
        if processes[i] == 0 {
          return i;
        }
      }
      return -EISTKN;
    }

    /** process_load_switch. `loaded` is what process_load_for_slot answers and `process` the record it builds;
        a full table refuses before that. The record goes into the first empty slot. */
    method LoadSwitch(loaded: int, process: int) returns (res: int, ghost slot: int)
      requires Indexed() && !panicked && loaded <= 0 && (loaded == 0 ==> process != 0 && process !in ids)
      modifies this, processes
      ensures Indexed() && !panicked && (old(Valid()) ==> Valid())
      ensures res == if old(0 in processes[..]) then loaded else -EISTKN
      ensures res == 0 ==>
                && started && current == process
                && 0 <= slot < MAX_PROCESSES && old(processes[slot]) == 0
                && (forall i :: 0 <= i < slot ==> old(processes[i]) != 0)
                && processes[..] == old(processes[..])[slot := process] && ids == old(ids)[process := slot]
      ensures res != 0 ==> processes[..] == old(processes[..]) && current == old(current) && ids == old(ids)
    {
      var free := GetFreeSlot();
      slot := free;
      if free < 0 {
        return -EISTKN, slot;
      }
      if loaded < 0 {
        return loaded, slot;
      }
      ids := ids[process := free];
      processes[free] := process;
      assert processes[..] == old(processes[..])[free := process];
      current := process;
      started := true;
      res := 0;
    }

    /** It has the least occupied slot. */
    ghost predicate FirstListed(p: int)
      reads this, processes
      requires processes.Length == MAX_PROCESSES
    {
      p != 0 && exists i :: 0 <= i < MAX_PROCESSES && processes[i] == p && forall j :: 0 <= j < i ==> processes[j] == 0
    }

    /** process_switch_to_any. */
    method SwitchToAny()
      requires processes.Length == MAX_PROCESSES
      modifies `current, `panicked
      ensures if Empty() then panicked && current == old(current) else panicked == old(panicked) && FirstListed(current)
    {
      for i := 0 to MAX_PROCESSES
        invariant forall j :: 0 <= j < i ==> processes[j] == 0
      {
        if processes[i] != 0 {
          current := processes[i];
          return;
        }
      }
      panicked := true;
    }

    /** process_unlink clears the slot that the record's id names; if the process was the current one,
        another takes over or the kernel panics. A process that has already been unlinked clears the
        slot of whoever lives there now, and that is the one way to lose the invariant: exactly if
        the slot's new owner is the current process. */
    method Unlink(process: int)
      requires Indexed() && !panicked && process in ids
      modifies this, processes
      ensures Indexed() && ids == old(ids) && started == old(started)
      ensures processes[..] == old(processes[..])[ids[process] := 0]
      ensures panicked <==> old(current) == process && Empty()
      ensures old(current) != process ==> current == old(current)
      ensures old(current) == process && !panicked ==> FirstListed(current)
      ensures old(Valid()) ==>
                (Valid() <==> !(started && old(current) != process && old(processes[ids[process]]) == old(current)))
    {
      var slot := ids[process];
      ghost var before := processes[..];
      processes[slot] := 0;
      assert processes[..] == before[slot := 0];
      if current == process {
        SwitchToAny();
      } else if old(Valid()) && started {
        StillListed(before, slot);
      }
    }

    /** The current process is still listed unless its own entry was the one cleared. */
    lemma StillListed(before: seq<int>, slot: nat)
      requires processes.Length == |before| == MAX_PROCESSES && slot < MAX_PROCESSES
      requires processes[..] == before[slot := 0] && current != 0 && current in before
      requires forall i :: 0 <= i < MAX_PROCESSES && before[i] == current ==> current in ids && ids[current] == i
      ensures Listed(current) <==> before[slot] != current
    {
      var i :| 0 <= i < MAX_PROCESSES && before[i] == current;
      assert i != slot ==> processes[i] == current;
      assert forall j :: 0 <= j < MAX_PROCESSES ==> processes[j] == before[slot := 0][j];
    }
  }

  /** Two processes are loaded, the second is unlinked, a third takes its slot, and the second is unlinked once
      more: then the running process is no longer in the table. */
  method UnlinkedTwice(a: int, b: int, c: int) returns (table: Table)
    requires a != 0 && b != 0 && c != 0 && a != b && a != c && b != c
    ensures fresh(table) && !table.Valid() && table.current == c && !table.panicked
  {
    table := new Table();
    var res;
    ghost var slot;
    assert table.processes[0] == 0;
    res, slot := table.LoadSwitch(0, a);
    assert slot == 0 && table.processes[0] == a && table.processes[1] == 0;
    res, slot := table.LoadSwitch(0, b);
    assert slot == 1 && table.processes[0] == a && table.processes[1] == b;
    table.Unlink(b);
    assert table.processes[0] == a && table.processes[1] == 0;
    res, slot := table.LoadSwitch(0, c);
    assert slot == 1 && table.processes[1] == c;
    table.Unlink(b);
  }
}
