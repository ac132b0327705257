/** The scheduler's list of tasks: what the linked structure in task.c stands for, and what adding,
    removing and switching do to it. */
module TaskList {

  datatype Option<+T> = None | Some(value: T)

  /** The tasks reachable from the head in forward order, each one's back link, the tail pointer
      and the current task. Back links and tail may be stale; the code never repairs them. */
  datatype Sched<T> = Sched(order: seq<T>, prev: map<T, Option<T>>, tail: Option<T>, current: Option<T>)

  ghost predicate Distinct<T>(s: seq<T>) {
    forall i, j :: 0 <= i < j < |s| ==> s[i] != s[j]
  }

  function IndexFrom<T(==)>(s: seq<T>, t: T, k: nat): (i: nat)
    requires exists j :: k <= j < |s| && s[j] == t
    ensures k <= i < |s| && s[i] == t && forall j :: k <= j < i ==> s[j] != t
    decreases |s| - k
  {
    if s[k] == t then k else IndexFrom(s, t, k + 1)
  }

  /** The position of a task in the list. */
  function IndexOf<T(==)>(s: seq<T>, t: T): (i: nat)
    requires t in s
    ensures i < |s| && s[i] == t && forall j :: 0 <= j < i ==> s[j] != t
  {
    IndexFrom(s, t, 0)
  }

  lemma IndexIsUnique<T>(s: seq<T>, i: nat)
    requires Distinct(s) && i < |s|
    ensures IndexOf(s, s[i]) == i
  {
  }

  function Drop<T>(s: seq<T>, i: nat): (r: seq<T>)
    requires i < |s|
    ensures |r| == |s| - 1
  {
    s[..i] + s[i + 1..]
  }

  /** Every task of the list has a back link on record, and the current task is in the list. */
  ghost predicate Listed<T>(s: Sched<T>) {
    && Distinct(s.order)
    && s.prev.Keys == (set t | t in s.order)
    && (s.order != [] ==> s.current.Some? && s.current.value in s.order)
    && (s.order == [] ==> s.current.None?)
  }

  /** The back link of the i-th task is the one a doubly linked list asks for. */
  predicate BackLinkRight<T(==)>(s: Sched<T>, i: nat)
    requires i < |s.order|
  {
    s.order[i] in s.prev && s.prev[s.order[i]] == if i == 0 then None else Some(s.order[i - 1])
  }

  /** A proper doubly linked list with a right tail. */
  ghost predicate WellFormed<T>(s: Sched<T>) {
    && Listed(s)
    && (forall i :: 0 <= i < |s.order| ==> BackLinkRight(s, i))
    && (s.order != [] ==> s.tail == Some(s.order[|s.order| - 1]))
  }

  // ---- the operations ----

  /** task_get_next: the next task, or the head after the last. */
  function NextIn<T(==)>(order: seq<T>, t: T): (r: T)
    requires t in order
    ensures r in order
  {
    var i := IndexOf(order, t);
    if i + 1 < |order| then order[i + 1] else order[0]
  }

  /** task_new's linking: the task goes behind the tail; it becomes reachable if the tail is. */
  function Add<T(==)>(s: Sched<T>, t: T): Sched<T> {
    if s.order == [] then Sched([t], map[t := None], Some(t), Some(t))
    else if s.tail == Some(s.order[|s.order| - 1]) then
      Sched(s.order + [t], s.prev[t := s.tail], Some(t), s.current)
    else
      Sched(s.order, s.prev, Some(t), s.current)
  }

  function Restricted<T(==)>(links: map<T, Option<T>>, order: seq<T>): map<T, Option<T>> {
    map x | x in links && x in order :: links[x]
  }

  /** task_list_remove: the predecessor is found through the back link, so the task only leaves
      the forward order when it is the head or that link is right. */
  function Remove<T(==)>(s: Sched<T>, t: T): Sched<T>
    requires t in s.order
  {
    RemoveAt(s, IndexOf(s.order, t))
  }

  function RemoveAt<T(==)>(s: Sched<T>, i: nat): Sched<T>
    requires i < |s.order|
  {
    var t := s.order[i];
    var order := if i == 0 || BackLinkRight(s, i) then Drop(s.order, i) else s.order;
    Sched(order,
          Restricted(s.prev, order),
          if s.tail == Some(t) && t in s.prev then s.prev[t] else s.tail,
          if s.current != Some(t) then s.current
          else if i + 1 < |s.order| then Some(s.order[i + 1])
          else if order == [] then None else Some(order[0]))
  }

  function Next<T(==)>(s: Sched<T>): Sched<T>
    requires s.current.Some? && s.current.value in s.order
  {
    s.(current := Some(NextIn(s.order, s.current.value)))
  }

  // ---- what they keep ----

  lemma DropFacts<T>(s: seq<T>, i: nat)
    requires Distinct(s) && i < |s|
    ensures Distinct(Drop(s, i))
    ensures forall x :: x in Drop(s, i) <==> x in s && x != s[i]
  {
    forall x | x in s && x != s[i] ensures x in Drop(s, i) {
      var k := IndexOf(s, x);
      assert k < i ==> Drop(s, i)[k] == x;
      assert k > i ==> Drop(s, i)[k - 1] == x;
    }
  }

  lemma AddKeepsWellFormed<T>(s: Sched<T>, t: T)
    requires WellFormed(s) && t !in s.order
    ensures WellFormed(Add(s, t)) && Add(s, t).order == s.order + [t]
    ensures s.order != [] ==> Add(s, t).current == s.current
  {
    var s' := Add(s, t);
    forall i | 0 <= i < |s'.order| ensures BackLinkRight(s', i) {
      if i < |s.order| {
        assert s.order[i] == s'.order[i] && BackLinkRight(s, i);
      }
    }
  }

  /** Removal deletes exactly that task from the forward order if and only if the task is the head
      or its back link is right; otherwise the (freed) task stays in the list. */
  lemma RemovalIsExact<T>(s: Sched<T>, t: T)
    requires Listed(s) && t in s.order
    ensures var i := IndexOf(s.order, t);
            i == 0 || BackLinkRight(s, i) <==> t !in Remove(s, t).order
    ensures forall x :: x != t ==> (x in Remove(s, t).order <==> x in s.order)
  {
    DropFacts(s.order, IndexOf(s.order, t));
  }

  lemma RemoveOrder<T>(s: Sched<T>, t: T)
    requires WellFormed(s) && t in s.order
    ensures var i := IndexOf(s.order, t);
            && Remove(s, t).order == Drop(s.order, i)
            && Remove(s, t).prev == map x | x in s.prev && x != t :: s.prev[x]
    ensures Distinct(Remove(s, t).order)
    ensures forall x :: x in Remove(s, t).order <==> x in s.order && x != t
  {
    var i := IndexOf(s.order, t);
    assert BackLinkRight(s, i);
    DropFacts(s.order, i);
  }

  lemma RemoveBackLinks<T>(s: Sched<T>, t: T, k: nat)
    requires WellFormed(s) && t in s.order && k + 1 < |s.order|
    ensures |Remove(s, t).order| == |s.order| - 1
    ensures BackLinkRight(Remove(s, t), k) <==> k != IndexOf(s.order, t)
  {
    var s', i := Remove(s, t), IndexOf(s.order, t);
    RemoveOrder(s, t);
    var j := if k < i then k else k + 1;
    assert s'.order[k] == s.order[j];
    assert BackLinkRight(s, j);
  }

  lemma RemoveEnds<T>(s: Sched<T>, t: T)
    requires WellFormed(s) && t in s.order
    ensures var s', i := Remove(s, t), IndexOf(s.order, t);
            && (s'.order != [] ==> s'.tail == Some(s'.order[|s'.order| - 1]))
            && s'.current == (if s.current != Some(t) then s.current
                              else if s'.order == [] then None
                              else Some(s'.order[if i < |s'.order| then i else 0]))
  {
    var i := IndexOf(s.order, t);
    RemoveOrder(s, t);
    assert BackLinkRight(s, i);
    if s.tail == Some(t) {
      IndexIsUnique(s.order, |s.order| - 1);
    }
  }

  /** On a well-formed list removal leaves forward order, tail and current right; the one thing
      left stale is the successor's back link. */
  lemma RemoveFromWellFormed<T>(s: Sched<T>, t: T)
    requires WellFormed(s) && t in s.order
    ensures var s', i := Remove(s, t), IndexOf(s.order, t);
            && Listed(s')
            && s'.order == Drop(s.order, i)
            && (s'.order != [] ==> s'.tail == Some(s'.order[|s'.order| - 1]))
            && s'.current == (if s.current != Some(t) then s.current
                              else if s'.order == [] then None
                              else Some(s'.order[if i < |s'.order| then i else 0]))
            && (forall k :: 0 <= k < |s'.order| ==> (BackLinkRight(s', k) <==> k != i))
  {
    RemoveOrder(s, t);
    RemoveEnds(s, t);
    forall k | 0 <= k < |Remove(s, t).order| ensures BackLinkRight(Remove(s, t), k) <==> k != IndexOf(s.order, t) {
      RemoveBackLinks(s, t, k);
    }
  }

  /** So the list is fully well-formed again exactly when the removed task was the last one. */
  lemma RemoveLastKeepsWellFormed<T>(s: Sched<T>, t: T)
    requires WellFormed(s) && t in s.order
    ensures WellFormed(Remove(s, t)) <==> IndexOf(s.order, t) == |s.order| - 1
  {
    RemoveFromWellFormed(s, t);
    var s', i := Remove(s, t), IndexOf(s.order, t);
    if i < |s.order| - 1 {
      assert !BackLinkRight(s', i) && s'.order[i] == s.order[i + 1];
    }
  }

  /** Removing a task and then its former successor works only if the task was the head. Otherwise
      the successor, although freed, stays in the list: on every list, for every such pair. */
  lemma SuccessorStaysBehind<T>(s: Sched<T>, i: nat)
    requires WellFormed(s) && i + 1 < |s.order|
    ensures var s1, u := Remove(s, s.order[i]), s.order[i + 1];
            u in s1.order && (u in Remove(s1, u).order <==> i > 0)
  {
    var t, u := s.order[i], s.order[i + 1];
    var s1 := Remove(s, t);
    IndexIsUnique(s.order, i);
    RemoveFromWellFormed(s, t);
    assert s1.order[i] == u;
    IndexIsUnique(s1.order, i);
    assert !BackLinkRight(s1, i);
    RemovalIsExact(s1, u);
  }

  // ---- round robin ----

  /** The tasks that the next k switches select, starting after t. */
  function Selected<T(==)>(order: seq<T>, t: T, k: nat): (r: seq<T>)
    requires t in order
    ensures |r| == k
  {
    if k == 0 then [] else [NextIn(order, t)] + Selected(order, NextIn(order, t), k - 1)
  }

  lemma {:induction false} SelectedAt<T>(order: seq<T>, i: nat, k: nat, j: nat)
    requires Distinct(order) && i < |order| && j < k <= |order|
    ensures Selected(order, order[i], k)[j] == order[if i + 1 + j < |order| then i + 1 + j else i + 1 + j - |order|]
    decreases k
  {
    IndexIsUnique(order, i);
    if j > 0 {
      var i' := if i + 1 < |order| then i + 1 else 0;
      assert NextIn(order, order[i]) == order[i'];
      SelectedAt(order, i', k - 1, j - 1);
    }
  }

  lemma Rotated<T>(s: seq<T>, r: seq<T>, i: nat)
    requires i <= |s| && r == s[i..] + s[..i]
    ensures multiset(r) == multiset(s)
  {
    assert s == s[..i] + s[i..];
  }

  lemma SelectedIsRotation<T>(order: seq<T>, i: nat)
    requires Distinct(order) && i < |order|
    ensures Selected(order, order[i], |order|) == order[i + 1..] + order[..i + 1]
  {
    forall j: nat | j < |order|
      ensures Selected(order, order[i], |order|)[j] == (order[i + 1..] + order[..i + 1])[j]
    {
      SelectedAt(order, i, |order|, j);
    }
  }

  /** Whoever is running, |order| consecutive switches select every task exactly once, in forward
      order around the ring, and end where they started. */
  lemma RoundRobin<T>(order: seq<T>, t: T)
    requires Distinct(order) && t in order
    ensures var i := IndexOf(order, t);
            Selected(order, t, |order|) == order[i + 1..] + order[..i + 1]
    ensures multiset(Selected(order, t, |order|)) == multiset(order)
    ensures Selected(order, t, |order|)[|order| - 1] == t
  {
    var i := IndexOf(order, t);
    SelectedIsRotation(order, i);
    Rotated(order, Selected(order, t, |order|), i + 1);
  }
}
