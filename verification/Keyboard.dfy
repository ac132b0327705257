/** The keyboard buffer of a process: a ring with free-running 32-bit counters and no full check. */
module Keyboard {
  import opened CStrings
  import opened Words

  const SIZE := 1024

  // ---- the queue the ring stands for ----

  datatype Event = Typed(c: char) | Erased | Read

  predicate Fine(queue: seq<char>, e: Event) {
    match e
    case Typed(c) => c == NUL || |queue| < SIZE
    case Erased => queue != []
    case Read => true
  }

  function After(queue: seq<char>, e: Event): seq<char>
    requires Fine(queue, e)
  {
    match e
    case Typed(c) => if c == NUL then queue else queue + [c]
    case Erased => queue[..|queue| - 1]
    case Read => if queue == [] then [] else queue[1..]
  }

  /** What a reader gets: the oldest character, or NUL from an empty queue. */
  function Answer(queue: seq<char>): char {
    if queue == [] then NUL else queue[0]
  }

  predicate AllFine(queue: seq<char>, events: seq<Event>, i: nat)
    decreases |events| - i
  {
    i < |events| ==> Fine(queue, events[i]) && AllFine(After(queue, events[i]), events, i + 1)
  }

  function Final(queue: seq<char>, events: seq<Event>, i: nat): seq<char>
    requires AllFine(queue, events, i)
    decreases |events| - i
  {
    if i >= |events| then queue else Final(After(queue, events[i]), events, i + 1)
  }

  function Answers(queue: seq<char>, events: seq<Event>, i: nat): seq<char>
    requires AllFine(queue, events, i)
    decreases |events| - i
  {
    if i >= |events| then []
    else (if events[i] == Read then [Answer(queue)] else []) + Answers(After(queue, events[i]), events, i + 1)
  }

  // ---- the ring ----

  function Index(counter: u32): nat {
    counter % SIZE
  }

  /** The slot k places behind slot h, round the end of the buffer. */
  function Slot(h: int, k: int): (i: int)
    requires 0 <= h < SIZE && 0 <= k <= SIZE
    ensures 0 <= i < SIZE
  {
    if h + k < SIZE then h + k else h + k - SIZE
  }

  /** tail - head in 32-bit arithmetic. */
  function Distance(head: u32, tail: u32): u32 {
    if head <= tail then tail - head else tail - head + WORD_LIMIT
  }

  function Up(c: u32): u32 {
    if c == WORD_LIMIT - 1 then 0 else c + 1
  }

  function Down(c: u32): u32 {
    if c == 0 then WORD_LIMIT - 1 else c - 1
  }

  lemma UpIsC(c: u32)
    ensures Up(c) == Wrap(c + 1) && Down(c) == Wrap(c - 1)
  {
  }

  /** Counters that wrap at 2^32 do not disturb the index, because 1024 divides 2^32. */
  lemma CounterIndex(head: u32, tail: u32)
    requires Distance(head, tail) <= SIZE
    ensures Index(tail) == Slot(Index(head), Distance(head, tail))
  {
    var n := Distance(head, tail);
    assert tail == head + n || tail == head + n - SIZE * 0x40_0000;
    assert tail % SIZE == (head + n) % SIZE;
  }

  /** From slot h on, the slots hold the queue and then nothing, all the way round. */
  predicate Holds(b: seq<char>, h: int, queue: seq<char>) {
    && |b| == SIZE && 0 <= h < SIZE && |queue| <= SIZE && NUL !in queue
    && forall k :: 0 <= k < SIZE ==> b[Slot(h, k)] == if k < |queue| then queue[k] else NUL
  }

  lemma PushHolds(b: seq<char>, h: int, queue: seq<char>, c: char)
    requires Holds(b, h, queue) && |queue| < SIZE && c != NUL
    ensures Holds(b[Slot(h, |queue|) := c], h, queue + [c])
  {
  }

  lemma PopHolds(b: seq<char>, h: int, queue: seq<char>)
    requires Holds(b, h, queue) && queue != []
    ensures b[h] == queue[0] && Holds(b[h := NUL], Slot(h, 1), queue[1..])
  {
    assert Slot(h, 0) == h;
    var h' := Slot(h, 1);
    forall k | 0 <= k < SIZE ensures b[h := NUL][Slot(h', k)] == if k < |queue| - 1 then queue[1..][k] else NUL {
      if k + 1 < SIZE {
        assert Slot(h', k) == Slot(h, k + 1);
      } else {
        assert Slot(h', k) == h;
      }
    }
  }

  lemma BackspaceHolds(b: seq<char>, h: int, queue: seq<char>)
    requires Holds(b, h, queue) && queue != []
    ensures Holds(b[Slot(h, |queue| - 1) := NUL], h, queue[..|queue| - 1])
  {
  }

  /** The non-zero slots are exactly those whose distance behind the head is below the occupancy. */
  lemma NonZeroSlots(b: seq<char>, h: int, queue: seq<char>, k: nat)
    requires Holds(b, h, queue) && k < SIZE
    ensures b[Slot(h, k)] != NUL <==> k < |queue|
  {
    assert k < |queue| ==> queue[k] in queue;
  }

  function Contents(b: seq<char>, h: int, n: nat): (q: seq<char>)
    requires |b| == SIZE && 0 <= h < SIZE && n <= SIZE
  {
    seq(n, k requires 0 <= k < n => b[Slot(h, k)])
  }

  lemma HeldContents(b: seq<char>, h: int, queue: seq<char>)
    requires Holds(b, h, queue)
    ensures Contents(b, h, |queue|) == queue
  {
    var q := Contents(b, h, |queue|);
    forall k | 0 <= k < |queue| ensures q[k] == queue[k] {
      assert b[Slot(h, k)] == queue[k];
    }
  }

  /** Buffer and counters stand for a queue: at most 1024 characters, and the slots from head to tail,
      and no others, are non-zero. */
  predicate Stands(b: seq<char>, head: u32, tail: u32) {
    |b| == SIZE && Distance(head, tail) <= SIZE && Holds(b, Index(head), QueueOf(b, head, tail))
  }

  function QueueOf(b: seq<char>, head: u32, tail: u32): seq<char>
    requires |b| == SIZE && Distance(head, tail) <= SIZE
  {
    Contents(b, Index(head), Distance(head, tail))
  }

  lemma PushStands(b: seq<char>, head: u32, tail: u32, c: char)
    requires Stands(b, head, tail) && c != NUL
    ensures var (b', tail', queue) := (b[Index(tail) := c], Up(tail), QueueOf(b, head, tail));
            && (Stands(b', head, tail') <==> |queue| < SIZE)
            && (Stands(b', head, tail') ==> QueueOf(b', head, tail') == queue + [c])
  {
    var queue := QueueOf(b, head, tail);
    CounterIndex(head, tail);
    if |queue| < SIZE {
      PushHolds(b, Index(head), queue, c);
      HeldContents(b[Index(tail) := c], Index(head), queue + [c]);
    }
  }

  lemma PopStands(b: seq<char>, head: u32, tail: u32)
    requires Stands(b, head, tail)
    ensures var (b', queue, c) := (b[Index(head) := NUL], QueueOf(b, head, tail), b[Index(head)]);
            && c == Answer(queue)
            && (c == NUL ==> b' == b && queue == [])
            && (c != NUL ==> Stands(b', Up(head), tail) && QueueOf(b', Up(head), tail) == queue[1..])
  {
    PopAnswers(b, head, tail);
    if b[Index(head)] != NUL {
      PopKeeps(b, head, tail);
    }
  }

  lemma PopAnswers(b: seq<char>, head: u32, tail: u32)
    requires Stands(b, head, tail)
    ensures b[Index(head)] == Answer(QueueOf(b, head, tail))
    ensures b[Index(head)] == NUL ==> QueueOf(b, head, tail) == [] && b[Index(head) := NUL] == b
  {
    NonZeroSlots(b, Index(head), QueueOf(b, head, tail), 0);
  }

  lemma PopKeeps(b: seq<char>, head: u32, tail: u32)
    requires Stands(b, head, tail) && b[Index(head)] != NUL
    ensures var b' := b[Index(head) := NUL];
            Stands(b', Up(head), tail) && QueueOf(b', Up(head), tail) == QueueOf(b, head, tail)[1..]
  {
    var queue := QueueOf(b, head, tail);
    NonZeroSlots(b, Index(head), queue, 0);
    PopHolds(b, Index(head), queue);
    CounterIndex(head, Up(head));
    HeldContents(b[Index(head) := NUL], Index(Up(head)), queue[1..]);
  }

  lemma BackspaceStands(b: seq<char>, head: u32, tail: u32)
    requires Stands(b, head, tail)
    ensures var (b', tail', queue) := (b[Index(Down(tail)) := NUL], Down(tail), QueueOf(b, head, tail));
            && (Stands(b', head, tail') <==> queue != [])
            && (Stands(b', head, tail') ==> QueueOf(b', head, tail') == queue[..|queue| - 1])
  {
    var queue := QueueOf(b, head, tail);
    if queue != [] {
      CounterIndex(head, Down(tail));
      BackspaceHolds(b, Index(head), queue);
      HeldContents(b[Index(Down(tail)) := NUL], Index(head), queue[..|queue| - 1]);
    }
  }

  class Ring {
    const buffer: array<char>
    var head: u32
    var tail: u32

    constructor ()
      ensures Valid() && Queue() == [] && fresh(buffer)
    {
      buffer := new char[SIZE](_ => NUL);
      head, tail := 0, 0;
    }

    ghost predicate Valid()
      reads this, buffer
    {
      Stands(buffer[..], head, tail)
    }

    /** The characters from head to tail. */
    ghost function Queue(): seq<char>
      requires Valid()
      reads this, buffer
    {
      QueueOf(buffer[..], head, tail)
    }

    /** There is no full check: a push into a full ring overwrites the oldest character and leaves
        a ring that no longer stands for a queue. */
    method Push(c: char)
      requires buffer.Length == SIZE
      modifies this, buffer
      ensures head == old(head)
      ensures c == NUL ==> tail == old(tail) && buffer[..] == old(buffer[..])
      ensures c != NUL ==> tail == Up(old(tail)) && buffer[..] == old(buffer[..])[Index(old(tail)) := c]
      ensures old(Valid()) && c == NUL ==> Valid() && Queue() == old(Queue())
      ensures old(Valid()) && c != NUL ==> (Valid() <==> old(|Queue()|) < SIZE)
      ensures old(Valid()) && c != NUL && Valid() ==> Queue() == old(Queue()) + [c]
    {
      if c == NUL {
        return;
      }
      var index := Index(tail);
      buffer[index] := c;
      UpIsC(tail);
      tail := Wrap(tail + 1);
      assert buffer[..] == old(buffer[..])[index := c];
      if old(Valid()) {
        PushStands(old(buffer[..]), head, old(tail), c);
      }
    }

    method Pop() returns (c: char)
      requires buffer.Length == SIZE
      modifies this, buffer
      ensures c == old(buffer[Index(head)]) && tail == old(tail)
      ensures head == (if c == NUL then old(head) else Up(old(head)))
      ensures buffer[..] == old(buffer[..])[Index(old(head)) := NUL]
      ensures old(Valid()) ==> Valid() && c == Answer(old(Queue())) && Queue() == After(old(Queue()), Read)
    {
      if Valid() {
        PopStands(buffer[..], head, tail);
      }
      var index := Index(head);
      c := buffer[index];
      if c == NUL {
        assert buffer[..] == old(buffer[..])[index := NUL];
        return;
      }
      buffer[index] := NUL;
      UpIsC(head);
      head := Wrap(head + 1);
      assert buffer[..] == old(buffer[..])[index := NUL];
    }

    /** Nor is there an empty check: backspace on an empty ring ruins it. */
    method Backspace()
      requires buffer.Length == SIZE
      modifies this, buffer
      ensures head == old(head) && tail == Down(old(tail)) && buffer[..] == old(buffer[..])[Index(tail) := NUL]
      ensures old(Valid()) ==> (Valid() <==> old(Queue()) != [])
      ensures old(Valid()) && Valid() ==> Queue() == old(Queue())[..|old(Queue())| - 1]
    {
      UpIsC(tail);
      tail := Wrap(tail - 1);
      var index := Index(tail);
      buffer[index] := NUL;
      assert buffer[..] == old(buffer[..])[index := NUL];
      if old(Valid()) {
        BackspaceStands(old(buffer[..]), head, old(tail));
      }
    }
  }

  // ---- beyond the limits ----

  /** On every full ring the next push is what the next pop answers: the newest character comes out
      first, and the oldest one is gone. */
  method PushOverFull(ring: Ring, c: char) returns (popped: char)
    requires ring.Valid() && |ring.Queue()| == SIZE && c != NUL
    modifies ring, ring.buffer
    ensures popped == c
  {
    CounterIndex(ring.head, ring.tail);
    assert |ring.Queue()| == Distance(ring.head, ring.tail);
    ring.Push(c);
    popped := ring.Pop();
  }

  /** On every empty ring a backspace loses the next character: it is stored, and pop answers nothing. */
  method BackspaceOnEmpty(ring: Ring, c: char) returns (popped: char)
    requires ring.Valid() && ring.Queue() == [] && c != NUL
    modifies ring, ring.buffer
    ensures popped == NUL
  {
    NonZeroSlots(ring.buffer[..], Index(ring.head), ring.Queue(), 0);
    DownIsElsewhere(ring.tail);
    ring.Backspace();
    ring.Push(c);
    popped := ring.Pop();
  }

  lemma DownIsElsewhere(c: u32)
    ensures Index(Down(c)) != Index(c) && Up(Down(c)) == c
  {
  }

  /** A ring of 1024 times 'a', with head and tail at slot 0, after a push of 'b': the slot that pop
      reads holds 'b', where the queue's answer would be 'a'. */
  lemma FullRingExample()
    ensures var full := seq(SIZE, _ => 'a');
            && Holds(full, 0, full) && Answer(full) == 'a'
            && full[Slot(0, |full|) := 'b'][0] == 'b'
  {
    var full := seq(SIZE, _ => 'a');
    assert NUL !in full;
  }

  /** One event on the ring. */
  method Handle(ring: Ring, e: Event) returns (answer: seq<char>)
    requires ring.Valid() && Fine(ring.Queue(), e)
    modifies ring, ring.buffer
    ensures ring.Valid() && ring.Queue() == After(old(ring.Queue()), e)
    ensures answer == if e == Read then [Answer(old(ring.Queue()))] else []
  {
    answer := [];
    match e {
      case Typed(c) => ring.Push(c);
      case Erased => ring.Backspace();
      case Read =>
        var c := ring.Pop();
        answer := [c];
    }
  }

  /** Every run of keyboard and reader on a ring that stays within its limits behaves as the queue:
      the readers get the queue's answers, and its final contents remain. */
  method Replay(ring: Ring, events: seq<Event>) returns (answers: seq<char>)
    requires ring.Valid() && AllFine(ring.Queue(), events, 0)
    modifies ring, ring.buffer
    ensures ring.Valid() && ring.Queue() == Final(old(ring.Queue()), events, 0)
    ensures answers == Answers(old(ring.Queue()), events, 0)
  {
    answers := [];
    ghost var start := ring.Queue();
    var i := 0;
    while i < |events|
      invariant 0 <= i <= |events| && ring.Valid() && Reached(start, events, i, ring.Queue(), answers)
    {
      answers := HandleNext(ring, events, i, start, answers);
      i := i + 1;
    }
    assert answers == answers + [];
  }

  /** Event i, with its answer behind the earlier ones. */
  method HandleNext(ring: Ring, events: seq<Event>, i: nat, ghost start: seq<char>, answers: seq<char>)
    returns (answers': seq<char>)
    requires i < |events| && ring.Valid() && Reached(start, events, i, ring.Queue(), answers)
    modifies ring, ring.buffer
    ensures ring.Valid() && Reached(start, events, i + 1, ring.Queue(), answers')
  {
    ReachedStep(start, events, i, ring.Queue(), answers);
    var answer := Handle(ring, events[i]);
    answers' := answers + answer;
  }

  /** After the first i events the queue and the answers are these. */
  ghost predicate Reached(start: seq<char>, events: seq<Event>, i: nat, queue: seq<char>, answers: seq<char>) {
    && AllFine(start, events, 0) && AllFine(queue, events, i)
    && Final(start, events, 0) == Final(queue, events, i)
    && Answers(start, events, 0) == answers + Answers(queue, events, i)
  }

  lemma ReachedStep(start: seq<char>, events: seq<Event>, i: nat, queue: seq<char>, answers: seq<char>)
    requires i < |events| && Reached(start, events, i, queue, answers)
    ensures Fine(queue, events[i])
    ensures Reached(start, events, i + 1, After(queue, events[i]),
                    answers + if events[i] == Read then [Answer(queue)] else [])
  {
    var answer := if events[i] == Read then [Answer(queue)] else [];
    var rest := Answers(After(queue, events[i]), events, i + 1);
    assert answers + (answer + rest) == answers + answer + rest;
  }
}
