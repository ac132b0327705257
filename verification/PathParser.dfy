/** The path parser, which builds a list of heap-allocated parts, and the function that frees it. */
module PathParser {
  import opened Words
  import opened CStrings
  import opened Paths
  import opened HeapTable
  import opened Heap

  // ---- the heap under the parser ----

  const ONE_BLOCK: Entry := 0x41

  /** The heap is as t0 says, except that each of `own`, free in t0, is a run of one block. */
  ghost predicate HoldsBlocks(t: Table, t0: Table, own: set<nat>) {
    && |t| == |t0|
    && (forall b :: b in own ==> b < |t0| && t0[b] == ENTRY_FREE)
    && (forall i: nat :: i < |t| ==> t[i] == if i in own then ONE_BLOCK else t0[i])
  }

  /** Free entries hold no stray flag, as in every table that stands for live runs. */
  ghost predicate FreeIsZero(t: Table) {
    forall i :: 0 <= i < |t| && IsFree(t[i]) ==> t[i] == ENTRY_FREE
  }

  lemma WellFormedIsZero(t: Table)
    requires WellFormed(t)
    ensures FreeIsZero(t)
  {
    forall i | 0 <= i < |t| && IsFree(t[i]) ensures t[i] == ENTRY_FREE {
      FreeIsUncovered(t, LiveRuns(t), i);
    }
  }

  function FreeBlocks(t: Table): set<nat> {
    set b: nat | b < |t| && IsFree(t[b])
  }

  function FreeCount(t: Table): nat {
    |FreeBlocks(t)|
  }

  lemma FreeMeansFit(t: Table)
    requires FreeCount(t) > 0
    ensures HasFit(t, 1)
  {
    var b :| b in FreeBlocks(t);
    assert Fits(t, b, 1);
  }

  /** What a one-block request does while a block is free. */
  lemma OneBlock(t: Table, t0: Table, own: set<nat>) returns (s: nat, t': Table)
    requires HoldsBlocks(t, t0, own) && FreeIsZero(t0) && FreeCount(t) > 0
    ensures s < |t0| && Place(t, 1) == Placed(s, t') && s !in own
    ensures HoldsBlocks(t', t0, own + {s}) && FreeCount(t') == FreeCount(t) - 1
  {
    FreeMeansFit(t);
    s := FirstFit(t, 1, 0);
    t' := Marked(t, s, 1);
    FitIsFree(t, s);
    MarkedTakesOne(t, s);
  }

  lemma FitIsFree(t: Table, s: nat)
    requires Fits(t, s, 1)
    ensures s < |t| && IsFree(t[s])
  {
  }

  lemma MarkedTakesOne(t: Table, s: nat)
    requires Fits(t, s, 1)
    ensures FreeCount(Marked(t, s, 1)) == FreeCount(t) - 1
  {
    assert FreeBlocks(Marked(t, s, 1)) == FreeBlocks(t) - {s};
  }

  lemma ReturnedBlock(t: Table, t0: Table, own: set<nat>, s: nat)
    requires HoldsBlocks(t, t0, own) && s in own
    ensures HoldsBlocks(Cleared(t, s), t0, own - {s})
  {
    assert !HasNext(t[s]);
    assert RunEnd(t, s) == s + 1;
  }

  function AddressOf(h: BlockHeap, block: nat): int {
    (h.base + block) * BLOCK_SIZE
  }

  lemma FitMeansFree(t: Table)
    requires HasFit(t, 1)
    ensures FreeCount(t) > 0
  {
    var s :| 0 <= s < |t| && Fits(t, s, 1);
    assert s in FreeBlocks(t);
  }

  lemma NoBlock(t: Table)
    requires FreeCount(t) == 0
    ensures Place(t, 1) == NoMemory
  {
    if HasFit(t, 1) {
      FitMeansFree(t);
    }
    if |t| > 0 && IsFree(t[|t| - 1]) {
      assert Fits(t, |t| - 1, 1);
    }
  }

  /** kzalloc of a structure that fits one block; 0 when no block is free. */
  method Allocate(h: BlockHeap, size: u32, ghost t0: Table, ghost own: set<nat>) returns (address: u32, ghost b: nat)
    requires h.Valid() && HoldsBlocks(h.Table(), t0, own) && FreeIsZero(t0) && 1 <= size <= BLOCK_SIZE
    modifies h.entries
    ensures old(FreeCount(h.Table())) == 0 ==> address == 0 && h.Table() == old(h.Table())
    ensures old(FreeCount(h.Table())) > 0 ==>
              && address == AddressOf(h, b) > 0 && b !in own && HoldsBlocks(h.Table(), t0, own + {b})
              && FreeCount(h.Table()) == old(FreeCount(h.Table())) - 1
  {
    ghost var t';
    b := 0;
    if FreeCount(h.Table()) == 0 {
      NoBlock(h.Table());
    } else {
      b, t' := OneBlock(h.Table(), t0, own);
    }
    var overrun;
    address, overrun := h.Malloc(size);
    if address != 0 {
      h.AddressRoundTrip(b);
    }
  }

  method Release(h: BlockHeap, address: u32, ghost b: nat, ghost t0: Table, ghost own: set<nat>)
    requires h.Valid() && HoldsBlocks(h.Table(), t0, own) && b in own && address == AddressOf(h, b)
    modifies h.entries
    ensures HoldsBlocks(h.Table(), t0, own - {b})
  {
    h.AddressRoundTrip(b);
    ReturnedBlock(h.Table(), t0, own, b);
    h.Free(address);
  }

  // ---- the list of parts ----

  const PATH_ROOT_SIZE: u32 := 8
  const PATH_PART_SIZE: u32 := 8

  class PathPart {
    const part: string
    const partAddress: u32
    const address: u32
    var next: PathPart?

    constructor (part: string, partAddress: u32, address: u32)
      ensures this.part == part && this.partAddress == partAddress && this.address == address && next == null
    {
      this.part, this.partAddress, this.address := part, partAddress, address;
      next := null;
    }
  }

  class PathRoot {
    const drive: int
    const address: u32
    var first: PathPart?

    constructor (drive: int, address: u32)
      ensures this.drive == drive && this.address == address && first == null
    {
      this.drive, this.address := drive, address;
      first := null;
    }
  }

  /** The blocks behind a part: that of its text and that of its node. */
  type Blocks = (nat, nat)

  /** The blocks of the pairs from the i-th on. */
  ghost function BlocksFrom(pairs: seq<Blocks>, i: nat): set<nat>
    decreases |pairs| - i
  {
    if i >= |pairs| then {} else {pairs[i].0, pairs[i].1} + BlocksFrom(pairs, i + 1)
  }

  ghost function BlocksOf(pairs: seq<Blocks>): set<nat> {
    BlocksFrom(pairs, 0)
  }

  ghost predicate DistinctFrom(pairs: seq<Blocks>, i: nat)
    decreases |pairs| - i
  {
    i < |pairs| ==>
      && pairs[i].0 != pairs[i].1
      && pairs[i].0 !in BlocksFrom(pairs, i + 1) && pairs[i].1 !in BlocksFrom(pairs, i + 1)
      && DistinctFrom(pairs, i + 1)
  }

  ghost predicate AllDistinct(pairs: seq<Blocks>) {
    DistinctFrom(pairs, 0)
  }

  lemma {:induction false} AppendBlocks(pairs: seq<Blocks>, p: Blocks, i: nat)
    requires i <= |pairs|
    ensures BlocksFrom(pairs + [p], i) == BlocksFrom(pairs, i) + {p.0, p.1}
    ensures DistinctFrom(pairs, i) && p.0 != p.1 && p.0 !in BlocksFrom(pairs, i) && p.1 !in BlocksFrom(pairs, i) ==>
              DistinctFrom(pairs + [p], i)
    decreases |pairs| - i
  {
    if i < |pairs| {
      AppendBlocks(pairs, p, i + 1);
    } else {
      assert BlocksFrom(pairs + [p], i + 1) == {};
    }
  }

  function NodeAt(nodes: seq<PathPart>, i: nat): PathPart? {
    if i < |nodes| then nodes[i] else null
  }

  predicate FollowedBy(a: PathPart, b: PathPart?)
    reads a
  {
    a.next == b
  }

  ghost predicate ListOf(first: PathPart?, nodes: seq<PathPart>)
    reads nodes
  {
    && first == NodeAt(nodes, 0)
    && forall i :: 0 <= i < |nodes| ==> FollowedBy(nodes[i], NodeAt(nodes, i + 1))
  }

  /** The heap blocks that the nodes and their texts live in. */
  ghost predicate LiveIn(h: BlockHeap, nodes: seq<PathPart>, pairs: seq<Blocks>)
    requires h.Valid()
  {
    && |nodes| == |pairs|
    && forall i :: 0 <= i < |nodes| ==> InBlocks(h, nodes[i], pairs[i])
  }

  ghost predicate InBlocks(h: BlockHeap, node: PathPart, p: Blocks)
    requires h.Valid()
  {
    node.partAddress == AddressOf(h, p.0) && node.address == AddressOf(h, p.1)
  }

  ghost predicate HoldTexts(nodes: seq<PathPart>, texts: seq<string>) {
    |nodes| == |texts| && forall i :: 0 <= i < |nodes| ==> nodes[i].part == texts[i]
  }

  // ---- pathparser_parse ----

  /** pathparser_get_path_part: the component at the cursor, copied to a fresh zeroed buffer. An
      empty one stands for the null pointer: then the buffer has been given back. The cursor moves
      behind the slash. The allocation is not checked: `fault` reports that the component would be
      written through a null pointer. */
  method GetPathPart(h: BlockHeap, path: string, i: nat, ghost t0: Table, ghost own: set<nat>)
    returns (part: string, address: u32, j: nat, fault: bool, ghost b: nat)
    requires 3 <= i <= |path| <= MAX_PATH && NUL !in path
    requires h.Valid() && HoldsBlocks(h.Table(), t0, own) && FreeIsZero(t0)
    modifies h.entries
    ensures fault <==> FindSlash(path, i) != i && old(FreeCount(h.Table())) == 0
    ensures var e := FindSlash(path, i);
            !fault ==>
              && j == (if e < |path| then e + 1 else e) && part == path[i..e]
              && if part == "" then HoldsBlocks(h.Table(), t0, own)
                 else
                   && address == AddressOf(h, b) && b !in own
                   && HoldsBlocks(h.Table(), t0, own + {b})
                   && FreeCount(h.Table()) == old(FreeCount(h.Table())) - 1
  {
    address, b := Allocate(h, MAX_PATH, t0, own);
    part, j := CopyComponent(path, i);
    fault := address == 0 && j != i;
    if fault {
      return;
    }
    if j == i {
      if address == 0 {
        h.NullIsNoBlock();
        h.Free(address);
      } else {
        Release(h, address, b, t0, own + {b});
        assert own + {b} - {b} == own;
      }
    }
    if j < |path| {
      j := j + 1;
    }
  }

  /** The copying loop of pathparser_get_path_part: the text, with its terminator, fits. */
  method CopyComponent(path: string, i: nat) returns (part: string, j: nat)
    requires 3 <= i <= |path| <= MAX_PATH && NUL !in path
    ensures j == FindSlash(path, i) && part == path[i..j] && |part| < MAX_PATH
  {
    var buffer := new char[MAX_PATH](_ => NUL);
    j := i;
    while j < |path| && path[j] != SLASH
      invariant i <= j <= |path| && FindSlash(path, i) == FindSlash(path, j)
      invariant forall k :: 0 <= k < j - i ==> buffer[k] == path[i + k]
      invariant forall k :: j - i <= k < MAX_PATH ==> buffer[k] == NUL
    {
      buffer[j - i] := path[j];
      j := j + 1;
    }
    part := buffer[..j - i];
    forall k | 0 <= k < j - i ensures part[k] == path[i..j][k] {
    }
    assert part == path[i..j] && StringAt(buffer, 0, part);
  }

  lemma PartsStep(path: string, i: nat)
    requires i <= |path|
    ensures var e := FindSlash(path, i);
            var j := if e < |path| then e + 1 else e;
            Parts(path, i) == if e == i then [] else [path[i..e]] + Parts(path, j)
  {
  }

  /** pathparser_parse_path_part, which also links the new node behind `last`; it needs two blocks for a
      part and writes through a null pointer without them. */
  method ParsePathPart(h: BlockHeap, last: PathPart?, path: string, i: nat, ghost t0: Table, ghost own: set<nat>)
    returns (node: PathPart?, j: nat, fault: bool, ghost p: Blocks)
    requires 3 <= i <= |path| <= MAX_PATH && NUL !in path
    requires h.Valid() && HoldsBlocks(h.Table(), t0, own) && FreeIsZero(t0)
    modifies h.entries, last
    ensures fault <==> Parts(path, i) != [] && old(FreeCount(h.Table())) < 2
    ensures !fault ==> i <= j <= |path|
    ensures Parts(path, i) == [] ==>
              node == null && HoldsBlocks(h.Table(), t0, own) && (last != null ==> last.next == old(last.next))
    ensures Parts(path, i) != [] && !fault ==>
              && node != null && fresh(node) && node.next == null
              && (last != null ==> last.next == node)
              && Parts(path, i)[1..] == Parts(path, j) && node.part == Parts(path, i)[0]
              && InBlocks(h, node, p) && p.0 != p.1 && p.0 !in own && p.1 !in own
              && HoldsBlocks(h.Table(), t0, own + {p.0, p.1})
              && FreeCount(h.Table()) == old(FreeCount(h.Table())) - 2
  {
    PartsStep(path, i);
    node, p := null, (0, 0);
    var part, partAddress, address;
    ghost var b, c;
    part, partAddress, j, fault, b := GetPathPart(h, path, i, t0, own);
    if fault || part == "" {
      return;
    }
    address, c := Allocate(h, PATH_PART_SIZE, t0, own + {b});
    if address == 0 {
      fault := true;
      return;
    }
    assert own + {b} + {c} == own + {b, c};
    p := (b, c);
    node := new PathPart(part, partAddress, address);
    if last != null {
      last.next := node;
    }
  }

  /** A list of nodes with these texts, in distinct blocks that, with that of the root, make `own`. */
  ghost predicate Linked(h: BlockHeap, first: PathPart?, nodes: seq<PathPart>, texts: seq<string>, pairs: seq<Blocks>,
                         r: nat, own: set<nat>)
    requires h.Valid()
    reads nodes
  {
    && ListOf(first, nodes) && HoldTexts(nodes, texts) && LiveIn(h, nodes, pairs)
    && AllDistinct(pairs) && r !in BlocksOf(pairs) && own == {r} + BlocksOf(pairs)
  }

  /** The list with one more node, whose text is the first of the rest. */
  lemma AppendNode(h: BlockHeap, nodes: seq<PathPart>, texts: seq<string>, pairs: seq<Blocks>, r: nat, own: set<nat>,
                   node: PathPart, rest: seq<string>, p: Blocks)
    returns (nodes': seq<PathPart>, texts': seq<string>, pairs': seq<Blocks>)
    requires h.Valid() && nodes != [] && HoldTexts(nodes, texts) && LiveIn(h, nodes, pairs)
    requires forall i :: 0 <= i < |nodes| - 1 ==> FollowedBy(nodes[i], NodeAt(nodes, i + 1))
    requires nodes[|nodes| - 1].next == node && node.next == null
    requires AllDistinct(pairs) && r !in BlocksOf(pairs) && own == {r} + BlocksOf(pairs)
    requires rest != [] && node.part == rest[0] && InBlocks(h, node, p)
    requires p.0 != p.1 && p.0 !in own && p.1 !in own
    ensures nodes' == nodes + [node] && texts' + rest[1..] == texts + rest
    ensures Linked(h, nodes[0], nodes', texts', pairs', r, own + {p.0, p.1})
  {
    nodes', texts', pairs' := nodes + [node], texts + [rest[0]], pairs + [p];
    AppendBlocks(pairs, p, 0);
    forall i | 0 <= i < |nodes'| ensures FollowedBy(nodes'[i], NodeAt(nodes', i + 1)) {
      if i < |nodes| - 1 {
        assert FollowedBy(nodes[i], NodeAt(nodes, i + 1));
      }
    }
  }

  lemma OnlyLastEnds(first: PathPart?, nodes: seq<PathPart>)
    requires ListOf(first, nodes) && nodes != []
    ensures nodes[|nodes| - 1].next == null
    ensures forall i :: 0 <= i < |nodes| - 1 ==> nodes[i] != nodes[|nodes| - 1]
  {
    var last := |nodes| - 1;
    assert FollowedBy(nodes[last], NodeAt(nodes, last + 1));
    forall i | 0 <= i < last ensures nodes[i] != nodes[last] {
      assert FollowedBy(nodes[i], NodeAt(nodes, i + 1));
    }
  }

  /** The parser's state: the list built so far, the heap, and the cursor behind those parts. */
  ghost predicate Parsing(h: BlockHeap, nodes: seq<PathPart>, last: PathPart, texts: seq<string>, pairs: seq<Blocks>,
                          t0: Table, r: nat, own: set<nat>, rest: seq<string>, parts: seq<string>)
    requires h.Valid()
    reads h.entries, nodes
  {
    && nodes != [] && last == nodes[|nodes| - 1] && Linked(h, nodes[0], nodes, texts, pairs, r, own)
    && HoldsBlocks(h.Table(), t0, own) && FreeIsZero(t0) && parts == texts + rest
  }

  /** One round of the loop of pathparser_parse. */
  method AppendPart(h: BlockHeap, last: PathPart, path: string, i: nat, ghost nodes: seq<PathPart>,
                    ghost texts: seq<string>, ghost pairs: seq<Blocks>, ghost t0: Table, ghost r: nat,
                    ghost own: set<nat>, ghost parts: seq<string>)
    returns (node: PathPart?, j: nat, fault: bool, ghost nodes': seq<PathPart>, ghost texts': seq<string>,
             ghost pairs': seq<Blocks>, ghost own': set<nat>)
    requires 3 <= i <= |path| <= MAX_PATH && NUL !in path && h.Valid()
    requires Parsing(h, nodes, last, texts, pairs, t0, r, own, Parts(path, i), parts)
    modifies h.entries, last
    ensures fault <==> Parts(path, i) != [] && old(FreeCount(h.Table())) < 2
    ensures !fault ==> i <= j <= |path|
    ensures Parts(path, i) == [] ==>
              && node == null && HoldsBlocks(h.Table(), t0, own)
              && Linked(h, nodes[0], nodes, parts, pairs, r, own)
    ensures Parts(path, i) != [] && !fault ==>
              && node != null && fresh(node) && nodes' != [] && nodes'[0] == nodes[0]
              && |Parts(path, j)| == |Parts(path, i)| - 1
              && FreeCount(h.Table()) == old(FreeCount(h.Table())) - 2
              && Parsing(h, nodes', node, texts', pairs', t0, r, own', Parts(path, j), parts)
  {
    OnlyLastEnds(nodes[0], nodes);
    ghost var p;
    ghost var rest := Parts(path, i);
    node, j, fault, p := ParsePathPart(h, last, path, i, t0, own);
    nodes', texts', pairs', own' := nodes, texts, pairs, own + {p.0, p.1};
    if !fault && node != null {
      nodes', texts', pairs' := AppendNode(h, nodes, texts, pairs, r, own, node, rest, p);
    }
  }

  /** The loop of pathparser_parse, behind its first part. */
  method AppendParts(h: BlockHeap, first: PathPart, path: string, i: nat, ghost before: seq<Blocks>,
                     ghost t0: Table, ghost r: nat, ghost start: set<nat>, ghost parts: seq<string>)
    returns (fault: bool, ghost nodes: seq<PathPart>, ghost pairs: seq<Blocks>, ghost own: set<nat>)
    requires 3 <= i <= |path| <= MAX_PATH && NUL !in path && h.Valid()
    requires Parsing(h, [first], first, [first.part], before, t0, r, start, Parts(path, i), parts)
    modifies h.entries, first
    ensures fault <==> old(FreeCount(h.Table())) < 2 * |Parts(path, i)|
    ensures !fault ==> Linked(h, first, nodes, parts, pairs, r, own) && HoldsBlocks(h.Table(), t0, own)
  {
    fault, nodes, pairs, own := false, [first], before, start;
    ghost var texts := [first.part];
    var last, j := first, i;
    while true
      invariant !fault && i <= j <= |path| && nodes != [] && nodes[0] == first
      invariant last == first || fresh(last)
      invariant Parsing(h, nodes, last, texts, pairs, t0, r, own, Parts(path, j), parts)
      invariant FreeCount(h.Table()) - 2 * |Parts(path, j)| == old(FreeCount(h.Table())) - 2 * |Parts(path, i)|
      decreases |Parts(path, j)|
    {
      var node;
      ghost var nodes', texts', pairs', own';
      node, j, fault, nodes', texts', pairs', own' :=
        AppendPart(h, last, path, j, nodes, texts, pairs, t0, r, own, parts);
      if fault || node == null {
        break;
      }
      last := node;
      nodes, texts, pairs, own := nodes', texts', pairs', own';
    }
  }

  /** pathparser_parse. It returns what the path means, as a list in heap blocks of its own; for a bad
      path it returns null and allocates nothing. No allocation is checked: it writes through a null
      pointer exactly if the heap has no block for the root and two for each part. */
  method Parse(h: BlockHeap, path: string)
    returns (root: PathRoot?, fault: bool, ghost nodes: seq<PathPart>, ghost pairs: seq<Blocks>, ghost r: nat,
             ghost own: set<nat>)
    requires NUL !in path && h.Valid() && WellFormed(h.Table())
    modifies h.entries
    ensures match Meaning(path)
            case Bad => !fault && root == null && h.Table() == old(h.Table())
            case Path(drive, parts) =>
              && (fault <==> old(FreeCount(h.Table())) < 1 + 2 * |parts|)
              && (!fault ==>
                    && root != null && fresh(root) && root.drive == drive && root.address == AddressOf(h, r)
                    && Linked(h, root.first, nodes, parts, pairs, r, own)
                    && HoldsBlocks(h.Table(), old(h.Table()), own))
  {
    root, fault, nodes, pairs, r, own := null, false, [], [], 0, {};
    if |path| > MAX_PATH || !ValidFormat(path) {
      return;
    }
    ghost var t0 := h.Table();
    WellFormedIsZero(t0);
    var address, part, i;
    ghost var p;
    address, r := Allocate(h, PATH_ROOT_SIZE, t0, {});
    if address == 0 {
      fault := true;
      return;
    }
    own := {r};
    assert {} + {r} == own;
    root := new PathRoot(path[0] as int - '0' as int, address);
    part, i, fault, p := ParsePathPart(h, null, path, 3, t0, own);
    if fault || part == null {
      return;
    }
    root.first := part;
    OneNode(h, part, p, r);
    fault, nodes, pairs, own := AppendParts(h, part, path, i, [p], t0, r, own + {p.0, p.1}, Parts(path, 3));
  }

  lemma OneNode(h: BlockHeap, node: PathPart, p: Blocks, r: nat)
    requires h.Valid() && node.next == null && InBlocks(h, node, p) && p.0 != p.1 && p.0 != r && p.1 != r
    ensures Linked(h, node, [node], [node.part], [p], r, {r} + {p.0, p.1})
  {
  }

  // ---- pathparser_free ----

  /** The heap still holds the root and everything from the i-th node on. */
  ghost predicate Left(h: BlockHeap, pairs: seq<Blocks>, i: nat, t0: Table, r: nat)
    reads h.entries
  {
    r !in BlocksFrom(pairs, i) && DistinctFrom(pairs, i) && HoldsBlocks(h.Table(), t0, {r} + BlocksFrom(pairs, i))
  }

  /** The round of pathparser_free at the i-th node: read its link, then two calls of kfree. */
  method FreePart(h: BlockHeap, part: PathPart, ghost first: PathPart?, ghost nodes: seq<PathPart>,
                  ghost pairs: seq<Blocks>, ghost i: nat, ghost t0: Table, ghost r: nat)
    returns (next: PathPart?)
    requires h.Valid() && ListOf(first, nodes) && LiveIn(h, nodes, pairs) && part == NodeAt(nodes, i)
    requires Left(h, pairs, i, t0, r)
    modifies h.entries
    ensures i < |pairs| && next == NodeAt(nodes, i + 1)
    ensures Left(h, pairs, i + 1, t0, r)
  {
    assert FollowedBy(nodes[i], NodeAt(nodes, i + 1)) && InBlocks(h, nodes[i], pairs[i]);
    next := part.next;
    ghost var p, own, rest := pairs[i], {r} + BlocksFrom(pairs, i), {r} + BlocksFrom(pairs, i + 1);
    assert own - {p.0} - {p.1} == rest;
    Release(h, part.partAddress, p.0, t0, own);
    Release(h, part.address, p.1, t0, own - {p.0});
  }

  /** pathparser_free gives back exactly the blocks of the root, of every node and of every text. */
  method Free(h: BlockHeap, root: PathRoot, ghost nodes: seq<PathPart>, ghost parts: seq<string>,
              ghost pairs: seq<Blocks>, ghost t0: Table, ghost r: nat, ghost own: set<nat>)
    requires h.Valid() && Linked(h, root.first, nodes, parts, pairs, r, own) && root.address == AddressOf(h, r)
    requires HoldsBlocks(h.Table(), t0, own)
    modifies h.entries
    ensures h.Table() == t0
  {
    FreeParts(h, root.first, nodes, pairs, t0, r);
    FreeRoot(h, root, pairs, t0, r);
  }

  /** The loop of pathparser_free. */
  method FreeParts(h: BlockHeap, first: PathPart?, ghost nodes: seq<PathPart>, ghost pairs: seq<Blocks>,
                   ghost t0: Table, ghost r: nat)
    requires h.Valid() && ListOf(first, nodes) && LiveIn(h, nodes, pairs) && Left(h, pairs, 0, t0, r)
    modifies h.entries
    ensures Left(h, pairs, |pairs|, t0, r)
  {
    var part := first;
    ghost var i := 0;
    while part != null
      invariant ListOf(first, nodes) && i <= |pairs| && part == NodeAt(nodes, i)
      invariant Left(h, pairs, i, t0, r)
      decreases |pairs| - i
    {
      part := FreePart(h, part, first, nodes, pairs, i, t0, r);
      i := i + 1;
    }
    assert i == |pairs|;
  }

  method FreeRoot(h: BlockHeap, root: PathRoot, ghost pairs: seq<Blocks>, ghost t0: Table, ghost r: nat)
    requires h.Valid() && root.address == AddressOf(h, r) && Left(h, pairs, |pairs|, t0, r)
    modifies h.entries
    ensures h.Table() == t0
  {
    Release(h, root.address, r, t0, {r});
  }

  /** A parse followed by pathparser_free leaves the heap table as it was, unless the parse faults. */
  method ParseAndFree(h: BlockHeap, path: string) returns (fault: bool)
    requires NUL !in path && h.Valid() && WellFormed(h.Table())
    modifies h.entries
    ensures fault <==>
              Meaning(path).Path? && old(FreeCount(h.Table())) < 1 + 2 * |Meaning(path).parts|
    ensures !fault ==> h.Table() == old(h.Table())
  {
    ghost var t := h.Table();
    var root;
    ghost var nodes, pairs, r, own;
    root, fault, nodes, pairs, r, own := Parse(h, path);
    if !fault && root != null {
      Free(h, root, nodes, Meaning(path).parts, pairs, t, r, own);
    }
  }
}
