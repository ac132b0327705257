/** From a typed command line to a process's argument vector: the user library's command parser,
    which drives strtok, and the kernel's copy of the parsed list into the new process. */
module Command {
  import opened Words
  import opened CStrings
  import opened Strtok

  const COMMAND_BUFFER := 1025
  const ARGUMENT_SIZE := 512

  function AllTruncated(tokens: seq<string>, count: nat): (r: seq<string>)
    requires count > 0
    ensures |r| == |tokens|
  {
    if tokens == [] then [] else [Truncated(tokens[0], count)] + AllTruncated(tokens[1..], count)
  }

  lemma {:induction false} TruncatedAt(tokens: seq<string>, count: nat, k: nat)
    requires count > 0 && k < |tokens|
    ensures AllTruncated(tokens, count)[k] == Truncated(tokens[k], count)
  {
    if k > 0 {
      TruncatedAt(tokens[1..], count, k - 1);
    }
  }

  /** strncpy of a string into a buffer. */
  method CopyIn(dest: array<char>, src: string, count: nat)
    requires 0 < count <= dest.Length && NUL !in src
    modifies dest
    ensures var n := if |src| < count then |src| else count - 1;
            dest[..n] == src[..n] == Truncated(src, count) && dest[n] == NUL
            && forall k :: n < k < dest.Length ==> dest[k] == old(dest[k])
  {
    var i := 0;
    while i < count - 1 && i < |src|
      invariant 0 <= i <= count - 1 && i <= |src|
      invariant dest[..i] == src[..i]
      invariant forall k :: i <= k < dest.Length ==> dest[k] == old(dest[k])
    {
      dest[i] := src[i];
      i := i + 1;
    }
    dest[i] := NUL;
    assert dest[..i] == src[..i];
  }

  /** strncpy of the C string at index `from` into an argument. */
  method CopyOut(buf: array<char>, from: nat, count: nat, ghost text: string) returns (s: string)
    requires count > 0 && StringAt(buf, from, text)
    ensures s == Truncated(text, count) && s == if |text| < count then text else text[..count - 1]
  {
    s := [];
    while |s| < count - 1 && buf[from + |s|] != NUL
      invariant |s| <= |text| && |s| <= count - 1 && s == text[..|s|]
      decreases count - |s|
    {
      assert buf[from + |s|] == text[|s|];
      s := s + [buf[from + |s|]];
    }
    if |s| < |text| {
      assert buf[from + |s|] == text[|s|];
    }
  }

  // ---- the argument list ----

  class CommandArgument {
    var argument: string
    var next: CommandArgument?

    constructor (argument: string)
      ensures this.argument == argument && next == null
    {
      this.argument := argument;
      next := null;
    }
  }

  function NodeAt(nodes: seq<CommandArgument>, i: nat): CommandArgument? {
    if i < |nodes| then nodes[i] else null
  }

  predicate FollowedBy(a: CommandArgument, b: CommandArgument?)
    reads a
  {
    a.next == b
  }

  /** The list that starts at root consists of these nodes. */
  ghost predicate ListOf(root: CommandArgument?, nodes: seq<CommandArgument>)
    reads nodes
  {
    && root == NodeAt(nodes, 0)
    && forall i :: 0 <= i < |nodes| ==> FollowedBy(nodes[i], NodeAt(nodes, i + 1))
  }

  /** The nodes hold these arguments. */
  ghost predicate Holds(nodes: seq<CommandArgument>, arguments: seq<string>)
    reads nodes
  {
    |nodes| == |arguments| && forall i :: 0 <= i < |nodes| ==> nodes[i].argument == arguments[i]
  }

  // ---- spans of a text whose beginning has been overwritten ----

  predicate AgreeFrom(s: string, t: string, i: nat) {
    |s| == |t| && forall k :: i <= k < |s| ==> s[k] == t[k]
  }

  lemma {:induction false} SkipAgrees(s: string, t: string, delims: set<char>, i: nat)
    requires i <= |s| && AgreeFrom(s, t, i)
    ensures SkipDelims(s, delims, i) == SkipDelims(t, delims, i)
    decreases |s| - i
  {
    if i < |s| && IsDelim(s[i], delims) {
      SkipAgrees(s, t, delims, i + 1);
    }
  }

  lemma {:induction false} FindAgrees(s: string, t: string, delims: set<char>, i: nat)
    requires i <= |s| && AgreeFrom(s, t, i)
    ensures FindDelim(s, delims, i) == FindDelim(t, delims, i)
    decreases |s| - i
  {
    if i < |s| && !IsDelim(s[i], delims) {
      FindAgrees(s, t, delims, i + 1);
    }
  }

  /** Where strtok leaves its position: behind the delimiter, or on the terminator. */
  function After(s: string, delims: set<char>, i: nat): (r: nat)
    requires i <= |s|
    ensures i <= r <= |s|
  {
    var b := FindDelim(s, delims, SkipDelims(s, delims, i));
    if b < |s| then b + 1 else |s|
  }

  lemma TokensStep(s: string, delims: set<char>, i: nat)
    requires i <= |s|
    ensures var a := SkipDelims(s, delims, i);
            var b := FindDelim(s, delims, a);
            Tokens(s, delims, i) == if a == |s| then [] else [s[a..b]] + Tokens(s, delims, After(s, delims, i))
  {
    var a := SkipDelims(s, delims, i);
    if a < |s| {
      var n := After(s, delims, i);
      SpansAreOrdered(s, delims, i);
      SpansAreOrdered(s, delims, n);
      var b := FindDelim(s, delims, a);
      var later := SpansFrom(s, delims, i).later;
      assert SkipDelims(s, delims, |s|) == |s|;
      assert later == SpansFrom(s, delims, n);
      assert Texts(s, later, b + 1) == Texts(s, later, n);
    }
  }

  /** Memory still holds the text from i on, and its terminator. */
  predicate UnreadIn(b: seq<char>, text: string, i: nat) {
    && i <= |text| < |b| && NUL !in text && b[|text|] == NUL
    && forall k :: i <= k < |text| ==> b[k] == text[k]
  }

  ghost predicate Unread(buf: array<char>, text: string, i: nat)
    reads buf
  {
    UnreadIn(buf[..], text, i)
  }

  /** strtok has returned `token`; rest are the tokens from there on. Behind the last one the
      returned pointer and strtok's position are null. */
  ghost predicate PendingIn(b: seq<char>, sp: Pointer, token: Pointer, text: string, d: set<char>, rest: seq<string>) {
    && (token == Null <==> rest == []) && (token == Null <==> sp == Null)
    && (token.At? ==>
          && StringIn(b, token.index, rest[0])
          && UnreadIn(b, text, sp.index) && Tokens(text, d, sp.index) == rest[1..])
  }

  ghost predicate Pending(t: Tokenizer, token: Pointer, text: string, d: set<char>, rest: seq<string>)
    reads t, t.buf
  {
    PendingIn(t.buf[..], t.sp, token, text, d, rest)
  }

  /** A call on unread text takes the first of its tokens, although earlier calls have overwritten
      delimiters. */
  lemma TokenTaken(before: seq<char>, after: seq<char>, text: string, i: nat, d: set<char>, token: Pointer, sp: Pointer)
    requires UnreadIn(before, text, i) && StrtokResult(before, At(i), |text|, d, token, sp, after)
    ensures PendingIn(after, sp, token, text, d, Tokens(text, d, i))
  {
    SameStops(before, text, i, d);
    TokensStep(text, d, i);
    var a := SkipDelims(text, d, i);
    if a < |text| {
      var b := FindDelim(text, d, a);
      assert after == before[b := NUL];
      FirstCharacters(before, after, text, i, a, b);
    }
  }

  lemma SameStops(before: seq<char>, text: string, i: nat, d: set<char>)
    requires UnreadIn(before, text, i)
    ensures var a := SkipDelims(text, d, i);
            && SkipDelims(before[..|text|], d, i) == a
            && FindDelim(before[..|text|], d, a) == FindDelim(text, d, a)
  {
    SkipAgrees(before[..|text|], text, d, i);
    FindAgrees(before[..|text|], text, d, SkipDelims(text, d, i));
  }

  lemma FirstCharacters(before: seq<char>, after: seq<char>, text: string, i: nat, a: nat, b: nat)
    requires UnreadIn(before, text, i) && i <= a <= b <= |text| && after == before[b := NUL]
    ensures StringIn(after, a, text[a..b]) && UnreadIn(after, text, if b < |text| then b + 1 else |text|)
  {
  }

  /** One strtok call while the text is unread from i on. */
  method NextToken(t: Tokenizer, str: Pointer, delims: string, ghost text: string, ghost i: nat)
    returns (token: Pointer)
    requires NUL !in delims && Unread(t.buf, text, i)
    requires (if t.sp == Null then str else t.sp) == At(i)
    modifies t, t.buf
    ensures Pending(t, token, text, Chars(delims), Tokens(text, Chars(delims), i))
  {
    ghost var before := t.buf[..];
    assert forall k :: i <= k < |text| ==> before[k] == text[k];
    token := t.Strtok(str, delims, |text|);
    TokenTaken(before, t.buf[..], text, i, Chars(delims), token, t.sp);
  }

  /** The call that continues after a token. */
  method FollowingToken(t: Tokenizer, last: Pointer, delims: string, ghost text: string, ghost rest: seq<string>)
    returns (token: Pointer)
    requires NUL !in delims && last.At? && Pending(t, last, text, Chars(delims), rest)
    modifies t, t.buf
    ensures Pending(t, token, text, Chars(delims), rest[1..])
  {
    token := NextToken(t, Null, delims, text, t.sp.index);
  }

  /** Calling strtok until it returns null, from a null position, yields exactly the tokens of the
      text, for all delimiters, and leaves the position null again. */
  method UntilNull(t: Tokenizer, delims: string, ghost text: string) returns (tokens: seq<string>)
    requires NUL !in delims && t.sp == Null && Unread(t.buf, text, 0)
    modifies t, t.buf
    ensures tokens == Tokens(text, Chars(delims), 0) && t.sp == Null
  {
    tokens := [];
    ghost var d := Chars(delims);
    ghost var all := Tokens(text, d, 0);
    ghost var rest := all;
    var token := NextToken(t, At(0), delims, text, 0);
    while token != Null
      invariant Pending(t, token, text, d, rest) && all == tokens + rest
      decreases |rest|
    {
      var word := ReadToken(t, token, text, d, rest);
      MoveFirst(tokens, rest);
      token := FollowingToken(t, token, delims, text, rest);
      tokens := tokens + [word];
      rest := rest[1..];
    }
  }

  /** The C string that the returned pointer points to. */
  method ReadToken(t: Tokenizer, token: Pointer, ghost text: string, ghost d: set<char>, ghost rest: seq<string>)
    returns (word: string)
    requires token.At? && Pending(t, token, text, d, rest)
    ensures rest != [] && word == rest[0]
  {
    word := CopyOut(t.buf, token.index, t.buf.Length + 1, rest[0]);
  }

  lemma MoveFirst(tokens: seq<string>, rest: seq<string>)
    requires rest != []
    ensures tokens + rest == tokens + [rest[0]] + rest[1..]
  {
  }

  // ---- bimbleos_parse_command ----

  const SPACE: string := " "

  /** The words of the part of the command that fits the parser's buffer. */
  function CommandWords(command: string): seq<string> {
    Tokens(Truncated(command, COMMAND_BUFFER), Chars(SPACE), 0)
  }

  function Arguments(command: string): seq<string> {
    AllTruncated(CommandWords(command), ARGUMENT_SIZE)
  }

  /** The words are the tokens between blanks of the first 1024 characters; of a longer word the first 511 characters
      are kept. */
  lemma WhatIsKept(command: string, k: nat)
    requires k < |CommandWords(command)|
    ensures CommandWords(command) == Tokens(if |command| <= 1024 then command else command[..1024], {' '}, 0)
    ensures |Arguments(command)| == |CommandWords(command)|
    ensures var w := CommandWords(command)[k]; Arguments(command)[k] == if |w| <= 511 then w else w[..511]
  {
    assert Chars(SPACE) == {' '};
    TruncatedAt(CommandWords(command), ARGUMENT_SIZE, k);
  }

  /** Copies the token into a new node, or fails because memory is out. */
  method NewArgument(t: Tokenizer, token: Pointer, available: nat, ghost text: string, ghost rest: seq<string>)
    returns (node: CommandArgument?, left: nat)
    requires token.At? && Pending(t, token, text, Chars(SPACE), rest)
    ensures available == 0 ==> node == null && left == 0
    ensures available > 0 ==>
              && node != null && fresh(node) && node.next == null && left == available - 1
              && node.argument == Truncated(rest[0], ARGUMENT_SIZE)
  {
    if available == 0 {
      return null, 0;
    }
    var argument := CopyOut(t.buf, token.index, ARGUMENT_SIZE, rest[0]);
    node := new CommandArgument(argument);
    left := available - 1;
  }

  /** The arguments are those already collected, then the tokens of rest. */
  ghost predicate Remaining(done: seq<string>, rest: seq<string>, args: seq<string>) {
    args == done + AllTruncated(rest, ARGUMENT_SIZE)
  }

  lemma RemainingStep(done: seq<string>, rest: seq<string>, args: seq<string>)
    requires Remaining(done, rest, args) && rest != []
    ensures Remaining(done + [Truncated(rest[0], ARGUMENT_SIZE)], rest[1..], args)
  {
  }

  /** bimbleos_parse_command, with t.buf as its stack buffer, when `available` more allocations
      succeed. The list holds the space-separated words of the first 1024 characters, each cut to
      511, as far as the allocations go; strtok's position is null again exactly if they sufficed. */
  method ParseCommand(t: Tokenizer, command: string, max: int, available: nat)
    returns (root: CommandArgument?, ghost nodes: seq<CommandArgument>)
    requires t.sp == Null && t.buf.Length == COMMAND_BUFFER && NUL !in command
    modifies t, t.buf
    ensures max >= COMMAND_BUFFER ==> root == null && t.sp == Null && t.buf[..] == old(t.buf[..])
    ensures max < COMMAND_BUFFER ==>
              && ListOf(root, nodes) && (forall node <- nodes :: fresh(node))
              && Holds(nodes, Arguments(command)[..Min(available, |Arguments(command)|)])
              && (t.sp == Null <==> |Arguments(command)| <= available)
  {
    root, nodes := null, [];
    if max >= COMMAND_BUFFER {
      return;
    }
    var token := FirstToken(t, command);
    if token == Null {
      return;
    }
    root, nodes := ParseWords(t, command, token, available);
  }

  /** Copies the command and makes the first strtok call. */
  method FirstToken(t: Tokenizer, command: string) returns (token: Pointer)
    requires t.sp == Null && t.buf.Length == COMMAND_BUFFER && NUL !in command
    modifies t, t.buf
    ensures Pending(t, token, Truncated(command, COMMAND_BUFFER), Chars(SPACE), CommandWords(command))
  {
    CopyIn(t.buf, command, COMMAND_BUFFER);
    token := NextToken(t, At(0), SPACE, Truncated(command, COMMAND_BUFFER), 0);
  }

  /** bimbleos_parse_command once strtok has found a first word. */
  method ParseWords(t: Tokenizer, command: string, first: Pointer, available: nat)
    returns (root: CommandArgument?, ghost nodes: seq<CommandArgument>)
    requires Pending(t, first, Truncated(command, COMMAND_BUFFER), Chars(SPACE), CommandWords(command)) && first.At?
    modifies t, t.buf
    ensures ListOf(root, nodes) && (forall node <- nodes :: fresh(node))
    ensures Holds(nodes, Arguments(command)[..Min(available, |Arguments(command)|)])
    ensures t.sp == Null <==> |Arguments(command)| <= available
  {
    ghost var text, rest, args := Truncated(command, COMMAND_BUFFER), CommandWords(command), Arguments(command);
    var left;
    root, left := NewArgument(t, first, available, text, rest);
    if root == null {
      return root, [];
    }
    RemainingStep([], rest, args);
    var token := FollowingToken(t, first, SPACE, text, rest);
    nodes := AppendArguments(t, root, token, left, text, rest[1..], args);
  }

  /** The list so far, the tokens still to come and strtok's state fit together. */
  ghost predicate Parsing(t: Tokenizer, nodes: seq<CommandArgument>, done: seq<string>, token: Pointer, text: string,
                          rest: seq<string>, args: seq<string>)
    reads t, t.buf, nodes
  {
    && nodes != [] && ListOf(nodes[0], nodes) && Remaining(done, rest, args)
    && Holds(nodes, done) && Pending(t, token, text, Chars(SPACE), rest)
  }

  /** One round of the loop of bimbleos_parse_command. */
  method AppendArgument(t: Tokenizer, current: CommandArgument, token: Pointer, available: nat, ghost text: string,
                        ghost nodes: seq<CommandArgument>, ghost done: seq<string>, ghost rest: seq<string>,
                        ghost args: seq<string>)
    returns (node: CommandArgument?, left: nat, after: Pointer,
             ghost nodes': seq<CommandArgument>, ghost done': seq<string>, ghost rest': seq<string>)
    requires Parsing(t, nodes, done, token, text, rest, args) && token.At? && current == nodes[|nodes| - 1]
    modifies t, t.buf, current`next
    ensures Parsing(t, nodes', done', after, text, rest', args)
    ensures nodes'[0] == nodes[0]
    ensures available == 0 ==> node == null && left == 0 && after == token && nodes' == nodes
    ensures available > 0 ==>
              && node != null && fresh(node) && left == available - 1
              && nodes' == nodes + [node] && |rest'| < |rest|
  {
    after, nodes', done', rest' := token, nodes, done, rest;
    node, left := NewArgument(t, token, available, text, rest);
    if node == null {
      return;
    }
    nodes', done' := Link(current, node, nodes, done, rest, args);
    after := FollowingToken(t, token, SPACE, text, rest);
    rest' := rest[1..];
  }

  lemma DoneSoFar(nodes: seq<CommandArgument>, done: seq<string>, rest: seq<string>, args: seq<string>)
    requires Remaining(done, rest, args) && Holds(nodes, done)
    ensures |args| == |nodes| + |rest| && Holds(nodes, args[..|nodes|])
  {
    assert done == args[..|nodes|];
  }

  /** The loop of bimbleos_parse_command, with the first node made and the second token read. */
  method AppendArguments(t: Tokenizer, root: CommandArgument, first: Pointer, available: nat,
                         ghost text: string, ghost tokens: seq<string>, ghost args: seq<string>)
    returns (ghost nodes: seq<CommandArgument>)
    requires Parsing(t, [root], [root.argument], first, text, tokens, args)
    modifies t, t.buf, root`next
    ensures ListOf(root, nodes) && (forall node <- nodes :: node == root || fresh(node))
    ensures Holds(nodes, args[..Min(available + 1, |args|)])
    ensures t.sp == Null <==> |args| <= available + 1
  {
    var token, left, current := first, available, root;
    nodes := [root];
    ghost var done, rest := [root.argument], tokens;
    while token != Null
      invariant Parsing(t, nodes, done, token, text, rest, args)
      invariant root == nodes[0] && current == nodes[|nodes| - 1]
      invariant current == root || fresh(current)
      invariant forall node <- nodes :: node == root || fresh(node)
      invariant |nodes| + left == available + 1
      decreases |rest|
    {
      var node;
      node, left, token, nodes, done, rest := AppendArgument(t, current, token, left, text, nodes, done, rest, args);
      if node == null {
        break;
      }
      current := node;
    }
    DoneSoFar(nodes, done, rest, args);
  }

  /** `current->next = new_command` at the end of the list. */
  method Link(current: CommandArgument, node: CommandArgument, ghost nodes: seq<CommandArgument>,
              ghost done: seq<string>, ghost rest: seq<string>, ghost args: seq<string>)
    returns (ghost nodes': seq<CommandArgument>, ghost done': seq<string>)
    requires nodes != [] && ListOf(nodes[0], nodes) && current == nodes[|nodes| - 1] && Holds(nodes, done)
    requires node !in nodes && node.next == null
    requires Remaining(done, rest, args) && rest != [] && node.argument == Truncated(rest[0], ARGUMENT_SIZE)
    modifies current`next
    ensures nodes' == nodes + [node] && ListOf(nodes[0], nodes') && Holds(nodes', done')
    ensures Remaining(done', rest[1..], args)
  {
    nodes', done' := nodes + [node], done + [node.argument];
    RemainingStep(done, rest, args);
    ghost var last := |nodes| - 1;
    assert FollowedBy(nodes[last], NodeAt(nodes, last + 1));
    forall i | 0 <= i < last ensures nodes[i] != current && NodeAt(nodes', i + 1) == NodeAt(nodes, i + 1) {
      assert FollowedBy(nodes[i], NodeAt(nodes, i + 1));
    }
    current.next := node;
    forall i | 0 <= i < |nodes'| ensures FollowedBy(nodes'[i], NodeAt(nodes', i + 1)) {
      if i < last {
        assert NodeAt(nodes', i + 1) == NodeAt(nodes, i + 1);
      }
    }
  }

  function Min(a: nat, b: nat): nat {
    if a < b then a else b
  }

  // ---- process_inject_arguments ----

  class ProcessArguments {
    var argc: int
    var argv: seq<string>

    constructor ()
      ensures argc == 0 && argv == []
    {
      argc, argv := 0, [];
    }
  }

  /** process_count_command_arguments. */
  method CountArguments(root: CommandArgument?, ghost nodes: seq<CommandArgument>) returns (count: nat)
    requires ListOf(root, nodes)
    ensures count == |nodes|
  {
    var current := root;
    count := 0;
    while current != null
      invariant count <= |nodes| && current == NodeAt(nodes, count)
      decreases |nodes| - count
    {
      assert FollowedBy(nodes[count], NodeAt(nodes, count + 1));
      count := count + 1;
      current := current.next;
    }
  }

  /** The copying loop of process_inject_arguments, with an allocation for each string. */
  method CopyArguments(root: CommandArgument?, available: nat, ghost nodes: seq<CommandArgument>,
                       ghost arguments: seq<string>)
    returns (ok: bool, argv: seq<string>)
    requires ListOf(root, nodes) && Holds(nodes, arguments)
    ensures ok <==> |arguments| <= available
    ensures ok ==> argv == AllTruncated(arguments, ARGUMENT_SIZE)
  {
    argv, ok := [], true;
    var current, left := root, available;
    ghost var all, rest := AllTruncated(arguments, ARGUMENT_SIZE), arguments;
    while current != null
      invariant |argv| + left == available && |argv| + |rest| == |nodes|
      invariant current == NodeAt(nodes, |argv|) && rest == arguments[|argv|..]
      invariant Remaining(argv, rest, all)
      decreases |rest|
    {
      if left == 0 {
        return false, [];
      }
      assert FollowedBy(nodes[|argv|], NodeAt(nodes, |argv| + 1));
      assert rest[0] == arguments[|argv|];
      RemainingStep(argv, rest, all);
      argv := argv + [Truncated(current.argument, ARGUMENT_SIZE)];
      left := left - 1;
      current := current.next;
      rest := rest[1..];
    }
  }

  /** process_inject_arguments when `available` calls of process_malloc succeed: one for the pointer
      array and one for each argument. Nothing is recorded unless all of them do. */
  method InjectArguments(p: ProcessArguments, root: CommandArgument?, available: nat, ghost nodes: seq<CommandArgument>,
                         ghost arguments: seq<string>)
    returns (res: int)
    requires ListOf(root, nodes) && Holds(nodes, arguments)
    modifies p
    ensures res == if arguments == [] then -EIO else if available <= |arguments| then -ENOMEM else 0
    ensures res != 0 ==> p.argc == old(p.argc) && p.argv == old(p.argv)
    ensures res == 0 ==> p.argc == |arguments| && p.argv == AllTruncated(arguments, ARGUMENT_SIZE)
  {
    var argc := CountArguments(root, nodes);
    if argc == 0 {
      return -EIO;
    }
    if available == 0 {
      return -ENOMEM;
    }
    var ok, argv := CopyArguments(root, available - 1, nodes, arguments);
    if !ok {
      return -ENOMEM;
    }
    p.argc, p.argv := argc, argv;
    res := 0;
  }

  // ---- a whole command ----

  const LINE_SIZE := 1024

  /** The words from the k-th on, with a blank between any two. */
  function LineFrom(words: seq<string>, k: nat): string
    requires k <= |words|
    decreases |words| - k
  {
    if k == |words| then ""
    else if k + 1 == |words| then words[k]
    else words[k] + [' '] + LineFrom(words, k + 1)
  }

  predicate IsWord(w: string) {
    w != "" && ' ' !in w
  }

  lemma {:induction false} FindDelimAt(s: string, delims: set<char>, i: nat, j: nat)
    requires i <= j <= |s| && (forall k :: i <= k < j ==> !IsDelim(s[k], delims))
    requires j < |s| ==> IsDelim(s[j], delims)
    ensures FindDelim(s, delims, i) == j
    decreases j - i
  {
    if i < j {
      FindDelimAt(s, delims, i + 1, j);
    }
  }

  lemma {:induction false} TokensOfLine(s: string, i: nat, words: seq<string>, k: nat)
    requires k <= |words| && i <= |s| && s[i..] == LineFrom(words, k)
    requires forall j :: k <= j < |words| ==> IsWord(words[j])
    ensures Tokens(s, Chars(SPACE), i) == words[k..]
    decreases |words| - k
  {
    if k == |words| {
      TokensStep(s, Chars(SPACE), i);
    } else {
      var next := if k + 1 < |words| then i + |words[k]| + 1 else |s|;
      FirstTokenOfLine(s, i, words, k);
      TokensOfLine(s, next, words, k + 1);
      assert words[k..] == [words[k]] + words[k + 1..];
    }
  }

  /** The first token of the line is its first word, and the search goes on behind the blank or at the end. */
  lemma FirstTokenOfLine(s: string, i: nat, words: seq<string>, k: nat)
    requires k < |words| && i <= |s| && s[i..] == LineFrom(words, k) && IsWord(words[k])
    ensures var j := i + |words[k]|;
            var next := if k + 1 < |words| then j + 1 else |s|;
            && next <= |s| && s[next..] == LineFrom(words, k + 1)
            && Tokens(s, Chars(SPACE), i) == [words[k]] + Tokens(s, Chars(SPACE), next)
  {
    var d, j := Chars(SPACE), i + |words[k]|;
    FirstWordOfLine(s, i, words, k);
    TokensStep(s, d, i);
    assert SkipDelims(s, d, i) == i;
    FindDelimAt(s, d, i, j);
  }

  /** The line begins with its first word, behind which it ends or has a blank. */
  lemma FirstWordOfLine(s: string, i: nat, words: seq<string>, k: nat)
    requires k < |words| && i <= |s| && s[i..] == LineFrom(words, k) && IsWord(words[k])
    ensures var j := i + |words[k]|;
            && i < j <= |s| && s[i..j] == words[k] && (forall m :: i <= m < j ==> s[m] != ' ')
            && (k + 1 == |words| ==> j == |s|)
            && (k + 1 < |words| ==> j < |s| && s[j] == ' ' && s[j + 1..] == LineFrom(words, k + 1))
  {
    var w, j := words[k], i + |words[k]|;
    var t := s[i..];
    assert t[..|w|] == w;
    assert s[i..j] == t[..|w|];
    forall m | i <= m < j ensures s[m] != ' ' {
      assert s[m] == w[m - i];
    }
    if k + 1 < |words| {
      assert t[|w| + 1..] == LineFrom(words, k + 1);
      assert s[j + 1..] == t[|w| + 1..];
      assert s[j] == t[|w|];
    }
  }

  /** Parsing a typed line undoes joining its words with blanks, up to 1023 characters. */
  lemma ParsingUndoesJoining(words: seq<string>)
    requires (forall j :: 0 <= j < |words| ==> IsWord(words[j])) && |LineFrom(words, 0)| < LINE_SIZE
    ensures Tokens(Truncated(LineFrom(words, 0), LINE_SIZE), Chars(SPACE), 0) == words
    ensures CommandWords(LineFrom(words, 0)) == words
  {
    var line := LineFrom(words, 0);
    assert line[0..] == line;
    TokensOfLine(line, 0, words, 0);
    assert Truncated(line, LINE_SIZE) == line && Truncated(line, COMMAND_BUFFER) == line;
  }

  lemma {:induction false} TruncatedTwice(tokens: seq<string>, count: nat)
    requires count > 0
    ensures AllTruncated(AllTruncated(tokens, count), count) == AllTruncated(tokens, count)
  {
    if tokens != [] {
      TruncatedTwice(tokens[1..], count);
    }
  }

  /** bimbleos_system_run up to the new process's argument vector, when loading the program returns
      `loaded` and every allocation succeeds: argv is the words of the first 1023 characters of the
      line, each cut to 511, and strtok is ready for the next line. */
  method SystemRun(t: Tokenizer, p: ProcessArguments, line: string, loaded: int, user: nat, kernel: nat)
    returns (res: int)
    requires t.sp == Null && t.buf.Length == COMMAND_BUFFER && NUL !in line
    requires var words := |Tokens(Truncated(line, LINE_SIZE), Chars(SPACE), 0)|; user >= words && kernel > words
    modifies t, t.buf, p
    ensures t.sp == Null
    ensures var words := Tokens(Truncated(line, LINE_SIZE), Chars(SPACE), 0);
            if words == [] || loaded < 0 then
              res == (if words == [] then -1 else loaded) && p.argc == old(p.argc) && p.argv == old(p.argv)
            else res == 0 && p.argc == |words| && p.argv == AllTruncated(words, ARGUMENT_SIZE)
  {
    var buf := Truncated(line, LINE_SIZE);
    ghost var nodes;
    var root;
    root, nodes := ParseCommand(t, buf, LINE_SIZE, user);
    ghost var arguments := Arguments(buf);
    assert Truncated(buf, COMMAND_BUFFER) == buf && arguments[..|arguments|] == arguments;
    if root == null {
      return -1;
    }
    if loaded < 0 {
      return loaded;
    }
    TruncatedTwice(CommandWords(buf), ARGUMENT_SIZE);
    res := InjectArguments(p, root, kernel, nodes, arguments);
  }
}
