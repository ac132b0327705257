/** What a path such as 0:/bin/shell.elf means, and how it is printed. */
module Paths {

  const MAX_PATH := 108
  const SLASH: char := '/'

  // ---- the grammar ----

  /** All components between slashes, the empty ones included. */
  function Split(s: string, i: nat): (r: seq<string>)
    requires i <= |s|
    ensures r != []
    decreases |s| - i
  {
    var j := FindSlash(s, i);
    [s[i..j]] + (if j < |s| then Split(s, j + 1) else [])
  }

  /** Where the component that starts at i ends. */
  function FindSlash(s: string, i: nat): (j: nat)
    requires i <= |s|
    ensures i <= j <= |s| && (j < |s| ==> s[j] == SLASH)
    decreases |s| - i
  {
    if i < |s| && s[i] != SLASH then FindSlash(s, i + 1) else i
  }

  function Join(parts: seq<string>): string
    requires parts != []
  {
    JoinFrom(parts, 0)
  }

  /** The parts from the k-th on, with slashes between them. */
  function JoinFrom(parts: seq<string>, k: nat): string
    requires k < |parts|
    decreases |parts| - k
  {
    if k == |parts| - 1 then parts[k] else parts[k] + [SLASH] + JoinFrom(parts, k + 1)
  }

  predicate NoSlash(s: string) {
    SLASH !in s
  }

  lemma {:induction false} NoComponentHasSlash(s: string, i: nat, k: nat)
    requires i <= |s| && k < |Split(s, i)|
    ensures NoSlash(Split(s, i)[k])
    decreases k
  {
    if k == 0 {
      NoSlashBefore(s, i);
    } else {
      NoComponentHasSlash(s, FindSlash(s, i) + 1, k - 1);
    }
  }

  /** The sequence x stands in s at position i. */
  predicate TextAt<T(==)>(s: seq<T>, i: nat, x: seq<T>) {
    i + |x| <= |s| && forall k :: 0 <= k < |x| ==> s[i + k] == x[k]
  }

  /** x stands at position i and is all that follows. */
  predicate EndsWith<T(==)>(s: seq<T>, i: nat, x: seq<T>) {
    TextAt(s, i, x) && i + |x| == |s|
  }

  /** Splitting and joining are inverse, which is what makes Split the components. */
  lemma JoinOfSplit(s: string, i: nat)
    requires i <= |s|
    ensures Join(Split(s, i)) == s[i..]
  {
    JoinedAt(s, i);
  }

  lemma {:induction false} JoinedAt(s: string, i: nat)
    requires i <= |s|
    ensures EndsWith(s, i, Join(Split(s, i)))
    decreases |s| - i
  {
    var j := FindSlash(s, i);
    if j < |s| {
      JoinedAt(s, j + 1);
      JoinedStep(s, i, j, Split(s, j + 1));
    } else {
      LastComponent(s, i);
    }
  }

  lemma JoinedStep(s: string, i: nat, j: nat, tail: seq<string>)
    requires i <= j < |s| && s[j] == SLASH && tail != []
    requires EndsWith(s, j + 1, Join(tail))
    ensures EndsWith(s, i, Join([s[i..j]] + tail))
  {
    JoinPrepend(s[i..j], tail);
    TextGrows(s, i, s[i..j], Join(tail));
  }

  lemma TextGrows(s: string, i: nat, part: string, rest: string)
    requires TextAt(s, i, part) && i + |part| < |s| && s[i + |part|] == SLASH && TextAt(s, i + |part| + 1, rest)
    ensures TextAt(s, i, part + [SLASH] + rest)
  {
    var x := part + [SLASH] + rest;
    forall k | 0 <= k < |x| ensures s[i + k] == x[k] {
      if k > |part| {
        assert s[(i + |part| + 1) + (k - |part| - 1)] == rest[k - |part| - 1];
      }
    }
  }

  lemma TextSplits(s: string, i: nat, part: string, rest: string)
    requires TextAt(s, i, part + [SLASH] + rest)
    ensures TextAt(s, i, part) && i + |part| < |s| && s[i + |part|] == SLASH && TextAt(s, i + |part| + 1, rest)
  {
    var x := part + [SLASH] + rest;
    assert forall k :: 0 <= k < |part| ==> x[k] == part[k];
    assert x[|part|] == SLASH;
    forall k | 0 <= k < |rest| ensures s[i + |part| + 1 + k] == rest[k] {
      assert s[i + (|part| + 1 + k)] == x[|part| + 1 + k];
    }
  }

  lemma LastComponent(s: string, i: nat)
    requires i <= |s| && FindSlash(s, i) == |s|
    ensures Split(s, i) == [s[i..]]
  {
    assert s[i..|s|] == s[i..];
  }

  lemma JoinPrepend(part: string, parts: seq<string>)
    requires parts != []
    ensures Join([part] + parts) == part + [SLASH] + Join(parts)
  {
    JoinShifted([part] + parts, parts, 0);
  }

  lemma {:induction false} JoinShifted(longer: seq<string>, parts: seq<string>, k: nat)
    requires k < |parts| && |longer| == |parts| + 1
    requires forall i :: 0 <= i < |parts| ==> longer[i + 1] == parts[i]
    ensures JoinFrom(longer, k + 1) == JoinFrom(parts, k)
    decreases |parts| - k
  {
    if k < |parts| - 1 {
      JoinShifted(longer, parts, k + 1);
    }
  }

  lemma {:induction false} NoSlashBefore(s: string, i: nat)
    requires i <= |s|
    ensures NoSlash(s[i..FindSlash(s, i)])
    decreases |s| - i
  {
    if i < |s| && s[i] != SLASH {
      NoSlashBefore(s, i + 1);
      assert s[i..FindSlash(s, i)] == [s[i]] + s[i + 1..FindSlash(s, i)];
    }
  }

  lemma SplitOfJoin(s: string, i: nat, parts: seq<string>)
    requires parts != [] && forall k :: 0 <= k < |parts| ==> NoSlash(parts[k])
    requires i <= |s| && s[i..] == Join(parts)
    ensures Split(s, i) == parts
  {
    SplitOfJoinFrom(s, i, parts, 0);
  }

  lemma {:induction false} SplitOfJoinFrom(s: string, i: nat, parts: seq<string>, k: nat)
    requires k < |parts| && forall l :: 0 <= l < |parts| ==> NoSlash(parts[l])
    requires EndsWith(s, i, JoinFrom(parts, k))
    ensures EndsWith(parts, k, Split(s, i))
    decreases |parts| - k
  {
    if k < |parts| - 1 {
      SplitFirst(s, i, parts, k);
      SplitOfJoinFrom(s, i + |parts[k]| + 1, parts, k + 1);
      OneMore(parts, k, Split(s, i + |parts[k]| + 1));
    } else {
      SplitStep(s, i, parts[k]);
    }
  }

  lemma SplitFirst(s: string, i: nat, parts: seq<string>, k: nat)
    requires k < |parts| - 1 && NoSlash(parts[k])
    requires EndsWith(s, i, JoinFrom(parts, k))
    ensures var next := i + |parts[k]| + 1;
            && next <= |s| && Split(s, i) == [parts[k]] + Split(s, next)
            && EndsWith(s, next, JoinFrom(parts, k + 1))
  {
    TextSplits(s, i, parts[k], JoinFrom(parts, k + 1));
    SplitStep(s, i, parts[k]);
  }

  lemma OneMore(parts: seq<string>, k: nat, tail: seq<string>)
    requires k < |parts| && EndsWith(parts, k + 1, tail)
    ensures EndsWith(parts, k, [parts[k]] + tail)
  {
    forall l | 0 <= l < 1 + |tail| ensures parts[k + l] == ([parts[k]] + tail)[l] {
      if l > 0 {
        assert parts[k + 1 + (l - 1)] == tail[l - 1];
      }
    }
  }

  /** The component at i is `part` if a slash or nothing follows. */
  lemma SplitStep(s: string, i: nat, part: string)
    requires TextAt(s, i, part) && NoSlash(part) && (i + |part| == |s| || s[i + |part|] == SLASH)
    ensures Split(s, i) == [part] + if i + |part| == |s| then [] else Split(s, i + |part| + 1)
  {
    FindSlashAfter(s, i, part);
    assert s[i..i + |part|] == part;
  }

  lemma FindSlashAfter(s: string, i: nat, part: string)
    requires TextAt(s, i, part) && NoSlash(part) && (i + |part| == |s| || s[i + |part|] == SLASH)
    ensures FindSlash(s, i) == i + |part|
  {
    forall k | i <= k < i + |part| ensures s[k] != SLASH {
      assert s[i + (k - i)] == part[k - i];
    }
    FindSlashAt(s, i, i + |part|);
  }

  lemma {:induction false} FindSlashAt(s: string, i: nat, j: nat)
    requires i <= j <= |s| && (forall k :: i <= k < j ==> s[k] != SLASH) && (j == |s| || s[j] == SLASH)
    ensures FindSlash(s, i) == j
    decreases j - i
  {
    if i < j {
      FindSlashAt(s, i + 1, j);
    }
  }

  /** The parts the parser keeps: up to the first empty component. */
  function Parts(s: string, i: nat): seq<string>
    requires i <= |s|
    decreases |s| - i
  {
    var j := FindSlash(s, i);
    if j == i then []
    else [s[i..j]] + (if j < |s| then Parts(s, j + 1) else [])
  }

  /** The longest prefix in which no component is empty. */
  predicate LongestPrefix(parts: seq<string>, all: seq<string>) {
    parts <= all && "" !in parts && (|parts| < |all| ==> all[|parts|] == "")
  }

  lemma LongestPrefixGrows(part: string, parts: seq<string>, all: seq<string>)
    requires part != "" && LongestPrefix(parts, all)
    ensures LongestPrefix([part] + parts, [part] + all)
  {
    assert all == parts + all[|parts|..];
    assert [part] + all == [part] + parts + all[|parts|..];
  }

  lemma {:induction false} PartsAreLongestPrefix(s: string, i: nat)
    requires i <= |s|
    ensures LongestPrefix(Parts(s, i), Split(s, i))
    decreases |s| - i
  {
    var j := FindSlash(s, i);
    if i < j < |s| {
      PartsAreLongestPrefix(s, j + 1);
      LongestPrefixGrows(s[i..j], Parts(s, j + 1), Split(s, j + 1));
    } else if i < j {
      LongestPrefixGrows(s[i..j], [], []);
    }
  }

  // ---- whole paths ----

  datatype Parsed = Bad | Path(drive: nat, parts: seq<string>)

  predicate IsDigit(c: char) {
    '0' <= c <= '9'
  }

  predicate ValidFormat(path: string) {
    |path| >= 3 && IsDigit(path[0]) && path[1..3] == ":/"
  }

  function Meaning(path: string): Parsed {
    if |path| > MAX_PATH || !ValidFormat(path) then Bad
    else Path(path[0] as int - '0' as int, Parts(path, 3))
  }

  /** A path is refused exactly if it has more than 108 characters or does not begin with a digit, a colon and a
      slash; otherwise the digit is the drive. */
  lemma RefusedPaths(path: string)
    ensures Meaning(path) == Bad <==>
              |path| > 108 || |path| < 3 || !('0' <= path[0] <= '9') || path[1] != ':' || path[2] != '/'
    ensures Meaning(path).Path? ==>
              Meaning(path).drive <= 9 && path[0] == "0123456789"[Meaning(path).drive]
  {
    if |path| >= 3 {
      assert path[1..3] == ":/" <==> path[1] == ':' && path[2] == '/';
    }
  }

  function Show(drive: nat, parts: seq<string>): string
    requires drive <= 9
  {
    ['0' + drive as char, ':', SLASH] + if parts == [] then "" else Join(parts)
  }

  /** Parsing undoes printing for non-empty components without slashes. */
  lemma ParsingUndoesPrinting(drive: nat, parts: seq<string>)
    requires drive <= 9 && |Show(drive, parts)| <= MAX_PATH
    requires forall k :: 0 <= k < |parts| ==> NoSlash(parts[k]) && parts[k] != ""
    ensures Meaning(Show(drive, parts)) == Path(drive, parts)
  {
    var path := Show(drive, parts);
    ShownPath(drive, parts);
    if parts != [] {
      SplitOfJoin(path, 3, parts);
      PartsAreLongestPrefix(path, 3);
      WholePrefix(Parts(path, 3), parts);
    }
  }

  lemma ShownPath(drive: nat, parts: seq<string>)
    requires drive <= 9
    ensures var path := Show(drive, parts);
            && ValidFormat(path) && path[0] as int - '0' as int == drive
            && path[3..] == (if parts == [] then "" else Join(parts))
  {
    assert Show(drive, parts)[1..3] == ":/";
  }

  lemma WholePrefix(parts: seq<string>, all: seq<string>)
    requires LongestPrefix(parts, all) && "" !in all
    ensures parts == all
  {
    if |parts| == |all| {
      assert parts == all[..|parts|];
    }
  }

  /** Every kept component, with its terminator, fits the buffer it is copied to. */
  lemma {:induction false} PartsFit(path: string, i: nat)
    requires i <= |path|
    ensures forall k :: 0 <= k < |Parts(path, i)| ==> |Parts(path, i)[k]| <= |path| - i
    decreases |path| - i
  {
    var j := FindSlash(path, i);
    if i < j < |path| {
      PartsFit(path, j + 1);
    }
  }
}
