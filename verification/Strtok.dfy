/** The user library's strtok, with its static position, and the tokens it produces. */
module Strtok {
  import opened CStrings

  predicate IsDelim(c: char, delims: set<char>) {
    c in delims
  }

  /** The characters of a delimiter string. */
  function Chars(s: string): set<char> {
    set c | c in s
  }

  // ---- tokens of a text, without strtok ----

  /** A token of s: a non-empty stretch without delimiters that cannot be made longer. */
  predicate IsToken(s: string, delims: set<char>, a: int, b: int) {
    && 0 <= a < b <= |s|
    && (forall i :: a <= i < b ==> !IsDelim(s[i], delims))
    && (a > 0 ==> IsDelim(s[a - 1], delims))
    && (b < |s| ==> IsDelim(s[b], delims))
  }

  /** The first index at or after i that is not a delimiter. */
  function SkipDelims(s: string, delims: set<char>, i: nat): (r: nat)
    requires i <= |s|
    ensures i <= r <= |s|
    decreases |s| - i
  {
    if i < |s| && IsDelim(s[i], delims) then SkipDelims(s, delims, i + 1) else i
  }

  /** The first index at or after i that is a delimiter. */
  function FindDelim(s: string, delims: set<char>, i: nat): (r: nat)
    requires i <= |s|
    ensures i <= r <= |s|
    decreases |s| - i
  {
    if i < |s| && !IsDelim(s[i], delims) then FindDelim(s, delims, i + 1) else i
  }

  lemma {:induction false} SkipDelimsStops(s: string, delims: set<char>, i: nat)
    requires i <= |s|
    ensures var r := SkipDelims(s, delims, i);
            && (forall k :: i <= k < r ==> IsDelim(s[k], delims))
            && (r < |s| ==> !IsDelim(s[r], delims))
    decreases |s| - i
  {
    if i < |s| && IsDelim(s[i], delims) {
      SkipDelimsStops(s, delims, i + 1);
    }
  }

  lemma {:induction false} FindDelimStops(s: string, delims: set<char>, i: nat)
    requires i <= |s|
    ensures var r := FindDelim(s, delims, i);
            && (forall k :: i <= k < r ==> !IsDelim(s[k], delims))
            && (r < |s| ==> IsDelim(s[r], delims))
            && (i < |s| && !IsDelim(s[i], delims) ==> i < r)
    decreases |s| - i
  {
    if i < |s| && !IsDelim(s[i], delims) {
      FindDelimStops(s, delims, i + 1);
    }
  }

  /** Stretches of a text, one behind the other. */
  datatype Spans = NoSpan | Span(start: nat, end: nat, later: Spans)

  predicate Has(spans: Spans, a: nat, b: nat) {
    spans.Span? && ((a == spans.start && b == spans.end) || Has(spans.later, a, b))
  }

  /** They are non-empty, come in text order from `from` on, and do not touch. */
  predicate InOrder(spans: Spans, from: nat, n: nat) {
    spans.Span? ==>
      from <= spans.start < spans.end <= n && InOrder(spans.later, spans.end + 1, n)
  }

  /** The tokens of s from position i on. */
  function SpansFrom(s: string, delims: set<char>, i: nat): Spans
    requires i <= |s|
    decreases |s| - i
  {
    var a := SkipDelims(s, delims, i);
    if a == |s| then NoSpan
    else
      var b := FindDelim(s, delims, a);
      Span(a, b, if b < |s| then SpansFrom(s, delims, b + 1) else NoSpan)
  }

  function Texts(s: string, spans: Spans, from: nat): seq<string>
    requires InOrder(spans, from, |s|)
  {
    if spans.NoSpan? then [] else [s[spans.start..spans.end]] + Texts(s, spans.later, spans.end + 1)
  }

  lemma {:induction false} SpansAreOrdered(s: string, delims: set<char>, i: nat)
    requires i <= |s|
    ensures InOrder(SpansFrom(s, delims, i), i, |s|)
    decreases |s| - i
  {
    var a := SkipDelims(s, delims, i);
    if a < |s| {
      FindDelimStops(s, delims, a);
      SkipDelimsStops(s, delims, i);
      var b := FindDelim(s, delims, a);
      if b < |s| {
        SpansAreOrdered(s, delims, b + 1);
      }
    }
  }

  function Tokens(s: string, delims: set<char>, i: nat): seq<string>
    requires i <= |s|
  {
    SpansAreOrdered(s, delims, i);
    Texts(s, SpansFrom(s, delims, i), i)
  }

  /** The spans from i on are exactly the tokens of the text that start at or after i, for an i that
      is the beginning of the text or follows a delimiter. */
  lemma {:induction false} SpansAreTheTokens(s: string, delims: set<char>, i: nat, a: nat, b: nat)
    requires i <= |s| && (i > 0 ==> IsDelim(s[i - 1], delims))
    ensures Has(SpansFrom(s, delims, i), a, b) <==> i <= a && IsToken(s, delims, a, b)
    decreases |s| - i
  {
    var a0 := SkipDelims(s, delims, i);
    if a0 == |s| {
      if i <= a {
        NoToken(s, delims, i, a, b);
      }
    } else {
      var b0 := FindDelim(s, delims, a0);
      FirstSpanIsToken(s, delims, i);
      FirstToken(s, delims, i, a, b);
      FirstSpanEnds(s, delims, i);
      if b0 < |s| {
        SpansAreTheTokens(s, delims, b0 + 1, a, b);
      } else {
        PastTheEnd(s, delims, a, b);
      }
    }
  }

  lemma FirstSpanEnds(s: string, delims: set<char>, i: nat)
    requires i <= |s| && SkipDelims(s, delims, i) < |s|
    ensures var a0 := SkipDelims(s, delims, i);
            var b0 := FindDelim(s, delims, a0);
            i <= a0 < b0 && (b0 < |s| ==> IsDelim(s[b0], delims))
  {
    SkipDelimsStops(s, delims, i);
    FindDelimStops(s, delims, SkipDelims(s, delims, i));
  }

  lemma PastTheEnd(s: string, delims: set<char>, a: nat, b: nat)
    ensures IsToken(s, delims, a, b) ==> a < |s|
  {
  }

  /** A token that starts at or after i is the first span, or starts behind the delimiter after it. */
  lemma FirstToken(s: string, delims: set<char>, i: nat, a: nat, b: nat)
    requires i <= |s| && SkipDelims(s, delims, i) < |s|
    ensures var a0 := SkipDelims(s, delims, i);
            var b0 := FindDelim(s, delims, a0);
            i <= a && IsToken(s, delims, a, b) ==> (a == a0 && b == b0) || a > b0
  {
    SkipDelimsStops(s, delims, i);
    FindDelimStops(s, delims, SkipDelims(s, delims, i));
    var a0 := SkipDelims(s, delims, i);
    var b0 := FindDelim(s, delims, a0);
    var atStart := if a < |s| then s[a] else ' ';
    var atEnd := if b0 < |s| then s[b0] else ' ';
  }

  lemma FirstSpanIsToken(s: string, delims: set<char>, i: nat)
    requires i <= |s| && (i > 0 ==> IsDelim(s[i - 1], delims)) && SkipDelims(s, delims, i) < |s|
    ensures var a := SkipDelims(s, delims, i); IsToken(s, delims, a, FindDelim(s, delims, a))
  {
    SkipDelimsStops(s, delims, i);
    FindDelimStops(s, delims, SkipDelims(s, delims, i));
    var a := SkipDelims(s, delims, i);
    var before := if a > 0 then s[a - 1] else ' ';
  }

  lemma NoToken(s: string, delims: set<char>, i: nat, a: nat, b: nat)
    requires i <= |s| && SkipDelims(s, delims, i) == |s| && i <= a
    ensures !IsToken(s, delims, a, b)
  {
    SkipDelimsStops(s, delims, i);
    var atStart := if a < |s| then s[a] else ' ';
  }

  // ---- strtok ----

  datatype Pointer = Null | At(index: nat)

  /** The outcome of a call that starts at `start` in a text that ends at n: leading delimiters are
      skipped, the token is ended by a NUL in memory, and the position moves behind it. On an exhausted
      text the position becomes null again. */
  predicate StrtokResult(before: seq<char>, start: Pointer, n: nat, d: set<char>, token: Pointer, sp: Pointer,
                         after: seq<char>)
    requires n < |before| && (start.At? ==> start.index <= n)
  {
    match start
    case Null => token == Null && sp == Null && after == before
    case At(i) =>
      var text := before[..n];
      var a := SkipDelims(text, d, i);
      if a == n then token == Null && sp == Null && after == before
      else
        var b := FindDelim(text, d, a);
        token == At(a) && sp == At(if b < n then b + 1 else n) && after == before[b := NUL]
  }

  class Tokenizer {
    const buf: array<char>
    var sp: Pointer

    constructor (buf: array<char>)
      ensures this.buf == buf && sp == Null
    {
      this.buf := buf;
      sp := Null;
    }

    /** The inner loop over the delimiter string. */
    method MatchDelim(c: char, delims: string) returns (i: nat)
      ensures i <= |delims| && (i < |delims| <==> IsDelim(c, Chars(delims)))
    {
      i := 0;
      while i < |delims|
        invariant 0 <= i <= |delims| && c !in delims[..i]
      {
        if c == delims[i] {
          return;
        }
        i := i + 1;
      }
      assert delims[..i] == delims;
    }

    /** One call. n is the end of the text; a string is only taken when the position is null. */
    method Strtok(str: Pointer, delims: string, ghost n: nat) returns (token: Pointer)
      requires NUL !in delims && n < buf.Length && buf[n] == NUL
      requires var start := if sp == Null then str else sp;
               start.At? ==> start.index <= n && forall k :: start.index <= k < n ==> buf[k] != NUL
      modifies this, buf
      ensures StrtokResult(old(buf[..]), if old(sp) == Null then str else old(sp), n, Chars(delims), token, sp, buf[..])
      ensures str == Null && old(sp) == Null ==> token == Null && sp == Null && buf[..] == old(buf[..])
    {
      if str == Null && sp == Null {
        return Null;
      }
      if str != Null && sp == Null {
        sp := str;
      }
      ghost var text := buf[..][..n];
      ghost var i := sp.index;
      var p := sp.index;
      while true
        invariant i <= p <= n && SkipDelims(text, Chars(delims), i) == SkipDelims(text, Chars(delims), p)
        invariant buf[..] == old(buf[..])
        decreases n - p
      {
        var k := MatchDelim(buf[p], delims);
        if k == |delims| {
          break;
        }
        p := p + 1;
      }
      if buf[p] == NUL {
        sp := Null;
        return Null;
      }
      var q := p;
      while buf[q] != NUL
        invariant p <= q <= n && FindDelim(text, Chars(delims), p) == FindDelim(text, Chars(delims), q)
        invariant buf[..] == old(buf[..])
        decreases n - q
      {
        var k := MatchDelim(buf[q], delims);
        if k < |delims| {
          buf[q] := NUL;
          q := q + 1;
          sp := At(q);
          return At(p);
        }
        q := q + 1;
      }
      sp := At(q);
      token := At(p);
      assert buf[..] == old(buf[..])[n := NUL];
    }
  }
}
