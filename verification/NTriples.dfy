/** The buffering line splitter of the N-Triples parser (win32/raptor2/src/ntriples_parse.c). */
module NTriples {
  import opened Bytes

  const LF: byte := 10
  const CR: byte := 13
  const QUOTE: byte := 34
  const HASH: byte := 35
  const APOSTROPHE: byte := 39
  const LESS: byte := 60
  const GREATER: byte := 62
  const BACKSLASH: byte := 92

  // ---------- lines of a text ----------

  /** Where the line being scanned at `i` ends: the first CR or LF outside quotes and not after a
      backslash, or the end.  Apostrophes count as quotes only outside a URI. */
  function LineEnd(s: seq<byte>, i: nat, quote: byte, inUri: bool, bq: bool): (e: nat)
    requires i <= |s|
    ensures i <= e <= |s|
    decreases |s| - i
  {
    if i == |s| then i
    else if bq then LineEnd(s, i + 1, quote, inUri, false)
    else if s[i] == BACKSLASH then LineEnd(s, i + 1, quote, inUri, true)
    else
      var uri := if s[i] == LESS then true else if inUri && s[i] == GREATER then false else inUri;
      if quote != 0 then LineEnd(s, i + 1, if s[i] == quote then 0 else quote, uri, false)
      else if s[i] == LF || s[i] == CR then i
      else LineEnd(s, i + 1, if (!uri && s[i] == APOSTROPHE) || s[i] == QUOTE then s[i] else 0, uri, false)
  }

  function FirstEnd(s: seq<byte>): (e: nat)
    ensures e <= |s|
  {
    LineEnd(s, 0, 0, false, false)
  }

  /** A LF right after a CR belongs to it. */
  function Skip(s: seq<byte>, cr: bool): seq<byte> {
    if cr && s != [] && s[0] == LF then s[1..] else s
  }

  /** All lines of a text fed whole, `cr` telling whether a CR came right before it. */
  function Lines(s: seq<byte>, cr: bool): seq<seq<byte>>
    decreases |s|
  {
    if s == [] then [] else LinesFrom(Skip(s, cr))
  }

  function LinesFrom(u: seq<byte>): seq<seq<byte>>
    decreases |u|, 0
  {
    var e := FirstEnd(u);
    if e == |u| then [u] else [u[..e]] + Lines(u[e + 1..], u[e] == CR)
  }

  function NonEmpty(ls: seq<seq<byte>>): seq<seq<byte>> {
    if ls == [] then [] else (if ls[0] == [] then [] else [ls[0]]) + NonEmpty(ls[1..])
  }

  /** What one chunk leaves: the complete lines in it, the unconsumed tail, and whether the last line
      ended at a CR. */
  datatype Fed = Fed(lines: seq<seq<byte>>, tail: seq<byte>, cr: bool)

  function Feed(s: seq<byte>, cr: bool): Fed
    decreases |s|
  {
    if s == [] then Fed([], [], cr)
    else
      var u := Skip(s, cr);
      var e := FirstEnd(u);
      if e == |u| then Fed([], u, cr)
      else
        var f := Feed(u[e + 1..], u[e] == CR);
        Fed([u[..e]] + f.lines, f.tail, f.cr)
  }

  // ---------- chunks do not matter ----------

  /** A line that ends inside `s` ends there whatever follows. */
  lemma {:induction false} EndStays(s: seq<byte>, t: seq<byte>, i: nat, quote: byte, inUri: bool, bq: bool)
    requires i <= |s| && LineEnd(s, i, quote, inUri, bq) < |s|
    ensures LineEnd(s + t, i, quote, inUri, bq) == LineEnd(s, i, quote, inUri, bq)
    decreases |s| - i
  {
    if i < |s| {
      assert (s + t)[i] == s[i];
      if bq {
        EndStays(s, t, i + 1, quote, inUri, false);
      } else if s[i] == BACKSLASH {
        EndStays(s, t, i + 1, quote, inUri, true);
      } else {
        var uri := if s[i] == LESS then true else if inUri && s[i] == GREATER then false else inUri;
        if quote != 0 {
          EndStays(s, t, i + 1, if s[i] == quote then 0 else quote, uri, false);
        } else if s[i] != LF && s[i] != CR {
          EndStays(s, t, i + 1, if (!uri && s[i] == APOSTROPHE) || s[i] == QUOTE then s[i] else 0, uri, false);
        }
      }
    }
  }

  lemma {:induction false} NonEmptyAppend(a: seq<seq<byte>>, b: seq<seq<byte>>)
    ensures NonEmpty(a + b) == NonEmpty(a) + NonEmpty(b)
  {
    if a == [] {
      assert a + b == b;
    } else {
      assert (a + b)[1..] == a[1..] + b;
      NonEmptyAppend(a[1..], b);
    }
  }

  lemma NonEmptyOne(l: seq<byte>, ls: seq<seq<byte>>)
    ensures NonEmpty([l] + ls) == (if l == [] then [] else [l]) + NonEmpty(ls)
  {
    assert ([l] + ls)[1..] == ls;
  }

  lemma SplitsFirst(u: seq<byte>, t: seq<byte>)
    requires FirstEnd(u) < |u|
    ensures var e := FirstEnd(u); LinesFrom(u + t) == [u[..e]] + Lines(u[e + 1..] + t, u[e] == CR)
  {
    var e := FirstEnd(u);
    EndStays(u, t, 0, 0, false, false);
    assert (u + t)[..e] == u[..e] && (u + t)[e + 1..] == u[e + 1..] + t && (u + t)[e] == u[e];
  }

  lemma SkipStays(s: seq<byte>, t: seq<byte>, cr: bool)
    requires s != []
    ensures Skip(s + t, cr) == Skip(s, cr) + t
  {
    if cr && s[0] == LF {
      assert (s + t)[1..] == s[1..] + t;
    }
  }

  /** After a skipped LF the CR stays remembered, so a chunk boundary there swallows one more LF: an
      empty line, and nothing else. */
  lemma SkippedTwice(u: seq<byte>, t: seq<byte>)
    requires FirstEnd(u) == |u|
    ensures NonEmpty(Lines(u + t, true)) == NonEmpty(LinesFrom(u + t))
  {
    var v := u + t;
    if v == [] {
      NonEmptyOne([], []);
    } else if v[0] == LF {
      assert FirstEnd(v) == 0;
      assert u == [];
      var f := v[1..];
      NonEmptyOne([], Lines(f, false));
      assert v[..0] == [];
      NonEmptyOne([], []);
    }
  }

  lemma TailKept(s: seq<byte>, t: seq<byte>, cr: bool)
    requires s != [] && FirstEnd(Skip(s, cr)) == |Skip(s, cr)|
    ensures Feed(s, cr) == Fed([], Skip(s, cr), cr)
    ensures NonEmpty(Lines(s + t, cr)) == NonEmpty(Lines(Skip(s, cr) + t, cr))
  {
    hide FirstEnd;
    SkipStays(s, t, cr);
    if cr && s[0] == LF {
      SkippedTwice(Skip(s, cr), t);
    }
  }

  lemma LineTaken(s: seq<byte>, t: seq<byte>, cr: bool, u: seq<byte>, e: nat)
    requires s != [] && u == Skip(s, cr) && e == FirstEnd(u) < |u|
    ensures |u| <= |s| && Lines(s + t, cr) == [u[..e]] + Lines(u[e + 1..] + t, u[e] == CR)
    ensures var f := Feed(u[e + 1..], u[e] == CR); Feed(s, cr) == Fed([u[..e]] + f.lines, f.tail, f.cr)
  {
    hide FirstEnd;
    SkipStays(s, t, cr);
    SplitsFirst(u, t);
  }

  /** CR LF LF and a letter: whole, three lines of which two are empty; cut behind the CR LF, two. */
  lemma SwallowedLF()
    ensures Lines([CR, LF, LF, 97], false) == [[], [], [97]]
    ensures Feed([CR, LF], false) == Fed([[]], [], true) && Lines([LF, 97], true) == [[97]]
  {
    var a, b, c: seq<byte> := [CR, LF, LF, 97], [LF, LF, 97], [LF, 97];
    assert a[1..] == b && b[1..] == c && c[1..] == [97] && [CR, LF][1..] == [LF] && [LF][1..] == [];
    assert a[..0] == [] && c[..0] == [] && [CR, LF][..0] == [];
    assert FirstEnd([97]) == 1;
    assert LinesFrom([97]) == [[97]];
    assert Lines([97], false) == [[97]];
    assert LinesFrom(c) == [[]] + Lines([97], false);
    assert Lines(b, true) == LinesFrom(c);
    assert Feed([LF], true) == Fed([], [], true);
  }

  // ---------- the lines that a cut loses ----------

  /** A chunk ends at the LF of a CR LF that ends a line. */
  predicate Swallows(s: seq<byte>, cr: bool) {
    var f := Feed(s, cr);
    s != [] && s[|s| - 1] == LF && f.tail == [] && f.cr
  }

  /** ... and then the text ends, or goes on with an empty line and more. */
  predicate LosesLine(s: seq<byte>, cr: bool, t: seq<byte>) {
    Swallows(s, cr) && (t == [] || (|t| > 1 && t[0] == LF))
  }

  lemma EmptyLine(t: seq<byte>)
    requires t == [] || t[0] == LF
    ensures FirstEnd(t) == 0
  {
  }

  /** What a cut behind a skipped LF does to the lines of what follows. */
  lemma CutBehindSkip(t: seq<byte>)
    ensures LinesFrom(t) == (if t == [] || (|t| > 1 && t[0] == LF) then [[]] else []) + Lines(t, true)
  {
    hide LineEnd, FirstEnd;
    EmptyLine([]);
    if t == [] {
    } else if t[0] == LF {
      EmptyLine(t);
      assert t[..0] == [];
      assert LinesFrom(t) == [[]] + Lines(t[1..], false);
      if |t| == 1 {
        assert t[1..] == [];
      }
    } else {
      assert [] + LinesFrom(t) == LinesFrom(t);
    }
  }

  lemma CutInLine(s: seq<byte>, t: seq<byte>, cr: bool)
    requires s != [] && FirstEnd(Skip(s, cr)) == |Skip(s, cr)|
    ensures LosesLine(s, cr, t) <==> Skip(s, cr) == [] && (t == [] || (|t| > 1 && t[0] == LF))
    ensures Lines(s + t, cr) == (if LosesLine(s, cr, t) then [[]] else []) + Lines(Skip(s, cr) + t, cr)
  {
    var u := Skip(s, cr);
    SkipStays(s, t, cr);
    if u == [] {
      assert s == [LF] && cr && u + t == t;
      CutBehindSkip(t);
    } else {
      assert u[0] == LF ==> FirstEnd(u) == 0;
      assert (u + t)[0] == u[0];
    }
  }

  /** Exactly which lines a cut loses, empty ones included: one empty line where the chunk before it ends
      at a CR LF and the text after it is empty, or starts with a LF that is not its end; none elsewhere. */
  lemma {:induction false} CutLines(s: seq<byte>, cr: bool, t: seq<byte>)
    ensures var f := Feed(s, cr);
            Lines(s + t, cr) == f.lines + (if LosesLine(s, cr, t) then [[]] else []) + Lines(f.tail + t, f.cr)
    decreases |s|
  {
    hide LineEnd, FirstEnd, Lines, LinesFrom, Feed;
    FeedNothing(cr, t);
    if s != [] {
      var u := Skip(s, cr);
      var e := FirstEnd(u);
      if e == |u| {
        TailKept(s, t, cr);
        CutInLine(s, t, cr);
      } else {
        LineTaken(s, t, cr, u, e);
        CutLines(u[e + 1..], u[e] == CR, t);
        FeedNothing(u[e] == CR, t);
      }
    }
  }

  /** A cut shows, empty lines included, exactly under that condition. */
  lemma CutShows(s: seq<byte>, cr: bool, t: seq<byte>)
    ensures var f := Feed(s, cr); Lines(s + t, cr) == f.lines + Lines(f.tail + t, f.cr) <==> !LosesLine(s, cr, t)
  {
    hide Lines, Feed, LosesLine;
    CutLines(s, cr, t);
  }

  /** One chunk: the lines it completes, and then the lines of its tail and what follows, are the
      lines of the whole. */
  lemma {:induction false} FeedThen(s: seq<byte>, cr: bool, t: seq<byte>)
    ensures var f := Feed(s, cr);
            NonEmpty(Lines(s + t, cr)) == NonEmpty(f.lines) + NonEmpty(Lines(f.tail + t, f.cr))
    decreases |s|
  {
    hide LineEnd, FirstEnd, Skip, Lines, LinesFrom, NonEmpty, Feed;
    if s == [] {
      FeedNothing(cr, t);
    } else {
      var u := Skip(s, cr);
      var e := FirstEnd(u);
      if e == |u| {
        TailKept(s, t, cr);
        NonEmptyAppend([], Lines(u + t, cr));
        assert [] + Lines(u + t, cr) == Lines(u + t, cr);
      } else {
        LineTaken(s, t, cr, u, e);
        var rest, f := Lines(u[e + 1..] + t, u[e] == CR), Feed(u[e + 1..], u[e] == CR);
        FeedThen(u[e + 1..], u[e] == CR, t);
        NonEmptyOne(u[..e], rest);
        NonEmptyOne(u[..e], f.lines);
      }
    }
  }

  lemma FeedNothing(cr: bool, t: seq<byte>)
    ensures Feed([], cr) == Fed([], [], cr) && NonEmpty([]) == [] && [] + t == t
  {
  }

  // ---------- handing lines to the line parser ----------

  predicate IsSpace(c: byte) {
    c == 32 || 9 <= c <= 13
  }

  function SkipSpaces(l: seq<byte>): seq<byte> {
    if l != [] && IsSpace(l[0]) then SkipSpaces(l[1..]) else l
  }

  /** Blank lines and comments, which the line parser accepts as they are. */
  predicate Ignored(l: seq<byte>) {
    SkipSpaces(l) == [] || SkipSpaces(l)[0] == HASH
  }

  /** What the term parser says of the last of the non-empty lines handed to it so far. */
  datatype Judge = Judge(rejects: seq<seq<byte>> -> bool)

  predicate Fails(j: Judge, handed: seq<seq<byte>>)
    requires handed != []
  {
    !Ignored(handed[|handed| - 1]) && j.rejects(handed)
  }

  /** Hands lines over until one fails: the lines handed, and whether the last failed. */
  function Hand(j: Judge, handed: seq<seq<byte>>, ls: seq<seq<byte>>): (seq<seq<byte>>, bool)
    decreases |ls|
  {
    if ls == [] then (handed, false)
    else
      var h := handed + [ls[0]];
      if Fails(j, h) then (h, true) else Hand(j, h, ls[1..])
  }

  lemma {:induction false} HandAppend(j: Judge, handed: seq<seq<byte>>, a: seq<seq<byte>>, b: seq<seq<byte>>)
    ensures var r := Hand(j, handed, a); Hand(j, handed, a + b) == if r.1 then r else Hand(j, r.0, b)
    decreases |a|
  {
    hide Fails;
    if a == [] {
      assert a + b == b;
    } else {
      assert (a + b)[1..] == a[1..] + b;
      HandAppend(j, handed + [a[0]], a[1..], b);
    }
  }

  /** Feeding chunks one after another, the last with the end mark. */
  function FeedChunks(j: Judge, cs: seq<seq<byte>>, tail: seq<byte>, cr: bool, handed: seq<seq<byte>>): (seq<seq<byte>>, bool)
    requires cs != []
    decreases |cs|
  {
    if |cs| == 1 then Hand(j, handed, NonEmpty(Lines(tail + cs[0], cr)))
    else
      var f := Feed(tail + cs[0], cr);
      var r := Hand(j, handed, NonEmpty(f.lines));
      if r.1 then r else FeedChunks(j, cs[1..], f.tail, f.cr, r.0)
  }

  function Flat(cs: seq<seq<byte>>): seq<byte> {
    if cs == [] then [] else cs[0] + Flat(cs[1..])
  }

  lemma ChunkStep(j: Judge, handed: seq<seq<byte>>, tail: seq<byte>, cr: bool, chunk: seq<byte>, rest: seq<byte>)
    ensures var f := Feed(tail + chunk, cr);
            var r := Hand(j, handed, NonEmpty(f.lines));
            Hand(j, handed, NonEmpty(Lines(tail + (chunk + rest), cr))) == if r.1 then r else Hand(j, r.0, NonEmpty(Lines(f.tail + rest, f.cr)))
  {
    hide Lines, LinesFrom, Feed, NonEmpty, Hand;
    var f := Feed(tail + chunk, cr);
    FeedThen(tail + chunk, cr, rest);
    assert tail + chunk + rest == tail + (chunk + rest);
    HandAppend(j, handed, NonEmpty(f.lines), NonEmpty(Lines(f.tail + rest, f.cr)));
  }

  /** However a text is cut into chunks, the line parser gets the non-empty lines of the whole text,
      up to the first that fails. */
  lemma {:induction false} ChunksDoNotMatter(j: Judge, cs: seq<seq<byte>>, tail: seq<byte>, cr: bool, handed: seq<seq<byte>>)
    requires cs != []
    ensures FeedChunks(j, cs, tail, cr, handed) == Hand(j, handed, NonEmpty(Lines(tail + Flat(cs), cr)))
    decreases |cs|
  {
    hide Lines, LinesFrom, Feed, NonEmpty, Hand;
    if |cs| == 1 {
      assert Flat(cs) == cs[0] + Flat([]) && cs[0] + [] == cs[0];
    } else {
      var f := Feed(tail + cs[0], cr);
      ChunkStep(j, handed, tail, cr, cs[0], Flat(cs[1..]));
      ChunksDoNotMatter(j, cs[1..], f.tail, f.cr, Hand(j, handed, NonEmpty(f.lines)).0);
    }
  }

  /** All lines of a text fed in chunks, empty ones included. */
  function FedLines(cs: seq<seq<byte>>, tail: seq<byte>, cr: bool): seq<seq<byte>>
    requires cs != []
    decreases |cs|
  {
    if |cs| == 1 then Lines(tail + cs[0], cr)
    else
      var f := Feed(tail + cs[0], cr);
      f.lines + FedLines(cs[1..], f.tail, f.cr)
  }

  /** How many cuts lose a line. */
  function Losses(cs: seq<seq<byte>>, tail: seq<byte>, cr: bool): nat
    requires cs != []
    decreases |cs|
  {
    if |cs| == 1 then 0
    else
      var f := Feed(tail + cs[0], cr);
      (if LosesLine(tail + cs[0], cr, Flat(cs[1..])) then 1 else 0) + Losses(cs[1..], f.tail, f.cr)
  }

  /** However a text is cut, each cut that loses a line loses one, and the lines are those of the whole
      exactly when no cut does. */
  lemma {:induction false} LinesLost(cs: seq<seq<byte>>, tail: seq<byte>, cr: bool)
    requires cs != []
    ensures |Lines(tail + Flat(cs), cr)| == |FedLines(cs, tail, cr)| + Losses(cs, tail, cr)
    ensures Lines(tail + Flat(cs), cr) == FedLines(cs, tail, cr) <==> Losses(cs, tail, cr) == 0
    decreases |cs|
  {
    hide Lines, LinesFrom, Feed, LosesLine;
    if |cs| == 1 {
      assert Flat(cs) == cs[0] + Flat([]) && cs[0] + [] == cs[0];
    } else {
      var f := Feed(tail + cs[0], cr);
      CutLines(tail + cs[0], cr, Flat(cs[1..]));
      assert tail + cs[0] + Flat(cs[1..]) == tail + Flat(cs);
      LinesLost(cs[1..], f.tail, f.cr);
    }
  }

  /** So two cuts of one text give the same. */
  lemma AnyCut(j: Judge, cs: seq<seq<byte>>, ds: seq<seq<byte>>)
    requires cs != [] && ds != [] && Flat(cs) == Flat(ds)
    ensures FeedChunks(j, cs, [], false, []) == FeedChunks(j, ds, [], false, [])
  {
    ChunksDoNotMatter(j, cs, [], false, []);
    ChunksDoNotMatter(j, ds, [], false, []);
  }

  // ---------- the parser ----------

  /** The inner loop: where the line that starts at `from` ends. */
  method FindLineEnd(buf: array<byte>, from: nat, end: nat) returns (ptr: nat)
    requires from <= end <= buf.Length
    ensures from <= ptr <= end && ptr - from == FirstEnd(buf[from..end])
  {
    ghost var t := buf[from..end];
    var quote: byte, inUri, bq := 0, false, false;
    ptr := from;
    while ptr < end
      invariant from <= ptr <= end && LineEnd(t, ptr - from, quote, inUri, bq) == FirstEnd(t)
    {
      var c := buf[ptr];
      assert c == t[ptr - from];
      if !bq {
        if c == BACKSLASH {
          bq := true;
          ptr := ptr + 1;
          continue;
        }
        if c == LESS {
          inUri := true;
        } else if inUri && c == GREATER {
          inUri := false;
        }
        if quote == 0 {
          if (!inUri && c == APOSTROPHE) || c == QUOTE {
            quote := c;
          }
          if c == LF || c == CR {
            break;
          }
        } else {
          if c == quote {
            quote := 0;
          }
        }
      }
      ptr := ptr + 1;
      bq := false;
    }
  }

  class LineParser {
    const judge: Judge
    var line: array<byte>
    var lineLength: nat
    var offset: nat
    var lastChar: byte
    /** The non-empty lines the line parser was given. */
    var handed: seq<seq<byte>>

    ghost predicate Valid()
      reads this
    {
      offset <= lineLength && (lineLength > 0 ==> line.Length == lineLength + 1)
    }

    /** The text not yet consumed. */
    ghost function Tail(): seq<byte>
      requires Valid()
      reads this, line
    {
      if lineLength == 0 then [] else line[offset..lineLength]
    }

    constructor (judge: Judge)
      ensures Valid() && Tail() == [] && lastChar != CR && handed == [] && this.judge == judge && fresh(line)
    {
      this.judge := judge;
      line, lineLength, offset, lastChar, handed := new byte[0], 0, 0, 0, [];
    }

    /** raptor_ntriples_parse_line, up to the parsing of terms: it passes over blank lines and
        comments, and blanks out trailing spaces in the buffer. */
    method ParseLine(buf: array<byte>, from: nat, len: nat) returns (rc: bool)
      requires from + len <= buf.Length
      modifies buf, this`handed
      ensures forall k :: 0 <= k < buf.Length && !(from <= k < from + len) ==> buf[k] == old(buf[k])
      ensures len == 0 ==> !rc && handed == old(handed)
      ensures len > 0 ==> handed == old(handed) + [old(buf[from..from + len])] && (rc <==> Fails(judge, handed))
    {
      if len == 0 {
        return false;
      }
      ghost var l := buf[from..from + len];
      handed := handed + [buf[from..from + len]];
      var p: nat, left: nat := from, len;
      while left > 0 && IsSpace(buf[p])
        invariant p + left == from + len && from <= p && SkipSpaces(l) == SkipSpaces(l[p - from..])
      {
        assert l[p - from] == buf[p];
        p := p + 1;
        left := left - 1;
      }
      if left == 0 {
        return false;
      }
      assert l[p - from] == buf[p] && l[p - from..][0] == buf[p];
      if buf[p] == HASH {
        return false;
      }
      while left > 0 && IsSpace(buf[p + left - 1])
        invariant from <= p && p + left <= from + len && handed == old(handed) + [l] && !Ignored(l)
        invariant forall k :: 0 <= k < buf.Length && !(from <= k < from + len) ==> buf[k] == old(buf[k])
      {
        buf[p + left - 1] := 0;
        left := left - 1;
      }
      rc := judge.rejects(handed);
    }

    /** The first part of parse_chunk: the chunk goes behind the unconsumed tail, in a new buffer. */
    method Grow(s: seq<byte>)
      requires Valid()
      modifies this`line, this`lineLength
      ensures Valid() && Tail() == old(Tail()) + s && (line == old(line) || fresh(line))
    {
      if |s| > 0 {
        var buffer := new byte[lineLength + |s| + 1];
        forall k | 0 <= k < lineLength {
          buffer[k] := line[k];
        }
        forall k | 0 <= k < |s| {
          buffer[lineLength + k] := s[k];
        }
        buffer[lineLength + |s|] := 0;
        line := buffer;
        lineLength := lineLength + |s|;
      }
    }

    /** Skips the LF of a CR LF at `ptr`. */
    method SkipLF(ptr: nat) returns (start: nat)
      requires Valid() && ptr < lineLength
      ensures ptr <= start <= lineLength && line[start..lineLength] == Skip(line[ptr..lineLength], lastChar == CR)
    {
      ghost var rest := line[ptr..lineLength];
      assert rest[0] == line[ptr] && rest[1..] == line[ptr + 1..lineLength];
      start := if lastChar == CR && line[ptr] == LF then ptr + 1 else ptr;
    }

    /** The line from `start` to `next` is cut off with a NUL and handed over; `u` is the text from
        `start` on. */
    method EndLine(start: nat, next: nat, ghost u: seq<byte>, ghost e: nat) returns (rc: bool)
      requires Valid() && start <= next <= lineLength && lineLength > 0 && u == line[start..lineLength] && e == next - start
      modifies line, this`handed
      ensures Valid() && (handed, rc) == Hand(judge, old(handed), NonEmpty([u[..e]]))
      ensures next < lineLength ==> line[next + 1..lineLength] == u[e + 1..]
    {
      hide LineEnd, FirstEnd, Skip, Hand, NonEmpty, Fails;
      HandOne(judge, handed, u[..e]);
      line[next] := 0;
      assert line[start..start + e] == u[..e];
      rc := ParseLine(line, start, next - start);
    }

    /** One pass of the outer loop, at `start`: the first line of the text `u` there ends at `e`.  It
        stops in the middle of a line unless this is the end. */
    method TakeLine(start: nat, isEnd: bool, ghost u: seq<byte>) returns (next: nat, middle: bool, rc: bool, ghost e: nat)
      requires Valid() && start <= lineLength && lineLength > 0 && u == line[start..lineLength]
      modifies line, this`lastChar, this`handed
      ensures Valid() && e == FirstEnd(u) && (middle <==> e == |u| && !isEnd)
      ensures middle ==> lastChar == old(lastChar) && handed == old(handed) && line[start..lineLength] == u
      ensures !middle ==> (handed, rc) == Hand(judge, old(handed), NonEmpty([u[..e]]))
      ensures !middle ==> start <= next <= lineLength && (e < |u| ==> start < next)
      ensures !middle ==> line[next..lineLength] == if e < |u| then u[e + 1..] else []
      ensures !middle ==> (lastChar == CR <==> if e < |u| then u[e] == CR else old(lastChar) == CR)
    {
      hide LineEnd, FirstEnd, Skip, Hand, NonEmpty, Fails;
      next := FindLineEnd(line, start, lineLength);
      e := next - start;
      middle, rc := false, false;
      if next == lineLength {
        if !isEnd {
          middle := true;
          return;
        }
      } else {
        lastChar := line[next];
      }
      rc := EndLine(start, next, u, e);
      if next < lineLength {
        next := next + 1;
      }
    }

    /** The end of parse_chunk: what is before `start` is dropped, if something is left. */
    method Collapse(start: nat)
      requires Valid() && start <= lineLength
      modifies this`line, this`lineLength, this`offset
      ensures Valid() && Tail() == (if old(lineLength) == 0 then [] else old(line[start..lineLength])) && (line == old(line) || fresh(line))
    {
      offset := start;
      var len := lineLength - offset;
      if len > 0 && lineLength != len {
        var buffer := new byte[len + 1];
        forall k | 0 <= k < len {
          buffer[k] := line[lineLength - len + k];
        }
        buffer[len] := 0;
        line := buffer;
        lineLength := lineLength - offset;
        offset := 0;
      }
    }

    /** raptor_ntriples_parse_chunk; the end mark comes with the last chunk.  The lines completed are
        handed over in order up to the first failure, and the buffer keeps exactly the unconsumed
        tail, which at the end is empty. */
    method ParseChunk(s: seq<byte>, isEnd: bool) returns (rc: bool)
      requires Valid()
      modifies this`line, this`lineLength, this`offset, this`lastChar, this`handed, line
      ensures line == old(line) || fresh(line)
      ensures var (r, tail, cr) := Outcome(judge, isEnd, old(handed), old(Tail()) + s, old(lastChar) == CR);
              (handed, rc) == r && (!rc ==> Valid() && Tail() == tail && (!isEnd ==> (lastChar == CR <==> cr)))
    {
      hide LineEnd, FirstEnd, Hand, NonEmpty, Fails, Outcome, Skip;
      ghost var text := Tail() + s;
      ghost var goal := Outcome(judge, isEnd, handed, text, lastChar == CR);
      Grow(s);
      if lineLength == 0 {
        Finished(judge, isEnd, handed, [], lastChar == CR);
        return false;
      }
      var ptr, start := offset, offset;
      while ptr < lineLength
        invariant Valid() && offset <= ptr <= lineLength && lineLength > 0 && start == ptr && (line == old(line) || fresh(line))
        invariant Outcome(judge, isEnd, handed, line[ptr..lineLength], lastChar == CR) == goal
      {
        ghost var rest, h, cr := line[ptr..lineLength], handed, lastChar == CR;
        start := SkipLF(ptr);
        ghost var u, e := line[start..lineLength], 0;
        var next, middle;
        next, middle, rc, e := TakeLine(start, isEnd, u);
        if middle {
          Stuck(judge, h, rest, cr, u);
          Collapse(start);
          return false;
        }
        OutcomeStep(judge, isEnd, h, rest, cr, u, e);
        if rc {
          return true;
        }
        ptr, start := next, next;
      }
      Finished(judge, isEnd, handed, line[ptr..lineLength], lastChar == CR);
      Collapse(start);
      return false;
    }

    /** Chunks of any lengths, the last with the end mark: a parser fresh from its start hands over the
        non-empty lines of all of them up to the first that fails. */
    method ParseChunks(cs: seq<seq<byte>>) returns (rc: bool)
      requires Valid() && Tail() == [] && lastChar != CR && cs != []
      modifies this`line, this`lineLength, this`offset, this`lastChar, this`handed, line
      ensures (handed, rc) == Hand(judge, old(handed), NonEmpty(Lines(Flat(cs), false)))
    {
      hide Lines, LinesFrom, Feed, NonEmpty, Hand, FirstEnd, Skip, Fails;
      ghost var goal := Hand(judge, handed, NonEmpty(Lines(Flat(cs), false)));
      assert Tail() + Flat(cs) == Flat(cs) && cs[0..] == cs;
      for i := 0 to |cs|
        invariant Valid() && (line == old(line) || fresh(line)) && i < |cs|
        invariant Hand(judge, handed, NonEmpty(Lines(Tail() + Flat(cs[i..]), lastChar == CR))) == goal
      {
        ghost var tail, cr, h := Tail(), lastChar == CR, handed;
        assert Flat(cs[i..]) == cs[i] + Flat(cs[i + 1..]) by {
          assert cs[i..][1..] == cs[i + 1..];
        }
        ChunkStep(judge, h, tail, cr, cs[i], Flat(cs[i + 1..]));
        rc := ParseChunk(cs[i], i + 1 == |cs|);
        if i + 1 == |cs| {
          assert Flat(cs[i + 1..]) == [] && cs[i] + [] == cs[i];
          return;
        }
        if rc {
          return;
        }
      }
    }

    /** raptor_parser_parse_file_stream: whatever the size of the blocks, a parser fresh from its start
        hands over the non-empty lines of the stream up to the first that fails. */
    method ParseStream(text: seq<byte>, blockSize: nat) returns (rc: bool)
      requires Valid() && Tail() == [] && lastChar != CR && blockSize > 0
      modifies this`line, this`lineLength, this`offset, this`lastChar, this`handed, line
      ensures (handed, rc) == Hand(judge, old(handed), NonEmpty(Lines(text, false)))
    {
      hide Lines, LinesFrom, Feed, NonEmpty, Hand, FirstEnd, Skip, Fails;
      var pos := 0;
      ghost var goal := Hand(judge, handed, NonEmpty(Lines(text, false)));
      assert Tail() + text[pos..] == text;
      rc := false;
      while true
        invariant Valid() && pos <= |text| && (line == old(line) || fresh(line))
        invariant Hand(judge, handed, NonEmpty(Lines(Tail() + text[pos..], lastChar == CR))) == goal
        decreases |text| - pos
      {
        var len := if |text| - pos < blockSize then |text| - pos else blockSize;
        var isEnd := len < blockSize;
        ghost var tail, cr, h := Tail(), lastChar == CR, handed;
        var block := text[pos..pos + len];
        assert text[pos..] == block + text[pos + len..];
        ChunkStep(judge, h, tail, cr, block, text[pos + len..]);
        rc := ParseChunk(block, isEnd);
        if isEnd {
          assert text[pos + len..] == [] && block + [] == block;
          return;
        }
        if rc {
          return;
        }
        pos := pos + len;
      }
    }
  }

  lemma Stuck(j: Judge, handed: seq<seq<byte>>, s: seq<byte>, cr: bool, u: seq<byte>)
    requires s != [] && u == Skip(s, cr) && FirstEnd(u) == |u|
    ensures Outcome(j, false, handed, s, cr) == ((handed, false), u, cr)
  {
  }

  lemma Finished(j: Judge, isEnd: bool, handed: seq<seq<byte>>, s: seq<byte>, cr: bool)
    requires s == []
    ensures var (r, tail, cr') := Outcome(j, isEnd, handed, s, cr); r == (handed, false) && tail == [] && (!isEnd ==> cr' == cr)
  {
  }

  lemma HandOne(j: Judge, handed: seq<seq<byte>>, l: seq<byte>)
    ensures Hand(j, handed, NonEmpty([l])) == if l == [] then (handed, false) else (handed + [l], Fails(j, handed + [l]))
  {
    NonEmptyOne(l, []);
    assert [l] + [] == [l] && NonEmpty([]) == [];
    hide Fails;
    if l != [] {
      assert NonEmpty([l]) == [l];
    }
  }

  /** What handling the text `s` comes to: the lines handed and whether one failed, the tail left
      over, and whether a CR came last. */
  function Outcome(j: Judge, isEnd: bool, handed: seq<seq<byte>>, s: seq<byte>, cr: bool): ((seq<seq<byte>>, bool), seq<byte>, bool) {
    var f := Feed(s, cr);
    if isEnd then (Hand(j, handed, NonEmpty(Lines(s, cr))), [], false) else (Hand(j, handed, NonEmpty(f.lines)), f.tail, f.cr)
  }

  lemma OutcomeStep(j: Judge, isEnd: bool, handed: seq<seq<byte>>, s: seq<byte>, cr: bool, u: seq<byte>, e: nat)
    requires s != [] && u == Skip(s, cr) && e == FirstEnd(u) && (e < |u| || isEnd)
    ensures var r := Hand(j, handed, NonEmpty([u[..e]]));
            if r.1 then Outcome(j, isEnd, handed, s, cr).0 == r
            else Outcome(j, isEnd, handed, s, cr) == Outcome(j, isEnd, r.0, if e < |u| then u[e + 1..] else [], if e < |u| then u[e] == CR else cr)
  {
    hide LineEnd, FirstEnd, NonEmpty, Hand, Lines, LinesFrom, Feed, Skip;
    if e < |u| {
      LineTaken(s, [], cr, u, e);
      assert s + [] == s && u[e + 1..] + [] == u[e + 1..];
      var rest := if isEnd then Lines(u[e + 1..], u[e] == CR) else Feed(u[e + 1..], u[e] == CR).lines;
      NonEmptyAppend([u[..e]], rest);
      HandAppend(j, handed, NonEmpty([u[..e]]), NonEmpty(rest));
    } else {
      LastLine(j, s, cr, u);
      HandAppend(j, handed, NonEmpty([u]), []);
      assert NonEmpty([u]) + [] == NonEmpty([u]) && u[..e] == u;
    }
  }

  lemma LastLine(j: Judge, s: seq<byte>, cr: bool, u: seq<byte>)
    requires s != [] && u == Skip(s, cr) && FirstEnd(u) == |u|
    ensures Lines(s, cr) == [u] && Lines([], cr) == [] && NonEmpty([]) == []
    ensures forall h :: Hand(j, h, []) == (h, false)
  {
  }
}
