/** Where a line of N-Triples text ends, without the scan that finds it: escaped bytes, URIs and quoted
    strings as intervals of the text (win32/raptor2/src/ntriples_parse.c). */
module LineEnds {
  import opened Bytes
  import opened NTriples

  // ---------- the structure of a text ----------

  /** A backslash that is not itself escaped stands before byte `k`. */
  predicate Escaped(s: seq<byte>, k: nat)
    requires k <= |s|
  {
    k > 0 && s[k - 1] == BACKSLASH && !Escaped(s, k - 1)
  }

  /** Byte `k` is `c`, and not escaped. */
  predicate Bare(s: seq<byte>, k: nat, c: byte) {
    k < |s| && s[k] == c && !Escaped(s, k)
  }

  /** Before byte `k` a `<` was opened and no `>` closed it. */
  ghost predicate InUri(s: seq<byte>, k: nat) {
    exists j: nat :: j < k && Bare(s, j, LESS) && forall m: nat :: j < m < k ==> !Bare(s, m, GREATER)
  }

  /** Byte `k` opens a quoted string, unless it stands within one: a quote, or an apostrophe outside URIs. */
  ghost predicate Opens(s: seq<byte>, k: nat) {
    Bare(s, k, QUOTE) || (Bare(s, k, APOSTROPHE) && !InUri(s, k))
  }

  /** A quoted string, from its opening to its closing byte. */
  datatype Quoted = Quoted(open: nat, close: nat)

  /** It opens, and the next bare byte of the same kind closes it. */
  ghost predicate Whole(s: seq<byte>, q: Quoted) {
    && q.open < q.close < |s| && Opens(s, q.open) && Bare(s, q.close, s[q.open])
    && forall m: nat :: q.open < m < q.close ==> !Bare(s, m, s[q.open])
  }

  ghost predicate Within(qs: seq<Quoted>, k: nat) {
    exists i :: 0 <= i < |qs| && qs[i].open <= k <= qs[i].close
  }

  /** The text up to `e` is made of the quoted strings `qs`, one after another, and of bytes outside them
      that open none. */
  ghost predicate Strings(s: seq<byte>, e: nat, qs: seq<Quoted>) {
    && e <= |s|
    && (forall i :: 0 <= i < |qs| ==> Whole(s, qs[i]) && qs[i].close < e)
    && (forall i, j :: 0 <= i < j < |qs| ==> qs[i].close < qs[j].open)
    && (forall k: nat :: k < e && !Within(qs, k) ==> !Opens(s, k))
  }

  /** A line end that is not escaped. */
  predicate Newline(s: seq<byte>, k: nat) {
    Bare(s, k, LF) || Bare(s, k, CR)
  }

  /** Outside the quoted strings there is no bare line end up to `e`. */
  ghost predicate Unbroken(s: seq<byte>, e: nat, qs: seq<Quoted>) {
    forall k: nat :: k < e && !Within(qs, k) ==> !Newline(s, k)
  }

  /** The line ends at `e`: a bare CR or LF with nothing but whole strings and no line end before it. */
  ghost predicate EndsAt(s: seq<byte>, e: nat) {
    Newline(s, e) && exists qs :: Strings(s, e, qs) && Unbroken(s, e, qs)
  }

  // ---------- one byte further ----------

  /** `<` and `>` switch the URI on and off. */
  lemma InUriNext(s: seq<byte>, k: nat)
    requires k < |s|
    ensures InUri(s, k + 1) <==> Bare(s, k, LESS) || (InUri(s, k) && !Bare(s, k, GREATER))
  {
    hide Escaped;
    if InUri(s, k) && !Bare(s, k, GREATER) {
      var j: nat :| j < k && Bare(s, j, LESS) && forall m: nat :: j < m < k ==> !Bare(s, m, GREATER);
      assert forall m: nat :: j < m < k + 1 ==> !Bare(s, m, GREATER);
    }
    if InUri(s, k + 1) && !Bare(s, k, LESS) {
      var j: nat :| j < k + 1 && Bare(s, j, LESS) && forall m: nat :: j < m < k + 1 ==> !Bare(s, m, GREATER);
      assert j < k && !Bare(s, k, GREATER);
    }
  }

  /** What the scan remembers of the text before `i`: the byte that opened a string it is in, whether it is
      in a URI, and whether the byte at `i` is escaped. */
  ghost predicate Remembers(s: seq<byte>, i: nat, inUri: bool, bq: bool)
    requires i <= |s|
  {
    inUri == InUri(s, i) && bq == Escaped(s, i)
  }

  ghost function Uri(s: seq<byte>, i: nat, inUri: bool): bool
    requires i < |s|
  {
    if s[i] == LESS then true else if inUri && s[i] == GREATER then false else inUri
  }

  lemma RemembersNext(s: seq<byte>, i: nat, inUri: bool, bq: bool)
    requires i < |s| && Remembers(s, i, inUri, bq)
    ensures bq ==> Remembers(s, i + 1, inUri, false)
    ensures !bq && s[i] == BACKSLASH ==> Remembers(s, i + 1, inUri, true)
    ensures !bq && s[i] != BACKSLASH ==> Remembers(s, i + 1, Uri(s, i, inUri), false)
    ensures !bq && (s[i] == APOSTROPHE || s[i] == QUOTE) ==> (Opens(s, i) <==> s[i] == QUOTE || !inUri) && Uri(s, i, inUri) == inUri
    ensures bq || (s[i] != APOSTROPHE && s[i] != QUOTE) ==> !Opens(s, i)
    ensures bq ==> !Newline(s, i)
  {
    InUriNext(s, i);
  }

  // ---------- the scan finds the end ----------

  /** In which quoted string a place is: the byte that opened it, 0 if in none. */
  ghost predicate QuoteIs(s: seq<byte>, qs: seq<Quoted>, i: nat, quote: byte) {
    if quote == 0 then forall n :: 0 <= n < |qs| ==> !(qs[n].open < i <= qs[n].close)
    else exists n :: 0 <= n < |qs| && qs[n].open < i <= qs[n].close && qs[n].open < |s| && s[qs[n].open] == quote
  }

  lemma OpensByte(s: seq<byte>, i: nat)
    ensures Opens(s, i) ==> i < |s| && (s[i] == QUOTE || s[i] == APOSTROPHE)
  {
  }

  /** Out of any string, the scan moves on by one byte, into a string or not. */
  lemma OutsideNext(s: seq<byte>, e: nat, qs: seq<Quoted>, i: nat)
    requires Strings(s, e, qs) && Unbroken(s, e, qs) && i < e && QuoteIs(s, qs, i, 0)
    ensures Opens(s, i) ==> QuoteIs(s, qs, i + 1, s[i])
    ensures !Opens(s, i) ==> QuoteIs(s, qs, i + 1, 0) && !Newline(s, i)
  {
    hide Opens, Newline, Escaped;
    OpensByte(s, i);
    if Opens(s, i) {
      var n :| 0 <= n < |qs| && qs[n].open <= i <= qs[n].close;
      assert qs[n].open == i;
    } else {
      forall n | 0 <= n < |qs| ensures !(qs[n].open <= i <= qs[n].close) {
        assert Whole(s, qs[n]);
      }
    }
  }

  /** One string after another. */
  ghost predicate InTurn(qs: seq<Quoted>) {
    && (forall i :: 0 <= i < |qs| ==> qs[i].open < qs[i].close)
    && (forall i, j :: 0 <= i < j < |qs| ==> qs[i].close < qs[j].open)
  }

  lemma StringsInTurn(s: seq<byte>, e: nat, qs: seq<Quoted>)
    requires Strings(s, e, qs)
    ensures InTurn(qs) && forall n :: 0 <= n < |qs| ==> Whole(s, qs[n])
  {
    hide Opens, Escaped;
    assert forall n :: 0 <= n < |qs| ==> Whole(s, qs[n]);
  }

  lemma BehindClose(qs: seq<Quoted>, n: nat)
    requires InTurn(qs) && n < |qs|
    ensures forall k :: 0 <= k < |qs| ==> !(qs[k].open < qs[n].close + 1 <= qs[k].close)
  {
    forall k | 0 <= k < |qs| ensures !(qs[k].open < qs[n].close + 1 <= qs[k].close) {
      assert k < n ==> qs[k].close < qs[n].open;
      assert n < k ==> qs[n].close < qs[k].open;
    }
  }

  lemma CloseIsFirst(s: seq<byte>, q: Quoted, i: nat)
    requires Whole(s, q) && q.open < i <= q.close
    ensures Bare(s, i, s[q.open]) <==> i == q.close
  {
    hide Opens, Escaped;
  }

  /** In a string, it moves on within it or closes it. */
  lemma InsideNext(s: seq<byte>, e: nat, qs: seq<Quoted>, i: nat, quote: byte)
    requires Strings(s, e, qs) && i < e && quote != 0 && QuoteIs(s, qs, i, quote)
    ensures QuoteIs(s, qs, i + 1, if Bare(s, i, quote) then 0 else quote)
  {
    hide Opens, Newline, Escaped, Strings, Whole, InTurn, Bare;
    var n :| 0 <= n < |qs| && qs[n].open < i <= qs[n].close && qs[n].open < |s| && s[qs[n].open] == quote;
    StringsInTurn(s, e, qs);
    CloseIsFirst(s, qs[n], i);
    if Bare(s, i, quote) {
      BehindClose(qs, n);
    }
  }

  lemma QuoteAtEnd(s: seq<byte>, e: nat, qs: seq<Quoted>, quote: byte)
    requires Strings(s, e, qs) && QuoteIs(s, qs, e, quote)
    ensures quote == 0
  {
    hide Whole;
  }

  /** If the line ends at `e`, the scan goes on to there and stops. */
  lemma {:induction false} ScanReaches(s: seq<byte>, e: nat, qs: seq<Quoted>, i: nat, quote: byte, inUri: bool, bq: bool)
    requires Newline(s, e) && Strings(s, e, qs) && Unbroken(s, e, qs)
    requires i <= e && Remembers(s, i, inUri, bq) && QuoteIs(s, qs, i, quote) && (quote == 0 || quote == QUOTE || quote == APOSTROPHE)
    ensures LineEnd(s, i, quote, inUri, bq) == e
    decreases e - i
  {
    hide Strings, Unbroken, QuoteIs, InUri, Escaped;
    if i == e {
      QuoteAtEnd(s, e, qs, quote);
    } else {
      RemembersNext(s, i, inUri, bq);
      OpensByte(s, i);
      if quote == 0 {
        OutsideNext(s, e, qs, i);
      } else {
        InsideNext(s, e, qs, i, quote);
      }
      if bq {
        ScanReaches(s, e, qs, i + 1, quote, inUri, false);
      } else if s[i] == BACKSLASH {
        ScanReaches(s, e, qs, i + 1, quote, inUri, true);
      } else if quote != 0 {
        ScanReaches(s, e, qs, i + 1, if s[i] == quote then 0 else quote, Uri(s, i, inUri), false);
      } else {
        ScanReaches(s, e, qs, i + 1, if Opens(s, i) then s[i] else 0, Uri(s, i, inUri), false);
      }
    }
  }

  // ---------- what the scan finds is the end ----------

  /** The strings so far, and where the string the scan is in was opened: at `o`, or nowhere if `quote` is 0. */
  ghost predicate Scanned(s: seq<byte>, i: nat, quote: byte, qs: seq<Quoted>, o: nat)
    requires i <= |s|
  {
    if quote == 0 then o == i && Strings(s, i, qs) && Unbroken(s, i, qs)
    else
      && o < i && Strings(s, o, qs) && Unbroken(s, o, qs) && Opens(s, o) && s[o] == quote
      && forall m: nat :: o < m < i ==> !Bare(s, m, quote)
  }

  /** Outside strings, a byte that opens none and is no line end is passed. */
  lemma PassByte(s: seq<byte>, i: nat, qs: seq<Quoted>, o: nat)
    requires i < |s| && Scanned(s, i, 0, qs, o) && !Opens(s, i) && !Newline(s, i)
    ensures Scanned(s, i + 1, 0, qs, i + 1)
  {
    hide Opens, Newline, Whole;
  }

  /** A byte that opens a string starts one. */
  lemma OpenString(s: seq<byte>, i: nat, qs: seq<Quoted>, o: nat)
    requires i < |s| && Scanned(s, i, 0, qs, o) && Opens(s, i)
    ensures s[i] != 0 && Scanned(s, i + 1, s[i], qs, i)
  {
    hide Newline, Whole;
  }

  /** Any other byte than the closing one belongs to the string. */
  lemma StringByte(s: seq<byte>, i: nat, quote: byte, qs: seq<Quoted>, o: nat)
    requires i < |s| && quote != 0 && Scanned(s, i, quote, qs, o) && !Bare(s, i, quote)
    ensures Scanned(s, i + 1, quote, qs, o)
  {
    hide Opens, Strings, Unbroken, Bare;
  }

  lemma StopHere(s: seq<byte>, i: nat, qs: seq<Quoted>, o: nat)
    requires i < |s| && Scanned(s, i, 0, qs, o) && Newline(s, i)
    ensures EndsAt(s, i)
  {
    hide Strings, Unbroken, Newline;
  }

  /** The byte that closes a string makes it one of the whole ones. */
  lemma CloseString(s: seq<byte>, i: nat, quote: byte, qs: seq<Quoted>, o: nat)
    requires i < |s| && quote != 0 && Scanned(s, i, quote, qs, o) && Bare(s, i, quote)
    ensures Scanned(s, i + 1, 0, qs + [Quoted(o, i)], i + 1)
  {
    hide Opens, Newline, Escaped;
    var rs := qs + [Quoted(o, i)];
    assert Whole(s, rs[|qs|]);
    forall k: nat | k < i + 1 && !Within(rs, k) ensures !Opens(s, k) && !Newline(s, k) {
      forall n | 0 <= n < |qs| ensures !(qs[n].open <= k <= qs[n].close) {
        assert rs[n] == qs[n];
      }
      assert rs[|qs|] == Quoted(o, i);
    }
  }

  /** Where the scan stops before the end of the text, the line ends. */
  lemma {:induction false} ScanStops(s: seq<byte>, i: nat, quote: byte, inUri: bool, bq: bool, qs: seq<Quoted>, o: nat)
    requires i <= |s| && Remembers(s, i, inUri, bq) && Scanned(s, i, quote, qs, o) && (quote == 0 || quote == QUOTE || quote == APOSTROPHE)
    ensures var e := LineEnd(s, i, quote, inUri, bq); e < |s| ==> EndsAt(s, e)
    decreases |s| - i
  {
    hide InUri, Escaped, Opens, Scanned, EndsAt;
    if i < |s| {
      RemembersNext(s, i, inUri, bq);
      OpensByte(s, i);
      var uri := if bq || s[i] == BACKSLASH then inUri else Uri(s, i, inUri);
      var escape := !bq && s[i] == BACKSLASH;
      if quote != 0 {
        if Bare(s, i, quote) {
          CloseString(s, i, quote, qs, o);
          ScanStops(s, i + 1, 0, uri, escape, qs + [Quoted(o, i)], i + 1);
        } else {
          StringByte(s, i, quote, qs, o);
          ScanStops(s, i + 1, quote, uri, escape, qs, o);
        }
      } else if Opens(s, i) {
        OpenString(s, i, qs, o);
        ScanStops(s, i + 1, s[i], uri, escape, qs, i);
      } else if Newline(s, i) {
        StopHere(s, i, qs, o);
      } else {
        PassByte(s, i, qs, o);
        ScanStops(s, i + 1, 0, uri, escape, qs, i + 1);
      }
    }
  }

  lemma NothingScanned(s: seq<byte>)
    ensures Remembers(s, 0, false, false) && Scanned(s, 0, 0, [], 0)
  {
  }

  /** The line ends where the scan stops, if it stops before the end of the text, and nowhere else. */
  lemma LineEndsThere(s: seq<byte>, e: nat)
    ensures EndsAt(s, e) <==> FirstEnd(s) == e < |s|
  {
    hide Strings, Unbroken, Scanned;
    NothingScanned(s);
    ScanStops(s, 0, 0, false, false, [], 0);
    if EndsAt(s, e) {
      var qs :| Strings(s, e, qs) && Unbroken(s, e, qs);
      NoQuoteAtStart(s, qs);
      ScanReaches(s, e, qs, 0, 0, false, false);
    }
  }

  lemma NoQuoteAtStart(s: seq<byte>, qs: seq<Quoted>)
    ensures QuoteIs(s, qs, 0, 0)
  {
  }

  // ---------- the lines of a text ----------

  /** A line end takes one byte, or two if it is CR LF. */
  function EndSize(s: seq<byte>, k: nat): (n: nat)
    requires k < |s|
    ensures k + n <= |s|
  {
    if s[k] == CR && k + 1 < |s| && s[k + 1] == LF then 2 else 1
  }

  /** The text is those lines: each ends where a line ends, the next begins behind its line end, and the
      last is what is left.  A text that ends in CR LF has one more line, which is empty. */
  ghost predicate CutInto(s: seq<byte>, ls: seq<seq<byte>>)
    decreases |s|
  {
    if s == [] then ls == []
    else
      && ls != [] && ls[0] <= s
      && var k := |ls[0]|;
         if k == |s| then |ls| == 1 && !exists e: nat :: EndsAt(s, e)
         else
           && EndsAt(s, k)
           && var rest := s[k + EndSize(s, k)..];
              if rest == [] && EndSize(s, k) == 2 then ls[1..] == [[]] else CutInto(rest, ls[1..])
  }

  /** Those are the lines the splitter makes of it, and no others. */
  lemma {:induction false} LinesAre(s: seq<byte>, ls: seq<seq<byte>>)
    ensures CutInto(s, ls) <==> ls == Lines(s, false)
    decreases |s|
  {
    hide EndsAt, FirstEnd, LinesFrom;
    if s != [] && ls != [] {
      var e := FirstEnd(s);
      LineEndsThere(s, e);
      LineEndsThere(s, |ls[0]|);
      assert ls == [ls[0]] + ls[1..];
      assert ls[0] <= s ==> ls[0] == s[..|ls[0]|];
      assert s[..e] <= s;
      if e == |s| {
        NoEnd(s);
        LastLine(s);
        assert s[..e] == s;
      } else {
        LinesBehind(s, e);
        LinesAre(s[e + EndSize(s, e)..], ls[1..]);
      }
    } else if s != [] {
      SomeLine(s);
    }
  }

  lemma SomeLine(s: seq<byte>)
    requires s != []
    ensures Lines(s, false) != []
  {
    hide FirstEnd;
  }

  lemma LastLine(s: seq<byte>)
    requires s != [] && FirstEnd(s) == |s|
    ensures Lines(s, false) == [s]
  {
    hide FirstEnd;
  }

  lemma NoEnd(s: seq<byte>)
    requires FirstEnd(s) == |s|
    ensures !exists e: nat :: EndsAt(s, e)
  {
    hide EndsAt, FirstEnd;
    forall e: nat ensures !EndsAt(s, e) {
      LineEndsThere(s, e);
    }
  }

  lemma LinesBehind(s: seq<byte>, e: nat)
    requires e == FirstEnd(s) < |s|
    ensures var rest := s[e + EndSize(s, e)..];
            Lines(s, false) == [s[..e]] + if rest == [] && EndSize(s, e) == 2 then [[]] else Lines(rest, false)
  {
    hide FirstEnd;
    var t := s[e + 1..];
    var rest := s[e + EndSize(s, e)..];
    NoLine();
    assert Lines(s, false) == [s[..e]] + Lines(t, s[e] == CR);
    if EndSize(s, e) == 2 {
      assert t[0] == LF && t[1..] == rest;
    } else {
      assert rest == t && (s[e] == CR && t != [] ==> t[0] != LF);
    }
  }

  lemma NoLine()
    ensures LinesFrom([]) == [[]]
  {
  }

  // ---------- what the line parser passes over ----------

  /** Blank, tab, line feed, vertical tab, form feed, carriage return. */
  predicate White(b: byte) {
    b in [32, 9, 10, 11, 12, 13]
  }

  /** White space up to `k`, and then the end or a `#`. */
  ghost predicate Comment(l: seq<byte>, k: nat) {
    k <= |l| && (forall i :: 0 <= i < k ==> White(l[i])) && (k == |l| || l[k] == 35)
  }

  /** A line is passed over exactly if it is blank, or a `#` is the first byte in it that is not white space. */
  lemma {:induction false} IgnoredLine(l: seq<byte>)
    ensures Ignored(l) <==> exists k: nat :: Comment(l, k)
    decreases |l|
  {
    if l != [] && IsSpace(l[0]) {
      IgnoredLine(l[1..]);
      if k: nat :| Comment(l[1..], k) {
        assert Comment(l, k + 1) by { assert forall i :: 1 <= i < k + 1 ==> l[i] == l[1..][i - 1]; }
      }
      if k: nat :| Comment(l, k) {
        assert Comment(l[1..], k - 1) by { assert forall i :: 0 <= i < k - 1 ==> l[1..][i] == l[i + 1]; }
      }
    } else {
      assert Ignored(l) ==> Comment(l, 0);
      assert forall k: nat :: Comment(l, k) && k > 0 ==> White(l[0]);
    }
  }

  /** With `n` of the lines handed over, the last is no comment, and the term parser rejects it. */
  predicate RejectedAt(j: Judge, handed: seq<seq<byte>>, ls: seq<seq<byte>>, n: nat)
    requires n <= |ls|
  {
    var all := handed + ls[..n];
    all != [] && !Ignored(all[|all| - 1]) && j.rejects(all)
  }

  lemma RejectedLater(j: Judge, handed: seq<seq<byte>>, ls: seq<seq<byte>>, n: nat)
    requires n < |ls|
    ensures RejectedAt(j, handed, ls, n + 1) <==> RejectedAt(j, handed + [ls[0]], ls[1..], n)
    ensures handed + ls[..n + 1] == handed + [ls[0]] + ls[1..][..n]
  {
    assert handed + ls[..n + 1] == handed + [ls[0]] + ls[1..][..n];
  }

  /** Lines are handed over in order, all of them or up to the first that is rejected and not passed over. */
  lemma {:induction false} HandIs(j: Judge, handed: seq<seq<byte>>, ls: seq<seq<byte>>) returns (k: nat)
    ensures k <= |ls| && Hand(j, handed, ls).0 == handed + ls[..k]
    ensures forall n: nat :: 0 < n < k ==> !RejectedAt(j, handed, ls, n)
    ensures if Hand(j, handed, ls).1 then k > 0 && RejectedAt(j, handed, ls, k) else k == |ls| && (k > 0 ==> !RejectedAt(j, handed, ls, k))
    decreases |ls|
  {
    hide Ignored, RejectedAt;
    if ls == [] {
      k := 0;
      assert handed + ls[..0] == handed;
    } else {
      var h := handed + [ls[0]];
      FirstRejected(j, handed, ls);
      if Fails(j, h) {
        k := 1;
      } else {
        var m := HandIs(j, h, ls[1..]);
        k := m + 1;
        RejectedLater(j, handed, ls, m);
        forall n: nat | 0 < n < k ensures !RejectedAt(j, handed, ls, n) {
          if n > 1 {
            RejectedLater(j, handed, ls, n - 1);
          }
        }
      }
    }
  }

  lemma FirstRejected(j: Judge, handed: seq<seq<byte>>, ls: seq<seq<byte>>)
    requires ls != []
    ensures handed + ls[..1] == handed + [ls[0]] && (RejectedAt(j, handed, ls, 1) <==> Fails(j, handed + [ls[0]]))
  {
    hide Ignored;
    assert ls[..1] == [ls[0]];
  }
}
