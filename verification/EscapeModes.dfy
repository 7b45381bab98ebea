/** What the escaping writer of raptor (win32/raptor2/src/raptor_escaped.c) writes in each of its modes, seen
    by readers of their own: the string escapes of Turtle, its IRIs, and the strings of JSON. */
module EscapeModes {
  import opened Bytes
  import opened Escape
  import opened Options

  const SLASH: byte := 92
  const SHORT: byte := 117
  const LONG: byte := 85

  // ---------- a reader ----------

  /** Which bytes may stand for themselves between the delimiters of a mode. */
  predicate MayStand(b: byte, delim: Char, f: Flags) {
    && b != SLASH && (b < 0x80 ==> b != delim)
    && (f.sparqlUri ==> b > 0x20 && b !in {'<' as int, '>' as int, '"' as int, '{' as int, '}' as int, '|' as int, '^' as int, '`' as int})
    && (f.tnru ==> b >= 0x20 && b != 0x7f)
    && (f.bf ==> b != 8 && b != 11)
    && (!f.utf8 ==> b < 0x7f)
  }

  /** The byte that a backslash and a letter stand for. */
  function Letter(b: byte): Option<byte> {
    if b == 't' as int then Some(9)
    else if b == 'n' as int then Some(10)
    else if b == 'r' as int then Some(13)
    else if b == 'b' as int then Some(8)
    else if b == 'f' as int then Some(12)
    else if b == '"' as int || b == '\'' as int || b == '\\' as int || b == '/' as int then Some(b)
    else None
  }

  /** The escapes a language has, by the byte after the backslash. */
  const TURTLE_STRING: set<byte> := {116, 98, 110, 114, 102, 34, 39, 92, 117, 85}
  const TURTLE_IRI: set<byte> := {117, 85}
  const JSON_STRING: set<byte> := {34, 92, 47, 98, 102, 110, 114, 116, 117}

  /** The UTF-8 of a character given by its hexadecimal digits. */
  function Numbered(digits: seq<byte>): Option<seq<byte>> {
    match HexValue(digits)
    case None => None
    case Some(c) => if Scalar(c) then Some(Encode(c)) else None
  }

  /** A mode: its delimiter, its flags, and the escapes that readers of it know. */
  datatype Mode = Mode(delim: Char, flags: Flags, known: set<byte>)

  /** The first unit of an escaped text: the bytes it stands for, and how many it takes. */
  function Unit(s: seq<byte>, m: Mode): (r: Option<Taken<seq<byte>>>)
    requires s != []
    ensures r.Some? ==> 0 < r.value.size <= |s|
  {
    if s[0] != SLASH then if MayStand(s[0], m.delim, m.flags) then Some(Taken([s[0]], 1)) else None
    else if |s| < 2 || s[1] !in m.known then None
    else if s[1] == SHORT then if |s| < 6 || Numbered(s[2..6]) == None then None else Some(Taken(Numbered(s[2..6]).value, 6))
    else if s[1] == LONG then if |s| < 10 || Numbered(s[2..10]) == None then None else Some(Taken(Numbered(s[2..10]).value, 10))
    else
      match Letter(s[1])
      case None => None
      case Some(b) => Some(Taken([b], 2))
  }

  /** What an escaped text stands for.  A bare byte that the mode does not allow, or an escape that its
      readers do not know, is no part of one. */
  function Undone(s: seq<byte>, m: Mode): Option<seq<byte>> {
    if s == [] then Some([])
    else
      match Unit(s, m)
      case None => None
      case Some(Taken(what, n)) =>
        match Undone(s[n..], m)
        case None => None
        case Some(rest) => Some(what + rest)
  }

  ghost function Before(what: seq<byte>, r: Option<seq<byte>>): Option<seq<byte>> {
    match r case None => None case Some(t) => Some(what + t)
  }

  /** `out` reads as `what`, whatever follows. */
  ghost predicate Reads(out: seq<byte>, what: seq<byte>, m: Mode) {
    forall rest :: Undone(out + rest, m) == Before(what, Undone(rest, m))
  }

  lemma UnitReads(out: seq<byte>, what: seq<byte>, m: Mode)
    requires out != [] && forall rest :: out + rest != [] && Unit(out + rest, m) == Some(Taken(what, |out|))
    ensures Reads(out, what, m)
  {
    hide Unit;
    forall rest ensures Undone(out + rest, m) == Before(what, Undone(rest, m)) {
      assert out + rest != [] && (out + rest)[|out|..] == rest;
    }
  }

  lemma PairReads(b: byte, what: byte, m: Mode)
    requires Letter(b) == Some(what) && b in m.known
    ensures Reads([SLASH, b], [what], m)
  {
    hide Numbered;
    forall rest ensures [SLASH, b] + rest != [] && Unit([SLASH, b] + rest, m) == Some(Taken([what], 2)) {
    }
    UnitReads([SLASH, b], [what], m);
  }

  lemma ShortReads(c: nat, m: Mode)
    requires Scalar(c) && c < 0x1_0000 && SHORT in m.known
    ensures Reads(U4(c), Encode(c), m)
  {
    hide Hex, HexValue, Encode, Letter;
    Pow16s();
    HexRoundTrip(c, 4);
    forall rest ensures U4(c) + rest != [] && Unit(U4(c) + rest, m) == Some(Taken(Encode(c), 6)) {
      assert (U4(c) + rest)[2..6] == Hex(c, 4);
    }
    UnitReads(U4(c), Encode(c), m);
  }

  lemma LongReads(c: nat, m: Mode)
    requires Scalar(c) && LONG in m.known
    ensures Reads(U8(c), Encode(c), m)
  {
    hide Hex, HexValue, Encode, Letter;
    Pow16s();
    HexRoundTrip(c, 8);
    forall rest ensures U8(c) + rest != [] && Unit(U8(c) + rest, m) == Some(Taken(Encode(c), 10)) {
      assert (U8(c) + rest)[2..10] == Hex(c, 8);
    }
    UnitReads(U8(c), Encode(c), m);
  }

  lemma OneBare(b: byte, rest: seq<byte>, m: Mode)
    requires MayStand(b, m.delim, m.flags)
    ensures Undone([b] + rest, m) == Before([b], Undone(rest, m))
  {
    hide Numbered, Letter;
    assert ([b] + rest)[1..] == rest;
  }

  lemma BeforeTwo(a: seq<byte>, b: seq<byte>, r: Option<seq<byte>>)
    ensures Before(a, Before(b, r)) == Before(a + b, r)
  {
    if r.Some? {
      assert a + (b + r.value) == (a + b) + r.value;
    }
  }

  lemma {:induction false} BareReads(s: seq<byte>, m: Mode)
    requires forall i :: 0 <= i < |s| ==> MayStand(s[i], m.delim, m.flags)
    ensures Reads(s, s, m)
  {
    hide MayStand, Undone;
    if s == [] {
      forall rest ensures Undone(s + rest, m) == Before(s, Undone(rest, m)) {
        assert s + rest == rest;
        assert Undone(rest, m).Some? ==> s + Undone(rest, m).value == Undone(rest, m).value;
      }
    } else {
      BareReads(s[1..], m);
      forall rest ensures Undone(s + rest, m) == Before(s, Undone(rest, m)) {
        assert s + rest == [s[0]] + (s[1..] + rest) && [s[0]] + s[1..] == s;
        OneBare(s[0], s[1..] + rest, m);
        BeforeTwo([s[0]], s[1..], Undone(rest, m));
      }
    }
  }

  /** An escape that the readers do not know spoils all that follows. */
  lemma UnknownSpoils(out: seq<byte>, rest: seq<byte>, m: Mode)
    requires |out| >= 2 && out[0] == SLASH && out[1] !in m.known
    ensures Undone(out + rest, m) == None
  {
    hide Numbered, Letter;
    assert (out + rest)[0] == SLASH && (out + rest)[1] == out[1];
  }

  // ---------- one character ----------

  /** The writer can write the character: it is not one of the two that the UTF-8 reader refuses, and a
      delimiter of 128 or more is not its first byte. */
  predicate Written(c: nat, delim: Char)
    requires Scalar(c)
  {
    c != 0xFFFE && c != 0xFFFF && !(c >= 0x80 && Encode(c)[0] == delim)
  }

  /** What is written for a character. */
  function Output(c: nat, m: Mode): seq<byte>
    requires Scalar(c) && Written(c, m.delim)
  {
    var r := Step(Encode(c), m.delim, m.flags);
    if r.Some? then r.value.what else []
  }

  /** What the characters become in a mode that writes a vertical tab as the escape of a form feed. */
  function Retold(c: nat, m: Mode): nat {
    if c == 11 && m.flags.bf && !m.flags.tnru && !m.flags.sparqlUri && m.delim != 11 then 12 else c
  }

  lemma EncodeFirst(c: nat)
    requires Scalar(c)
    ensures c < 0x80 ==> Encode(c) == [c]
    ensures c >= 0x80 ==> forall i :: 0 <= i < |Encode(c)| ==> Encode(c)[i] >= 0x80
    ensures c >= 0x80 ==> Encode(c)[0] >= 0xC0 && |Encode(c)| >= 2 && Encode(c)[1] < 0xC0
  {
  }

  /** A character outside ASCII goes through the UTF-8 reader. */
  lemma WideStep(c: nat, rest: seq<byte>, m: Mode)
    requires Scalar(c) && c >= 0x80 && Written(c, m.delim)
    ensures Encode(c) + rest != []
    ensures Step(Encode(c) + rest, m.delim, m.flags)
         == Some(Taken(if m.flags.utf8 then Encode(c) else if c < 0x1_0000 then U4(c) else U8(c), |Encode(c)|))
  {
    hide GetChar, Hex, Encode;
    EncodeFirst(c);
    GetEncoded(c, rest);
    var s := Encode(c) + rest;
    assert s[0] == Encode(c)[0] && s[..|Encode(c)|] == Encode(c);
  }

  /** One within ASCII is looked at alone. */
  lemma AsciiStep(c: nat, rest: seq<byte>, m: Mode)
    requires Scalar(c) && c < 0x80
    ensures [c] + rest != [] && Step([c] + rest, m.delim, m.flags) == Step([c], m.delim, m.flags) != None
    ensures Step([c], m.delim, m.flags).value.size == 1
  {
    hide GetChar, Hex;
    OneByte(c, [c] + rest);
    OneByte(c, [c]);
    assert ([c] + rest)[..1] == [c] == [c][..1];
  }

  lemma StepIs(c: nat, rest: seq<byte>, m: Mode)
    requires Scalar(c) && Written(c, m.delim)
    ensures Encode(c) + rest != [] && Step(Encode(c) + rest, m.delim, m.flags) == Some(Taken(Output(c, m), |Encode(c)|))
  {
    hide Step, Encode, U4, U8;
    EncodeFirst(c);
    assert Encode(c) + [] == Encode(c);
    if c < 0x80 {
      AsciiStep(c, rest, m);
    } else {
      WideStep(c, rest, m);
      WideStep(c, [], m);
    }
  }

  /** The escape a character needs, if any. */
  predicate Understood(c: nat, m: Mode)
    requires Scalar(c) && Written(c, m.delim)
  {
    |Output(c, m)| >= 2 && Output(c, m)[0] == SLASH ==> Output(c, m)[1] in m.known
  }

  /** What is written for an ASCII character reads as it. */
  lemma AsciiReads(c: nat, m: Mode)
    requires Scalar(c) && c < 0x80 && Written(c, m.delim) && Understood(c, m)
    ensures Scalar(Retold(c, m)) && Reads(Output(c, m), [Retold(c, m)], m)
  {
    hide Reads, Hex;
    var out := Output(c, m);
    EncodeFirst(c);
    OneByte(c, [c]);
    if out == [c] {
      BareReads(out, m);
    } else if out == U4(c) {
      ShortReads(c, m);
    } else {
      PairReads(out[1], Retold(c, m), m);
    }
  }

  lemma OutputReads(c: nat, m: Mode)
    requires Scalar(c) && Written(c, m.delim) && Understood(c, m)
    ensures Scalar(Retold(c, m)) && Reads(Output(c, m), Encode(Retold(c, m)), m)
  {
    hide Reads, Hex, Encode, Step;
    EncodeFirst(c);
    if c < 0x80 {
      AsciiReads(c, m);
      EncodeFirst(Retold(c, m));
    } else {
      WideStep(c, [], m);
      assert Encode(c) + [] == Encode(c);
      if m.flags.utf8 {
        BareReads(Encode(c), m);
      } else if c < 0x1_0000 {
        ShortReads(c, m);
      } else {
        LongReads(c, m);
      }
    }
  }

  // ---------- texts ----------

  predicate AllWritten(cs: seq<nat>, delim: Char)
    requires Text(cs)
  {
    forall i :: 0 <= i < |cs| ==> Written(cs[i], delim)
  }

  predicate AllUnderstood(cs: seq<nat>, m: Mode)
    requires Text(cs) && AllWritten(cs, m.delim)
  {
    forall i :: 0 <= i < |cs| ==> Understood(cs[i], m)
  }

  function AllRetold(cs: seq<nat>, m: Mode): (rs: seq<nat>)
    requires Text(cs)
    ensures |rs| == |cs| && Text(rs) && forall i :: 0 <= i < |cs| ==> rs[i] == Retold(cs[i], m)
  {
    seq(|cs|, i requires 0 <= i < |cs| => Retold(cs[i], m))
  }

  lemma FirstWritten(cs: seq<nat>, m: Mode)
    requires Text(cs) && cs != []
    ensures Scalar(cs[0]) && Text(cs[1..]) && (AllWritten(cs, m.delim) <==> Written(cs[0], m.delim) && AllWritten(cs[1..], m.delim))
    ensures AllWritten(cs, m.delim) ==> (AllUnderstood(cs, m) <==> Understood(cs[0], m) && AllUnderstood(cs[1..], m))
    ensures AllRetold(cs, m) == [Retold(cs[0], m)] + AllRetold(cs[1..], m)
  {
    hide Written, Understood, Retold, Scalar;
    assert forall i :: 1 <= i < |cs| ==> cs[i] == cs[1..][i - 1];
  }

  /** At a character that it cannot write the writer stops. */
  lemma StopsThere(c: nat, rest: seq<byte>, m: Mode)
    requires Scalar(c) && !Written(c, m.delim)
    ensures !Escaped(Encode(c) + rest, m.delim, m.flags).1
  {
    hide Encode, Hex;
    EncodeFirst(c);
    GetEncoded(c, rest);
    var s := Encode(c) + rest;
    assert s[0] == Encode(c)[0] && s[1] == Encode(c)[1];
    if c != 0xFFFE && c != 0xFFFF {
      assert s[1..][0] == s[1];
      NoCharAt(s[1..]);
    }
  }

  lemma NoCharAt(s: seq<byte>)
    requires s != [] && 0x80 <= s[0] < 0xC0
    ensures GetChar(s) == None
  {
  }

  /** A text is written to its end exactly when every character of it can be. */
  lemma {:induction false} WritesAll(cs: seq<nat>, m: Mode)
    requires Text(cs)
    ensures Escaped(EncodeAll(cs), m.delim, m.flags).1 <==> AllWritten(cs, m.delim)
  {
    hide Step, Encode, Written, Output;
    if cs != [] {
      var c, rest := cs[0], EncodeAll(cs[1..]);
      FirstWritten(cs, m);
      if Written(c, m.delim) {
        StepIs(c, rest, m);
        assert (Encode(c) + rest)[0] == Encode(c)[0] && (Encode(c) + rest)[|Encode(c)|..] == rest;
        WritesAll(cs[1..], m);
      } else {
        StopsThere(c, rest, m);
      }
    }
  }

  lemma EscapedFirst(cs: seq<nat>, m: Mode)
    requires Text(cs) && cs != [] && AllWritten(cs, m.delim) && Scalar(cs[0]) && Text(cs[1..]) && Written(cs[0], m.delim)
    ensures Escaped(EncodeAll(cs), m.delim, m.flags).0 == Output(cs[0], m) + Escaped(EncodeAll(cs[1..]), m.delim, m.flags).0
  {
    hide Step, Encode, Written, Output;
    var c, rest := cs[0], EncodeAll(cs[1..]);
    StepIs(c, rest, m);
    assert (Encode(c) + rest)[0] == Encode(c)[0] && (Encode(c) + rest)[|Encode(c)|..] == rest;
  }

  lemma EncodedFirst(cs: seq<nat>, ds: seq<nat>, d: nat)
    requires Text(cs) && Text(ds) && Scalar(d) && cs == [d] + ds
    ensures EncodeAll(cs) == Encode(d) + EncodeAll(ds)
  {
    assert cs[1..] == ds;
  }

  /** For every delimiter, every flag and every set of escapes: readers recover the text exactly when they
      know the escapes it needs, but for a vertical tab that is written as a form feed. */
  lemma {:induction false} WrittenIsRead(cs: seq<nat>, m: Mode)
    requires Text(cs) && AllWritten(cs, m.delim)
    ensures Undone(Escaped(EncodeAll(cs), m.delim, m.flags).0, m) == if AllUnderstood(cs, m) then Some(EncodeAll(AllRetold(cs, m))) else None
  {
    hide Unit, Encode, Written, Output, Understood, Retold, Escaped;
    if cs == [] {
      NothingWritten(m);
    } else {
      FirstWritten(cs, m);
      EscapedFirst(cs, m);
      WrittenIsRead(cs[1..], m);
      var out, rest := Output(cs[0], m), Escaped(EncodeAll(cs[1..]), m.delim, m.flags).0;
      if Understood(cs[0], m) {
        OutputReads(cs[0], m);
        assert Undone(out + rest, m) == Before(Encode(Retold(cs[0], m)), Undone(rest, m));
        EncodedFirst(AllRetold(cs, m), AllRetold(cs[1..], m), Retold(cs[0], m));
      } else {
        NotUnderstood(cs[0], m);
        UnknownSpoils(out, rest, m);
      }
    }
  }

  lemma NothingWritten(m: Mode)
    ensures Escaped([], m.delim, m.flags) == ([], true)
  {
  }

  lemma NotUnderstood(c: nat, m: Mode)
    requires Scalar(c) && Written(c, m.delim) && !Understood(c, m)
    ensures var out := Output(c, m); |out| >= 2 && out[0] == SLASH && out[1] !in m.known
  {
    hide Output;
  }

  // ---------- the modes ----------

  /** In every mode the library has, nothing is retold. */
  lemma NothingRetold(cs: seq<nat>, m: Mode)
    requires Text(cs) && (!m.flags.bf || m.flags.tnru || m.flags.sparqlUri || m.delim == 11 || 11 !in cs)
    ensures AllRetold(cs, m) == cs
  {
    assert forall i :: 0 <= i < |cs| ==> cs[i] in cs;
  }

  /** Which escapes a character may need. */
  lemma EscapeIs(c: nat, m: Mode)
    requires Scalar(c) && Written(c, m.delim) && |Output(c, m)| >= 2 && Output(c, m)[0] == SLASH
    ensures var b := Output(c, m)[1];
            || b == SHORT
            || (b == LONG && c >= 0x1_0000)
            || (b == c && (c == 92 || (c == m.delim && (c == 34 || c == 39))))
            || (b in {116, 110, 114, 98, 102} && !m.flags.sparqlUri && (m.flags.tnru || m.flags.bf))
  {
    hide Hex;
    EncodeFirst(c);
    if c < 0x80 {
      OneByte(c, [c]);
    } else {
      WideStep(c, [], m);
      assert Encode(c) + [] == Encode(c);
    }
  }

  /** A backslash is written as two. */
  lemma BackslashIs(m: Mode)
    ensures Scalar(92) && Written(92, m.delim) && Output(92, m) == [SLASH, 92]
  {
    EncodeFirst(92);
  }

  lemma WideIs(c: nat, m: Mode)
    requires Scalar(c) && Written(c, m.delim) && c >= 0x1_0000 && !m.flags.utf8
    ensures Output(c, m) == U8(c)
  {
    hide Step, Encode;
    WideStep(c, [], m);
    assert Encode(c) + [] == Encode(c);
  }

  /** Where the delimiter is no byte of 128 or more, only the two code points of the reader are refused. */
  lemma OnlyRefused(cs: seq<nat>, delim: Char)
    requires Text(cs) && delim < 0x80
    ensures AllWritten(cs, delim) <==> 0xFFFE !in cs && 0xFFFF !in cs
  {
    hide Encode;
    forall i | 0 <= i < |cs| ensures Written(cs[i], delim) <==> cs[i] != 0xFFFE && cs[i] != 0xFFFF {
      EncodeFirst(cs[i]);
    }
    assert forall i :: 0 <= i < |cs| ==> cs[i] in cs;
  }

  lemma TurtleKnows(cs: seq<nat>, m: Mode)
    requires Text(cs) && AllWritten(cs, m.delim) && m.known == TURTLE_STRING
    ensures AllUnderstood(cs, m)
  {
    hide Written, Output;
    forall i | 0 <= i < |cs| ensures Understood(cs[i], m) {
      if |Output(cs[i], m)| >= 2 && Output(cs[i], m)[0] == SLASH {
        EscapeIs(cs[i], m);
      }
    }
  }

  /** Strings, with every delimiter and flag: the text is written exactly if it holds no character that
      cannot be, and then the string escapes of Turtle (section 2.4 of W3C Turtle) recover it, no delimiter
      stands bare, nor any byte that the flags forbid.  For a mode that has `\f` but not `\t` this takes a
      text without vertical tabs; the library has no such mode. */
  lemma StringsRecover(cs: seq<nat>, delim: Char, f: Flags)
    requires Text(cs)
    ensures var (out, ok) := Escaped(EncodeAll(cs), delim, f);
            && (ok <==> AllWritten(cs, delim))
            && (ok && (!f.bf || f.tnru || f.sparqlUri || 11 !in cs) ==> Undone(out, Mode(delim, f, TURTLE_STRING)) == Some(EncodeAll(cs)))
  {
    hide Escaped, Undone, EncodeAll, AllWritten, AllRetold;
    var m := Mode(delim, f, TURTLE_STRING);
    WritesAll(cs, m);
    if AllWritten(cs, delim) {
      WrittenIsRead(cs, m);
      TurtleKnows(cs, m);
      if !f.bf || f.tnru || f.sparqlUri || 11 !in cs {
        NothingRetold(cs, m);
      }
    }
  }

  /** What `\f` means there: the vertical tab comes back as a form feed. */
  lemma VerticalTab()
    ensures Text([11]) && Text([12]) && Undone(Escaped(EncodeAll([11]), 34, Flags(false, false, true, true)).0, Mode(34, Flags(false, false, true, true), TURTLE_STRING)) == Some(EncodeAll([12]))
  {
    hide Escaped, Undone, EncodeAll, AllUnderstood;
    var m := Mode(34, Flags(false, false, true, true), TURTLE_STRING);
    OnlyRefused([11], 34);
    TurtleKnows([11], m);
    WrittenIsRead([11], m);
    assert AllRetold([11], m) == [12];
  }

  /** IRIs: only printable bytes are written bare and none of those an IRI may not hold, and the numeric
      escapes recover the text exactly if it holds no backslash, which is written as two. */
  lemma IrisRecover(cs: seq<nat>, delim: Char, f: Flags)
    requires Text(cs) && AllWritten(cs, delim) && f.sparqlUri && delim != 34 && delim != 39
    ensures Undone(Escaped(EncodeAll(cs), delim, f).0, Mode(delim, f, TURTLE_IRI)) == if 92 in cs then None else Some(EncodeAll(cs))
  {
    hide Escaped, Undone, EncodeAll, AllRetold, Output, Written;
    var m := Mode(delim, f, TURTLE_IRI);
    WrittenIsRead(cs, m);
    NothingRetold(cs, m);
    if 92 in cs {
      var i :| 0 <= i < |cs| && cs[i] == 92;
      BackslashIs(m);
      assert !Understood(cs[i], m);
    } else {
      forall i | 0 <= i < |cs| ensures Understood(cs[i], m) {
        assert cs[i] in cs;
        if |Output(cs[i], m)| >= 2 && Output(cs[i], m)[0] == SLASH {
          EscapeIs(cs[i], m);
        }
      }
    }
  }

  /** JSON strings: the escapes of JSON (section 7 of RFC 8259) recover the text exactly if all of it lies in
      the first plane, since beyond it the library writes an escape that JSON does not have. */
  lemma JsonRecovers(cs: seq<nat>)
    requires Text(cs) && AllWritten(cs, 34)
    ensures Undone(Escaped(EncodeAll(cs), 34, NTRIPLES_LITERAL).0, Mode(34, NTRIPLES_LITERAL, JSON_STRING))
         == if forall i :: 0 <= i < |cs| ==> cs[i] < 0x1_0000 then Some(EncodeAll(cs)) else None
  {
    hide Escaped, Undone, EncodeAll, AllRetold, Output, Written;
    var m := Mode(34, NTRIPLES_LITERAL, JSON_STRING);
    WrittenIsRead(cs, m);
    NothingRetold(cs, m);
    if i :| 0 <= i < |cs| && cs[i] >= 0x1_0000 {
      WideIs(cs[i], m);
      assert !Understood(cs[i], m);
    } else {
      forall i | 0 <= i < |cs| ensures Understood(cs[i], m) {
        if |Output(cs[i], m)| >= 2 && Output(cs[i], m)[0] == SLASH {
          EscapeIs(cs[i], m);
        }
      }
    }
  }
}
