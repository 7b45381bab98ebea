/** The escaping writer of raptor (win32/raptor2/src/raptor_escaped.c), the UTF-8 reader under it
    (win32/raptor2/src/raptor_unicode.c), UTF-8 as section 3 of RFC 3629 defines it, and the string
    escapes of section 3.2 of the W3C RDF Test Cases. */
module Escape {
  import opened Bytes
  import opened Container
  import opened Options

  const QUOTE: byte := 34
  const APOSTROPHE: byte := 39
  const BACKSLASH: byte := 92
  const MAX_CODEPOINT := 0x10FFFF

  /** Something read off the start of a string, and how many bytes it took. */
  datatype Taken<T> = Taken(what: T, size: nat)

  // ---------- UTF-8 ----------

  /** A character of a text without NUL: a scalar value. */
  predicate Scalar(c: nat) {
    0 < c <= MAX_CODEPOINT && !(0xD800 <= c <= 0xDFFF)
  }

  function Encode(c: nat): (s: seq<byte>)
    requires Scalar(c)
    ensures s != [] && s[0] != 0
  {
    if c < 0x80 then [c]
    else if c < 0x800 then [0xC0 + c / 0x40, 0x80 + c % 0x40]
    else if c < 0x1_0000 then [0xE0 + c / 0x1000, 0x80 + c / 0x40 % 0x40, 0x80 + c % 0x40]
    else [0xF0 + c / 0x4_0000, 0x80 + c / 0x1000 % 0x40, 0x80 + c / 0x40 % 0x40, 0x80 + c % 0x40]
  }

  /** The examples of section 7 of RFC 3629. */
  lemma EncodeExamples()
    ensures Encode(0x41) == [0x41] && Encode(0x391) == [0xCE, 0x91] && Encode(0x2262) == [0xE2, 0x89, 0xA2]
    ensures Encode(0xD55C) == [0xED, 0x95, 0x9C] && Encode(0x65E5) == [0xE6, 0x97, 0xA5] && Encode(0x233B4) == [0xF0, 0xA3, 0x8E, 0xB4]
  {
  }

  predicate Text(cs: seq<nat>) {
    forall i :: 0 <= i < |cs| ==> Scalar(cs[i])
  }

  function EncodeAll(cs: seq<nat>): seq<byte>
    requires Text(cs)
  {
    if cs == [] then [] else Encode(cs[0]) + EncodeAll(cs[1..])
  }

  /** The length the first byte of a character announces, and its share of the value. */
  function Lead(b: byte): Option<Taken<nat>> {
    if b < 0x80 then Some(Taken(b, 1))
    else if 0xC0 <= b < 0xE0 then Some(Taken(b % 0x20, 2))
    else if 0xE0 <= b < 0xF0 then Some(Taken(b % 0x10, 3))
    else if 0xF0 <= b < 0xF8 then Some(Taken(b % 0x08, 4))
    else if 0xF8 <= b < 0xFC then Some(Taken(b % 0x04, 5))
    else if 0xFC <= b < 0xFE then Some(Taken(b % 0x02, 6))
    else None
  }

  /** The low six bits of the bytes from `i` up to `n`, below the value so far. */
  function Fold(s: seq<byte>, i: nat, n: nat, c: nat): nat
    requires n <= |s|
    decreases n - i
  {
    if i >= n then c else Fold(s, i + 1, n, c * 0x40 + s[i] % 0x40)
  }

  /** raptor_unicode_utf8_string_get_char: the character at the start of `s` and how many bytes it
      takes.  It refuses the last two code points of the first plane. */
  function GetChar(s: seq<byte>): (r: Option<Taken<nat>>)
    ensures r.Some? ==> 0 < r.value.size <= |s| && r.value.what <= MAX_CODEPOINT
  {
    if s == [] then None
    else
      match Lead(s[0])
      case None => None
      case Some(Taken(high, size)) =>
        if |s| < size then None
        else
          var c := Fold(s, 1, size, high);
          if (size == 2 && c < 0x80) || (size == 3 && c < 0x800) || (size == 4 && c < 0x1_0000) then None
          else if c == 0xFFFE || c == 0xFFFF || c > MAX_CODEPOINT then None
          else Some(Taken(c, size))
  }

  lemma Low6(x: nat)
    requires x < 0x40
    ensures (0x80 + x) % 0x40 == x
  {
  }

  lemma Leads(x: nat)
    ensures x < 0x20 ==> Lead(0xC0 + x) == Some(Taken(x, 2))
    ensures x < 0x10 ==> Lead(0xE0 + x) == Some(Taken(x, 3))
    ensures x < 0x08 ==> Lead(0xF0 + x) == Some(Taken(x, 4))
  {
  }

  lemma Get2(c: nat, s: seq<byte>)
    requires 0x80 <= c < 0x800 && |s| >= 2 && s[0] == 0xC0 + c / 0x40 && s[1] == 0x80 + c % 0x40
    ensures GetChar(s) == Some(Taken(c, 2))
  {
    hide Lead;
    Leads(c / 0x40);
    Low6(c % 0x40);
    assert Fold(s, 1, 2, c / 0x40) == Fold(s, 2, 2, c);
  }

  /** The digits of a value to the base 64. */
  lemma Digits(c: nat)
    ensures c / 0x4_0000 * 0x40 + c / 0x1000 % 0x40 == c / 0x1000
    ensures c / 0x1000 * 0x40 + c / 0x40 % 0x40 == c / 0x40 && c / 0x40 * 0x40 + c % 0x40 == c
  {
  }

  lemma Get3(c: nat, s: seq<byte>)
    requires 0x800 <= c < 0x1_0000 && |s| >= 3
    requires s[0] == 0xE0 + c / 0x1000 && s[1] == 0x80 + c / 0x40 % 0x40 && s[2] == 0x80 + c % 0x40
    ensures GetChar(s) == if c == 0xFFFE || c == 0xFFFF then None else Some(Taken(c, 3))
  {
    hide Lead;
    Leads(c / 0x1000);
    Digits(c);
    Low6(c / 0x40 % 0x40);
    Low6(c % 0x40);
    assert Fold(s, 1, 3, c / 0x1000) == Fold(s, 2, 3, c / 0x40) == Fold(s, 3, 3, c);
  }

  lemma Fold4(s: seq<byte>, a: nat, b: nat, c: nat, d: nat)
    requires |s| >= 4 && b == a * 0x40 + s[1] % 0x40 && c == b * 0x40 + s[2] % 0x40 && d == c * 0x40 + s[3] % 0x40
    ensures Fold(s, 1, 4, a) == d
  {
    assert Fold(s, 1, 4, a) == Fold(s, 2, 4, b) == Fold(s, 3, 4, c) == Fold(s, 4, 4, d);
  }

  lemma Get4(c: nat, s: seq<byte>)
    requires 0x1_0000 <= c <= MAX_CODEPOINT && |s| >= 4
    requires s[0] == 0xF0 + c / 0x4_0000 && s[1] == 0x80 + c / 0x1000 % 0x40 && s[2] == 0x80 + c / 0x40 % 0x40 && s[3] == 0x80 + c % 0x40
    ensures GetChar(s) == Some(Taken(c, 4))
  {
    hide Lead, Fold;
    Leads(c / 0x4_0000);
    Digits(c);
    Low6(c / 0x1000 % 0x40);
    Low6(c / 0x40 % 0x40);
    Low6(c % 0x40);
    Fold4(s, c / 0x4_0000, c / 0x1000, c / 0x40, c);
  }

  /** The reader inverts the encoding but for those two code points. */
  lemma GetEncoded(c: nat, rest: seq<byte>)
    requires Scalar(c)
    ensures GetChar(Encode(c) + rest) == if c == 0xFFFE || c == 0xFFFF then None else Some(Taken(c, |Encode(c)|))
  {
    hide Fold;
    var s := Encode(c) + rest;
    if c < 0x80 {
      OneByte(c, s);
    } else if c < 0x800 {
      Get2(c, s);
    } else if c < 0x1_0000 {
      Get3(c, s);
    } else {
      Get4(c, s);
    }
  }

  lemma OneByte(c: nat, s: seq<byte>)
    requires c < 0x80 && s != [] && s[0] == c
    ensures GetChar(s) == Some(Taken(c, 1))
  {
  }

  lemma FoldBound(s: seq<byte>, n: nat, c: nat, top: nat)
    requires 1 <= n <= |s| && n <= 4 && c < top
    ensures Fold(s, 1, n, c) < top * (if n == 1 then 1 else if n == 2 then 0x40 else if n == 3 then 0x1000 else 0x4_0000)
  {
    if n == 2 {
      assert Fold(s, 1, 2, c) == c * 0x40 + s[1] % 0x40;
    } else if n == 3 {
      assert Fold(s, 1, 3, c) == (c * 0x40 + s[1] % 0x40) * 0x40 + s[2] % 0x40;
    } else if n == 4 {
      assert Fold(s, 1, 4, c) == ((c * 0x40 + s[1] % 0x40) * 0x40 + s[2] % 0x40) * 0x40 + s[3] % 0x40;
    }
  }

  /** Of the forms up to four bytes it accepts only the shortest for a value. */
  lemma NotOverlong(s: seq<byte>)
    requires GetChar(s).Some? && GetChar(s).value.size <= 4
    ensures var Taken(c, n) := GetChar(s).value; n == if c < 0x80 then 1 else if c < 0x800 then 2 else if c < 0x1_0000 then 3 else 4
  {
    hide Fold;
    var Taken(high, size) := Lead(s[0]).value;
    FoldBound(s, size, high, if size == 1 then 0x80 else if size == 2 then 0x20 else if size == 3 then 0x10 else 0x08);
    if size == 1 {
      OneByte(s[0], s);
    }
  }

  lemma LaxFolds()
    ensures Fold([0xC3, 0x41], 1, 2, 3) == 0xC1 && Fold([0xED, 0xA0, 0x80], 1, 3, 0xD) == 0xD800 && Fold([0xF8, 0x80, 0x80, 0x80, 0x80], 1, 5, 0) == 0
  {
    var s: seq<byte> := [0xED, 0xA0, 0x80];
    var t: seq<byte> := [0xF8, 0x80, 0x80, 0x80, 0x80];
    assert Fold(s, 1, 3, 0xD) == Fold(s, 2, 3, 0x360) == Fold(s, 3, 3, 0xD800);
    assert Fold(t, 3, 5, 0) == Fold(t, 4, 5, 0) == Fold(t, 5, 5, 0);
    assert Fold(t, 1, 5, 0) == Fold(t, 2, 5, 0) == Fold(t, 3, 5, 0);
  }

  /** But it does not look at the marks of the bytes behind the first, accepts surrogates, and five bytes for NUL. */
  lemma LaxReader()
    ensures GetChar([0xC3, 0x41]) == Some(Taken(0xC1, 2))
    ensures GetChar([0xED, 0xA0, 0x80]) == Some(Taken(0xD800, 3))
    ensures GetChar([0xF8, 0x80, 0x80, 0x80, 0x80]) == Some(Taken(0, 5))
  {
    hide Fold;
    LaxFolds();
  }

  // ---------- hexadecimal ----------

  function HexDigit(d: nat): byte
    requires d < 16
  {
    if d < 10 then 48 + d else 55 + d
  }

  /** raptor_iostream_hexadecimal_write. */
  function Hex(v: nat, width: nat): (s: seq<byte>)
    ensures |s| == width
  {
    if width == 0 then [] else Hex(v / 16, width - 1) + [HexDigit(v % 16)]
  }

  predicate IsHex(b: byte) {
    48 <= b <= 57 || 65 <= b <= 70
  }

  function HexValue(s: seq<byte>): Option<nat> {
    if s == [] then Some(0)
    else
      var b := s[|s| - 1];
      match HexValue(s[..|s| - 1])
      case None => None
      case Some(v) => if IsHex(b) then Some(16 * v + if b <= 57 then b - 48 else b - 55) else None
  }

  function Pow16(k: nat): nat {
    if k == 0 then 1 else 16 * Pow16(k - 1)
  }

  lemma {:induction false} HexRoundTrip(v: nat, width: nat)
    requires v < Pow16(width)
    ensures HexValue(Hex(v, width)) == Some(v) && forall i :: 0 <= i < width ==> IsHex(Hex(v, width)[i])
  {
    if width > 0 {
      HexRoundTrip(v / 16, width - 1);
      assert Hex(v, width)[..width - 1] == Hex(v / 16, width - 1);
    }
  }

  // ---------- the writer ----------

  datatype Flags = Flags(sparqlUri: bool, tnru: bool, bf: bool, utf8: bool)

  const NTRIPLES_LITERAL := Flags(false, true, true, false)

  function U4(c: nat): seq<byte> {
    [BACKSLASH, 117] + Hex(c, 4)
  }

  function U8(c: nat): seq<byte> {
    [BACKSLASH, 85] + Hex(c, 8)
  }

  /** The character at the start of `s`, when none of the special cases takes it. */
  function WriteChar(s: seq<byte>, utf8: bool): (r: Option<Taken<seq<byte>>>)
    requires s != []
    ensures r.Some? ==> 0 < r.value.size <= |s|
  {
    match GetChar(s)
    case None => None
    case Some(Taken(c, n)) => Some(Taken(if utf8 then s[..n] else if c < 0x1_0000 then U4(c) else U8(c), n))
  }

  /** A `char` of C: below 128, or from there on as a negative number where it is signed. */
  type Char = c: int | -128 <= c < 256

  /** One pass of the loop: what is written and how many bytes it takes from the string. */
  function Step(s: seq<byte>, delim: Char, f: Flags): (r: Option<Taken<seq<byte>>>)
    requires s != []
    ensures r.Some? ==> 0 < r.value.size <= |s|
  {
    var c := s[0];
    if (c == delim && (delim == APOSTROPHE || delim == QUOTE)) || c == BACKSLASH then Some(Taken([BACKSLASH, c], 1))
    else if delim != 0 && c == delim then Some(Taken(U4(c), 1))
    else if f.sparqlUri && (c <= 0x20 || c == 60 || c == 62 || c == BACKSLASH || c == QUOTE || 123 <= c <= 125 || c == 94 || c == 96) then Some(Taken(U4(c), 1))
    else if f.sparqlUri && c < 0x7f then Some(Taken([c], 1))
    else if f.tnru && c == 0x09 then Some(Taken([BACKSLASH, 116], 1))
    else if f.tnru && c == 0x0a then Some(Taken([BACKSLASH, 110], 1))
    else if f.tnru && c == 0x0d then Some(Taken([BACKSLASH, 114], 1))
    else if f.tnru && (c < 0x20 || c == 0x7f) then Some(Taken(U4(c), 1))
    else if f.bf && c == 0x08 then Some(Taken([BACKSLASH, 98], 1))
    else if f.bf && c == 0x0b then Some(Taken([BACKSLASH, 102], 1))
    else if c < 0x7f then Some(Taken([c], 1))
    else WriteChar(s, f.utf8)
  }

  /** All that is written up to the NUL or the end, and whether the string could be read to there. */
  function Escaped(s: seq<byte>, delim: Char, f: Flags): (seq<byte>, bool) {
    if s == [] || s[0] == 0 then ([], true)
    else
      match Step(s, delim, f)
      case None => ([], false)
      case Some(Taken(out, n)) =>
        var (rest, ok) := Escaped(s[n..], delim, f);
        (out + rest, ok)
  }

  /** A negative delimiter equals no byte, so it is as good as none. */
  lemma {:induction false} NegativeDelimiter(s: seq<byte>, delim: Char, f: Flags)
    requires delim < 0
    ensures Escaped(s, delim, f) == Escaped(s, 0, f)
    decreases |s|
  {
    hide Step;
    if s != [] && s[0] != 0 {
      NoDelimiter(s, delim, f);
      match Step(s, 0, f)
      case None =>
      case Some(Taken(_, n)) => NegativeDelimiter(s[n..], delim, f);
    }
  }

  lemma NoDelimiter(s: seq<byte>, delim: Char, f: Flags)
    requires delim < 0 && s != []
    ensures Step(s, delim, f) == Step(s, 0, f)
  {
    hide WriteChar;
  }

  class Stream {
    var written: seq<byte>

    constructor ()
      ensures written == []
    {
      written := [];
    }

    method Write(s: seq<byte>)
      modifies this
      ensures written == old(written) + s
    {
      written := written + s;
    }
  }

  /** raptor_string_escaped_write. */
  method EscapedWrite(s: seq<byte>, delim: Char, f: Flags, iostr: Stream) returns (ok: bool)
    modifies iostr
    ensures (iostr.written, ok) == (old(iostr.written) + Escaped(s, delim, f).0, Escaped(s, delim, f).1)
  {
    hide Step;
    var i: nat := 0;
    assert s[0..] == s;
    while i < |s| && s[i] != 0
      invariant i <= |s|
      invariant var rest := Escaped(s[i..], delim, f);
                (iostr.written + rest.0, rest.1) == (old(iostr.written) + Escaped(s, delim, f).0, Escaped(s, delim, f).1)
    {
      var step := Step(s[i..], delim, f);
      if step == None {
        assert iostr.written + [] == iostr.written;
        return false;
      }
      var Taken(out, n) := step.value;
      assert s[i..][n..] == s[i + n..];
      ghost var rest := Escaped(s[i + n..], delim, f);
      assert iostr.written + (out + rest.0) == (iostr.written + out) + rest.0;
      iostr.Write(out);
      i := i + n;
    }
    assert iostr.written + [] == iostr.written;
    return true;
  }

  // ---------- reading N-Triples strings ----------

  /** The characters an N-Triples string stands for; a bare quote or a byte outside printable ASCII
      is no part of one. */
  function Unescaped(s: seq<byte>): Option<seq<nat>> {
    if s == [] then Some([])
    else
      match First(s)
      case None => None
      case Some(Taken(c, n)) =>
        match Unescaped(s[n..])
        case None => None
        case Some(cs) => Some([c] + cs)
  }

  function First(s: seq<byte>): (r: Option<Taken<nat>>)
    requires s != []
    ensures r.Some? ==> 0 < r.value.size <= |s|
  {
    if s[0] == BACKSLASH then
      if |s| < 2 then None
      else if s[1] == 116 then Some(Taken(9, 2))
      else if s[1] == 110 then Some(Taken(10, 2))
      else if s[1] == 114 then Some(Taken(13, 2))
      else if s[1] == QUOTE || s[1] == BACKSLASH then Some(Taken(s[1], 2))
      else if s[1] == 117 && |s| >= 6 && HexValue(s[2..6]).Some? then Some(Taken(HexValue(s[2..6]).value, 6))
      else if s[1] == 85 && |s| >= 10 && HexValue(s[2..10]).Some? then Some(Taken(HexValue(s[2..10]).value, 10))
      else None
    else if s[0] == QUOTE || s[0] < 0x20 || s[0] > 0x7e then None
    else Some(Taken(s[0], 1))
  }

  /** The two code points the reader refuses. */
  predicate Refused(c: nat) {
    c == 0xFFFE || c == 0xFFFF
  }

  /** What one character is written as in an N-Triples literal. */
  function EscapedChar(c: nat): seq<byte> {
    if c == QUOTE || c == BACKSLASH then [BACKSLASH, c]
    else if c == 9 then [BACKSLASH, 116]
    else if c == 10 then [BACKSLASH, 110]
    else if c == 13 then [BACKSLASH, 114]
    else if 0x20 <= c < 0x7f then [c]
    else if c < 0x1_0000 then U4(c)
    else U8(c)
  }

  lemma StepEncoded(c: nat, rest: seq<byte>)
    requires Scalar(c)
    ensures Encode(c) + rest != []
    ensures Step(Encode(c) + rest, QUOTE, NTRIPLES_LITERAL) == if Refused(c) then None else Some(Taken(EscapedChar(c), |Encode(c)|))
  {
    hide GetChar, Hex;
    GetEncoded(c, rest);
  }

  lemma Pow16s()
    ensures Pow16(4) == 0x1_0000 && Pow16(8) == 0x1_0000_0000
  {
    assert Pow16(4) == 16 * Pow16(3) == 256 * Pow16(2);
    assert Pow16(6) == 256 * Pow16(4) && Pow16(8) == 256 * Pow16(6);
  }

  /** What is written of a character reads back as it. */
  lemma FirstEscaped(c: nat, rest: seq<byte>)
    requires Scalar(c)
    ensures EscapedChar(c) != [] && First(EscapedChar(c) + rest) == Some(Taken(c, |EscapedChar(c)|))
    ensures forall i :: 0 <= i < |EscapedChar(c)| ==> 0x20 <= EscapedChar(c)[i] <= 0x7e
  {
    hide Hex, HexValue, Encode;
    var s := EscapedChar(c) + rest;
    Pow16s();
    if c < 0x1_0000 {
      HexRoundTrip(c, 4);
      assert |EscapedChar(c)| == 6 ==> s[2..6] == Hex(c, 4);
    } else {
      HexRoundTrip(c, 8);
      assert s[2..10] == Hex(c, 8);
    }
  }

  /** Printable ASCII. */
  predicate Printable(s: seq<byte>) {
    forall i :: 0 <= i < |s| ==> 0x20 <= s[i] <= 0x7e
  }

  /** A text escapes exactly when it holds neither of the two refused code points; then only printable
      ASCII is written, and the escapes of N-Triples recover the text. */
  lemma {:induction false} EscapeRoundTrip(cs: seq<nat>)
    requires Text(cs)
    ensures var (out, ok) := Escaped(EncodeAll(cs), QUOTE, NTRIPLES_LITERAL);
            && (ok <==> forall i :: 0 <= i < |cs| ==> !Refused(cs[i]))
            && Printable(out) && (ok ==> Unescaped(out) == Some(cs))
  {
    hide Step, First, EscapedChar, Encode, GetChar, Scalar;
    if cs != [] {
      var c, rest := cs[0], EncodeAll(cs[1..]);
      StepEncoded(c, rest);
      if !Refused(c) {
        FirstEscaped(c, Escaped(rest, QUOTE, NTRIPLES_LITERAL).0);
        assert (Encode(c) + rest)[|Encode(c)|..] == rest;
        var (out, ok) := Escaped(rest, QUOTE, NTRIPLES_LITERAL);
        assert (EscapedChar(c) + out)[|EscapedChar(c)|..] == out;
        EscapeRoundTrip(cs[1..]);
        assert [c] + cs[1..] == cs;
        assert forall i :: 1 <= i < |cs| ==> cs[i] == cs[1..][i - 1];
      }
    }
  }

  /** A text the writer gives up on, though its encoding is valid. */
  lemma RefusedText()
    ensures Text([0xFFFE]) && !Escaped(EncodeAll([0xFFFE]), QUOTE, NTRIPLES_LITERAL).1
  {
    hide Escaped, EncodeAll, Unescaped;
    EscapeRoundTrip([0xFFFE]);
    assert [0xFFFE][0] == 0xFFFE;
  }

  /** So escaping is injective on the texts it accepts. */
  lemma EscapeInjective(a: seq<nat>, b: seq<nat>)
    requires Text(a) && Text(b)
    requires Escaped(EncodeAll(a), QUOTE, NTRIPLES_LITERAL) == Escaped(EncodeAll(b), QUOTE, NTRIPLES_LITERAL)
    requires Escaped(EncodeAll(a), QUOTE, NTRIPLES_LITERAL).1
    ensures a == b
  {
    hide Escaped, EncodeAll, Unescaped;
    EscapeRoundTrip(a);
    EscapeRoundTrip(b);
  }
}
