/** Reading back what was written: the entries, the comment, and where the reader goes wrong. */
module ZipRoundTrip {
  import opened Bytes
  import opened Container
  import opened ZipReader
  import opened ZipWriter

  // ---------- fields of written records ----------

  lemma HasPart(file: seq<byte>, p: nat, a: seq<byte>, b: seq<byte>, q: nat)
    requires HasAt(file, p, a + b) && q == p + |a|
    ensures HasAt(file, p, a) && HasAt(file, q, b)
  {
    var s := a + b;
    SliceSlice(file, p, p + |s|, 0, |a|);
    SliceSlice(file, p, p + |s|, |a|, |s|);
    assert s[..|a|] == a && s[|a|..] == b;
    assert s[0..|a|] == s[..|a|] && s[|a|..|s|] == s[|a|..];
  }

  lemma HasAll(file: seq<byte>)
    ensures HasAt(file, 0, file)
  {
  }

  /** A piece of a record that is the little-endian form of `v` reads back as `v`. */
  lemma FieldIs(s: seq<byte>, at: nat, k: nat, v: nat)
    requires at + k <= |s| && s[at..at + k] == LeBytes(v, k) && (k == 2 || k == 4 || k == 8)
    requires v < if k == 2 then 0x1_0000 else if k == 4 then U32 else U64
    ensures Field(s, at, k) == v
  {
    Widths();
    LeRoundTrip(v, k);
  }

  lemma LocalData(file: seq<byte>, h: nat, m: Member)
    requires |m.localHead| == 22 && HasAt(file, h, Local(m))
    ensures HasAt(file, h + LOCAL_SIZE + |m.name| + |m.localExtra|, m.data)
  {
    hide LeBytes, HasAt;
    var head := LeBytes(LOCAL_MAGIC, 4) + m.localHead + LeBytes(|m.name|, 2) + LeBytes(|m.localExtra|, 2);
    HasPart(file, h, head, m.name + m.localExtra + m.data + m.trailer, h + LOCAL_SIZE);
    HasPart(file, h + LOCAL_SIZE, m.name + m.localExtra + m.data, m.trailer, h + LOCAL_SIZE + |m.name + m.localExtra + m.data|);
    HasPart(file, h + LOCAL_SIZE, m.name + m.localExtra, m.data, h + LOCAL_SIZE + |m.name| + |m.localExtra|);
  }

  lemma ByteFirst(a: byte, rest: nat, k: nat)
    ensures LeBytes(a + 256 * rest, k + 1) == [a] + LeBytes(rest, k)
  {
    assert (a + 256 * rest) % 256 == a && (a + 256 * rest) / 256 == rest;
  }

  lemma FourBytes(v: nat, a: byte, b: byte, c: byte, d: byte)
    requires v == a + 256 * (b + 256 * (c + 256 * (d as int)))
    ensures LeBytes(v, 4) == [a, b, c, d]
  {
    hide LeBytes;
    var y: nat := c + 256 * (d as int);
    var x: nat := b + 256 * y;
    ByteFirst(a, x, 3);
    ByteFirst(b, y, 2);
    ByteFirst(c, d, 1);
    ByteFirst(d, 0, 0);
    NoBytes();
    assert d + 256 * 0 == d;
  }

  lemma NoBytes()
    ensures LeBytes(0, 0) == []
  {
  }

  /** The signatures, byte by byte. */
  lemma Signatures()
    ensures LeBytes(LOCAL_MAGIC, 4) == [0x50, 0x4b, 3, 4] && LeBytes(CD_MAGIC, 4) == [0x50, 0x4b, 1, 2]
    ensures LeBytes(END_MAGIC, 4) == [0x50, 0x4b, 5, 6] && LeBytes(END64_MAGIC, 4) == [0x50, 0x4b, 6, 6] && LeBytes(LOCATOR_MAGIC, 4) == [0x50, 0x4b, 6, 7]
  {
    FourBytes(LOCAL_MAGIC, 0x50, 0x4b, 3, 4);
    FourBytes(CD_MAGIC, 0x50, 0x4b, 1, 2);
    FourBytes(END_MAGIC, 0x50, 0x4b, 5, 6);
    FourBytes(END64_MAGIC, 0x50, 0x4b, 6, 6);
    FourBytes(LOCATOR_MAGIC, 0x50, 0x4b, 6, 7);
  }

  lemma LocalFields(m: Member)
    requires |m.localHead| == 22 && |m.name| < 0x1_0000 && |m.localExtra| < 0x1_0000
    ensures var s := Local(m);
            && |s| >= LOCAL_SIZE && Field(s, 0, 4) == LOCAL_MAGIC && Field(s, 26, 2) == |m.name| && Field(s, 28, 2) == |m.localExtra|
            && |s| == LOCAL_SIZE + |m.name| + |m.localExtra| + |m.data| + |m.trailer|
            && HasAt(s, LOCAL_SIZE + |m.name| + |m.localExtra|, m.data)
  {
    hide LeBytes, Le;
    var s := Local(m);
    assert s[0..4] == LeBytes(LOCAL_MAGIC, 4) && s[26..28] == LeBytes(|m.name|, 2) && s[28..30] == LeBytes(|m.localExtra|, 2);
    FieldIs(s, 0, 4, LOCAL_MAGIC);
    FieldIs(s, 26, 2, |m.name|);
    FieldIs(s, 28, 2, |m.localExtra|);
    HasAll(s);
    LocalData(s, 0, m);
  }

  lemma CdHeaderFields(m: Member)
    requires Writable(m)
    ensures var s := CdHeader(m);
            && |s| == CD_SIZE && Field(s, 0, 4) == CD_MAGIC && Field(s, 10, 2) == m.method_
            && Field(s, 20, 4) == Narrow(m.wideCsize, |m.data|) && Field(s, 24, 4) == Narrow(m.wideSize, m.size)
            && Field(s, 28, 2) == |m.name| && Field(s, 30, 2) == |ExtraBytes(Extras(m))| && Field(s, 32, 2) == |m.comment|
            && Field(s, 42, 4) == Narrow(m.wideHeader, m.header)
  {
    hide LeBytes, Le, ExtraBytes, Extras, PlainExtras;
    var s := CdHeader(m);
    assert s[0..4] == LeBytes(CD_MAGIC, 4) && s[10..12] == LeBytes(m.method_, 2);
    assert s[20..24] == LeBytes(Narrow(m.wideCsize, |m.data|), 4) && s[24..28] == LeBytes(Narrow(m.wideSize, m.size), 4);
    assert s[28..30] == LeBytes(|m.name|, 2) && s[30..32] == LeBytes(|ExtraBytes(Extras(m))|, 2) && s[32..34] == LeBytes(|m.comment|, 2);
    assert s[42..46] == LeBytes(Narrow(m.wideHeader, m.header), 4);
    FieldIs(s, 0, 4, CD_MAGIC);
    FieldIs(s, 10, 2, m.method_);
    FieldIs(s, 20, 4, Narrow(m.wideCsize, |m.data|));
    FieldIs(s, 24, 4, Narrow(m.wideSize, m.size));
    FieldIs(s, 28, 2, |m.name|);
    FieldIs(s, 30, 2, |ExtraBytes(Extras(m))|);
    FieldIs(s, 32, 2, |m.comment|);
    FieldIs(s, 42, 4, Narrow(m.wideHeader, m.header));
  }

  lemma End64Fields(n: nat, size: nat, offset: nat, versions: seq<byte>)
    requires n < U64 && size < U64 && offset < U64 && |versions| == 20
    ensures var s := End64(n, size, offset, versions);
            |s| == END64_SIZE && Field(s, 0, 4) == END64_MAGIC && Field(s, 24, 8) == n && Field(s, 40, 8) == size
  {
    hide LeBytes, Le;
    var s := End64(n, size, offset, versions);
    assert s[0..4] == LeBytes(END64_MAGIC, 4) && s[24..32] == LeBytes(n, 8) && s[40..48] == LeBytes(size, 8);
    FieldIs(s, 0, 4, END64_MAGIC);
    FieldIs(s, 24, 8, n);
    FieldIs(s, 40, 8, size);
  }

  lemma LocatorFields(end64: nat)
    ensures var s := Locator(end64);
            |s| == LOCATOR_SIZE && Field(s, 0, 4) == LOCATOR_MAGIC && Field(s, 4, 4) == 0 && Field(s, 16, 4) == 1
  {
    hide LeBytes, Le;
    var s := Locator(end64);
    assert s[0..4] == LeBytes(LOCATOR_MAGIC, 4) && s[4..8] == LeBytes(0, 4) && s[16..20] == LeBytes(1, 4);
    FieldIs(s, 0, 4, LOCATOR_MAGIC);
    FieldIs(s, 4, 4, 0);
    FieldIs(s, 16, 4, 1);
  }

  lemma EndFields(a: Archive, n: nat, size: nat, offset: nat)
    requires |a.disks| == 4 && |a.onDisk| == 2 && |a.comment| < 0x1_0000
    requires (!a.wideCount ==> n < 0xffff) && (!a.wideSize ==> size < SATURATED) && (!a.wideOffset ==> offset < SATURATED)
    ensures var s := EndRecord(a, n, size, offset);
            && |s| == END_SIZE && Field(s, 0, 4) == END_MAGIC && Field(s, 10, 2) == (if a.wideCount then 0xffff else n)
            && Field(s, 12, 4) == Narrow(a.wideSize, size) && Field(s, 16, 4) == Narrow(a.wideOffset, offset) && Field(s, 20, 2) == |a.comment|
  {
    hide LeBytes, Le;
    var s := EndRecord(a, n, size, offset);
    var count := if a.wideCount then 0xffff else n;
    assert s[0..4] == LeBytes(END_MAGIC, 4) && s[10..12] == LeBytes(count, 2) && s[12..16] == LeBytes(Narrow(a.wideSize, size), 4);
    assert s[16..20] == LeBytes(Narrow(a.wideOffset, offset), 4) && s[20..22] == LeBytes(|a.comment|, 2);
    FieldIs(s, 0, 4, END_MAGIC);
    FieldIs(s, 10, 2, count);
    FieldIs(s, 12, 4, Narrow(a.wideSize, size));
    FieldIs(s, 16, 4, Narrow(a.wideOffset, offset));
    FieldIs(s, 20, 2, |a.comment|);
  }

  // ---------- the extra-field walk ----------

  lemma {:induction false} ExtraBytesAppend(a: seq<Extra>, b: seq<Extra>)
    ensures ExtraBytes(a + b) == ExtraBytes(a) + ExtraBytes(b)
  {
    if a == [] {
      assert a + b == b;
    } else {
      assert (a + b)[1..] == a[1..] + b;
      ExtraBytesAppend(a[1..], b);
    }
  }

  /** One step of the walk, over the record `e`. */
  lemma WalkStep(file: seq<byte>, field: nat, extraLen: nat, h: nat, e: Extra, z: Sizes, next: nat)
    requires |file| < U64 - U32 && HasAt(file, field + h, ExtraRecord(e)) && e.id < 0x1_0000
    requires next == h + 4 + |e.data| && next <= extraLen < 0x1_0000
    ensures HasAt(file, field + h + 4, e.data)
    ensures WalkExtra(file, field, extraLen, h, z)
         == WalkExtra(file, field, extraLen, next, if e.id == 1 then Resolve(file, field + h + 4, |e.data|, z) else z)
  {
    hide LeBytes, Le, Resolve, Field, Wrap, Truncate, WalkExtra;
    var four := LeBytes(e.id, 2) + LeBytes(|e.data|, 2);
    HasPart(file, field + h, four, e.data, field + h + 4);
    var head := FileBytes(file, 4, field + h);
    assert head == four && head[0..2] == LeBytes(e.id, 2) && head[2..4] == LeBytes(|e.data|, 2);
    FieldIs(head, 0, 2, e.id);
    FieldIs(head, 2, 2, |e.data|);
    WalkGoesOn(file, field, extraLen, h, z, Cursor(next, if e.id == 1 then Resolve(file, field + h + 4, |e.data|, z) else z));
  }

  /** The walk passes every record that is not a Zip64 one. */
  lemma {:induction false} WalkPlain(file: seq<byte>, field: nat, extraLen: nat, h: nat, es: seq<Extra>, z: Sizes)
    requires |file| < U64 - U32 && PlainExtras(es)
    requires HasAt(file, field + h, ExtraBytes(es)) && h + |ExtraBytes(es)| <= extraLen < 0x1_0000
    ensures WalkExtra(file, field, extraLen, h, z) == WalkExtra(file, field, extraLen, h + |ExtraBytes(es)|, z)
    decreases |es|
  {
    hide HasAt, WalkExtra, ExtraRecord;
    if es != [] {
      var e := es[0];
      var next := h + 4 + |e.data|;
      assert next + |ExtraBytes(es[1..])| == h + |ExtraBytes(es)|;
      HasPart(file, field + h, ExtraRecord(e), ExtraBytes(es[1..]), field + next);
      WalkStep(file, field, extraLen, h, e, z, next);
      WalkPlain(file, field, extraLen, next, es[1..], z);
    }
  }

  lemma WalkDone(file: seq<byte>, field: nat, extraLen: nat, z: Sizes)
    requires |file| < U64 - U32
    ensures WalkExtra(file, field, extraLen, extraLen, z) == Walked(z)
  {
    WalkIs(file, field, extraLen, extraLen, z, 1);
  }

  lemma ReadOverIs(file: seq<byte>, at: nat, v: nat, old_: nat)
    requires |file| < U64 - U32 && HasAt(file, at, LeBytes(v, 8)) && v < U64
    ensures at < U64 && ReadOver(file, Wrap(at), old_) == v
  {
    Widths();
    LeRoundTrip(v, 8);
    var data := FileBytes(file, 8, at);
    assert data + LeBytes(old_, 8)[8..] == LeBytes(v, 8);
  }

  /** What the fixed part of the header leaves to resolve, and what the Zip64 field resolves it to. */
  function Before(m: Member, signed: bool): Sizes
    requires FieldFits(m.wideSize, m.size) && FieldFits(m.wideCsize, |m.data|)
  {
    Sizes(Widen(Narrow(m.wideSize, m.size), signed), Widen(Narrow(m.wideCsize, |m.data|), signed), Narrow(m.wideHeader, m.header))
  }

  function Resolved(m: Member, signed: bool): Sizes
    requires FieldFits(m.wideSize, m.size) && FieldFits(m.wideCsize, |m.data|)
  {
    Sizes(if m.wideSize then m.size else Widen(m.size, signed), if m.wideCsize then |m.data| else Widen(|m.data|, signed), m.header)
  }

  lemma MarkSaturates(wide: bool, v: nat, signed: bool)
    requires FieldFits(wide, v)
    ensures Saturated(Widen(Narrow(wide, v), signed)) == wide && Saturated(Narrow(wide, v)) == wide
  {
  }

  lemma ResolveIs(file: seq<byte>, at: nat, m: Member, signed: bool)
    requires Writable(m) && m.wideHeader && |file| < U64 - U32 && HasAt(file, at, Zip64Data(m))
    ensures Resolve(file, at, |Zip64Data(m)|, Before(m, signed)) == Resolved(m, signed)
  {
    hide LeBytes, ReadOver, Widen, Narrow, Saturated, ExtraBytes, Extras, PlainExtras;
    var a, b, c := Optional(m.wideSize, m.size), Optional(m.wideCsize, |m.data|), Optional(m.wideHeader, m.header);
    HasPart(file, at, a + b + c, m.disk, at + |a + b + c|);
    HasPart(file, at, a + b, c, at + |a + b|);
    HasPart(file, at, a, b, at + |a|);
    MarkSaturates(m.wideSize, m.size, signed);
    MarkSaturates(m.wideCsize, |m.data|, signed);
    MarkSaturates(m.wideHeader, m.header, signed);
    var z := Before(m, signed);
    if m.wideSize {
      ReadOverIs(file, at, m.size, z.size);
    }
    if m.wideCsize {
      ReadOverIs(file, at + |a|, |m.data|, z.csize);
    }
    NarrowIs(m.wideSize, m.size);
    NarrowIs(m.wideCsize, |m.data|);
    ReadOverIs(file, at + |a| + |b|, m.header, z.header);
  }

  lemma NarrowIs(wide: bool, v: nat)
    ensures !wide ==> Narrow(wide, v) == v
  {
  }

  /** The walk over an area with one Zip64 record resolves the fields from it, wherever it stands. */
  lemma WalkParts(file: seq<byte>, field: nat, n: nat, before: seq<Extra>, e: Extra, after: seq<Extra>, z: Sizes, p: nat)
    requires |file| < U64 - U32 && PlainExtras(before) && PlainExtras(after) && e.id == 1 && p == |ExtraBytes(before)|
    requires HasAt(file, field, ExtraBytes(before) + (ExtraRecord(e) + ExtraBytes(after)))
    requires n == p + 4 + |e.data| + |ExtraBytes(after)| && n < 0x1_0000
    ensures HasAt(file, field + p + 4, e.data)
    ensures WalkExtra(file, field, n, 0, z) == Walked(Resolve(file, field + p + 4, |e.data|, z))
  {
    hide PlainExtras, HasAt, ExtraBytes, ExtraRecord, WalkExtra, Resolve;
    var q := p + 4 + |e.data|;
    HasPart(file, field, ExtraBytes(before), ExtraRecord(e) + ExtraBytes(after), field + p);
    HasPart(file, field + p, ExtraRecord(e), ExtraBytes(after), field + q);
    WalkPlain(file, field, n, 0, before, z);
    WalkStep(file, field, n, p, e, z, q);
    var z' := Resolve(file, field + p + 4, |e.data|, z);
    WalkPlain(file, field, n, q, after, z');
    WalkDone(file, field, n, z');
  }

  lemma ExtraShape(m: Member)
    requires m.wideHeader
    ensures ExtraBytes(Extras(m)) == ExtraBytes(m.before) + (ExtraRecord(Extra(1, Zip64Data(m))) + ExtraBytes(m.after))
  {
    var e := Extra(1, Zip64Data(m));
    hide Zip64Data, ExtraRecord;
    ExtraBytesAppend(m.before, [e] + m.after);
    ExtraBytesAppend([e], m.after);
    assert m.before + ([e] + m.after) == Extras(m);
    assert ExtraBytes([e]) == ExtraRecord(e);
  }

  /** The whole walk resolves the saturated fields, past any other records. */
  lemma WalkResolves(file: seq<byte>, field: nat, m: Member, signed: bool)
    requires Writable(m) && m.wideHeader && |file| < U64 - U32 && HasAt(file, field, ExtraBytes(Extras(m)))
    ensures WalkExtra(file, field, |ExtraBytes(Extras(m))|, 0, Before(m, signed)) == Walked(Resolved(m, signed))
  {
    hide PlainExtras, HasAt, ExtraBytes, ExtraRecord, Extras, WalkExtra, Resolve, Zip64Data, Before, Resolved;
    var e := Extra(1, Zip64Data(m));
    var p := |ExtraBytes(m.before)|;
    ExtraShape(m);
    WalkParts(file, field, |ExtraBytes(Extras(m))|, m.before, e, m.after, Before(m, signed), p);
    ResolveIs(file, field + p + 4, m, signed);
  }

  // ---------- entries ----------

  function SeenSizes(m: Member, signed: bool): Sizes
    requires FieldFits(m.wideSize, m.size) && FieldFits(m.wideCsize, |m.data|)
  {
    if m.wideHeader then Resolved(m, signed) else Before(m, signed)
  }

  /** What the reader makes of a member. */
  function Seen(m: Member, signed: bool): ZipEntry
    requires FieldFits(m.wideSize, m.size) && FieldFits(m.wideCsize, |m.data|)
  {
    var z := SeenSizes(m, signed);
    ZipEntry(m.name, m.header, m.header + LOCAL_SIZE + |m.name| + |m.localExtra|, z.size, z.csize, m.method_)
  }

  /** The member as its writer means it. */
  function Meant(m: Member): ZipEntry {
    ZipEntry(m.name, m.header, m.header + LOCAL_SIZE + |m.name| + |m.localExtra|, m.size, |m.data|, m.method_)
  }

  /** Which sizes the reader gets right: a saturated one only if the header offset is saturated too,
      since only then does it open the Zip64 field; a plain one unless it is read as negative. */
  predicate SizeRight(m: Member, wide: bool, v: nat, signed: bool) {
    if wide then m.wideHeader || v == Widen(SATURATED, signed)
    else !signed || v < 0x8000_0000
  }

  lemma SeenIsMeant(m: Member, signed: bool)
    requires Writable(m)
    ensures Seen(m, signed) == Meant(m) <==> SizeRight(m, m.wideSize, m.size, signed) && SizeRight(m, m.wideCsize, |m.data|, signed)
  {
    hide ExtraBytes, Extras, PlainExtras;
  }

  lemma HasFields(file: seq<byte>, p: nat, s: seq<byte>)
    requires |file| < U64 - U32 && HasAt(file, p, s) && |s| < U32
    ensures p + |s| <= |file| && FileBytes(file, |s|, p) == s
  {
  }

  lemma LocatedIs(file: seq<byte>, m: Member, z: Sizes, size: nat)
    requires Writable(m) && |file| < U64 - U32 && HasAt(file, m.header, Local(m)) && z.header == m.header
    ensures Located(file, m.name, m.method_, z, size)
         == Got(ZipEntry(m.name, m.header, m.header + LOCAL_SIZE + |m.name| + |m.localExtra|, z.size, z.csize, m.method_), size)
  {
    LocalFields(m);
    var s := Local(m);
    hide Local, Field, Writable, Wrap, Truncate;
    var head := s[..LOCAL_SIZE];
    assert s == head + s[LOCAL_SIZE..];
    HasPart(file, m.header, head, s[LOCAL_SIZE..], m.header + LOCAL_SIZE);
    HasFields(file, m.header, head);
    FieldPrefix(s, LOCAL_SIZE, 0, 4);
    FieldPrefix(s, LOCAL_SIZE, 26, 2);
    FieldPrefix(s, LOCAL_SIZE, 28, 2);
  }

  lemma FieldPrefix(s: seq<byte>, n: nat, at: nat, k: nat)
    requires at + k <= n <= |s|
    ensures Field(s[..n], at, k) == Field(s, at, k)
  {
    assert s[..n][at..at + k] == s[at..at + k];
  }

  lemma NameIs(file: seq<byte>, p: nat, name: seq<byte>, junk: Memory)
    requires |file| < U64 - U32 && HasAt(file, p, name) && |name| < 0x1_0000
    ensures ReadName(file, Wrap(p), |name|, junk) == name
  {
    HasFields(file, p, name);
  }

  lemma FixedSizesIs(m: Member, signed: bool)
    requires Writable(m)
    ensures |CdHeader(m)| == CD_SIZE && FixedSizes(CdHeader(m), signed) == Before(m, signed)
  {
    CdHeaderFields(m);
    hide CdHeader, Field;
  }

  lemma RecordParts(file: seq<byte>, pos: nat, m: Member)
    requires Writable(m) && HasAt(file, pos, CdRecord(m))
    ensures HasAt(file, pos, CdHeader(m)) && |CdHeader(m)| == CD_SIZE
    ensures HasAt(file, pos + CD_SIZE, m.name) && HasAt(file, pos + CD_SIZE + |m.name|, ExtraBytes(Extras(m)))
    ensures |CdRecord(m)| == CD_SIZE + |m.name| + |ExtraBytes(Extras(m))| + |m.comment|
  {
    CdHeaderFields(m);
    var a, b, c := CdHeader(m), m.name, ExtraBytes(Extras(m));
    assert CdRecord(m) == a + b + c + m.comment;
    hide CdHeader, ExtraBytes, Extras, HasAt, CdRecord, Writable, Field;
    HasPart(file, pos, a + b + c, m.comment, pos + |a + b + c|);
    HasPart(file, pos, a + b, c, pos + CD_SIZE + |m.name|);
    HasPart(file, pos, a, b, pos + CD_SIZE);
  }

  lemma ExtendedIs(file: seq<byte>, field: nat, m: Member, signed: bool)
    requires Writable(m) && |file| < U64 - U32 && HasAt(file, field, ExtraBytes(Extras(m)))
    ensures Extended(file, field, |ExtraBytes(Extras(m))|, Before(m, signed)) == Walked(SeenSizes(m, signed))
    ensures SeenSizes(m, signed).header == m.header
  {
    hide ExtraBytes, Extras, PlainExtras, WalkExtra, HasAt;
    MarkSaturates(m.wideHeader, m.header, signed);
    if m.wideHeader {
      WalkResolves(file, field, m, signed);
    }
  }

  lemma SeenUnfolds(m: Member, signed: bool)
    requires Writable(m)
    ensures FieldFits(m.wideSize, m.size) && FieldFits(m.wideCsize, |m.data|) && |m.localHead| == 22 && |m.name| < 0x1_0000 && |m.localExtra| < 0x1_0000
    ensures var z := SeenSizes(m, signed);
            Seen(m, signed) == ZipEntry(m.name, m.header, m.header + LOCAL_SIZE + |m.name| + |m.localExtra|, z.size, z.csize, m.method_)
  {
  }

  lemma RestUnfolds(file: seq<byte>, pos: nat, head: seq<byte>, signed: bool, junk: Memory, name: seq<byte>, field: nat, extraLen: nat, z: Sizes, size: nat)
    requires |file| < U64 - U32 && |head| == CD_SIZE && |name| < 0x1_0000
    requires Field(head, 28, 2) == |name| && Field(head, 30, 2) == extraLen
    requires ReadName(file, Wrap(pos + CD_SIZE), |name|, junk) == name
    requires field == pos + CD_SIZE + |name| && Extended(file, field, extraLen, FixedSizes(head, signed)) == Walked(z)
    requires size == CD_SIZE + |name| + extraLen + Field(head, 32, 2)
    ensures ParseRest(file, pos, head, signed, junk) == Located(file, name, Field(head, 10, 2), z, size)
  {
    hide Located, ReadName, Extended, FixedSizes, Wrap, Field;
  }

  lemma RestIs(file: seq<byte>, pos: nat, m: Member, signed: bool, junk: Memory)
    requires Writable(m) && |file| < U64 - U32 && HasAt(file, pos, CdRecord(m)) && |CdHeader(m)| == CD_SIZE
    ensures ParseRest(file, pos, CdHeader(m), signed, junk) == Located(file, m.name, m.method_, SeenSizes(m, signed), |CdRecord(m)|)
  {
    hide Writable, HasAt, CdHeader, ExtraBytes, Extras, CdRecord, Field, Local, Extended, Located, FixedSizes, ReadName, Wrap, Before, SeenSizes, Seen, PlainExtras, FileBytes, ParseRest, FieldFits;
    SeenUnfolds(m, signed);
    var z, head, extraLen, size := SeenSizes(m, signed), CdHeader(m), |ExtraBytes(Extras(m))|, |CdRecord(m)|;
    RecordParts(file, pos, m);
    var field := pos + CD_SIZE + |m.name|;
    ExtendedIs(file, field, m, signed);
    NameIs(file, pos + CD_SIZE, m.name, junk);
    CdHeaderFields(m);
    FixedSizesIs(m, signed);
    RestUnfolds(file, pos, head, signed, junk, m.name, field, extraLen, z, size);
  }

  /** A written directory record leads to the local record it names. */
  lemma EntryLocates(file: seq<byte>, pos: nat, m: Member, signed: bool, junk: Memory)
    requires Writable(m) && |file| < U64 - U32 && HasAt(file, pos, CdRecord(m))
    ensures FieldFits(m.wideSize, m.size) && FieldFits(m.wideCsize, |m.data|)
    ensures ParseEntry(file, pos, signed, junk) == Located(file, m.name, m.method_, SeenSizes(m, signed), |CdRecord(m)|)
    ensures SeenSizes(m, signed).header == m.header
  {
    CdHeaderFields(m);
    RecordParts(file, pos, m);
    SeenUnfolds(m, signed);
    hide HasAt, CdHeader, ExtraBytes, Extras, CdRecord, Field, Local, PlainExtras, FileBytes, Writable, FieldFits, ParseRest, Seen, SeenSizes, Located;
    HasFields(file, pos, CdHeader(m));
    assert FileBytes(file, CD_SIZE, pos) == CdHeader(m);
    RestIs(file, pos, m, signed, junk);
    SeenHeader(m, signed);
  }

  lemma SeenHeader(m: Member, signed: bool)
    requires FieldFits(m.wideSize, m.size) && FieldFits(m.wideCsize, |m.data|)
    ensures SeenSizes(m, signed).header == m.header
  {
  }

  /** A written record is read as it is seen. */
  lemma EntryIs(file: seq<byte>, pos: nat, m: Member, signed: bool, junk: Memory)
    requires Writable(m) && |file| < U64 - U32 && HasAt(file, m.header, Local(m)) && HasAt(file, pos, CdRecord(m))
    ensures ParseEntry(file, pos, signed, junk) == Got(Seen(m, signed), |CdRecord(m)|)
  {
    hide HasAt, ExtraBytes, Extras, CdRecord, Local, PlainExtras, Writable, FieldFits, Seen, SeenSizes, Located, ParseEntry;
    EntryLocates(file, pos, m, signed, junk);
    SeenUnfolds(m, signed);
    LocatedIs(file, m, SeenSizes(m, signed), |CdRecord(m)|);
  }

  /** There is no local record at `p`. */
  predicate NoLocalAt(file: seq<byte>, p: nat)
    requires |file| < U64 - U32
  {
    var local := FileBytes(file, LOCAL_SIZE, p);
    |local| != LOCAL_SIZE || Field(local, 0, 4) != LOCAL_MAGIC
  }

  /** A record whose offset leads to no local record is a bad one. */
  lemma EntryMisses(file: seq<byte>, pos: nat, m: Member, signed: bool, junk: Memory)
    requires Writable(m) && |file| < U64 - U32 && NoLocalAt(file, m.header) && HasAt(file, pos, CdRecord(m))
    ensures ParseEntry(file, pos, signed, junk) == Bad
  {
    hide HasAt, ExtraBytes, Extras, CdRecord, Local, PlainExtras, Writable, FieldFits, Seen, SeenSizes, ParseEntry, FileBytes, Field;
    EntryLocates(file, pos, m, signed, junk);
  }

  /** The entries of the members, in the order of the directory. */
  function SeenAll(ms: seq<Member>, signed: bool): (es: seq<ZipEntry>)
    requires AllWritable(ms)
    ensures |es| == |ms| && forall i :: 0 <= i < |es| ==> es[i] == Seen(ms[i], signed)
  {
    seq(|ms|, i requires 0 <= i < |ms| => Seen(ms[i], signed))
  }

  function MeantAll(ms: seq<Member>): (es: seq<ZipEntry>)
    ensures |es| == |ms| && forall i :: 0 <= i < |es| ==> es[i] == Meant(ms[i])
  {
    seq(|ms|, i requires 0 <= i < |ms| => Meant(ms[i]))
  }

  /** Local records one after another stand in their places. */
  lemma {:induction false} InLineStand(file: seq<byte>, ms: seq<Member>, h: nat)
    requires AllWritable(ms) && InLine(ms, h) && HasAt(file, h, Locals(ms))
    ensures Stand(file, ms)
    decreases |ms|
  {
    hide Writable, Local, HasAt;
    if ms != [] {
      LocalHead(ms[0]);
      var next := h + |Local(ms[0])|;
      HasPart(file, h, Local(ms[0]), Locals(ms[1..]), next);
      InLineStand(file, ms[1..], next);
      forall i | 0 <= i < |ms| ensures Writable(ms[i]) && |ms[i].localHead| == 22 && HasAt(file, ms[i].header, Local(ms[i])) {
        LocalHead(ms[i]);
        if i > 0 {
          assert ms[i] == ms[1..][i - 1];
        }
      }
    }
  }

  lemma LocalHead(m: Member)
    requires Writable(m)
    ensures |m.localHead| == 22
  {
  }

  lemma EntriesStep(file: seq<byte>, pos: nat, n: nat, signed: bool, junk: Memory, e: ZipEntry, size: nat, after: nat, es: seq<ZipEntry>, o: Outcome)
    requires |file| < U64 - U32 && n > 0 && ParseEntry(file, pos, signed, junk) == Got(e, size) && after == pos + size <= |file|
    requires ParseEntries(file, after, n - 1, signed, junk) == (es, o)
    ensures ParseEntries(file, pos, n, signed, junk) == ([e] + es, o)
  {
    hide ParseEntry;
  }

  lemma DirectoryStep(ms: seq<Member>)
    requires AllWritable(ms) && ms != []
    ensures Writable(ms[0]) && AllWritable(ms[1..]) && CdBytes(ms) == CdRecord(ms[0]) + CdBytes(ms[1..])
  {
    hide CdRecord, Writable;
  }

  lemma AllStep(file: seq<byte>, ms: seq<Member>, signed: bool)
    requires AllWritable(ms) && ms != [] && Stand(file, ms)
    ensures Writable(ms[0]) && |ms[0].localHead| == 22 && FieldFits(ms[0].wideSize, ms[0].size) && FieldFits(ms[0].wideCsize, |ms[0].data|)
    ensures HasAt(file, ms[0].header, Local(ms[0])) && AllWritable(ms[1..]) && Stand(file, ms[1..])
    ensures SeenAll(ms, signed) == [Seen(ms[0], signed)] + SeenAll(ms[1..], signed)
  {
    hide Seen, Local, CdRecord, HasAt, ExtraBytes, Extras, PlainExtras, FieldFits;
  }

  lemma NoneLeft(file: seq<byte>, pos: nat, signed: bool, junk: Memory)
    requires |file| < U64 - U32
    ensures AllWritable([]) && ParseEntries(file, pos, 0, signed, junk) == (SeenAll([], signed), Complete)
  {
    hide ParseEntry;
  }

  lemma BadFirst(file: seq<byte>, pos: nat, n: nat, signed: bool, junk: Memory)
    requires |file| < U64 - U32 && n > 0 && ParseEntry(file, pos, signed, junk) == Bad
    ensures AllWritable([]) && ParseEntries(file, pos, n, signed, junk) == (SeenAll([], signed), Failed)
  {
    hide ParseEntry;
  }

  /** Reading the written directory gives the members as they are seen, in its order, up to the first
      whose local record is not where it should be. */
  lemma {:induction false} EntriesUpTo(file: seq<byte>, pos: nat, ms: seq<Member>, k: nat, signed: bool, junk: Memory)
    requires |file| < U64 - U32 && k <= |ms| && AllWritable(ms) && AllWritable(ms[..k]) && Stand(file, ms[..k]) && HasAt(file, pos, CdBytes(ms))
    requires k < |ms| ==> NoLocalAt(file, ms[k].header)
    ensures ParseEntries(file, pos, |ms|, signed, junk) == (SeenAll(ms[..k], signed), if k == |ms| then Complete else Failed)
    decreases |ms|
  {
    hide Writable, PlainExtras, Extras, ExtraBytes, Seen, SeenAll, ParseEntry, FieldFits, Local, CdRecord, CdBytes, HasAt, Wrap, FileBytes, Field, ParseEntries, AllWritable, Stand, NoLocalAt;
    if ms == [] {
      NoneLeft(file, pos, signed, junk);
    } else {
      var m := ms[0];
      var after := pos + |CdRecord(m)|;
      DirectoryStep(ms);
      HasPart(file, pos, CdRecord(m), CdBytes(ms[1..]), after);
      if k == 0 {
        EntryMisses(file, pos, m, signed, junk);
        BadFirst(file, pos, |ms|, signed, junk);
      } else {
        assert ms[..k][1..] == ms[1..][..k - 1] && ms[..k][0] == m;
        AllStep(file, ms[..k], signed);
        HasInside(file, after, CdBytes(ms[1..]));
        EntryIs(file, pos, m, signed, junk);
        EntriesUpTo(file, after, ms[1..], k - 1, signed, junk);
        EntriesStep(file, pos, |ms|, signed, junk, Seen(m, signed), |CdRecord(m)|, after, SeenAll(ms[1..][..k - 1], signed), if k == |ms| then Complete else Failed);
      }
    }
  }

  /** So with every local record in its place all members are read. */
  lemma EntriesAre(file: seq<byte>, pos: nat, ms: seq<Member>, signed: bool, junk: Memory)
    requires |file| < U64 - U32 && AllWritable(ms) && Stand(file, ms) && HasAt(file, pos, CdBytes(ms))
    ensures ParseEntries(file, pos, |ms|, signed, junk) == (SeenAll(ms, signed), Complete)
  {
    hide SeenAll, ParseEntries, AllWritable, Stand, CdBytes, HasAt;
    assert ms[..|ms|] == ms;
    EntriesUpTo(file, pos, ms, |ms|, signed, junk);
  }

  lemma HasInside(file: seq<byte>, p: nat, s: seq<byte>)
    requires HasAt(file, p, s) && |file| < U64
    ensures p <= |file| && Wrap(p) == p
  {
  }

  /** Every size of every member is read right. */
  predicate SizesRight(ms: seq<Member>, signed: bool) {
    forall i :: 0 <= i < |ms| ==> SizeRight(ms[i], ms[i].wideSize, ms[i].size, signed) && SizeRight(ms[i], ms[i].wideCsize, |ms[i].data|, signed)
  }

  lemma AllSeenAreMeant(ms: seq<Member>, signed: bool)
    requires AllWritable(ms)
    ensures SeenAll(ms, signed) == MeantAll(ms) <==> SizesRight(ms, signed)
  {
    hide PlainExtras, Extras, ExtraBytes, Seen, Meant, FieldFits, SizeRight;
    forall i | 0 <= i < |ms|
      ensures Writable(ms[i])
      ensures SeenAll(ms, signed)[i] == MeantAll(ms)[i]
        <==> SizeRight(ms[i], ms[i].wideSize, ms[i].size, signed) && SizeRight(ms[i], ms[i].wideCsize, |ms[i].data|, signed)
    {
      SeenIsMeant(ms[i], signed);
    }
    if SizesRight(ms, signed) {
      assert forall i :: 0 <= i < |ms| ==> SeenAll(ms, signed)[i] == MeantAll(ms)[i];
    } else {
      var i :| 0 <= i < |ms| && !(SizeRight(ms[i], ms[i].wideSize, ms[i].size, signed) && SizeRight(ms[i], ms[i].wideCsize, |ms[i].data|, signed));
      assert SeenAll(ms, signed)[i] != MeantAll(ms)[i];
    }
  }
}
