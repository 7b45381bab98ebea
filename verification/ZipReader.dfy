/** Reading the central directory of an archive (src/zip/Zip.cc). */
module ZipReader {
  import opened Bytes
  import opened Container
  import opened Options

  const END_MAGIC := 0x06054b50
  const CD_MAGIC := 0x02014b50
  const LOCAL_MAGIC := 0x04034b50
  const END64_MAGIC := 0x06064b50
  const LOCATOR_MAGIC := 0x07064b50

  const END_SIZE := 22
  const CD_SIZE := 46
  const LOCAL_SIZE := 30
  const END64_SIZE := 56
  const LOCATOR_SIZE := 20
  const BUFFER_SIZE := 4096
  const SATURATED := 0xffff_ffff

  /** An offset in unsigned 64-bit arithmetic. */
  function Wrap(x: int): (r: nat)
    ensures r < U64 && (0 <= x < U64 ==> r == x)
  {
    x % U64
  }

  /** fileRead, from a file whose positioned reads deliver all the bytes they reach. */
  function FileBytes(file: seq<byte>, count: nat, offset: nat): (data: seq<byte>)
    requires count < 0x1_0000_0000 && |file| < U64 - U32
    ensures offset + count <= |file| ==> data == file[offset..offset + count]
    ensures |data| <= count && (|data| == count <==> count == 0 || offset + count <= |file|)
  {
    if count == 0 || offset > |file| then [] else file[offset..offset + Truncate(count, offset, |file|)]
  }

  /** A 32-bit field kept in a 64-bit one.  The size fields are declared as signed; where the byte
      order conversion is the identity macro (`signed`, on Windows) they are sign-extended. */
  function Widen(v: nat, signed: bool): nat
    requires v < U32
  {
    if signed && v >= 0x8000_0000 then v + U64 - U32 else v
  }

  predicate Saturated(v: nat) {
    v == SATURATED || v == U64 - 1
  }

  /** Reading eight bytes over `old`; what is past the end of the file stays as it was. */
  function ReadOver(file: seq<byte>, offset: nat, old_: nat): nat
    requires |file| < U64 - U32
  {
    var data := FileBytes(file, 8, offset);
    Le(data + LeBytes(old_, 8)[|data|..])
  }

  /** The three fields that a Zip64 record may give. */
  datatype Sizes = Sizes(size: nat, csize: nat, header: nat)

  /** What the walk over the extra records comes to. */
  datatype Walk = Walked(sizes: Sizes) | Short | Endless

  /** The Zip64 record at `at`, of `dataSize` bytes: saturated fields only, in their order. */
  function Resolve(file: seq<byte>, at: nat, dataSize: nat, z: Sizes): Sizes
    requires |file| < U64 - U32
  {
    var big := dataSize >= 8;
    var s := Saturated(z.size) && big;
    var c := Saturated(z.csize) && big;
    var h := Saturated(z.header) && big;
    var f1 := if s then 8 else 0;
    var f2 := if c then f1 + 8 else f1;
    Sizes(if s then ReadOver(file, Wrap(at), z.size) else z.size,
          if c then ReadOver(file, Wrap(at + f1), z.csize) else z.csize,
          if h then ReadOver(file, Wrap(at + f2), z.header) else z.header)
  }

  /** The state of the extra-field loop, and what some passes of it come to. */
  datatype Cursor = Cursor(h: nat, z: Sizes)

  datatype Progress = Running(at: Cursor) | Done(walk: Walk)

  /** One pass over the extra area of `extraLen` bytes at `field`.  The cursor is 16 bits wide, so it
      may come round to an earlier place. */
  function Pass(file: seq<byte>, field: nat, extraLen: nat, c: Cursor): Progress
    requires |file| < U64 - U32
  {
    if c.h >= extraLen then Done(Walked(c.z))
    else
      var head := FileBytes(file, 4, Wrap(field + c.h));
      if |head| != 4 then Done(Short)
      else
        var z := if Field(head, 0, 2) == 1 then Resolve(file, field + c.h + 4, Field(head, 2, 2), c.z) else c.z;
        Running(Cursor((c.h + Field(head, 2, 2) + 4) % 0x1_0000, z))
  }

  function Passes(file: seq<byte>, field: nat, extraLen: nat, c: Cursor, n: nat): Progress
    requires |file| < U64 - U32
    decreases n
  {
    if n == 0 then Running(c)
    else
      match Pass(file, field, extraLen, c)
      case Done(w) => Done(w)
      case Running(d) => Passes(file, field, extraLen, d, n - 1)
  }

  /** The walk from cursor `h` on: what some number of passes come to, if any number does. */
  ghost function WalkExtra(file: seq<byte>, field: nat, extraLen: nat, h: nat, z: Sizes): Walk
    requires |file| < U64 - U32
  {
    var c := Cursor(h, z);
    if n: nat :| Passes(file, field, extraLen, c, n).Done? then Passes(file, field, extraLen, c, n).walk else Endless
  }

  lemma {:induction false} DoneOnce(file: seq<byte>, field: nat, extraLen: nat, c: Cursor, n: nat, m: nat)
    requires |file| < U64 - U32 && n <= m && Passes(file, field, extraLen, c, n).Done?
    ensures Passes(file, field, extraLen, c, m) == Passes(file, field, extraLen, c, n)
    decreases n
  {
    hide Pass;
    if n > 0 {
      match Pass(file, field, extraLen, c)
      case Done(_) =>
      case Running(d) => DoneOnce(file, field, extraLen, d, n - 1, m - 1);
    }
  }

  lemma WalkIs(file: seq<byte>, field: nat, extraLen: nat, h: nat, z: Sizes, n: nat)
    requires |file| < U64 - U32 && Passes(file, field, extraLen, Cursor(h, z), n).Done?
    ensures WalkExtra(file, field, extraLen, h, z) == Passes(file, field, extraLen, Cursor(h, z), n).walk
  {
    hide Pass, Passes;
    var c := Cursor(h, z);
    forall m: nat | Passes(file, field, extraLen, c, m).Done? ensures Passes(file, field, extraLen, c, m) == Passes(file, field, extraLen, c, n) {
      DoneOnce(file, field, extraLen, c, if n < m then n else m, if n < m then m else n);
    }
  }

  /** A pass that goes on leaves the rest of the walk to be done from where it leads. */
  lemma WalkGoesOn(file: seq<byte>, field: nat, extraLen: nat, h: nat, z: Sizes, d: Cursor)
    requires |file| < U64 - U32 && Pass(file, field, extraLen, Cursor(h, z)) == Running(d)
    ensures WalkExtra(file, field, extraLen, h, z) == WalkExtra(file, field, extraLen, d.h, d.z)
  {
    hide Pass;
    var c := Cursor(h, z);
    assert forall n: nat :: n > 0 ==> Passes(file, field, extraLen, c, n) == Passes(file, field, extraLen, d, n - 1);
    if n: nat :| Passes(file, field, extraLen, d, n).Done? {
      WalkIs(file, field, extraLen, d.h, d.z, n);
      assert Passes(file, field, extraLen, c, n + 1) == Passes(file, field, extraLen, d, n);
      WalkIs(file, field, extraLen, h, z, n + 1);
    } else {
      assert !Passes(file, field, extraLen, c, 0).Done?;
      assert forall n: nat :: n > 0 ==> Passes(file, field, extraLen, c, n) == Passes(file, field, extraLen, d, n - 1) && !Passes(file, field, extraLen, d, n - 1).Done?;
    }
  }

  lemma {:induction false} PassesOn(file: seq<byte>, field: nat, extraLen: nat, c: Cursor, i: nat, d: Cursor, k: nat)
    requires |file| < U64 - U32 && Passes(file, field, extraLen, c, i) == Running(d)
    ensures Passes(file, field, extraLen, c, i + k) == Passes(file, field, extraLen, d, k)
    decreases i
  {
    hide Pass;
    if i > 0 {
      match Pass(file, field, extraLen, c)
      case Done(_) =>
      case Running(e) => PassesOn(file, field, extraLen, e, i - 1, d, k);
    }
  }

  lemma {:induction false} GoesRound(file: seq<byte>, field: nat, extraLen: nat, d: Cursor, p: nat, n: nat)
    requires |file| < U64 - U32 && p > 0 && Passes(file, field, extraLen, d, p) == Running(d)
    ensures Passes(file, field, extraLen, d, n).Running?
    decreases n
  {
    hide Pass, Passes;
    if n <= p {
      if Passes(file, field, extraLen, d, n).Done? {
        DoneOnce(file, field, extraLen, d, n, p);
      }
    } else {
      PassesOn(file, field, extraLen, d, p, d, n - p);
      GoesRound(file, field, extraLen, d, p, n - p);
    }
  }

  /** A walk that comes back to a state it has been in never ends. */
  lemma Repeats(file: seq<byte>, field: nat, extraLen: nat, h: nat, z: Sizes, i: nat, j: nat, d: Cursor)
    requires |file| < U64 - U32 && i < j
    requires Passes(file, field, extraLen, Cursor(h, z), i) == Running(d) && Passes(file, field, extraLen, Cursor(h, z), j) == Running(d)
    ensures WalkExtra(file, field, extraLen, h, z) == Endless
  {
    hide Pass, Passes;
    var c := Cursor(h, z);
    PassesOn(file, field, extraLen, c, i, d, j - i);
    forall n: nat ensures !Passes(file, field, extraLen, c, n).Done? {
      if n <= i {
        if Passes(file, field, extraLen, c, n).Done? {
          DoneOnce(file, field, extraLen, c, n, i);
        }
      } else {
        PassesOn(file, field, extraLen, c, i, d, n - i);
        GoesRound(file, field, extraLen, d, j - i, n - i);
      }
    }
  }

  /** A record whose length brings the cursor back to where it was: the loop never ends. */
  lemma EndlessExtra(file: seq<byte>, field: nat, z: Sizes)
    requires field + 4 <= |file| < U64 - U32 && file[field..field + 4] == [2, 0, 252, 255]
    ensures WalkExtra(file, field, 4, 0, z) == Endless
  {
    assert file[field] == file[field..field + 4][0] && file[field + 1] == file[field..field + 4][1];
    assert file[field + 2] == file[field..field + 4][2] && file[field + 3] == file[field..field + 4][3];
    HeadAt(file, field, 2, 65532);
    LoopingPass(file, field, z);
    Repeats(file, field, 4, 0, z, 0, 1, Cursor(0, z));
  }

  lemma LoopingPass(file: seq<byte>, field: nat, z: Sizes)
    requires |file| < U64 - U32
    requires var head := FileBytes(file, 4, Wrap(field)); |head| == 4 && Field(head, 0, 2) == 2 && Field(head, 2, 2) == 65532
    ensures Pass(file, field, 4, Cursor(0, z)) == Running(Cursor(0, z))
  {
    hide FileBytes, Field, Resolve, Wrap;
  }

  /** A cursor that wraps around may also lead out of the area. */
  lemma WrappedExtra(z: Sizes)
    ensures WalkExtra([2, 0, 255, 255, 0, 1, 0, 0], 0, 8, 0, z) == Walked(z)
  {
    var file: seq<byte> := [2, 0, 255, 255, 0, 1, 0, 0];
    HeadAt(file, 0, 2, 65535);
    HeadAt(file, 3, 255, 1);
    WalkGoesOn(file, 0, 8, 0, z, Cursor(3, z));
    WalkGoesOn(file, 0, 8, 3, z, Cursor(8, z));
    WalkIs(file, 0, 8, 8, z, 1);
  }

  lemma HeadAt(file: seq<byte>, at: nat, id: nat, size: nat)
    requires at + 4 <= |file| < U64 - U32
    requires id == (file[at] as int) + 256 * (file[at + 1] as int) && size == (file[at + 2] as int) + 256 * (file[at + 3] as int)
    ensures var head := FileBytes(file, 4, Wrap(at)); |head| == 4 && Field(head, 0, 2) == id && Field(head, 2, 2) == size
  {
    var head := FileBytes(file, 4, at);
    assert head == [file[at], file[at + 1], file[at + 2], file[at + 3]];
    assert head[0..2] == [file[at], file[at + 1]] && head[2..4] == [file[at + 2], file[at + 3]];
    Le2(file[at], file[at + 1]);
    Le2(file[at + 2], file[at + 3]);
  }

  lemma Le2(a: byte, b: byte)
    ensures Le([a, b]) == (a as int) + 256 * (b as int)
  {
    assert [a, b][1..] == [b] && [b][1..] == [];
    assert Le([b]) == b;
  }

  lemma Le4(a: byte, b: byte, c: byte, d: byte)
    ensures Le([a, b, c, d]) == a + 256 * (b + 256 * (c + 256 * (d as int)))
  {
    assert [a, b, c, d][1..] == [b, c, d] && [b, c, d][1..] == [c, d];
    Le2(c, d);
  }

  lemma SameByte(a: byte, x: nat, b: byte, y: nat)
    requires a + 256 * x == b + 256 * y
    ensures a == b && x == y
  {
  }

  lemma SameBytes(t: seq<byte>, a: byte, b: byte, c: byte, d: byte)
    requires |t| == 4 && Le(t) == a + 256 * (b + 256 * (c + 256 * (d as int)))
    ensures t == [a, b, c, d]
  {
    hide Le;
    var x, y: nat := t[2] + 256 * (t[3] as int), c + 256 * (d as int);
    assert t == [t[0], t[1], t[2], t[3]];
    Le4(t[0], t[1], t[2], t[3]);
    SameByte(t[0], t[1] + 256 * x, a, b + 256 * y);
    SameByte(t[1], x, b, y);
    SameByte(t[2], t[3], c, d);
  }

  /** A field of four bytes has its value in one way only. */
  lemma FieldBytes(s: seq<byte>, at: nat, a: byte, b: byte, c: byte, d: byte)
    requires at + 4 <= |s| && Field(s, at, 4) == a + 256 * (b + 256 * (c + 256 * (d as int)))
    ensures s[at..at + 4] == [a, b, c, d]
  {
    hide Le;
    SameBytes(s[at..at + 4], a, b, c, d);
  }

  /** A Zip64 field too short for a size says nothing. */
  lemma ShortField(file: seq<byte>, at: nat, dataSize: nat, z: Sizes)
    requires |file| < U64 - U32 && dataSize < 8
    ensures Resolve(file, at, dataSize, z) == z
  {
  }

  /** One directory record: what it adds to the entries, and how long it is. */
  datatype Step = Got(entry: ZipEntry, size: nat) | Bad | Loops

  /** What a freshly allocated buffer holds. */
  datatype Memory = Memory(at: nat -> byte)

  /** The name of the record at `field`; bytes past the end of the file are what the fresh buffer held. */
  function ReadName(file: seq<byte>, field: nat, n: nat, junk: Memory): (name: seq<byte>)
    requires n < 0x1_0000 && |file| < U64 - U32
    ensures |name| == n
  {
    var data := FileBytes(file, n, field);
    data + seq<byte>(n - |data|, k requires k >= 0 => junk.at(|data| + k))
  }

  /** The local header tells where the data starts. */
  function Located(file: seq<byte>, name: seq<byte>, method_: nat, z: Sizes, size: nat): Step
    requires |file| < U64 - U32
  {
    var local := FileBytes(file, LOCAL_SIZE, z.header);
    if |local| != LOCAL_SIZE || Field(local, 0, 4) != LOCAL_MAGIC then Bad
    else Got(ZipEntry(name, z.header, Wrap(z.header + LOCAL_SIZE + Field(local, 26, 2) + Field(local, 28, 2)), z.size, z.csize, method_), size)
  }

  lemma FieldBound(s: seq<byte>, at: nat, k: nat)
    requires at + k <= |s| && (k == 2 || k == 4)
    ensures Field(s, at, k) < if k == 2 then 0x1_0000 else U32
  {
    LeBound(s[at..at + k]);
    Widths();
  }

  /** The sizes and the header offset as the fixed part of a record gives them. */
  function FixedSizes(head: seq<byte>, signed: bool): Sizes
    requires |head| == CD_SIZE
  {
    FieldBound(head, 24, 4);
    FieldBound(head, 20, 4);
    Sizes(Widen(Field(head, 24, 4), signed), Widen(Field(head, 20, 4), signed), Field(head, 42, 4))
  }

  /** The sizes after the extra fields, which are opened only if the header offset is saturated. */
  ghost function Extended(file: seq<byte>, field: nat, extraLen: nat, z: Sizes): Walk
    requires |file| < U64 - U32
  {
    if Saturated(z.header) then WalkExtra(file, field, extraLen, 0, z) else Walked(z)
  }

  /** The rest of the directory record at `pos`, after its fixed part. */
  ghost function ParseRest(file: seq<byte>, pos: nat, head: seq<byte>, signed: bool, junk: Memory): Step
    requires |file| < U64 - U32 && |head| == CD_SIZE
  {
    FieldBound(head, 28, 2);
    var nameLen, extraLen := Field(head, 28, 2), Field(head, 30, 2);
    var name := ReadName(file, Wrap(pos + CD_SIZE), nameLen, junk);
    match Extended(file, pos + CD_SIZE + nameLen, extraLen, FixedSizes(head, signed))
    case Short => Bad
    case Endless => Loops
    case Walked(z) => Located(file, name, Field(head, 10, 2), z, CD_SIZE + nameLen + extraLen + Field(head, 32, 2))
  }

  /** The directory record at `pos`. */
  ghost function ParseEntry(file: seq<byte>, pos: nat, signed: bool, junk: Memory): Step
    requires |file| < U64 - U32
  {
    var head := FileBytes(file, CD_SIZE, pos);
    if |head| != CD_SIZE || Field(head, 0, 4) != CD_MAGIC then Bad else ParseRest(file, pos, head, signed, junk)
  }

  /** How a parse ends: with every entry, early for a bad record, by dereferencing the null pointer
      of a scan that never ran, or never. */
  datatype Outcome = Complete | Failed | NullScan | NoEnd

  /** `n` records from `pos` on. */
  ghost function ParseEntries(file: seq<byte>, pos: nat, n: nat, signed: bool, junk: Memory): (seq<ZipEntry>, Outcome)
    requires |file| < U64 - U32
    decreases n
  {
    if n == 0 then ([], Complete)
    else
      match ParseEntry(file, pos, signed, junk)
      case Bad => ([], Failed)
      case Loops => ([], NoEnd)
      case Got(e, size) =>
        var (es, o) := ParseEntries(file, Wrap(pos + size), n - 1, signed, junk);
        ([e] + es, o)
  }

  /** The backward scan: the last end signature at `i` or before, but not at 0. */
  function LastEnd(buffer: seq<byte>, i: nat): (r: nat)
    requires i + END_SIZE <= |buffer|
    ensures r <= i && (r > 0 ==> Field(buffer, r, 4) == END_MAGIC)
    ensures forall j :: r < j <= i ==> Field(buffer, j, 4) != END_MAGIC
  {
    if i == 0 then 0 else if Field(buffer, i, 4) == END_MAGIC then i else LastEnd(buffer, i - 1)
  }

  /** Where the directory starts and how many records it claims. */
  datatype Directory = Directory(pos: nat, count: nat)

  /** The directory an end record at `eocd` names, going through the Zip64 records if the directory
      offset is saturated. */
  function FindDirectory(file: seq<byte>, end: seq<byte>, eocd: nat): Option<Directory>
    requires |end| == END_SIZE && |file| < U64 - U32
  {
    if Field(end, 16, 4) != SATURATED then
      Some(Directory(Wrap(eocd - Field(end, 12, 4)), Field(end, 10, 2)))
    else
      var locator := FileBytes(file, LOCATOR_SIZE, Wrap(eocd - LOCATOR_SIZE));
      if |locator| != LOCATOR_SIZE || Field(locator, 0, 4) != LOCATOR_MAGIC || Field(locator, 4, 4) != 0 || Field(locator, 16, 4) != 1 then None
      else
        var end64 := FileBytes(file, END64_SIZE, Wrap(eocd - LOCATOR_SIZE - END64_SIZE));
        if |end64| != END64_SIZE || Field(end64, 0, 4) != END64_MAGIC then None
        else Some(Directory(Wrap(eocd - LOCATOR_SIZE - END64_SIZE - Field(end64, 40, 8)), Field(end64, 24, 8)))
  }

  /** Where a saturated offset leads to a directory, a locator of one disk stands in front of the end record,
      and a Zip64 end record in front of that. */
  lemma FoundByRecords(file: seq<byte>, end: seq<byte>, eocd: nat)
    requires |end| == END_SIZE && |file| < U64 - U32 && eocd <= |file| && Field(end, 16, 4) == SATURATED && FindDirectory(file, end, eocd).Some?
    ensures eocd >= 76 && file[eocd - 76..eocd - 72] == [0x50, 0x4b, 6, 6] && file[eocd - 20..eocd - 16] == [0x50, 0x4b, 6, 7]
    ensures file[eocd - 16..eocd - 12] == [0, 0, 0, 0] && file[eocd - 4..eocd] == [1, 0, 0, 0]
  {
    hide Field;
    assert eocd >= 76 by {
      assert eocd < 20 ==> Wrap(eocd - 20) > |file|;
      assert eocd < 76 ==> Wrap(eocd - 20 - 56) > |file|;
    }
    var locator, end64 := file[eocd - 20..eocd], file[eocd - 76..eocd - 20];
    assert FileBytes(file, LOCATOR_SIZE, eocd - 20) == locator && FileBytes(file, END64_SIZE, eocd - 76) == end64;
    FieldBytes(locator, 0, 0x50, 0x4b, 6, 7);
    FieldBytes(locator, 4, 0, 0, 0, 0);
    FieldBytes(locator, 16, 1, 0, 0, 0);
    FieldBytes(end64, 0, 0x50, 0x4b, 6, 6);
    SliceSlice(file, eocd - 20, eocd, 0, 4);
    SliceSlice(file, eocd - 20, eocd, 4, 8);
    SliceSlice(file, eocd - 20, eocd, 16, 20);
    SliceSlice(file, eocd - 76, eocd - 20, 0, 4);
  }

  /** An entry comes from a directory record that leads to a local record. */
  lemma EntryByRecords(file: seq<byte>, pos: nat, signed: bool, junk: Memory)
    requires |file| < U64 - U32 && ParseEntry(file, pos, signed, junk).Got?
    ensures pos + CD_SIZE <= |file| && file[pos..pos + 4] == [0x50, 0x4b, 1, 2]
    ensures var h := ParseEntry(file, pos, signed, junk).entry.headerOffset; h + LOCAL_SIZE <= |file| && file[h..h + 4] == [0x50, 0x4b, 3, 4]
  {
    hide Field, Extended, FixedSizes, ReadName;
    var h := ParseEntry(file, pos, signed, junk).entry.headerOffset;
    assert FileBytes(file, CD_SIZE, pos) == file[pos..pos + CD_SIZE] && FileBytes(file, LOCAL_SIZE, h) == file[h..h + LOCAL_SIZE];
    FieldBytes(file[pos..pos + CD_SIZE], 0, 0x50, 0x4b, 1, 2);
    FieldBytes(file[h..h + LOCAL_SIZE], 0, 0x50, 0x4b, 3, 4);
    assert file[pos..pos + CD_SIZE][0..4] == file[pos..pos + 4] && file[h..h + LOCAL_SIZE][0..4] == file[h..h + 4];
  }

  /** strlen, cut at the bytes read: what is kept of a comment.  The buffer has no terminator, so
      without a NUL among its bytes the source looks past it before it cuts. */
  function UpToNul(s: seq<byte>): seq<byte> {
    if s == [] || s[0] == 0 then [] else [s[0]] + UpToNul(s[1..])
  }

  /** It is the part of the comment before its first NUL, or all of it. */
  lemma {:induction false} UpToNulIs(s: seq<byte>)
    ensures var c := UpToNul(s); c <= s && 0 !in c && (c == s || s[|c|] == 0)
    decreases |s|
  {
    if s != [] && s[0] != 0 {
      UpToNulIs(s[1..]);
    }
  }

  datatype Parsed = Parsed(entries: seq<ZipEntry>, comment: seq<byte>, outcome: Outcome)

  /** The whole of parseCD. */
  ghost function Parse(file: seq<byte>, signed: bool, junk: Memory): Parsed
    requires |file| < U64 - U32
  {
    var read := if |file| < BUFFER_SIZE then |file| else BUFFER_SIZE;
    var buffer := FileBytes(file, read, |file| - read);
    if |buffer| < END_SIZE then Parsed([], [], Failed)
    else if |buffer| == END_SIZE then Parsed([], [], NullScan)
    else
      var i := LastEnd(buffer, |buffer| - END_SIZE);
      if i == 0 then Parsed([], [], Failed)
      else
        var eocd := |file| - read + i;
        var end := buffer[i..i + END_SIZE];
        FieldBound(end, 20, 2);
        var comment := UpToNul(FileBytes(file, Field(end, 20, 2), eocd + END_SIZE));
        match FindDirectory(file, end, eocd)
        case None => Parsed([], comment, Failed)
        case Some(d) =>
          var (es, o) := ParseEntries(file, d.pos, d.count, signed, junk);
          Parsed(es, comment, o)
  }

  // ---------- why the loop above ends ----------

  function Unresolved(z: Sizes): nat {
    (if Saturated(z.size) then 1 else 0) + (if Saturated(z.csize) then 1 else 0) + (if Saturated(z.header) then 1 else 0)
  }

  ghost function Variants(v: nat): set<nat> {
    if Saturated(v) then {SATURATED, U64 - 1} else {v}
  }

  /** The states the loop can be in while no further field resolves. */
  ghost function Universe(z: Sizes): set<Cursor> {
    set h: nat, s, c, d | h < 0x1_0000 && s in Variants(z.size) && c in Variants(z.csize) && d in Variants(z.header) :: Cursor(h, Sizes(s, c, d))
  }

  lemma InUniverse(c: Cursor)
    requires c.h < 0x1_0000
    ensures c in Universe(c.z)
  {
    assert c == Cursor(c.h, Sizes(c.z.size, c.z.csize, c.z.header));
  }

  lemma NoPasses(file: seq<byte>, field: nat, extraLen: nat, c: Cursor)
    requires |file| < U64 - U32
    ensures Passes(file, field, extraLen, c, 0) == Running(c)
  {
  }

  lemma OneMore(file: seq<byte>, field: nat, extraLen: nat, c: Cursor, n: nat, d: Cursor)
    requires |file| < U64 - U32 && Passes(file, field, extraLen, c, n) == Running(d)
    ensures Passes(file, field, extraLen, c, n + 1) == Pass(file, field, extraLen, d)
  {
    hide Pass;
    PassesOn(file, field, extraLen, c, n, d, 1);
  }

  /** A pass resolves a field, or stays among the same states. */
  lemma PassStays(file: seq<byte>, field: nat, extraLen: nat, c: Cursor, d: Cursor)
    requires |file| < U64 - U32 && Pass(file, field, extraLen, c) == Running(d)
    ensures d in Universe(d.z) && Unresolved(d.z) <= Unresolved(c.z)
    ensures Unresolved(d.z) == Unresolved(c.z) ==> Universe(d.z) == Universe(c.z)
  {
    hide ReadOver, Saturated, FileBytes, Field;
    InUniverse(d);
  }

  /** Some later state of the walk is an earlier one again. */
  ghost predicate Recurs(file: seq<byte>, field: nat, extraLen: nat, c: Cursor)
    requires |file| < U64 - U32
  {
    exists i: nat, j: nat ::
      i < j && Passes(file, field, extraLen, c, i).Running? && Passes(file, field, extraLen, c, i) == Passes(file, field, extraLen, c, j)
  }

  ghost predicate Visited(file: seq<byte>, field: nat, extraLen: nat, start: Cursor, n: nat, c: Cursor)
    requires |file| < U64 - U32
  {
    exists i: nat :: i < n && Passes(file, field, extraLen, start, i) == Running(c)
  }

  /** There are finitely many states, so a walk ends or comes back. */
  lemma {:induction false} EndsOrRecurs(file: seq<byte>, field: nat, extraLen: nat, start: Cursor, n: nat, now: Cursor, seen: set<Cursor>)
    requires |file| < U64 - U32 && Passes(file, field, extraLen, start, n) == Running(now) && now in Universe(now.z)
    requires forall c :: c in seen ==> Visited(file, field, extraLen, start, n, c)
    ensures Recurs(file, field, extraLen, start) || exists m: nat :: Passes(file, field, extraLen, start, m).Done?
    decreases Unresolved(now.z), Universe(now.z) - seen
  {
    hide Pass, Passes, Universe, Unresolved;
    if now in seen {
      var i: nat :| i < n && Passes(file, field, extraLen, start, i) == Running(now);
    } else {
      OneMore(file, field, extraLen, start, n, now);
      match Pass(file, field, extraLen, now)
      case Done(_) => assert Passes(file, field, extraLen, start, n + 1).Done?;
      case Running(c) =>
        PassStays(file, field, extraLen, now, c);
        forall e | e in seen + {now} ensures Visited(file, field, extraLen, start, n + 1, e) {
          assert e in seen ==> Visited(file, field, extraLen, start, n, e);
        }
        EndsOrRecurs(file, field, extraLen, start, n + 1, c, seen + {now});
    }
  }

  /** The walk never ends exactly when it comes back to a state it has been in. */
  lemma EndlessExactly(file: seq<byte>, field: nat, extraLen: nat, h: nat, z: Sizes)
    requires |file| < U64 - U32 && h < 0x1_0000
    ensures WalkExtra(file, field, extraLen, h, z) == Endless <==> Recurs(file, field, extraLen, Cursor(h, z))
  {
    hide Pass, Passes, Universe;
    var c := Cursor(h, z);
    if Recurs(file, field, extraLen, c) {
      var i: nat, j: nat :| i < j && Passes(file, field, extraLen, c, i).Running? && Passes(file, field, extraLen, c, i) == Passes(file, field, extraLen, c, j);
      Repeats(file, field, extraLen, h, z, i, j, Passes(file, field, extraLen, c, i).at);
    } else {
      NoPasses(file, field, extraLen, c);
      InUniverse(c);
      EndsOrRecurs(file, field, extraLen, c, 0, c, {});
      DoneIsNotEndless(file, field, extraLen, h, z);
    }
  }

  /** A pass never ends in the verdict that the walk does not. */
  lemma {:induction false} PassesEnd(file: seq<byte>, field: nat, extraLen: nat, c: Cursor, n: nat)
    requires |file| < U64 - U32
    ensures Passes(file, field, extraLen, c, n) != Done(Endless)
    decreases n
  {
    hide FileBytes, Field, Resolve;
    if n > 0 {
      match Pass(file, field, extraLen, c)
      case Done(_) =>
      case Running(d) => PassesEnd(file, field, extraLen, d, n - 1);
    }
  }

  lemma DoneIsNotEndless(file: seq<byte>, field: nat, extraLen: nat, h: nat, z: Sizes)
    requires |file| < U64 - U32 && exists m: nat :: Passes(file, field, extraLen, Cursor(h, z), m).Done?
    ensures WalkExtra(file, field, extraLen, h, z) != Endless
  {
    hide Passes;
    var m: nat :| Passes(file, field, extraLen, Cursor(h, z), m).Done?;
    WalkIs(file, field, extraLen, h, z, m);
    PassesEnd(file, field, extraLen, Cursor(h, z), m);
  }

  /** The lengths in the extra area lead through it without a cursor of 16 bits wrapping. */
  predicate Chained(file: seq<byte>, field: nat, extraLen: nat, h: nat)
    requires |file| < U64 - U32
    decreases extraLen - h
  {
    h >= extraLen ||
    var head := FileBytes(file, 4, Wrap(field + h));
    |head| == 4 ==> h + Field(head, 2, 2) + 4 < 0x1_0000 && Chained(file, field, extraLen, h + Field(head, 2, 2) + 4)
  }

  /** Then the walk ends. */
  lemma {:induction false} ChainEnds(file: seq<byte>, field: nat, extraLen: nat, h: nat, z: Sizes)
    requires |file| < U64 - U32 && Chained(file, field, extraLen, h)
    ensures WalkExtra(file, field, extraLen, h, z) != Endless
    decreases extraLen - h
  {
    hide WalkExtra, FileBytes, Field, Resolve;
    match Pass(file, field, extraLen, Cursor(h, z))
    case Done(w) => DoneAtOnce(file, field, extraLen, h, z, w);
    case Running(d) =>
      WalkGoesOn(file, field, extraLen, h, z, d);
      ChainEnds(file, field, extraLen, d.h, d.z);
  }

  lemma DoneAtOnce(file: seq<byte>, field: nat, extraLen: nat, h: nat, z: Sizes, w: Walk)
    requires |file| < U64 - U32 && Pass(file, field, extraLen, Cursor(h, z)) == Done(w)
    ensures WalkExtra(file, field, extraLen, h, z) != Endless
  {
    hide Pass;
    assert Passes(file, field, extraLen, Cursor(h, z), 1) == Done(w);
    DoneIsNotEndless(file, field, extraLen, h, z);
  }

  class ZipFile {
    const file: seq<byte>
    /** How this platform reads signed fields, and what its fresh buffers hold. */
    const signed: bool
    const junk: Memory
    var entries: seq<ZipEntry>
    var comment: seq<byte>

    constructor (file: seq<byte>, signed: bool, junk: Memory)
      ensures this.file == file && this.signed == signed && this.junk == junk && entries == [] && comment == []
    {
      this.file, this.signed, this.junk := file, signed, junk;
      entries, comment := [], [];
    }

    /** The extra-field loop.  The source keeps no record of where it has been and goes on for ever
        where this returns `Endless`. */
    method WalkExtras(field: nat, extraLen: nat, z: Sizes) returns (r: Walk)
      requires |file| < U64 - U32
      ensures r == WalkExtra(file, field, extraLen, 0, z)
    {
      hide Resolve, FileBytes, WalkExtra, Universe, Pass, Passes;
      var now, seen := Cursor(0, z), {};
      ghost var start, n: nat := now, 0;
      NoPasses(file, field, extraLen, now);
      InUniverse(now);
      while true
        invariant Passes(file, field, extraLen, start, n) == Running(now) && now in Universe(now.z)
        invariant forall c :: c in seen ==> Visited(file, field, extraLen, start, n, c)
        decreases Unresolved(now.z), Universe(now.z) - seen
      {
        if now in seen {
          ghost var i: nat :| i < n && Passes(file, field, extraLen, start, i) == Running(now);
          Repeats(file, field, extraLen, 0, z, i, n, now);
          return Endless;
        }
        var next := Pass(file, field, extraLen, now);
        OneMore(file, field, extraLen, start, n, now);
        match next
        case Done(w) =>
          WalkIs(file, field, extraLen, 0, z, n + 1);
          return w;
        case Running(c) =>
          PassStays(file, field, extraLen, now, c);
          seen := seen + {now};
          now := c;
          n := n + 1;
      }
    }

    /** The body of the entry loop. */
    method ReadEntry(pos: nat) returns (r: Step)
      requires |file| < U64 - U32
      ensures r == ParseEntry(file, pos, signed, junk)
    {
      hide WalkExtra, Located, FixedSizes, Widen;
      var entry := FileBytes(file, CD_SIZE, pos);
      if |entry| != CD_SIZE || Field(entry, 0, 4) != CD_MAGIC {
        return Bad;
      }
      var zipEntry := FixedSizes(entry, signed);
      FieldBound(entry, 28, 2);
      var nameLen, extraLen := Field(entry, 28, 2), Field(entry, 30, 2);
      var segmentName := ReadName(file, Wrap(pos + CD_SIZE), nameLen, junk);
      if Saturated(zipEntry.header) {
        var walk := WalkExtras(pos + CD_SIZE + nameLen, extraLen, zipEntry);
        match walk
        case Short => return Bad;
        case Endless => return Loops;
        case Walked(z) => zipEntry := z;
      }
      return Located(file, segmentName, Field(entry, 10, 2), zipEntry, CD_SIZE + nameLen + extraLen + Field(entry, 32, 2));
    }

    /** The entry loop: entries read before a bad record stay. */
    method ReadEntries(d: Directory) returns (o: Outcome)
      requires |file| < U64 - U32 && entries == []
      modifies this`entries
      ensures (entries, o) == ParseEntries(file, d.pos, d.count, signed, junk)
    {
      hide ParseEntry, FileBytes, Field, Wrap, Truncate;
      var pos := d.pos;
      assert entries + ParseEntries(file, pos, d.count, signed, junk).0 == ParseEntries(file, d.pos, d.count, signed, junk).0;
      for i := 0 to d.count
        invariant var rest := ParseEntries(file, pos, d.count - i, signed, junk);
                  (entries + rest.0, rest.1) == ParseEntries(file, d.pos, d.count, signed, junk)
      {
        var step := ReadEntry(pos);
        assert entries + [] == entries;
        match step
        case Bad => return Failed;
        case Loops => return NoEnd;
        case Got(segment, size) =>
          ghost var rest := ParseEntries(file, Wrap(pos + size), d.count - i - 1, signed, junk);
          assert entries + ([segment] + rest.0) == (entries + [segment]) + rest.0;
          entries := entries + [segment];
          pos := Wrap(pos + size);
      }
      assert entries + [] == entries;
      return Complete;
    }

    /** The backward scan for the end record. */
    static method ScanBack(buffer: seq<byte>) returns (i: nat)
      requires |buffer| >= END_SIZE
      ensures i == LastEnd(buffer, |buffer| - END_SIZE)
    {
      hide Field;
      i := |buffer| - END_SIZE;
      while i > 0 && Field(buffer, i, 4) != END_MAGIC
        invariant i + END_SIZE <= |buffer| && LastEnd(buffer, i) == LastEnd(buffer, |buffer| - END_SIZE)
      {
        i := i - 1;
      }
    }

    /** Zip::parseCD. */
    method ParseCD() returns (o: Outcome)
      requires |file| < U64 - U32 && entries == [] && comment == []
      modifies this
      ensures Parsed(entries, comment, o) == Parse(file, signed, junk)
    {
      hide FindDirectory, ParseEntries, UpToNul, Field, LastEnd, Truncate;
      var read := if |file| < BUFFER_SIZE then |file| else BUFFER_SIZE;
      var buffer := FileBytes(file, read, |file| - read);
      if |buffer| < END_SIZE {
        return Failed;
      }
      if |buffer| == END_SIZE {
        return NullScan;
      }
      var i := ScanBack(buffer);
      if i == 0 {
        return Failed;
      }
      var eocd := |file| - read + i;
      var endCD := buffer[i..i + END_SIZE];
      FieldBound(endCD, 20, 2);
      comment := UpToNul(FileBytes(file, Field(endCD, 20, 2), eocd + END_SIZE));
      var d := FindDirectory(file, endCD, eocd);
      if d == None {
        return Failed;
      }
      o := ReadEntries(d.value);
    }
  }
}
