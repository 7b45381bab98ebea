/** Archives laid out as the standard prescribes that the reader opens wrong, and a file that it does not
    come back from (src/zip/Zip.cc). */
module ZipFaults {
  import opened Bytes
  import opened Container
  import opened ZipReader
  import opened ZipWriter
  import opened ZipRoundTrip
  import opened ZipArchive

  function Zeros(n: nat): (s: seq<byte>)
    ensures |s| == n && forall i :: 0 <= i < n ==> s[i] == 0
  {
    seq<byte>(n, i => 0)
  }

  /** A member with that data, a saturated size field or a plain one. */
  function Bare(name: seq<byte>, method_: nat, size: nat, wideSize: bool, data: seq<byte>, header: nat): (m: Member)
    ensures |m.localHead| == 22
  {
    Member(name, method_, size, data, header, Zeros(22), [], [], Zeros(6), Zeros(8), Zeros(8), wideSize, false, false, [], [], [], [])
  }

  lemma BareWritable(name: seq<byte>, method_: nat, size: nat, wideSize: bool, data: seq<byte>, h: nat)
    requires |name| < 0x1_0000 && method_ < 0x1_0000 && FieldFits(wideSize, size) && |data| < SATURATED && h < SATURATED
    ensures var m := Bare(name, method_, size, wideSize, data, h);
            Writable(m) && m.header == h && |Local(m)| == LOCAL_SIZE + |name| + |data|
            && |CdRecord(m)| == CD_SIZE + |name| + if wideSize then 12 else 0
  {
    var m := Bare(name, method_, size, wideSize, data, h);
    hide LeBytes, CdHeader, Local, Zip64Data;
    if wideSize {
      var e := Extra(1, Zip64Data(m));
      assert |Zip64Data(m)| == 8 by { OneField(m); }
      assert Extras(m) == [e];
      assert ExtraBytes([e]) == ExtraRecord(e) + ExtraBytes([]);
    } else {
      assert Extras(m) == [];
    }
    LocalFields(m);
    CdHeaderFields(m);
  }

  lemma OneField(m: Member)
    requires m.wideSize && !m.wideCsize && !m.wideHeader && m.disk == []
    ensures |Zip64Data(m)| == 8
  {
  }

  // ---------- archives of one member ----------

  /** An archive of one member at its start, with those fields saturated. */
  function Single(m: Member, wideSize: bool, wideOffset: bool, sector: seq<byte>): Archive
    requires |m.localHead| == 22
  {
    Archive([m], Local(m), false, wideSize, wideOffset, sector, [], Zeros(4), Zeros(2), Zeros(20))
  }

  lemma OneMember(m: Member)
    requires Writable(m)
    ensures |m.localHead| == 22 && AllWritable([m]) && Locals([m]) == Local(m) && CdBytes([m]) == CdRecord(m)
  {
    hide Local, CdRecord, Writable;
    LocalHead(m);
    assert Locals([m]) == Local(m) + Locals([]) && CdBytes([m]) == CdRecord(m) + CdBytes([]);
  }

  lemma SingleFindable(m: Member, a: Archive, body: seq<byte>, wideSize: bool, wideOffset: bool, sector: seq<byte>)
    requires Writable(m) && |m.localHead| == 22 && a == Single(m, wideSize, wideOffset, sector).(body := body)
    requires |body| + |CdRecord(m)| + |sector| < SATURATED - 0x1_0000
    ensures Findable(a) && InWindow(a, |Write(a)|) && |Write(a)| < SATURATED
  {
    hide Writable, Local, CdRecord;
    OneMember(m);
    assert WritableArchive(a);
    RecordSize(m);
    WrittenParts(a, Write(a), |a.body|, |CdBytes(a.members)|, |Front(a)|);
  }

  lemma RecordSize(m: Member)
    requires Writable(m)
    ensures |CdRecord(m)| >= CD_SIZE
  {
    CdHeaderFields(m);
    hide CdHeader, Writable;
  }

  lemma SingleOpenable(m: Member, wideSize: bool, wideOffset: bool, sector: seq<byte>)
    requires Writable(m) && |m.localHead| == 22 && m.header == 0
    requires |Local(m)| + |CdRecord(m)| + |sector| < SATURATED - 0x1_0000
    ensures var a := Single(m, wideSize, wideOffset, sector);
            Openable(a) && InWindow(a, |Write(a)|) && |Write(a)| < SATURATED
  {
    hide Writable, Local, CdRecord, HasAt, Write, Findable;
    SingleFindable(m, Single(m, wideSize, wideOffset, sector), Local(m), wideSize, wideOffset, sector);
    OneMember(m);
    HasAll(Local(m));
    assert InLine([m], 0);
    InLineStand(Local(m), [m], 0);
  }

  /** What opening an archive of one plain member gives. */
  lemma SingleRead(m: Member, signed: bool, junk: Memory)
    requires Writable(m) && |m.localHead| == 22 && m.header == 0 && |Local(m)| + |CdRecord(m)| < SATURATED - 0x1_0000
    ensures FieldFits(m.wideSize, m.size) && FieldFits(m.wideCsize, |m.data|)
    ensures var a := Single(m, false, false, []);
            Openable(a) && Parse(Write(a), signed, junk) == Parsed([Seen(m, signed)], [], Complete)
  {
    hide Writable, Seen, Parse, Write, Local, CdRecord, Stand, Findable;
    SingleOpenable(m, false, false, []);
    OneMember(m);
    SeenUnfolds(m, signed);
    ReadsBack(Single(m, false, false, []), signed, junk);
    assert SeenAll([m], signed) == [Seen(m, signed)];
  }

  /** The first member of an archive may be larger than 4 GiB: its own header offset is small, so its
      Zip64 field stays closed and its size is read as the saturation mark. */
  lemma LargeFirstMember(name: seq<byte>, data: seq<byte>, junk: Memory)
    requires |name| < 0x1_0000 && 0 < |data| < 0x8000_0000
    ensures var a := Single(Bare(name, DEFLATE, 0x1_0000_0000, true, data, 0), false, false, []);
            Openable(a) &&
            var p := Parse(Write(a), false, junk);
            p.outcome == Complete && |p.entries| == 1 && p.entries[0].length == SATURATED != a.members[0].size
  {
    hide Writable, Parse, Write, Openable, Local, CdRecord;
    BareWritable(name, DEFLATE, 0x1_0000_0000, true, data, 0);
    SingleRead(Bare(name, DEFLATE, 0x1_0000_0000, true, data, 0), false, junk);
  }

  /** A plain size of 2 GiB or more is read as a negative number where the fields are signed. */
  lemma SignedSize(name: seq<byte>, data: seq<byte>, junk: Memory)
    requires |name| < 0x1_0000 && 0 < |data| < 0x8000_0000
    ensures var a := Single(Bare(name, DEFLATE, 0x8000_0000, false, data, 0), false, false, []);
            Openable(a) &&
            var p := Parse(Write(a), true, junk);
            p.outcome == Complete && |p.entries| == 1 && p.entries[0].length == U64 - 0x8000_0000 != a.members[0].size
  {
    hide Writable, Parse, Write, Openable, Local, CdRecord;
    BareWritable(name, DEFLATE, 0x8000_0000, false, data, 0);
    SingleRead(Bare(name, DEFLATE, 0x8000_0000, false, data, 0), true, junk);
  }

  /** With the size of the directory saturated but not its offset, no member is found. */
  lemma SaturatedSize(name: seq<byte>, data: seq<byte>, signed: bool, junk: Memory)
    requires |name| < 0x1_0000 && 0 < |data| < 0x8000_0000
    ensures var a := Single(Bare(name, DEFLATE, |data|, false, data, 0), true, false, []);
            Openable(a) && Parse(Write(a), signed, junk) == Parsed([], [], Failed)
  {
    hide Writable, Parse, Write, LedAway, Wrap, Local, CdRecord, Findable, Stand;
    var m := Bare(name, DEFLATE, |data|, false, data, 0);
    BareWritable(name, DEFLATE, |data|, false, data, 0);
    SingleOpenable(m, true, false, []);
    SizeLeadsAway(Single(m, true, false, []));
    ReadsNothing(Single(m, true, false, []), signed, junk);
  }

  /** An extensible data sector hides the Zip64 end record it belongs to. */
  lemma HiddenRecord(name: seq<byte>, data: seq<byte>, signed: bool, junk: Memory)
    requires |name| < 0x1_0000 && 0 < |data| < 0x8000_0000
    ensures var a := Single(Bare(name, DEFLATE, |data|, false, data, 0), false, true, Zeros(END64_SIZE));
            Openable(a) && Parse(Write(a), signed, junk) == Parsed([], [], Failed)
  {
    hide Writable, Parse, Write, LedAway, ClaimsNone, Local, CdRecord, Findable, Stand, Field;
    var m, sector := Bare(name, DEFLATE, |data|, false, data, 0), Zeros(END64_SIZE);
    BareWritable(name, DEFLATE, |data|, false, data, 0);
    SingleOpenable(m, false, true, sector);
    FirstByte(sector, 0);
    SectorHides(Single(m, false, true, sector));
    ReadsNothing(Single(m, false, true, sector), signed, junk);
  }

  lemma FirstByte(s: seq<byte>, at: nat)
    requires at + 4 <= |s|
    ensures Field(s, at, 4) % 256 == s[at]
  {
    assert s[at..at + 4][0] == s[at];
  }

  /** Put behind a program or any other data that does not start with a P, an archive is opened without
      a member: its directory is found, but its header offsets are not shifted. */
  lemma Prepended(prefix: seq<byte>, name: seq<byte>, data: seq<byte>, signed: bool, junk: Memory)
    requires |prefix| >= LOCAL_SIZE && prefix[0] != 0x50 && |name| < 0x1_0000 && 0 < |data| && |prefix| + |data| < 0x8000_0000
    ensures var m := Bare(name, DEFLATE, |data|, false, data, 0);
            var a := Single(m, false, false, []);
            Openable(a) && Findable(a.(body := prefix + a.body))
            && Parse(Write(a), signed, junk).outcome == Complete
            && Parse(Write(a.(body := prefix + a.body)), signed, junk) == Parsed([], [], Failed)
  {
    hide Writable, Parse, Local, CdRecord, Findable, Stand, Field, Write, Seen, HasAt;
    var m := Bare(name, DEFLATE, |data|, false, data, 0);
    var a := Single(m, false, false, []);
    BareWritable(name, DEFLATE, |data|, false, data, 0);
    SingleRead(m, signed, junk);
    SingleFindable(m, a.(body := prefix + a.body), prefix + a.body, false, false, []);
    var b := a.(body := prefix + a.body);
    FindableFacts(b);
    WrittenParts(b, Write(b), |b.body|, |CdBytes(b.members)|, |Front(b)|);
    StartsOff(Write(b), prefix, a.body);
    OneMember(m);
    NoneStand(Write(b), b.members);
    ReadsUpTo(b, 0, signed, junk);
  }

  lemma StartsOff(file: seq<byte>, prefix: seq<byte>, rest: seq<byte>)
    requires |file| < U64 - U32 && |prefix| >= LOCAL_SIZE && prefix[0] != 0x50 && HasAt(file, 0, prefix + rest)
    ensures NoLocalAt(file, 0)
  {
    hide Field;
    assert file[0..|prefix + rest|][0] == (prefix + rest)[0];
    FirstByte(FileBytes(file, LOCAL_SIZE, 0), 0);
  }

  lemma NoneStand(file: seq<byte>, ms: seq<Member>)
    ensures AllWritable(ms[..0]) && Stand(file, ms[..0]) && AllWritable([]) && SeenAll([], true) == [] && SeenAll([], false) == [] && ms[..0] == []
  {
  }

  // ---------- 65535 members ----------

  /** Many empty members. */
  function Crowd(n: nat, name: byte, h: nat): (ms: seq<Member>)
    ensures |ms| == n && forall i :: 0 <= i < n ==> ms[i] == Bare([name], STORED, 0, false, [], h + 31 * i)
  {
    seq(n, i requires 0 <= i < n => Bare([name], STORED, 0, false, [], h + 31 * i))
  }

  lemma CrowdStep(n: nat, name: byte, h: nat)
    requires n > 0
    ensures Crowd(n, name, h)[0] == Bare([name], STORED, 0, false, [], h) && Crowd(n, name, h)[1..] == Crowd(n - 1, name, h + 31)
  {
    hide Bare;
  }

  lemma {:induction false} CrowdWritable(n: nat, name: byte, h: nat)
    requires h + 31 * n < SATURATED
    ensures var ms := Crowd(n, name, h);
            AllWritable(ms) && InLine(ms, h) && |Locals(ms)| == 31 * n && |CdBytes(ms)| == 47 * n
    decreases n
  {
    hide Writable, Local, CdRecord, Bare, Crowd;
    var ms := Crowd(n, name, h);
    if n > 0 {
      BareWritable([name], STORED, 0, false, [], h);
      CrowdStep(n, name, h);
      CrowdWritable(n - 1, name, h + 31);
      FirstOf(ms);
    } else {
      NoCrowd(name, h);
    }
  }

  lemma NoCrowd(name: byte, h: nat)
    ensures Crowd(0, name, h) == []
  {
  }

  lemma FirstOf(ms: seq<Member>)
    requires ms != [] && Writable(ms[0]) && AllWritable(ms[1..])
    ensures AllWritable(ms)
  {
    hide Writable;
    assert forall i :: 0 < i < |ms| ==> ms[i] == ms[1..][i - 1];
  }

  /** 76 bytes into the directory lies a zero byte of the second record. */
  lemma ZeroAt(name: byte, h: nat)
    requires h < SATURATED
    ensures var s := CdRecord(Bare([name], STORED, 0, false, [], h)); |s| == 47 && s[29] == 0
  {
    hide Writable, Local, CdHeader, ExtraBytes, Extras, Le, LeBytes;
    var m := Bare([name], STORED, 0, false, [], h);
    BareWritable([name], STORED, 0, false, [], h);
    CdHeaderFields(m);
    SmallField(CdHeader(m), 28);
  }

  lemma SmallField(s: seq<byte>, at: nat)
    requires at + 2 <= |s| && Field(s, at, 2) == 1
    ensures s[at + 1] == 0
  {
    assert s[at..at + 2] == [s[at], s[at + 1]];
    Le2(s[at], s[at + 1]);
  }

  lemma NotAtZero(file: seq<byte>, p: nat)
    requires |file| < U64 - U32 && p < |file| && file[p] == 0
    ensures NoRecordAt(file, p)
  {
    hide Field;
    var head := FileBytes(file, CD_SIZE, p);
    if |head| == CD_SIZE {
      FirstByte(head, 0);
    }
  }

  /** 65535 empty members, with their count saturated but not the offset of the directory. */
  function Crowded(name: byte): Archive
    requires AllWritable(Crowd(65535, name, 0))
  {
    Archive(Crowd(65535, name, 0), Locals(Crowd(65535, name, 0)), true, false, false, [], [], Zeros(4), Zeros(2), Zeros(20))
  }

  /** The directory is taken to start where the Zip64 records, which are passed over, make it appear, and
      all members are missed. */
  lemma SaturatedCount(name: byte, signed: bool, junk: Memory)
    ensures AllWritable(Crowd(65535, name, 0))
    ensures Openable(Crowded(name)) && Parse(Write(Crowded(name)), signed, junk) == Parsed([], [], Failed)
  {
    hide Writable, Parse, Write, CdRecord, Bare, Locals, CdBytes, AllWritable, HasAt, Local, Crowd, Stand, NoRecordAt;
    var ms := Crowd(65535, name, 0);
    CrowdWritable(65535, name, 0);
    var a := Crowded(name);
    HasAll(Locals(ms));
    InLineStand(Locals(ms), ms, 0);
    assert WritableArchive(a);
    WrittenParts(a, Write(a), |Locals(ms)|, |CdBytes(ms)|, |Front(a)|);
    CrowdMisses(name, Write(a), |Locals(ms)|);
    ReadsNothing(a, signed, junk);
  }

  lemma CrowdMisses(name: byte, file: seq<byte>, h: nat)
    requires |file| < U64 - U32 && HasAt(file, h, CdBytes(Crowd(65535, name, 0)))
    ensures NoRecordAt(file, h + 76)
  {
    hide Writable, NoRecordAt, CdRecord, Local, Bare, Crowd;
    var ms := Crowd(65535, name, 0);
    var m, m' := Bare([name], STORED, 0, false, [], 0), Bare([name], STORED, 0, false, [], 31);
    ZeroAt(name, 0);
    ZeroAt(name, 31);
    CrowdStep(65535, name, 0);
    CrowdStep(65534, name, 31);
    var rest := CdBytes(ms[1..][1..]);
    assert CdBytes(ms) == CdRecord(m) + (CdRecord(m') + rest);
    assert CdBytes(ms)[76] == CdRecord(m')[29];
    assert file[h + 76] == file[h..h + |CdBytes(ms)|][76];
    NotAtZero(file, h + 76);
  }

  // ---------- end records out of reach ----------

  /** An archive of no members with a comment of zeros. */
  function Commented(n: nat): Archive {
    Archive([], [], false, false, false, [], Zeros(n), Zeros(4), Zeros(2), Zeros(20))
  }

  /** An archive of nothing but its end record: the scan never runs. */
  lemma BareEnd(signed: bool, junk: Memory)
    ensures Openable(Commented(0)) && Parse(Write(Commented(0)), signed, junk) == Parsed([], [], NullScan)
  {
    hide Parse;
    var a := Commented(0);
    WrittenParts(a, Write(a), 0, 0, |Front(a)|);
    ParseTakes(a, Write(a), signed, junk);
  }

  lemma {:induction false} LeZero(k: nat)
    ensures forall i :: 0 <= i < k ==> LeBytes(0, k)[i] == 0
  {
    if k > 0 {
      LeZero(k - 1);
    }
  }

  lemma LeParts()
    ensures LeBytes(END_MAGIC, 4)[1] == 0x4b && LeBytes(END_MAGIC, 4)[2] == 0x05 && LeBytes(END_MAGIC, 4)[3] == 0x06
    ensures LeBytes(4074, 2)[0] == 234 && LeBytes(4074, 2)[1] == 15
  {
    assert LeBytes(END_MAGIC, 4)[1] == LeBytes(0x06054b, 3)[0] && LeBytes(END_MAGIC, 4)[2] == LeBytes(0x06054b, 3)[1];
    assert LeBytes(END_MAGIC, 4)[3] == LeBytes(0x06054b, 3)[2];
    assert LeBytes(0x06054b, 3)[1] == LeBytes(0x0605, 2)[0] && LeBytes(0x06054b, 3)[2] == LeBytes(0x0605, 2)[1];
    assert LeBytes(4074, 2)[1] == LeBytes(15, 1)[0];
  }

  lemma EndBytes()
    ensures var s := EndRecord(Commented(4074), 0, 0, 0); |s| == END_SIZE && forall i :: 1 <= i < END_SIZE ==> s[i] != 0x50
  {
    hide LeBytes;
    LeZero(2);
    LeZero(4);
    LeParts();
  }

  lemma NotMagic(file: seq<byte>, j: nat)
    requires j + 4 <= |file| && file[j] != 0x50
    ensures Field(file, j, 4) != END_MAGIC
  {
    assert file[j..j + 4][0] == file[j];
    assert Le(file[j..j + 4]) % 256 == file[j];
  }

  /** A comment of 4074 bytes moves the end record to the first byte of the window, where it is not
      looked for. */
  lemma FarEnd(signed: bool, junk: Memory)
    ensures var a := Commented(4074); Openable(a) && Parse(Write(a), signed, junk) == Parsed([], [], Failed)
  {
    hide Parse, Field, EndRecord, HasAt, LeBytes;
    var a := Commented(4074);
    EndBytes();
    var file, end := Write(a), EndRecord(a, 0, 0, 0);
    assert Front(a) == [] && file == end + a.comment;
    forall j | 0 < j && j + END_SIZE <= |file| ensures Field(file, j, 4) != END_MAGIC {
      assert file[j] == if j < END_SIZE then end[j] else 0;
      NotMagic(file, j);
    }
    ParseTakes(a, file, signed, junk);
  }

  // ---------- a walk without an end ----------

  /** A directory record with its header offset saturated and a record in its extra area that leads back to
      itself, and an end record that claims it. */
  function LoopingFile(): (s: seq<byte>)
    ensures |s| == 72
  {
    LoopingHead() + [2, 0, 252, 255] + LoopingEnd()
  }

  function LoopingHead(): (s: seq<byte>)
    ensures |s| == CD_SIZE
  {
    LeBytes(CD_MAGIC, 4) + Zeros(26) + LeBytes(4, 2) + Zeros(10) + LeBytes(SATURATED, 4)
  }

  function LoopingEnd(): (s: seq<byte>)
    ensures |s| == END_SIZE
  {
    LeBytes(END_MAGIC, 4) + Zeros(6) + LeBytes(1, 2) + LeBytes(50, 4) + Zeros(6)
  }

  lemma LoopingFields()
    ensures var s := LoopingHead(); Field(s, 0, 4) == CD_MAGIC && Field(s, 28, 2) == 0 && Field(s, 30, 2) == 4 && Field(s, 42, 4) == SATURATED
    ensures var s := LoopingEnd(); Field(s, 0, 4) == END_MAGIC && Field(s, 10, 2) == 1 && Field(s, 12, 4) == 50 && Field(s, 16, 4) == 0 && Field(s, 20, 2) == 0
  {
    hide LeBytes, Le;
    var h, e := LoopingHead(), LoopingEnd();
    assert h[0..4] == LeBytes(CD_MAGIC, 4) && h[30..32] == LeBytes(4, 2) && h[42..46] == LeBytes(SATURATED, 4);
    assert e[0..4] == LeBytes(END_MAGIC, 4) && e[10..12] == LeBytes(1, 2) && e[12..16] == LeBytes(50, 4);
    ZeroField(h, 28, 2);
    ZeroField(e, 16, 4);
    ZeroField(e, 20, 2);
    FieldIs(h, 0, 4, CD_MAGIC);
    FieldIs(h, 30, 2, 4);
    FieldIs(h, 42, 4, SATURATED);
    FieldIs(e, 0, 4, END_MAGIC);
    FieldIs(e, 10, 2, 1);
    FieldIs(e, 12, 4, 50);
  }

  lemma ZeroField(s: seq<byte>, at: nat, k: nat)
    requires at + k <= |s| && (k == 2 || k == 4) && forall i :: at <= i < at + k ==> s[i] == 0
    ensures Field(s, at, k) == 0
  {
    LeZero(k);
    assert s[at..at + k] == LeBytes(0, k);
    Widths();
    LeRoundTrip(0, k);
  }

  lemma LoopingRecord(file: seq<byte>, signed: bool, junk: Memory)
    requires |file| == 72 && file[..CD_SIZE] == LoopingHead() && file[46..50] == [2, 0, 252, 255]
    ensures ParseEntry(file, 0, signed, junk) == Loops
  {
    hide LoopingHead, Field, WalkExtra, FileBytes, ReadName, Located, Pass;
    LoopingFields();
    var z := FixedSizes(LoopingHead(), signed);
    assert FileBytes(file, CD_SIZE, 0) == LoopingHead();
    EndlessExtra(file, 46, z);
  }

  /** The reader does not come back from this file. */
  lemma Looping(signed: bool, junk: Memory)
    ensures Parse(LoopingFile(), signed, junk) == Parsed([], [], NoEnd)
  {
    hide LoopingHead, LoopingEnd, Field, ParseEntry;
    var file := LoopingFile();
    LoopingFields();
    assert file[..CD_SIZE] == LoopingHead() && file[46..50] == [2, 0, 252, 255] && file[50..72] == LoopingEnd() && file[72..72] == [];
    LoopingRecord(file, signed, junk);
    assert FileBytes(file, 72, 0) == file;
    EndField(file);
  }

  lemma EndField(file: seq<byte>)
    requires |file| == 72 && file[50..72] == LoopingEnd()
    ensures LastEnd(file, 50) == 50
  {
    hide LoopingEnd, LoopingHead, Field;
    LoopingFields();
    HasField(file, 50, LoopingEnd(), 0, 4);
  }
}
