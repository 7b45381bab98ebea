/** The archive layout of the PKWARE APPNOTE 6.3, as a specification: sections 4.3.7 (local header),
    4.3.12 (directory header), 4.3.14 and 4.3.15 (Zip64 end record and locator), 4.3.16 (end record)
    and 4.5.3 (Zip64 extra field).  Offsets count from the start of the file. */
module ZipWriter {
  import opened Bytes
  import opened Container
  import opened ZipReader

  /** `file` holds `s` at `p`. */
  predicate HasAt(file: seq<byte>, p: nat, s: seq<byte>) {
    p + |s| <= |file| && file[p..p + |s|] == s
  }

  datatype Extra = Extra(id: nat, data: seq<byte>)

  /** A member as its writer has it, its local record at `header`.  `wideSize`, `wideCsize` and `wideHeader` tell which fields the
      directory header saturates, moving their values to the Zip64 extra field; the field may also
      hold a disk number, and stands between other extra fields.  The byte blocks `localHead`,
      `made`, `stamp` and `attributes` hold the header fields that say nothing about place or size. */
  datatype Member = Member(
    name: seq<byte>, method_: nat, size: nat, data: seq<byte>, header: nat, localHead: seq<byte>, localExtra: seq<byte>, trailer: seq<byte>,
    made: seq<byte>, stamp: seq<byte>, attributes: seq<byte>, wideSize: bool, wideCsize: bool, wideHeader: bool,
    disk: seq<byte>, before: seq<Extra>, after: seq<Extra>, comment: seq<byte>)

  function Local(m: Member): seq<byte>
    requires |m.localHead| == 22
  {
    LeBytes(LOCAL_MAGIC, 4) + m.localHead + LeBytes(|m.name|, 2) + LeBytes(|m.localExtra|, 2) + (m.name + m.localExtra + m.data + m.trailer)
  }

  function ExtraRecord(e: Extra): (s: seq<byte>)
    ensures |s| == 4 + |e.data|
  {
    LeBytes(e.id, 2) + LeBytes(|e.data|, 2) + e.data
  }

  function ExtraBytes(es: seq<Extra>): seq<byte> {
    if es == [] then [] else ExtraRecord(es[0]) + ExtraBytes(es[1..])
  }

  function Optional(wide: bool, v: nat): (s: seq<byte>)
    ensures |s| == if wide then 8 else 0
  {
    if wide then LeBytes(v, 8) else []
  }

  /** The data of the Zip64 extra field. */
  function Zip64Data(m: Member): seq<byte> {
    Optional(m.wideSize, m.size) + Optional(m.wideCsize, |m.data|) + Optional(m.wideHeader, m.header) + m.disk
  }

  function Extras(m: Member): seq<Extra> {
    m.before + (if m.wideSize || m.wideCsize || m.wideHeader then [Extra(1, Zip64Data(m))] else []) + m.after
  }

  /** The value of a 32-bit field. */
  function Narrow(wide: bool, v: nat): nat {
    if wide then SATURATED else v
  }

  /** The fixed part of a directory header. */
  function CdHeader(m: Member): seq<byte> {
    LeBytes(CD_MAGIC, 4) + m.made + LeBytes(m.method_, 2) + m.stamp
    + LeBytes(Narrow(m.wideCsize, |m.data|), 4) + LeBytes(Narrow(m.wideSize, m.size), 4)
    + LeBytes(|m.name|, 2) + LeBytes(|ExtraBytes(Extras(m))|, 2) + LeBytes(|m.comment|, 2)
    + m.attributes + LeBytes(Narrow(m.wideHeader, m.header), 4)
  }

  function CdRecord(m: Member): seq<byte> {
    CdHeader(m) + m.name + ExtraBytes(Extras(m)) + m.comment
  }

  /** A field that is not saturated holds its value, which is below the saturation mark. */
  predicate FieldFits(wide: bool, v: nat) {
    v < if wide then U64 else SATURATED
  }

  predicate PlainExtras(es: seq<Extra>) {
    forall i :: 0 <= i < |es| ==> es[i].id < 0x1_0000 && es[i].id != 1 && |es[i].data| < 0x1_0000
  }

  /** The member can be written. */
  predicate Writable(m: Member) {
    && |m.localHead| == 22 && |m.made| == 6 && |m.stamp| == 8 && |m.attributes| == 8 && (|m.disk| == 0 || |m.disk| == 4)
    && |m.name| < 0x1_0000 && |m.localExtra| < 0x1_0000 && |m.comment| < 0x1_0000 && m.method_ < 0x1_0000
    && |ExtraBytes(Extras(m))| < 0x1_0000 && PlainExtras(m.before) && PlainExtras(m.after)
    && FieldFits(m.wideSize, m.size) && FieldFits(m.wideCsize, |m.data|) && FieldFits(m.wideHeader, m.header)
  }

  predicate AllWritable(ms: seq<Member>) {
    forall i :: 0 <= i < |ms| ==> Writable(ms[i])
  }

  /** The local records stand where the members' header offsets say: in any order, with anything before,
      between and behind them. */
  predicate Stand(body: seq<byte>, ms: seq<Member>)
    requires AllWritable(ms)
  {
    forall i :: 0 <= i < |ms| ==> HasAt(body, ms[i].header, Local(ms[i]))
  }

  /** The usual body: the local records one after another. */
  function Locals(ms: seq<Member>): seq<byte>
    requires AllWritable(ms)
  {
    if ms == [] then [] else Local(ms[0]) + Locals(ms[1..])
  }

  predicate InLine(ms: seq<Member>, h: nat)
    requires AllWritable(ms)
  {
    ms == [] || (ms[0].header == h && InLine(ms[1..], h + |Local(ms[0])|))
  }

  function CdBytes(ms: seq<Member>): seq<byte> {
    if ms == [] then [] else CdRecord(ms[0]) + CdBytes(ms[1..])
  }

  /** An archive: its members in the order of the directory, the part of the file in front of the
      directory, which fields of the end record are saturated, the extensible data sector of the Zip64
      end record, the comment, and the disk and version fields of the end records. */
  datatype Archive = Archive(members: seq<Member>, body: seq<byte>, wideCount: bool, wideSize: bool, wideOffset: bool,
    sector: seq<byte>, comment: seq<byte>, disks: seq<byte>, onDisk: seq<byte>, versions: seq<byte>)

  predicate IsZip64(a: Archive) {
    a.wideCount || a.wideSize || a.wideOffset
  }

  function End64(n: nat, size: nat, offset: nat, versions: seq<byte>): seq<byte> {
    LeBytes(END64_MAGIC, 4) + versions + LeBytes(n, 8) + LeBytes(n, 8) + LeBytes(size, 8) + LeBytes(offset, 8)
  }

  function Locator(end64: nat): seq<byte> {
    LeBytes(LOCATOR_MAGIC, 4) + LeBytes(0, 4) + LeBytes(end64, 8) + LeBytes(1, 4)
  }

  function EndRecord(a: Archive, n: nat, size: nat, offset: nat): seq<byte> {
    LeBytes(END_MAGIC, 4) + a.disks + a.onDisk + LeBytes(if a.wideCount then 0xffff else n, 2)
    + LeBytes(Narrow(a.wideSize, size), 4) + LeBytes(Narrow(a.wideOffset, offset), 4) + LeBytes(|a.comment|, 2)
  }

  predicate WritableArchive(a: Archive) {
    && AllWritable(a.members)
    && |a.disks| == 4 && |a.onDisk| == 2 && |a.versions| == 20 && |a.comment| < 0x1_0000
    && (!a.wideCount ==> |a.members| < 0xffff)
    && (!a.wideSize ==> |CdBytes(a.members)| < SATURATED)
    && (!a.wideOffset ==> |a.body| < SATURATED)
    && |a.body| + |CdBytes(a.members)| + |a.sector| < U64 - 2 * U32
    && |a.members| < U64
  }

  /** The Zip64 end record with its sector. */
  function Tail64(a: Archive): seq<byte> {
    End64(|a.members|, |CdBytes(a.members)|, |a.body|, a.versions) + a.sector
  }

  /** Everything in front of the end record. */
  function Front(a: Archive): seq<byte> {
    var cd := CdBytes(a.members);
    a.body + cd + if IsZip64(a) then Tail64(a) + Locator(|a.body| + |cd|) else []
  }

  /** The file. */
  function Write(a: Archive): seq<byte> {
    Front(a) + EndRecord(a, |a.members|, |CdBytes(a.members)|, |a.body|) + a.comment
  }
}
