/** The identifier of a container: the shortcut over the first bytes of the file, and the way through
    the whole archive it falls back to (src/AFF4Containers.cc). */
module FastPath {
  import opened Bytes
  import opened Container
  import opened ZipReader
  import opened ZipWriter
  import opened ZipRoundTrip
  import opened ZipArchive
  import opened ZipFaults
  import opened Options

  const RESOURCE_BUFFER := 4096
  const NAME_LENGTH := 21
  const DESCRIPTOR_MAGIC := 0x08074b50
  const DESCRIPTOR_SIZE := 24

  /** "container.description". */
  const DESCRIPTION: seq<byte> := [99, 111, 110, 116, 97, 105, 110, 101, 114, 46, 100, 101, 115, 99, 114, 105, 112, 116, 105, 111, 110]

  lemma DescriptionName()
    ensures |DESCRIPTION| == NAME_LENGTH && forall i :: 0 <= i < NAME_LENGTH ==> DESCRIPTION[i] == "container.description"[i] as int
  {
  }

  /** What the shortcut comes to: an identifier, an early empty answer, the fallback, or data that
      does not lie in the buffer. */
  datatype Fast = Found(resource: seq<byte>) | Empty | Slow | PastBuffer

  /** The first Zip64 data descriptor at `i` or later. */
  function DescriptorAt(buf: seq<byte>, i: nat): (r: Option<nat>)
    requires |buf| == RESOURCE_BUFFER
    ensures r.Some? ==> i <= r.value && r.value + DESCRIPTOR_SIZE <= |buf| && Field(buf, r.value, 4) == DESCRIPTOR_MAGIC
    ensures forall j :: i <= j && j + DESCRIPTOR_SIZE <= |buf| && (r.Some? ==> j < r.value) ==> Field(buf, j, 4) != DESCRIPTOR_MAGIC
    decreases |buf| - i
  {
    if i + DESCRIPTOR_SIZE > |buf| then None
    else if Field(buf, i, 4) == DESCRIPTOR_MAGIC then Some(i)
    else DescriptorAt(buf, i + 1)
  }

  method FindDescriptor(buf: seq<byte>) returns (r: Option<nat>)
    requires |buf| == RESOURCE_BUFFER
    ensures r == DescriptorAt(buf, 0)
    ensures r.Some? ==> r.value + DESCRIPTOR_SIZE <= |buf| && Field(buf, r.value, 4) == DESCRIPTOR_MAGIC
    ensures forall j :: 0 <= j && j + DESCRIPTOR_SIZE <= |buf| && (r.Some? ==> j < r.value) ==> Field(buf, j, 4) != DESCRIPTOR_MAGIC
  {
    hide Field;
    var offset := 0;
    while Field(buf, offset, 4) != DESCRIPTOR_MAGIC
      invariant 0 <= offset <= RESOURCE_BUFFER - DESCRIPTOR_SIZE && DescriptorAt(buf, offset) == DescriptorAt(buf, 0)
      decreases RESOURCE_BUFFER - offset
    {
      offset := offset + 1;
      if offset > RESOURCE_BUFFER - DESCRIPTOR_SIZE {
        return None;
      }
    }
    return Some(offset);
  }

  /** The size from a Zip64 field in the first local header, 0 if there is none. */
  function ExtraSize(buf: seq<byte>): nat
    requires |buf| == RESOURCE_BUFFER
  {
    var at := LOCAL_SIZE + NAME_LENGTH;
    var dataSize := Field(buf, at + 2, 2);
    if Field(buf, 28, 2) == 0 || Field(buf, at, 2) != 1 || dataSize < 8 then 0
    else
      var size := Field(buf, at + 4, 8);
      if Field(buf, 18, 4) == SATURATED && dataSize - 8 >= 8 && (size == 0 || size == U64 - 1) then Field(buf, at + 12, 8) else size
  }

  /** The size of the first segment: the header's, or the Zip64 field's, or the data descriptor's. */
  function EntrySize(buf: seq<byte>): nat
    requires |buf| == RESOURCE_BUFFER
  {
    if Field(buf, 22, 4) != SATURATED then Field(buf, 22, 4)
    else
      var size := ExtraSize(buf);
      if size != 0 && size != U64 - 1 then size
      else
        match DescriptorAt(buf, 0)
        case None => size
        case Some(d) => Field(buf, d + 8, 8)
  }

  /** The largest size let through: the source takes the name and extra lengths from the header's size
      before it takes that from the buffer's, in 64-bit arithmetic. */
  function Limit(extra: nat): nat {
    Wrap(RESOURCE_BUFFER - Wrap(LOCAL_SIZE - NAME_LENGTH - extra))
  }

  function Shortcut(buf: seq<byte>): Fast
    requires |buf| == RESOURCE_BUFFER
  {
    if Field(buf, 0, 4) != LOCAL_MAGIC then Empty
    else if Field(buf, 8, 2) != STORED || Field(buf, 26, 2) != NAME_LENGTH || buf[LOCAL_SIZE..LOCAL_SIZE + NAME_LENGTH] != DESCRIPTION then Slow
    else
      var size, extra := EntrySize(buf), Field(buf, 28, 2);
      if size == 0 || size > Limit(extra) then Slow
      else
        var data := LOCAL_SIZE + NAME_LENGTH + extra;
        if data + size <= |buf| then Found(buf[data..data + size]) else PastBuffer
  }

  /** The fallback: the archive's comment, unless the description segment says something. */
  function Fallback(p: Parsed, zip: Zip): seq<byte> {
    if p.entries == [] then []
    else
      match Lookup(p.entries, DESCRIPTION)
      case None => p.comment
      case Some(e) =>
        match Contents(zip, e)
        case None => p.comment
        case Some(data) => if data == [] then p.comment else data
  }

  /** getResourceID; None when the shortcut reads past its buffer. */
  method GetResourceID(zip: Zip, signed: bool, junk: Memory) returns (r: Option<seq<byte>>)
    requires |zip.file| < U64 - U32
    ensures |zip.file| < 4096 || zip.file[..4] != [0x50, 0x4b, 3, 4] ==> r == Some([])
    ensures |zip.file| >= RESOURCE_BUFFER ==>
              r == match Shortcut(zip.file[..RESOURCE_BUFFER])
                   case Found(resource) => Some(resource)
                   case Empty => Some([])
                   case PastBuffer => None
                   case Slow => Some(Fallback(Parse(zip.file, signed, junk), zip))
  {
    hide Parse, Contents, Field, EntrySize, Limit;
    if |zip.file| < RESOURCE_BUFFER {
      return Some([]);
    }
    var buf := zip.file[..RESOURCE_BUFFER];
    if Field(buf, 0, 4) != LOCAL_MAGIC {
      return Some([]);
    }
    FieldBytes(buf, 0, 0x50, 0x4b, 3, 4);
    assert zip.file[..4] == buf[..4];
    if Field(buf, 8, 2) == STORED && Field(buf, 26, 2) == NAME_LENGTH && buf[LOCAL_SIZE..LOCAL_SIZE + NAME_LENGTH] == DESCRIPTION {
      var segmentEntrySize := ReadEntrySize(buf);
      var extra := Field(buf, 28, 2);
      if !(segmentEntrySize == 0 || segmentEntrySize > Limit(extra)) {
        var data := LOCAL_SIZE + NAME_LENGTH + extra;
        if data + segmentEntrySize > |buf| {
          return None;
        }
        return Some(buf[data..data + segmentEntrySize]);
      }
    }
    var zipFile := new ZipFile(zip.file, signed, junk);
    var o := zipFile.ParseCD();
    if zipFile.entries == [] {
      return Some([]);
    }
    var resource := zipFile.comment;
    var stream := Lookup(zipFile.entries, DESCRIPTION);
    if stream.Some? {
      var content := Contents(zip, stream.value);
      if content.Some? && content.value != [] {
        resource := content.value;
      }
    }
    return Some(resource);
  }

  method ReadEntrySize(buf: seq<byte>) returns (size: nat)
    requires |buf| == RESOURCE_BUFFER
    ensures size == EntrySize(buf)
  {
    hide Field, DescriptorAt;
    if Field(buf, 22, 4) != SATURATED {
      return Field(buf, 22, 4);
    }
    size := 0;
    if Field(buf, 28, 2) != 0 {
      var at := LOCAL_SIZE + NAME_LENGTH;
      if Field(buf, at, 2) == 1 {
        var dataSize := Field(buf, at + 2, 2);
        var exHeaderOffset := 4;
        if dataSize >= 8 {
          size := Field(buf, at + exHeaderOffset, 8);
          exHeaderOffset := exHeaderOffset + 8;
          dataSize := dataSize - 8;
        }
        if Field(buf, 18, 4) == SATURATED && dataSize >= 8 {
          if size == 0 || size == U64 - 1 {
            size := Field(buf, at + exHeaderOffset, 8);
          }
        }
      }
    }
    if size == 0 || size == U64 - 1 {
      var dd64 := FindDescriptor(buf);
      if dd64.Some? {
        size := Field(buf, dd64.value + 8, 8);
      }
    }
  }

  // ---------- the shortcut is right ----------

  /** The guard lets a size through when it exceeds the room of the buffer by up to twice the lengths
      it should have taken off; it answers from the buffer exactly when the data fits. */
  lemma GuardLimit(extra: nat)
    requires extra < 0x1_0000
    ensures Limit(extra) == RESOURCE_BUFFER - LOCAL_SIZE + NAME_LENGTH + extra
  {
  }

  // ---------- where the size of the description stands ----------

  /** The first record is a stored description that is not empty. */
  predicate Description(m: Member) {
    && |m.localHead| == 22 && m.name == DESCRIPTION && m.method_ == STORED && m.size == |m.data|
    && Field(m.localHead, 4, 2) == STORED && 0 < |m.data| < U64 - 1
  }

  /** The local header holds the size. */
  predicate SizeInHeader(m: Member)
    requires |m.localHead| == 22
  {
    Field(m.localHead, 18, 4) == |m.data| < SATURATED
  }

  /** The local header is saturated, and the local extra area begins with a Zip64 field that holds the size. */
  ghost predicate SizeInField(m: Member)
    requires |m.localHead| == 22
  {
    Field(m.localHead, 18, 4) == SATURATED &&
    exists d, rest :: HoldsSize(m, d, rest)
  }

  predicate HoldsSize(m: Member, d: seq<byte>, rest: seq<byte>) {
    m.localExtra == ExtraRecord(Extra(1, d)) + rest && 8 <= |d| < 0x1_0000 && d[..8] == LeBytes(|m.data|, 8)
  }

  /** Eight bytes that a writer puts where it does not know a size yet: all ones, or zeros. */
  predicate Unset(s: seq<byte>)
    requires |s| == 8
  {
    (forall i :: 0 <= i < 8 ==> s[i] == 255) || (forall i :: 0 <= i < 8 ==> s[i] == 0)
  }

  /** The local extra area is empty, or begins with another field, or with a Zip64 one that is not set. */
  ghost predicate FieldUnset(m: Member) {
    m.localExtra == [] || exists e, rest :: UnsetField(m, e, rest)
  }

  predicate UnsetField(m: Member, e: Extra, rest: seq<byte>) {
    && m.localExtra == ExtraRecord(e) + rest && e.id < 0x1_0000 && |e.data| < 0x1_0000
    && (e.id == 1 && |e.data| >= 8 ==> Unset(e.data[..8]) && (|e.data| >= 16 ==> Unset(e.data[8..16])))
  }

  /** No data descriptor's signature stands in the buffer before `d`. */
  predicate NoDescriptorBefore(file: seq<byte>, d: nat)
    requires |file| >= RESOURCE_BUFFER
  {
    forall j :: 0 <= j < d && j + DESCRIPTOR_SIZE <= RESOURCE_BUFFER ==> Field(file, j, 4) != DESCRIPTOR_MAGIC
  }

  /** The header is saturated, no field holds the size, and the Zip64 data descriptor behind the data does;
      it lies in the buffer and is the first one there. */
  ghost predicate SizeInDescriptor(m: Member, file: seq<byte>)
    requires |m.localHead| == 22 && |file| >= RESOURCE_BUFFER
  {
    && Field(m.localHead, 18, 4) == SATURATED && FieldUnset(m)
    && |m.trailer| >= DESCRIPTOR_SIZE && Field(m.trailer, 0, 4) == DESCRIPTOR_MAGIC && Field(m.trailer, 8, 8) == |m.data|
    && var d := LOCAL_SIZE + NAME_LENGTH + |m.localExtra| + |m.data|;
       d + DESCRIPTOR_SIZE <= RESOURCE_BUFFER && NoDescriptorBefore(file, d)
  }

  ghost predicate SizeTold(m: Member, file: seq<byte>)
    requires |m.localHead| == 22 && |file| >= RESOURCE_BUFFER
  {
    SizeInHeader(m) || SizeInField(m) || SizeInDescriptor(m, file)
  }

  /** The local extra area of the first record, in the buffer. */
  lemma ExtraPart(file: seq<byte>, m: Member, a: seq<byte>, rest: seq<byte>, k: nat)
    requires |file| >= RESOURCE_BUFFER && |m.localHead| == 22 && |m.name| == NAME_LENGTH && HasAt(file, 0, Local(m))
    requires m.localExtra == a + rest && k <= |a| && LOCAL_SIZE + NAME_LENGTH + k <= RESOURCE_BUFFER
    ensures file[..RESOURCE_BUFFER][LOCAL_SIZE + NAME_LENGTH..LOCAL_SIZE + NAME_LENGTH + k] == a[..k]
  {
    hide LeBytes;
    var head := LeBytes(LOCAL_MAGIC, 4) + m.localHead + LeBytes(|m.name|, 2) + LeBytes(|m.localExtra|, 2) + m.name;
    assert Local(m) == head + (a + (rest + m.data + m.trailer));
    HasPart(file, 0, head, a + (rest + m.data + m.trailer), LOCAL_SIZE + NAME_LENGTH);
    HasPart(file, LOCAL_SIZE + NAME_LENGTH, a, rest + m.data + m.trailer, LOCAL_SIZE + NAME_LENGTH + |a|);
    var p := LOCAL_SIZE + NAME_LENGTH;
    assert file[..RESOURCE_BUFFER][p..p + k] == file[p..p + |a|][..k];
  }

  /** A field of the extra area, in the buffer. */
  lemma ExtraField(file: seq<byte>, m: Member, a: seq<byte>, rest: seq<byte>, at: nat, k: nat)
    requires |file| >= RESOURCE_BUFFER && |m.localHead| == 22 && |m.name| == NAME_LENGTH && HasAt(file, 0, Local(m))
    requires m.localExtra == a + rest && at + k <= |a| && LOCAL_SIZE + NAME_LENGTH + at + k <= RESOURCE_BUFFER
    ensures Field(file[..RESOURCE_BUFFER], LOCAL_SIZE + NAME_LENGTH + at, k) == Field(a, at, k)
  {
    hide Local, HasAt;
    ExtraPart(file, m, a, rest, at + k);
    var p, buf := LOCAL_SIZE + NAME_LENGTH, file[..RESOURCE_BUFFER];
    assert buf[p + at..p + at + k] == buf[p..p + at + k][at..] && a[at..at + k] == a[..at + k][at..];
  }

  lemma RecordFields(e: Extra)
    requires e.id < 0x1_0000 && |e.data| < 0x1_0000
    ensures var s := ExtraRecord(e); Field(s, 0, 2) == e.id && Field(s, 2, 2) == |e.data|
  {
    hide LeBytes, Le;
    var s := ExtraRecord(e);
    assert s[0..2] == LeBytes(e.id, 2) && s[2..4] == LeBytes(|e.data|, 2);
    FieldIs(s, 0, 2, e.id);
    FieldIs(s, 2, 2, |e.data|);
  }

  lemma RecordData(e: Extra, i: nat)
    requires i + 8 <= |e.data|
    ensures Field(ExtraRecord(e), 4 + i, 8) == Field(e.data, i, 8)
  {
    hide LeBytes;
    assert ExtraRecord(e)[4 + i..4 + i + 8] == e.data[i..i + 8];
  }

  /** What the Zip64 field of a record says. */
  lemma FieldSays(file: seq<byte>, m: Member, e: Extra, rest: seq<byte>)
    requires |file| >= RESOURCE_BUFFER && |m.localHead| == 22 && m.name == DESCRIPTION && HasAt(file, 0, Local(m)) && |m.localExtra| < 0x1_0000
    requires m.localExtra == ExtraRecord(e) + rest && e.id < 0x1_0000 && |e.data| < 0x1_0000
    ensures ExtraSize(file[..RESOURCE_BUFFER]) ==
              if e.id != 1 || |e.data| < 8 then 0
              else
                var size := Field(e.data, 0, 8);
                if Field(m.localHead, 14, 4) == SATURATED && |e.data| >= 16 && (size == 0 || size == U64 - 1) then Field(e.data, 8, 8) else size
  {
    hide Local, HasAt, Field, ExtraRecord;
    HeadFields(file, m);
    var a := ExtraRecord(e);
    RecordFields(e);
    ExtraField(file, m, a, rest, 0, 2);
    ExtraField(file, m, a, rest, 2, 2);
    if e.id == 1 && |e.data| >= 8 {
      ExtraField(file, m, a, rest, 4, 8);
      RecordData(e, 0);
      if |e.data| >= 16 {
        ExtraField(file, m, a, rest, 12, 8);
        RecordData(e, 8);
      }
    }
  }

  lemma UnsetValue(s: seq<byte>, at: nat)
    requires at + 8 <= |s| && Unset(s[at..at + 8])
    ensures Field(s, at, 8) == 0 || Field(s, at, 8) == U64 - 1
  {
    hide Le, LeBytes;
    var t := s[at..at + 8];
    Widths();
    if t[0] == 255 {
      var v := U64 - 1;
      Ones8(v);
      assert t == LeBytes(v, 8);
      LeRoundTrip(v, 8);
    } else {
      LeZero(8);
      assert t == LeBytes(0, 8);
      LeRoundTrip(0, 8);
    }
  }

  lemma {:induction false} OnesFrom(v: nat, k: nat)
    requires v + 1 == Pow256(k)
    ensures forall i :: 0 <= i < k ==> LeBytes(v, k)[i] == 255
  {
    if k > 0 {
      OnesFrom(v / 256, k - 1);
    }
  }

  lemma Ones8(v: nat)
    requires v + 1 == U64
    ensures forall i :: 0 <= i < 8 ==> LeBytes(v, 8)[i] == 255
  {
    Widths();
    OnesFrom(v, 8);
  }

  /** Wherever the size is told, the reader finds it. */
  lemma EntrySizeIs(file: seq<byte>, m: Member)
    requires |file| >= RESOURCE_BUFFER && Writable(m) && HasAt(file, 0, Local(m)) && Description(m) && SizeTold(m, file)
    ensures EntrySize(file[..RESOURCE_BUFFER]) == |m.data|
  {
    hide Local, HasAt, Field, LeBytes, Le, ExtraRecord, Extras, ExtraBytes, PlainExtras, ExtraSize, NoDescriptorBefore, DescriptorAt;
    HeadFields(file, m);
    if SizeInField(m) {
      var d, rest :| HoldsSize(m, d, rest);
      FieldSays(file, m, Extra(1, d), rest);
      FirstEight(d, |m.data|);
    } else if SizeInDescriptor(m, file) {
      FieldSilent(file, m);
      DescriptorSays(file, m);
    }
  }

  lemma FirstEight(d: seq<byte>, n: nat)
    requires |d| >= 8 && d[..8] == LeBytes(n, 8) && n < U64
    ensures Field(d, 0, 8) == n
  {
    hide LeBytes, Le;
    assert d[0..8] == d[..8];
    FieldIs(d, 0, 8, n);
  }

  /** A field that is not set, or not there, says nothing. */
  lemma FieldSilent(file: seq<byte>, m: Member)
    requires |file| >= RESOURCE_BUFFER && |m.localHead| == 22 && m.name == DESCRIPTION && HasAt(file, 0, Local(m)) && |m.localExtra| < 0x1_0000
    requires FieldUnset(m)
    ensures var size := ExtraSize(file[..RESOURCE_BUFFER]); size == 0 || size == U64 - 1
  {
    hide Local, HasAt, Field, ExtraRecord, Unset;
    HeadFields(file, m);
    if m.localExtra != [] {
      var e, rest :| UnsetField(m, e, rest);
      FieldSays(file, m, e, rest);
      if e.id == 1 && |e.data| >= 8 {
        assert e.data[0..8] == e.data[..8];
        UnsetValue(e.data, 0);
        if |e.data| >= 16 {
          UnsetValue(e.data, 8);
        }
      }
    }
  }

  /** Then the first descriptor in the buffer does. */
  lemma DescriptorSays(file: seq<byte>, m: Member)
    requires |file| >= RESOURCE_BUFFER && Writable(m) && HasAt(file, 0, Local(m)) && Description(m) && SizeInDescriptor(m, file)
    ensures var d := LOCAL_SIZE + NAME_LENGTH + |m.localExtra| + |m.data|;
            DescriptorAt(file[..RESOURCE_BUFFER], 0) == Some(d) && Field(file[..RESOURCE_BUFFER], d + 8, 8) == |m.data|
  {
    hide Field, Extras, ExtraBytes, PlainExtras, FieldUnset, HasAt, Local, DescriptorAt;
    var buf, d := file[..RESOURCE_BUFFER], LOCAL_SIZE + NAME_LENGTH + |m.localExtra| + |m.data|;
    TrailerPart(file, m, d);
    TrailerField(file, m.trailer, d, 0, 4);
    TrailerField(file, m.trailer, d, 8, 8);
    forall j | 0 <= j < d && j + DESCRIPTOR_SIZE <= RESOURCE_BUFFER ensures Field(buf, j, 4) != DESCRIPTOR_MAGIC {
      InBuffer(file, j);
    }
    assert DescriptorAt(buf, 0) == Some(d);
  }

  lemma InBuffer(file: seq<byte>, j: nat)
    requires |file| >= RESOURCE_BUFFER && j + 4 <= RESOURCE_BUFFER
    ensures Field(file[..RESOURCE_BUFFER], j, 4) == Field(file, j, 4)
  {
    assert file[..RESOURCE_BUFFER][j..j + 4] == file[j..j + 4];
  }

  lemma TrailerPart(file: seq<byte>, m: Member, d: nat)
    requires |m.localHead| == 22 && HasAt(file, 0, Local(m)) && d == LOCAL_SIZE + |m.name| + |m.localExtra| + |m.data|
    ensures HasAt(file, d, m.trailer)
  {
    hide LeBytes, HasAt;
    var head := LeBytes(LOCAL_MAGIC, 4) + m.localHead + LeBytes(|m.name|, 2) + LeBytes(|m.localExtra|, 2);
    assert Local(m) == (head + m.name + m.localExtra + m.data) + m.trailer;
    HasPart(file, 0, head + m.name + m.localExtra + m.data, m.trailer, d);
  }

  lemma TrailerField(file: seq<byte>, t: seq<byte>, d: nat, at: nat, k: nat)
    requires |file| >= RESOURCE_BUFFER && HasAt(file, d, t) && at + k <= |t| && d + at + k <= RESOURCE_BUFFER
    ensures Field(file[..RESOURCE_BUFFER], d + at, k) == Field(t, at, k)
  {
    SliceSlice(file, d, d + |t|, at, at + k);
    assert file[..RESOURCE_BUFFER][d + at..d + at + k] == file[d + at..d + at + k];
  }

  // ---------- what the shortcut answers ----------

  /** The first record of an archive is the description, and its size is told. */
  ghost predicate DescriptionFirst(a: Archive, file: seq<byte>)
    requires |file| >= RESOURCE_BUFFER
  {
    a.members != [] && a.members[0].header == 0 && Description(a.members[0]) && SizeTold(a.members[0], file)
  }

  /** What the shortcut makes of a description whose size is told, in the header, in a Zip64 field, or by the
      data descriptor: its data exactly when the data lies in the buffer, the fallback exactly when the size
      is over the guard's limit. */
  lemma ShortcutReads(file: seq<byte>, m: Member)
    requires |file| >= RESOURCE_BUFFER && Writable(m) && HasAt(file, 0, Local(m)) && Description(m) && SizeTold(m, file)
    ensures Shortcut(file[..RESOURCE_BUFFER]) ==
              var extra := |m.localExtra|;
              if LOCAL_SIZE + NAME_LENGTH + extra + m.size <= RESOURCE_BUFFER then Found(m.data)
              else if m.size > RESOURCE_BUFFER - LOCAL_SIZE + NAME_LENGTH + extra then Slow
              else PastBuffer
  {
    hide Writable, Local, LeBytes, Le, ExtraBytes, Extras, EntrySize, SizeTold;
    SeenUnfolds(m, false);
    HeadFields(file, m);
    GuardLimit(|m.localExtra|);
    EntrySizeIs(file, m);
    LocalData(file, 0, m);
    NamePart(file, m);
    var buf := file[..RESOURCE_BUFFER];
    var d := LOCAL_SIZE + NAME_LENGTH + |m.localExtra|;
    if d + m.size <= RESOURCE_BUFFER {
      assert buf[d..d + m.size] == file[d..d + m.size];
    }
  }

  /** Where no size is told and no descriptor stands in the buffer, the shortcut gives way. */
  lemma ShortcutGivesWay(file: seq<byte>, m: Member)
    requires |file| >= RESOURCE_BUFFER && Writable(m) && HasAt(file, 0, Local(m)) && Description(m)
    requires Field(m.localHead, 18, 4) == SATURATED && FieldUnset(m) && NoDescriptorBefore(file, RESOURCE_BUFFER)
    ensures Shortcut(file[..RESOURCE_BUFFER]) == Slow
  {
    hide Writable, Local, LeBytes, Le, ExtraBytes, Extras, ExtraSize, FieldUnset, Field, HasAt, DescriptorAt;
    SeenUnfolds(m, false);
    HeadFields(file, m);
    GuardLimit(|m.localExtra|);
    FieldSilent(file, m);
    NamePart(file, m);
    var buf := file[..RESOURCE_BUFFER];
    forall j | 0 <= j && j + DESCRIPTOR_SIZE <= RESOURCE_BUFFER ensures Field(buf, j, 4) != DESCRIPTOR_MAGIC {
      InBuffer(file, j);
    }
    assert DescriptorAt(buf, 0) == None;
  }

  /** ... and on a first record that is no stored description. */
  lemma ShortcutDeclines(file: seq<byte>, m: Member)
    requires |file| >= RESOURCE_BUFFER && Writable(m) && HasAt(file, 0, Local(m))
    requires m.name != DESCRIPTION || Field(m.localHead, 4, 2) != STORED
    ensures Shortcut(file[..RESOURCE_BUFFER]) == Slow
  {
    hide Writable, Local, LeBytes, Le, ExtraBytes, Extras, EntrySize, Field, HasAt;
    SeenUnfolds(m, false);
    HeadFields(file, m);
    if |m.name| == NAME_LENGTH {
      NamePart(file, m);
    }
  }

  lemma NamePart(file: seq<byte>, m: Member)
    requires |file| >= RESOURCE_BUFFER && |m.localHead| == 22 && |m.name| == NAME_LENGTH && HasAt(file, 0, Local(m))
    ensures file[..RESOURCE_BUFFER][LOCAL_SIZE..LOCAL_SIZE + NAME_LENGTH] == m.name
  {
    hide LeBytes;
    var head := LeBytes(LOCAL_MAGIC, 4) + m.localHead + LeBytes(|m.name|, 2) + LeBytes(|m.localExtra|, 2);
    assert m.name + m.localExtra + m.data + m.trailer == m.name + (m.localExtra + m.data + m.trailer);
    HasPart(file, 0, head, m.name + (m.localExtra + m.data + m.trailer), LOCAL_SIZE);
    HasPart(file, LOCAL_SIZE, m.name, m.localExtra + m.data + m.trailer, LOCAL_SIZE + NAME_LENGTH);
  }

  lemma HeadFields(file: seq<byte>, m: Member)
    requires |file| >= RESOURCE_BUFFER && |m.localHead| == 22 && |m.name| < 0x1_0000 && |m.localExtra| < 0x1_0000 && HasAt(file, 0, Local(m))
    ensures var buf := file[..RESOURCE_BUFFER];
            && Field(buf, 0, 4) == LOCAL_MAGIC && Field(buf, 8, 2) == Field(m.localHead, 4, 2) && Field(buf, 22, 4) == Field(m.localHead, 18, 4)
            && Field(buf, 18, 4) == Field(m.localHead, 14, 4)
            && Field(buf, 26, 2) == |m.name| && Field(buf, 28, 2) == |m.localExtra|
  {
    hide Local, HasAt, Field;
    LocalFields(m);
    BufferField(file, Local(m), 0, 4);
    BufferField(file, Local(m), 8, 2);
    BufferField(file, Local(m), 18, 4);
    BufferField(file, Local(m), 22, 4);
    BufferField(file, Local(m), 26, 2);
    BufferField(file, Local(m), 28, 2);
    InHead(m, 4, 2);
    InHead(m, 14, 4);
    InHead(m, 18, 4);
  }

  lemma InHead(m: Member, at: nat, k: nat)
    requires |m.localHead| == 22 && at + k <= 22
    ensures |Local(m)| >= LOCAL_SIZE && Field(Local(m), 4 + at, k) == Field(m.localHead, at, k)
  {
    hide LeBytes;
    assert Local(m)[4 + at..4 + at + k] == m.localHead[at..at + k];
  }

  lemma BufferField(file: seq<byte>, s: seq<byte>, at: nat, k: nat)
    requires |file| >= RESOURCE_BUFFER && HasAt(file, 0, s) && at + k <= |s| && at + k <= RESOURCE_BUFFER
    ensures Field(file[..RESOURCE_BUFFER], at, k) == Field(s, at, k)
  {
    SliceSlice(file, 0, |s|, at, at + k);
    assert file[..RESOURCE_BUFFER][at..at + k] == file[at..at + k];
  }

  /** A record that ends behind the buffer by no more than the guard mistakes: the shortcut reads past
      its buffer. */
  lemma PastTheBuffer(data: seq<byte>)
    requires RESOURCE_BUFFER - LOCAL_SIZE - NAME_LENGTH < |data| <= RESOURCE_BUFFER - LOCAL_SIZE + NAME_LENGTH
    ensures var m := Bare(DESCRIPTION, STORED, |data|, false, data, 0).(localHead := Zeros(18) + LeBytes(|data|, 4));
            var a := Single(m, false, false, []);
            Openable(a) && |Write(a)| >= RESOURCE_BUFFER && DescriptionFirst(a, Write(a)) && |Write(a)| >= RESOURCE_BUFFER && Shortcut(Write(a)[..RESOURCE_BUFFER]) == PastBuffer
  {
    hide LeBytes, Le, Local, CdRecord, Extras, ExtraBytes, Write, Findable, Stand, Shortcut, HasAt;
    var plain := Bare(DESCRIPTION, STORED, |data|, false, data, 0);
    var m := plain.(localHead := Zeros(18) + LeBytes(|data|, 4));
    BareWritable(DESCRIPTION, STORED, |data|, false, data, 0);
    assert Extras(m) == Extras(plain) by { SameExtras(m, plain); }
    LocalFields(m);
    RecordParts(CdRecord(m), 0, m) by { HasAll(CdRecord(m)); }
    RecordParts(CdRecord(plain), 0, plain) by { HasAll(CdRecord(plain)); }
    SingleOpenable(m, false, false, []);
    DescriptionHead(m, |data|);
    var a := Single(m, false, false, []);
    FindableFacts(a);
    WrittenParts(a, Write(a), |a.body|, |CdBytes(a.members)|, |Front(a)|);
    ShortcutReads(Write(a), m);
  }

  lemma SameExtras(m: Member, plain: Member)
    requires m == plain.(localHead := m.localHead)
    ensures Extras(m) == Extras(plain)
  {
  }

  lemma DescriptionHead(m: Member, n: nat)
    requires m.localHead == Zeros(18) + LeBytes(n, 4) && |m.localHead| == 22 && n < SATURATED
    ensures Field(m.localHead, 4, 2) == STORED && Field(m.localHead, 18, 4) == n
  {
    hide LeBytes, Le;
    ZeroField(m.localHead, 4, 2);
    assert m.localHead[18..22] == LeBytes(n, 4);
    FieldIs(m.localHead, 18, 4, n);
  }

  /** Where both work, the shortcut and the whole archive give the same identifier. */
  lemma ShortcutAgrees(a: Archive, zip: Zip, signed: bool, junk: Memory)
    requires Openable(a) && zip.file == Write(a) && |zip.file| >= RESOURCE_BUFFER && DescriptionFirst(a, zip.file)
    requires var m := a.members[0];
             && LOCAL_SIZE + NAME_LENGTH + |m.localExtra| + m.size <= RESOURCE_BUFFER
             && SizeRight(m, m.wideSize, m.size, signed) && SizeRight(m, m.wideCsize, |m.data|, signed)
    requires DirectoryRight(a) && InWindow(a, |zip.file|)
    ensures Shortcut(zip.file[..RESOURCE_BUFFER]) == Found(a.members[0].data)
    ensures Fallback(Parse(zip.file, signed, junk), zip) == a.members[0].data
  {
    hide Write, Front, CdBytes, NoLaterEnd, Parse, DirectoryRight, SizeRight, Shortcut, Field, Contents, WritableArchive, Writable, ExtraBytes, Extras, HasAt, Local, Meant, Seen;
    OpenableFacts(a);
    var m := a.members[0];
    ShortcutReads(zip.file, m);
    ReadsBack(a, signed, junk);
    SeenIsMeant(m, signed);
    FirstEntry(a.members, signed);
    StoredRoundTrip(a, zip.(entries := MeantAll(a.members)), 0);
    SameContents(zip, zip.(entries := MeantAll(a.members)), MeantAll(a.members)[0]);
  }

  lemma SameContents(zip: Zip, other: Zip, e: ZipEntry)
    requires other == zip.(entries := other.entries)
    ensures Contents(zip, e) == Contents(other, e)
  {
  }

  lemma FirstEntry(ms: seq<Member>, signed: bool)
    requires ms != [] && AllWritable(ms) && ms[0].name == DESCRIPTION && Writable(ms[0])
    requires FieldFits(ms[0].wideSize, ms[0].size) && FieldFits(ms[0].wideCsize, |ms[0].data|) && Seen(ms[0], signed) == Meant(ms[0])
    ensures var es := SeenAll(ms, signed); Lookup(es, DESCRIPTION) == Some(es[0]) && es[0] == MeantAll(ms)[0]
  {
    hide Writable;
  }

  // ---------- the way through the archive ----------

  /** The first member named so. */
  predicate FirstNamed(ms: seq<Member>, name: seq<byte>, k: nat) {
    k < |ms| && ms[k].name == name && forall i :: 0 <= i < k ==> ms[i].name != name
  }

  lemma {:induction false} LookupNone(es: seq<ZipEntry>, name: seq<byte>)
    requires forall i :: 0 <= i < |es| ==> es[i].name != name
    ensures Lookup(es, name) == None
    decreases |es|
  {
    if es != [] {
      LookupNone(es[1..], name);
    }
  }

  lemma {:induction false} LookupAt(es: seq<ZipEntry>, name: seq<byte>, k: nat)
    requires k < |es| && es[k].name == name && forall i :: 0 <= i < k ==> es[i].name != name
    ensures Lookup(es, name) == Some(es[k])
    decreases k
  {
    if k > 0 {
      assert es[1..][k - 1] == es[k];
      LookupAt(es[1..], name, k - 1);
    }
  }

  /** An archive without a description is identified by what its comment says. */
  lemma CommentIdentifies(a: Archive, zip: Zip, signed: bool, junk: Memory, c: seq<byte>)
    requires Openable(a) && zip.file == Write(a) && ReadRight(a, signed) && a.members != [] && Says(a.comment, c)
    requires forall i :: 0 <= i < |a.members| ==> a.members[i].name != DESCRIPTION
    ensures Fallback(Parse(zip.file, signed, junk), zip) == c
  {
    hide Write, Openable, ReadRight, Parse, Says, Contents, Lookup;
    ReadsRight(a, signed, junk);
    LookupNone(MeantAll(a.members), DESCRIPTION);
  }

  /** One without members is identified by nothing. */
  lemma EmptyIdentifiesNothing(a: Archive, zip: Zip, signed: bool, junk: Memory)
    requires Openable(a) && zip.file == Write(a) && ReadRight(a, signed) && a.members == []
    ensures Fallback(Parse(zip.file, signed, junk), zip) == []
  {
    hide Write, Openable, ReadRight, Parse, Says, Contents, Lookup;
    ReadsRight(a, signed, junk);
  }

  /** What a compressed description holds, if zlib can tell and it is not empty. */
  function Inflated(zip: Zip, m: Member, c: seq<byte>): seq<byte> {
    if m.size <= 0x200_0000 && zip.inflate(m.data).Some? && zip.inflate(m.data).value != [] then zip.inflate(m.data).value else c
  }

  /** One with a description by that, and by the comment only if the description is empty or cannot be read. */
  lemma DescriptionIdentifies(a: Archive, zip: Zip, signed: bool, junk: Memory, c: seq<byte>, k: nat)
    requires Openable(a) && zip.file == Write(a) && ReadRight(a, signed) && Says(a.comment, c)
    requires FirstNamed(a.members, DESCRIPTION, k)
    ensures var m, id := a.members[k], Fallback(Parse(zip.file, signed, junk), zip);
            && (m.method_ == STORED && m.size == |m.data| ==> id == if m.data == [] then c else m.data)
            && (m.method_ == DEFLATE ==> id == Inflated(zip, m, c))
            && (m.method_ != STORED && m.method_ != DEFLATE ==> id == c)
  {
    hide Write, Openable, ReadRight, Parse, Says, Lookup;
    ReadsRight(a, signed, junk);
    LookupAt(MeantAll(a.members), DESCRIPTION, k);
    var meant := zip.(entries := MeantAll(a.members));
    AllOf(a);
    if a.members[k].method_ == DEFLATE {
      DeflatedRoundTrip(a, meant, k);
      SameContents(zip, meant, meant.entries[k]);
    } else if a.members[k].method_ == STORED && a.members[k].size == |a.members[k].data| {
      StoredRoundTrip(a, meant, k);
      SameContents(zip, meant, meant.entries[k]);
    }
  }

  lemma AllOf(a: Archive)
    requires Openable(a)
    ensures WritableArchive(a) && AllWritable(a.members) && |Write(a)| < U64 - U32
  {
    hide Write, AllWritable, Stand, WritableArchive, Findable;
    OpenableFacts(a);
  }

  /** The identifier of a container, whichever way it is found: what its description holds if that stands
      first and its size is told, and what its comment says if there is no description. */
  method Identify(zip: Zip, signed: bool, junk: Memory, ghost a: Archive, ghost c: seq<byte>) returns (r: Option<seq<byte>>)
    requires Openable(a) && zip.file == Write(a) && |zip.file| >= RESOURCE_BUFFER && ReadRight(a, signed)
    requires a.members != [] && a.members[0].header == 0 && Says(a.comment, c)
    ensures (forall i :: 0 <= i < |a.members| ==> a.members[i].name != DESCRIPTION) ==> r == Some(c)
    ensures DescriptionFirst(a, zip.file) ==>
              var end := LOCAL_SIZE + NAME_LENGTH + |a.members[0].localExtra| + |a.members[0].data|;
              r == if end <= RESOURCE_BUFFER || end > RESOURCE_BUFFER + 2 * (NAME_LENGTH + |a.members[0].localExtra|) then Some(a.members[0].data) else None
  {
    hide Write, Openable, ReadRight, Parse, Says, Shortcut, Fallback, SizeTold, Field;
    AllOf(a);
    r := GetResourceID(zip, signed, junk);
    FirstStands(a);
    if a.members[0].name != DESCRIPTION {
      ShortcutDeclines(zip.file, a.members[0]);
      if forall i :: 0 <= i < |a.members| ==> a.members[i].name != DESCRIPTION {
        CommentIdentifies(a, zip, signed, junk, c);
      }
    } else if DescriptionFirst(a, zip.file) {
      ShortcutReads(zip.file, a.members[0]);
      DescriptionIdentifies(a, zip, signed, junk, c, 0);
    }
  }

  lemma FirstStands(a: Archive)
    requires Openable(a) && a.members != [] && a.members[0].header == 0
    ensures Writable(a.members[0]) && |a.members[0].localHead| == 22 && HasAt(Write(a), 0, Local(a.members[0]))
  {
    hide Write, Writable, Local, HasAt, Findable;
    OpenableFacts(a);
    LocalHead(a.members[0]);
  }

  // ---------- a container whose sizes follow its data ----------

  /** A description as a streaming writer leaves it: sizes saturated in the header, all ones in the Zip64
      field, and held by the descriptor behind the data. */
  function Streamed(data: seq<byte>): (m: Member)
    ensures |m.localHead| == 22
  {
    Bare(DESCRIPTION, STORED, |data|, false, data, 0).(
      localHead := Zeros(14) + LeBytes(SATURATED, 4) + LeBytes(SATURATED, 4),
      localExtra := ExtraRecord(Extra(1, LeBytes(U64 - 1, 8) + LeBytes(U64 - 1, 8))),
      trailer := LeBytes(DESCRIPTOR_MAGIC, 4) + Zeros(4) + LeBytes(|data|, 8) + LeBytes(|data|, 8))
  }

  lemma LeSmall(v: nat)
    requires v < 256
    ensures LeBytes(v, 2) == [v, 0]
  {
    assert LeBytes(v, 2) == [v % 256] + LeBytes(v / 256, 1);
  }

  lemma SaturatedBytes(v: nat)
    requires v == SATURATED
    ensures forall i :: 0 <= i < 4 ==> LeBytes(v, 4)[i] == 255
  {
    Widths();
    OnesFrom(v, 4);
  }

  ghost predicate NoP(s: seq<byte>) {
    forall i :: 0 <= i < |s| ==> s[i] != 0x50
  }

  lemma StreamedParts(data: seq<byte>)
    ensures var m := Streamed(data);
            && NoP(m.localHead) && NoP(m.localExtra) && NoP(m.name) && |m.localExtra| == 20
            && NoP(LeBytes(|m.name|, 2)) && NoP(LeBytes(|m.localExtra|, 2))
  {
    hide LeBytes;
    LeSmall(21);
    LeSmall(20);
    LeSmall(1);
    LeSmall(16);
    SaturatedBytes(SATURATED);
    Ones8(U64 - 1);
    var ones := LeBytes(U64 - 1, 8);
    assert ExtraRecord(Extra(1, ones + ones)) == [1, 0] + [16, 0] + (ones + ones);
  }

  lemma NoPAppend(s: seq<byte>, t: seq<byte>)
    requires NoP(s) && NoP(t)
    ensures NoP(s + t)
  {
  }

  /** The bytes before the descriptor: after the first there is no P. */
  lemma StreamedFront(data: seq<byte>) returns (front: seq<byte>)
    requires NoP(data)
    ensures |Streamed(data).localHead| == 22 && Local(Streamed(data)) == front + Streamed(data).trailer && |front| == LOCAL_SIZE + NAME_LENGTH + 20 + |data|
    ensures forall j :: 1 <= j < |front| ==> front[j] != 0x50
  {
    hide LeBytes, Streamed, NoP;
    var m := Streamed(data);
    StreamedParts(data);
    StreamedIs(data);
    Signatures();
    var n, x := LeBytes(|m.name|, 2), LeBytes(|m.localExtra|, 2);
    NoPAppend(m.localHead, n);
    NoPAppend(m.localHead + n, x);
    NoPAppend(m.localHead + n + x, m.name);
    NoPAppend(m.localHead + n + x + m.name, m.localExtra);
    NoPAppend(m.localHead + n + x + m.name + m.localExtra, data);
    var rest := m.localHead + n + x + m.name + m.localExtra + data;
    front := LeBytes(LOCAL_MAGIC, 4) + rest;
    assert Local(m) == front + m.trailer;
    forall j | 1 <= j < |front| ensures front[j] != 0x50 {
      if j >= 4 {
        PlainByte(rest, j - 4);
      }
    }
  }

  lemma PlainByte(s: seq<byte>, i: nat)
    requires NoP(s) && i < |s|
    ensures s[i] != 0x50
  {
  }

  /** No signature of a descriptor stands before the one behind the data. */
  lemma StreamedClean(file: seq<byte>, data: seq<byte>, d: nat)
    requires |file| >= RESOURCE_BUFFER && HasAt(file, 0, Local(Streamed(data))) && NoP(data)
    requires d == LOCAL_SIZE + NAME_LENGTH + 20 + |data|
    ensures NoDescriptorBefore(file, d)
  {
    hide LeBytes, Le, Streamed, Local, NoP, Field;
    var m := Streamed(data);
    StreamedParts(data);
    StreamedIs(data);
    LocalFields(m);
    var front := StreamedFront(data);
    forall j | 0 <= j < d && j + DESCRIPTOR_SIZE <= RESOURCE_BUFFER ensures Field(file, j, 4) != DESCRIPTOR_MAGIC {
      if j == 0 {
        HasField(file, 0, Local(m), 0, 4);
      } else {
        assert file[j] == file[0..|Local(m)|][j] == front[j];
        FirstByte(file, j);
      }
    }
  }

  lemma StreamedIs(data: seq<byte>)
    ensures var m := Streamed(data); m.name == DESCRIPTION && m.data == data && m.header == 0 && |m.localHead| == 22
  {
  }

  lemma StreamedDescribes(data: seq<byte>)
    requires 0 < |data| < SATURATED
    ensures var m := Streamed(data);
            && Description(m) && Field(m.localHead, 18, 4) == SATURATED && FieldUnset(m)
            && |m.trailer| >= DESCRIPTOR_SIZE && Field(m.trailer, 0, 4) == DESCRIPTOR_MAGIC && Field(m.trailer, 8, 8) == |m.data|
  {
    hide LeBytes, Le, ExtraRecord;
    var m := Streamed(data);
    ZeroField(m.localHead, 4, 2);
    assert m.localHead[18..22] == LeBytes(SATURATED, 4);
    FieldIs(m.localHead, 18, 4, SATURATED);
    assert m.trailer[0..4] == LeBytes(DESCRIPTOR_MAGIC, 4) && m.trailer[8..16] == LeBytes(|data|, 8);
    FieldIs(m.trailer, 0, 4, DESCRIPTOR_MAGIC);
    FieldIs(m.trailer, 8, 8, |data|);
    Ones8(U64 - 1);
    var e := Extra(1, LeBytes(U64 - 1, 8) + LeBytes(U64 - 1, 8));
    assert m.localExtra == ExtraRecord(e) + [];
    assert e.data[..8] == LeBytes(U64 - 1, 8) && e.data[8..16] == LeBytes(U64 - 1, 8);
    assert UnsetField(m, e, []);
  }

  lemma StreamedWritable(data: seq<byte>)
    requires 0 < |data| <= RESOURCE_BUFFER
    ensures var m := Streamed(data);
            Writable(m) && |Local(m)| == LOCAL_SIZE + NAME_LENGTH + 20 + |data| + DESCRIPTOR_SIZE && |CdRecord(m)| == CD_SIZE + NAME_LENGTH
  {
    hide LeBytes, Le, Local, CdRecord, Extras, ExtraBytes, CdHeader;
    var plain, m := Bare(DESCRIPTION, STORED, |data|, false, data, 0), Streamed(data);
    BareWritable(DESCRIPTION, STORED, |data|, false, data, 0);
    assert Extras(m) == Extras(plain) by { SameZip64(m, plain); }
    StreamedParts(data);
    LocalFields(m);
    RecordParts(CdRecord(m), 0, m) by { HasAll(CdRecord(m)); }
    RecordParts(CdRecord(plain), 0, plain) by { HasAll(CdRecord(plain)); }
  }

  lemma SameZip64(m: Member, plain: Member)
    requires m == plain.(localHead := m.localHead, localExtra := m.localExtra, trailer := m.trailer)
    ensures Extras(m) == Extras(plain)
  {
  }

  /** Such a description with more of the archive behind it is found at once, by its descriptor. */
  lemma StreamedFound(data: seq<byte>)
    requires 0 < |data| && LOCAL_SIZE + NAME_LENGTH + 20 + |data| + DESCRIPTOR_SIZE <= RESOURCE_BUFFER && NoP(data)
    ensures var m := Streamed(data);
            var a := Single(m, false, false, []).(body := Local(m) + Zeros(RESOURCE_BUFFER));
            && Openable(a) && |Write(a)| >= RESOURCE_BUFFER && DescriptionFirst(a, Write(a))
            && Shortcut(Write(a)[..RESOURCE_BUFFER]) == Found(data)
  {
    hide Streamed, LeBytes, Le, Local, CdRecord, Write, Findable, Shortcut, Writable, NoDescriptorBefore, FieldUnset, Field, HasAt;
    var m := Streamed(data);
    var body := Local(m) + Zeros(RESOURCE_BUFFER);
    var a := Single(m, false, false, []).(body := body);
    StreamedWritable(data);
    StreamedIs(data);
    OneMember(m);
    SingleFindable(m, a, body, false, false, []);
    HasAll(body);
    HasPart(body, 0, Local(m), Zeros(RESOURCE_BUFFER), |Local(m)|);
    assert Stand(body, [m]);
    OpenableFacts(a);
    FirstStands(a);
    FindableFacts(a);
    WrittenParts(a, Write(a), |a.body|, |CdBytes(a.members)|, |Front(a)|);
    StreamedDescribes(data);
    StreamedClean(Write(a), data, LOCAL_SIZE + NAME_LENGTH + 20 + |data|);
    StreamedParts(data);
    ShortcutReads(Write(a), m);
  }
}
