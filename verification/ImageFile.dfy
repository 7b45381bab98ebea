/** An image laid out as a file of its own: every bevvy and every index a stored member, and every
    field of the archive in its Zip64 form, which the library always reads right
    (src/stream/ImageStream.cc over src/zip/Zip.cc). */
module ImageFile {
  import opened Bytes
  import opened Container
  import opened ImageStreams
  import opened ZipReader
  import opened ZipWriter
  import opened ZipRoundTrip
  import opened ZipArchive
  import opened ZipFaults
  import opened ImageArchive

  // ---------- archives of stored members ----------

  function Segment(name: seq<byte>, data: seq<byte>, header: nat): (m: Member)
    ensures |m.localHead| == 22
  {
    Member(name, STORED, |data|, data, header, Zeros(22), [], [], Zeros(6), Zeros(8), Zeros(8), true, true, true, [], [], [], [])
  }

  /** Such members, one after another from `h` on. */
  predicate Segments(ms: seq<Member>, h: nat) {
    ms == [] ||
    var m := ms[0];
    m == Segment(m.name, m.data, h) && |m.name| < 0x1_0000 && Segments(ms[1..], h + LOCAL_SIZE + |m.name| + |m.data|)
  }

  /** What they take in the file: both headers, the Zip64 field, twice the name, and the data. */
  function Room(ms: seq<Member>): nat {
    if ms == [] then 0 else LOCAL_SIZE + CD_SIZE + 28 + 2 * |ms[0].name| + |ms[0].data| + Room(ms[1..])
  }

  /** An archive of them, with everything in its Zip64 form. */
  function Filing(ms: seq<Member>): Archive
    requires AllWritable(ms)
  {
    Archive(ms, Locals(ms), true, true, true, [], [], Zeros(4), Zeros(2), Zeros(20))
  }

  lemma SegmentWritable(name: seq<byte>, data: seq<byte>, h: nat)
    requires |name| < 0x1_0000 && |data| < U64 && h < U64
    ensures var m := Segment(name, data, h);
            Writable(m) && |Local(m)| == LOCAL_SIZE + |name| + |data| && |CdRecord(m)| == CD_SIZE + |name| + 28
  {
    var m := Segment(name, data, h);
    hide LeBytes, CdHeader, Local, Zip64Data;
    var e := Extra(1, Zip64Data(m));
    assert |Zip64Data(m)| == 24 by { ThreeFields(m); }
    assert Extras(m) == [e];
    assert ExtraBytes([e]) == ExtraRecord(e) + ExtraBytes([]);
    LocalFields(m);
    CdHeaderFields(m);
  }

  lemma ThreeFields(m: Member)
    requires m.wideSize && m.wideCsize && m.wideHeader && m.disk == []
    ensures |Zip64Data(m)| == 24
  {
  }

  lemma {:induction false} SegmentsWritable(ms: seq<Member>, h: nat)
    requires Segments(ms, h) && h + Room(ms) < U64
    ensures AllWritable(ms) && InLine(ms, h) && |Locals(ms)| + |CdBytes(ms)| == Room(ms) && |ms| <= Room(ms)
    ensures forall i :: 0 <= i < |ms| ==> ms[i].wideHeader && ms[i].wideSize && ms[i].wideCsize
    decreases |ms|
  {
    hide Writable, Local, CdRecord, Segment, AllWritable;
    if ms == [] {
      NoMembers();
    } else {
      var m := ms[0];
      SegmentWritable(m.name, m.data, h);
      SegmentsWritable(ms[1..], h + LOCAL_SIZE + |m.name| + |m.data|);
      FirstOf(ms);
      SegmentIsWide(m, h);
      assert forall i :: 0 < i < |ms| ==> ms[i] == ms[1..][i - 1];
    }
  }

  lemma NoMembers()
    ensures AllWritable([]) && InLine([], 0)
  {
  }

  lemma SegmentIsWide(m: Member, h: nat)
    requires m == Segment(m.name, m.data, h)
    ensures m.wideHeader && m.wideSize && m.wideCsize && m.header == h && |m.localHead| == 22
  {
  }

  /** Such an archive is read as written, on every platform. */
  lemma FilingRight(ms: seq<Member>, signed: bool)
    requires Segments(ms, 0) && Room(ms) < U64 - 2 * U32
    ensures AllWritable(ms)
    ensures var a := Filing(ms);
            Openable(a) && ReadRight(a, signed) && |Write(a)| == Room(ms) + END64_SIZE + LOCATOR_SIZE + END_SIZE
  {
    hide AllWritable, Locals, CdBytes, Write, Front, Segments, Stand, InLine, TakenDirectory;
    SegmentsWritable(ms, 0);
    var a := Filing(ms);
    HasAll(Locals(ms));
    InLineStand(Locals(ms), ms, 0);
    WrittenParts(a, Write(a), |Locals(ms)|, |CdBytes(ms)|, |Front(a)|);
    DirectoryExact(a);
  }

  // ---------- the segments of an image ----------

  /** Name number `i` of an image: a bevvy's, or its index's. */
  function Suffix(i: nat): string {
    BevvyName(i / 2) + if i % 2 == 0 then "" else ".index"
  }

  function NameAt(im: Image, i: nat): seq<byte> {
    if i % 2 == 0 then BevvySegment(im, i / 2) else IndexSegment(im, i / 2)
  }

  /** Segment names are short, and as different as what they are made from. */
  ghost predicate NamesKept(im: Image) {
    && (forall i: nat :: |NameAt(im, i)| < 0x1_0000)
    && (forall i: nat, j: nat :: NameAt(im, i) == NameAt(im, j) ==> Suffix(i) == Suffix(j))
  }

  lemma NamesDiffer(im: Image, i: nat, j: nat)
    requires NamesKept(im) && i < j < 2 * Pow10(8)
    ensures NameAt(im, i) != NameAt(im, j)
  {
    hide NameAt, BevvyName;
    if NameAt(im, i) == NameAt(im, j) {
      assert Suffix(i) == Suffix(j);
      assert |Suffix(i)| == if i % 2 == 0 then 8 else 14;
      assert Suffix(i)[..8] == BevvyName(i / 2) && Suffix(j)[..8] == BevvyName(j / 2);
      BevvyNamesDiffer(i / 2, j / 2);
    }
  }

  lemma TwoNames(im: Image, k: nat)
    ensures NameAt(im, 2 * k) == BevvySegment(im, k) && NameAt(im, 2 * k + 1) == IndexSegment(im, k)
  {
  }

  /** The members of the bevvies from `k` on, made of the pieces that are left, the first record at `h`. */
  function Layout(im: Image, rest: seq<seq<byte>>, k: nat, h: nat): seq<Member>
    requires im.chunksInSegment > 0
    decreases |rest|
  {
    if rest == [] then []
    else
      var n := Min(|rest|, im.chunksInSegment);
      var m := Segment(BevvySegment(im, k), Flat(rest[..n]), h);
      var ix := Segment(IndexSegment(im, k), PointBytes(PointsOf(rest[..n], 0)), After(m));
      [m, ix] + Layout(im, rest[n..], k + 1, After(ix))
  }

  /** Where the local record behind a segment's starts. */
  function After(m: Member): nat {
    m.header + LOCAL_SIZE + |m.name| + |m.data|
  }

  /** The members are named in order, from name number `at` on. */
  ghost predicate InOrder(im: Image, ms: seq<Member>, at: nat) {
    forall i :: 0 <= i < |ms| ==> ms[i] == Segment(NameAt(im, at + i), ms[i].data, ms[i].header)
  }

  lemma {:induction false} LayoutNames(im: Image, rest: seq<seq<byte>>, k: nat, h: nat)
    requires im.chunksInSegment > 0 && NamesKept(im)
    ensures InOrder(im, Layout(im, rest, k, h), 2 * k) && Segments(Layout(im, rest, k, h), h)
    decreases |rest|
  {
    hide Flat, PointsOf, PointBytes, BevvySegment, IndexSegment, NameAt, InOrder, NamesKept, Segments;
    if rest == [] {
      NoneInOrder(im, 2 * k, h);
    } else {
      var n := Min(|rest|, im.chunksInSegment);
      var ms := Layout(im, rest, k, h);
      var later := Layout(im, rest[n..], k + 1, After(ms[1]));
      LayoutNames(im, rest[n..], k + 1, After(ms[1]));
      TwoNames(im, k);
      assert ms == [ms[0], ms[1]] + later;
      TwoInOrder(im, ms[0], ms[1], later, 2 * k);
      TwoSegments(im, ms[0], ms[1], later, 2 * k, h);
    }
  }

  lemma NoneInOrder(im: Image, at: nat, h: nat)
    ensures InOrder(im, [], at) && Segments([], h)
  {
  }

  lemma TwoInOrder(im: Image, m: Member, ix: Member, later: seq<Member>, at: nat)
    requires m == Segment(NameAt(im, at), m.data, m.header) && ix == Segment(NameAt(im, at + 1), ix.data, ix.header) && InOrder(im, later, at + 2)
    ensures InOrder(im, [m, ix] + later, at)
  {
    hide NameAt, Segment;
    var ms := [m, ix] + later;
    forall i | 0 <= i < |ms| ensures ms[i] == Segment(NameAt(im, at + i), ms[i].data, ms[i].header) {
      if i >= 2 {
        var j := i - 2;
        assert ms[i] == later[j] && at + 2 + j == at + i;
      }
    }
  }

  lemma TwoSegments(im: Image, m: Member, ix: Member, later: seq<Member>, at: nat, h: nat)
    requires NamesKept(im) && m == Segment(NameAt(im, at), m.data, h) && ix == Segment(NameAt(im, at + 1), ix.data, After(m))
    requires Segments(later, After(ix))
    ensures Segments([m, ix] + later, h)
  {
    hide NameAt;
    assert |NameAt(im, at)| < 0x1_0000 && |NameAt(im, at + 1)| < 0x1_0000;
    var ms := [m, ix] + later;
    assert ms[1..] == [ix] + later && ms[1..][1..] == later;
  }

  /** Where the members of bevvy `j` stand. */
  lemma {:induction false} LayoutAt(im: Image, pieces: seq<seq<byte>>, k: nat, at: nat, h: nat, j: nat)
    requires im.chunksInSegment > 0 && at == k * im.chunksInSegment && at <= |pieces| && k <= j && j * im.chunksInSegment < |pieces|
    ensures var ms, i, ps := Layout(im, pieces[at..], k, h), 2 * (j - k), Bevvy(pieces, im.chunksInSegment, j);
            i + 1 < |ms| && ms[i].data == Flat(ps) && ms[i + 1].data == PointBytes(PointsOf(ps, 0))
    decreases j - k
  {
    hide Flat, PointsOf, PointBytes, BevvySegment, IndexSegment;
    var rest := pieces[at..];
    var n := Min(|rest|, im.chunksInSegment);
    Later(k, j, im.chunksInSegment);
    if k < j {
      assert rest[n..] == pieces[at + n..];
      LayoutAt(im, pieces, k + 1, at + n, After(Layout(im, rest, k, h)[1]), j);
    } else {
      assert rest[..n] == Bevvy(pieces, im.chunksInSegment, j);
    }
  }

  lemma Later(k: nat, j: nat, n: nat)
    requires k <= j
    ensures k * n <= j * n && (k < j ==> (k + 1) * n == k * n + n <= j * n)
  {
    if k < j {
      assert (k + 1) * n == k * n + n;
      AtLeast(j, k + 1, n);
    } else {
      AtLeast(j, k, n);
    }
  }

  lemma {:induction false} FlatSplits(ps: seq<seq<byte>>, n: nat)
    requires n <= |ps|
    ensures |Flat(ps)| == |Flat(ps[..n])| + |Flat(ps[n..])|
    decreases n
  {
    if n > 0 {
      FlatSplits(ps[1..], n - 1);
      assert ps[1..][..n - 1] == ps[..n][1..] && ps[1..][n - 1..] == ps[n..];
    } else {
      assert ps[n..] == ps;
    }
  }

  /** At most a chunk's share in headers, names and indexes. */
  const SHARE := 2 * (LOCAL_SIZE + CD_SIZE + 28 + 2 * 0xffff) + POINT_SIZE

  lemma Shares(n: nat, r: nat, names: nat)
    requires n > 0 && names <= 2 * 0xffff
    ensures 2 * (LOCAL_SIZE + CD_SIZE + 28) + 2 * names + POINT_SIZE * n + SHARE * r <= SHARE * (n + r)
  {
  }

  lemma TwoRoom(m: Member, ix: Member, ms: seq<Member>)
    ensures Room([m, ix] + ms) == 2 * (LOCAL_SIZE + CD_SIZE + 28) + 2 * (|m.name| + |ix.name|) + |m.data| + |ix.data| + Room(ms)
  {
    assert ([m, ix] + ms)[1..] == [ix] + ms && ([ix] + ms)[1..] == ms;
  }

  /** How much room a layout takes, at most. */
  lemma {:induction false} LayoutRoom(im: Image, rest: seq<seq<byte>>, k: nat, h: nat)
    requires im.chunksInSegment > 0 && NamesKept(im)
    ensures Room(Layout(im, rest, k, h)) <= |Flat(rest)| + SHARE * |rest|
    decreases |rest|
  {
    hide Flat, PointsOf, PointBytes, BevvySegment, IndexSegment, NamesKept, NameAt, Room;
    if rest == [] {
      NoRoom();
    } else {
      var n := Min(|rest|, im.chunksInSegment);
      var all := Layout(im, rest, k, h);
      LayoutRoom(im, rest[n..], k + 1, After(all[1]));
      FlatSplits(rest, n);
      PointBytesAt(PointsOf(rest[..n], 0), 0);
      TwoNames(im, k);
      ShortNames(im, 2 * k);
      ShortNames(im, 2 * k + 1);
      TwoRoom(all[0], all[1], Layout(im, rest[n..], k + 1, After(all[1])));
      Shares(n, |rest| - n, |all[0].name| + |all[1].name|);
    }
  }

  lemma NoRoom()
    ensures Room([]) == 0 && SHARE * 0 == 0
  {
  }

  lemma ShortNames(im: Image, i: nat)
    requires NamesKept(im)
    ensures |NameAt(im, i)| < 0x1_0000
  {
  }

  // ---------- the file ----------

  /** What an image needs to be laid out: names that stay apart below the hundred million bevvies whose
      names differ, and a file of less than 2^64 - 2^33 bytes. */
  ghost predicate Fits(im: Image, pieces: seq<seq<byte>>) {
    && im.chunksInSegment > 0 && NamesKept(im) && |pieces| <= Pow10(8) * im.chunksInSegment
    && Room(Layout(im, pieces, 0, 0)) < U64 - 2 * U32
  }

  lemma LayoutFiled(im: Image, pieces: seq<seq<byte>>)
    requires Fits(im, pieces)
    ensures Segments(Layout(im, pieces, 0, 0), 0) && AllWritable(Layout(im, pieces, 0, 0))
    ensures ImageFiled(Filing(Layout(im, pieces, 0, 0)), im, pieces)
  {
    hide Layout, BevvySegment, IndexSegment, Flat, PointsOf, PointBytes, Filed, Bevvy, NamesKept, InOrder, Segments, AllWritable, Locals;
    LayoutNames(im, pieces, 0, 0);
    SegmentsWritable(Layout(im, pieces, 0, 0), 0);
    forall k: nat | k * im.chunksInSegment < |pieces|
      ensures Filed(Filing(Layout(im, pieces, 0, 0)), BevvySegment(im, k), Flat(Bevvy(pieces, im.chunksInSegment, k)))
      ensures Filed(Filing(Layout(im, pieces, 0, 0)), IndexSegment(im, k), PointBytes(PointsOf(Bevvy(pieces, im.chunksInSegment, k), 0)))
    {
      BevvyFiled(im, pieces, k);
    }
  }

  lemma BevvyFiled(im: Image, pieces: seq<seq<byte>>, k: nat)
    requires Fits(im, pieces) && k * im.chunksInSegment < |pieces| && AllWritable(Layout(im, pieces, 0, 0))
    ensures var a, ps := Filing(Layout(im, pieces, 0, 0)), Bevvy(pieces, im.chunksInSegment, k);
            Filed(a, BevvySegment(im, k), Flat(ps)) && Filed(a, IndexSegment(im, k), PointBytes(PointsOf(ps, 0)))
  {
    hide Layout, BevvySegment, IndexSegment, Flat, PointsOf, PointBytes, Filed, NameAt, InOrder, NamesKept, Bevvy, AllWritable, Locals;
    var n := im.chunksInSegment;
    var a := Filing(Layout(im, pieces, 0, 0));
    LayoutNames(im, pieces, 0, 0);
    assert pieces[0..] == pieces;
    LayoutAt(im, pieces, 0, 0, 0, k);
    TwoNames(im, k);
    if k >= Pow10(8) {
      AtLeast(k, Pow10(8), n);
    }
    FiledFirst(a, im, 2 * k);
    FiledFirst(a, im, 2 * k + 1);
  }

  lemma FiledFirst(a: Archive, im: Image, i: nat)
    requires NamesKept(im) && i < 2 * Pow10(8) && i < |a.members| && InOrder(im, a.members, 0)
    ensures Filed(a, NameAt(im, i), a.members[i].data)
  {
    hide NamesKept, NameAt;
    forall j | 0 <= j < i ensures a.members[j].name != NameAt(im, i) {
      NamesDiffer(im, j, i);
      assert a.members[j] == Segment(NameAt(im, 0 + j), a.members[j].data, a.members[j].header);
    }
    assert a.members[i] == Segment(NameAt(im, 0 + i), a.members[i].data, a.members[i].header);
    assert FiledAt(a.members, i, NameAt(im, i), a.members[i].data);
  }

  /** The geometry of an image of that many bytes that the library can read. */
  ghost predicate Shaped(im: Image, length: nat) {
    && 0 < im.chunkSize < U32 && 0 < im.chunksInSegment < U32 && im.length == length < U64
    && BevvyOf(im, length) < U32 && forall s :: |im.decode(s)| == im.chunkSize
  }

  /** Every image that fits can be stored: the file it is laid out as opens as an archive of it. */
  lemma Storable(shape: Image, data: seq<byte>, pieces: seq<seq<byte>>, signed: bool)
    requires Shaped(shape, |data|) && Fits(shape, pieces)
    ensures AllWritable(Layout(shape, pieces, 0, 0))
    ensures var a := Filing(Layout(shape, pieces, 0, 0));
            && Openable(a) && ReadRight(a, signed) && ImageFiled(a, shape, pieces)
            && OpenOn(a, Over(shape, Write(a), MeantAll(a.members)), data)
  {
    hide Layout, ImageFiled, Segments, Openable, ReadRight, Write, MeantAll, AllWritable, Flat, NamesKept, Locals, Room;
    var ms := Layout(shape, pieces, 0, 0);
    LayoutFiled(shape, pieces);
    FilingRight(ms, signed);
  }

  /** Storing an image and opening its file gives an image of the same data. */
  method StoreImage(shape: Image, data: seq<byte>, pieces: seq<seq<byte>>, signed: bool, junk: Memory) returns (im: Image)
    requires Shaped(shape, |data|) && Packed(shape, data, pieces) && Fits(shape, pieces)
    ensures HoldsData(im, data)
  {
    hide Layout, ImageFiled, Fits, Packed, Shaped, Openable, ReadRight, Write, MeantAll, OpenOn, AllWritable, HoldsData, Locals;
    ChunksInSegment(shape, |data|);
    Storable(shape, data, pieces, signed);
    var a := Filing(Layout(shape, pieces, 0, 0));
    im := OpenImage(Write(a), signed, junk, shape, a, data, pieces);
  }

  lemma ChunksInSegment(im: Image, n: nat)
    requires Shaped(im, n)
    ensures im.chunksInSegment > 0 && im.chunkSize > 0
  {
  }

  /** Storing an image and reading it: whatever its bytes, its pieces, the requests and the caches, the
      bytes stored come out. */
  method StoreAndRead(shape: Image, data: seq<byte>, pieces: seq<seq<byte>>, signed: bool, junk: Memory,
      indexCacheSize: nat, chunkCacheSize: nat, buf: array<byte>, count: nat, offset: nat)
    returns (res: int)
    requires Shaped(shape, |data|) && Packed(shape, data, pieces) && Fits(shape, pieces)
    requires indexCacheSize >= 1 && chunkCacheSize >= 1 && count <= buf.Length && offset + count < U64
    modifies buf
    ensures offset <= |data| ==> var n := Min(count, |data| - offset); res == n && buf[..n] == data[offset..offset + n]
    ensures offset > |data| ==> res == 0
  {
    hide Fits, Packed, Shaped, HoldsData;
    var im := StoreImage(shape, data, pieces, signed, junk);
    res := ReadImage(im, indexCacheSize, chunkCacheSize, buf, count, offset, data);
  }

  // ---------- chunks stored as they are ----------

  function Chunks(data: seq<byte>, size: nat, n: nat): (ps: seq<seq<byte>>)
    ensures |ps| == n && forall i :: 0 <= i < n ==> ps[i] == Raw(data, size, i)
  {
    seq<seq<byte>>(n, i requires 0 <= i < n => Raw(data, size, i))
  }

  lemma PlainPieces(im: Image, data: seq<byte>, n: nat)
    requires 0 < im.chunkSize < U32 && |data| <= n * im.chunkSize
    ensures Packed(im, data, Chunks(data, im.chunkSize, n))
  {
    hide Raw, Chunks;
  }

  lemma {:induction false} FlatSize(ps: seq<seq<byte>>, size: nat)
    requires forall i :: 0 <= i < |ps| ==> |ps[i]| == size
    ensures |Flat(ps)| == |ps| * size
  {
    if ps != [] {
      FlatSize(ps[1..], size);
      assert |ps| * size == size + (|ps| - 1) * size;
    }
  }

  /** How many chunks some data needs. */
  function ChunkCount(length: nat, size: nat): (n: nat)
    requires size > 0
    ensures length <= n * size
  {
    assert (length / size + 1) * size == (length / size) * size + size;
    length / size + 1
  }

  /** The room that they need, in numbers a writer knows. */
  ghost predicate FitsPlain(im: Image, length: nat)
    requires im.chunkSize > 0
  {
    var n := ChunkCount(length, im.chunkSize);
    im.chunksInSegment > 0 && NamesKept(im) && n <= Pow10(8) * im.chunksInSegment && n * im.chunkSize + SHARE * n < U64 - 2 * U32
  }

  lemma PlainFits(im: Image, data: seq<byte>)
    requires 0 < im.chunkSize < U32 && FitsPlain(im, |data|)
    ensures var ps := Chunks(data, im.chunkSize, ChunkCount(|data|, im.chunkSize)); Packed(im, data, ps) && Fits(im, ps)
  {
    hide Raw, Chunks, Layout, Room, Flat, NamesKept, Packed;
    var n := ChunkCount(|data|, im.chunkSize);
    var ps := Chunks(data, im.chunkSize, n);
    PlainPieces(im, data, n);
    FlatSize(ps, im.chunkSize);
    LayoutRoom(im, ps, 0, 0);
  }

  /** Any data can be stored in plain chunks and read back. */
  method StorePlainAndRead(shape: Image, data: seq<byte>, signed: bool, junk: Memory,
      indexCacheSize: nat, chunkCacheSize: nat, buf: array<byte>, count: nat, offset: nat)
    returns (res: int)
    requires Shaped(shape, |data|) && FitsPlain(shape, |data|)
    requires indexCacheSize >= 1 && chunkCacheSize >= 1 && count <= buf.Length && offset + count < U64
    modifies buf
    ensures offset <= |data| ==> var n := Min(count, |data| - offset); res == n && buf[..n] == data[offset..offset + n]
    ensures offset > |data| ==> res == 0
  {
    hide Fits, Packed, FitsPlain, Chunks;
    PlainFits(shape, data);
    res := StoreAndRead(shape, data, Chunks(data, shape.chunkSize, ChunkCount(|data|, shape.chunkSize)), signed, junk,
                        indexCacheSize, chunkCacheSize, buf, count, offset);
  }
}
