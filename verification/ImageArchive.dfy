/** An image stream written into an archive, and what the library reads of it: chunks, bevvies and
    index segments laid out as src/stream/struct/ChunkLoader.cc and src/stream/struct/BevvyIndex.cc
    expect them, in an archive as src/zip/Zip.cc opens it. */
module ImageArchive {
  import opened Bytes
  import opened Container
  import opened ImageStreams
  import Lru
  import opened ZipReader
  import opened ZipWriter
  import opened ZipRoundTrip
  import opened ZipArchive
  import opened Options

  // ---------- writing ----------

  /** Chunk `i` of the data, the last one filled up with zeros. */
  function Raw(data: seq<byte>, chunkSize: nat, i: nat): (s: seq<byte>)
    ensures |s| == chunkSize
  {
    seq<byte>(chunkSize, j requires 0 <= j < chunkSize => if i * chunkSize + j < |data| then data[i * chunkSize + j] else 0)
  }

  /** One piece per chunk: the chunk itself, or something of another length that decodes to it. */
  ghost predicate Packed(im: Image, data: seq<byte>, pieces: seq<seq<byte>>) {
    && |data| <= |pieces| * im.chunkSize
    && forall i :: 0 <= i < |pieces| ==>
         && 0 < |pieces[i]| < U32
         && (if |pieces[i]| == im.chunkSize then pieces[i] else im.decode(pieces[i])) == Raw(data, im.chunkSize, i)
  }

  /** The data of a bevvy: its pieces one after another, and the points that say where. */
  function Flat(ps: seq<seq<byte>>): seq<byte> {
    if ps == [] then [] else ps[0] + Flat(ps[1..])
  }

  function PointsOf(ps: seq<seq<byte>>, at: nat): (r: seq<Point>)
    ensures |r| == |ps|
  {
    if ps == [] then [] else [Point(at, |ps[0]|)] + PointsOf(ps[1..], at + |ps[0]|)
  }

  /** The pieces of bevvy `k`, `n` in each but the last. */
  function Bevvy(pieces: seq<seq<byte>>, n: nat, k: nat): (ps: seq<seq<byte>>)
    requires k * n <= |pieces|
  {
    pieces[k * n..if k * n + n < |pieces| then k * n + n else |pieces|]
  }

  /** The first member of that name is stored and holds `data`. */
  ghost predicate Filed(a: Archive, name: seq<byte>, data: seq<byte>) {
    exists i :: 0 <= i < |a.members| && FiledAt(a.members, i, name, data)
  }

  ghost predicate FiledAt(ms: seq<Member>, i: nat, name: seq<byte>, data: seq<byte>)
    requires i < |ms|
  {
    && ms[i].name == name && ms[i].method_ == STORED && ms[i].size == |data| && ms[i].data == data
    && forall j :: 0 <= j < i ==> ms[j].name != name
  }

  function BevvySegment(im: Image, k: nat): seq<byte> {
    im.zip.sanitize(im.resource + "/" + BevvyName(k))
  }

  function IndexSegment(im: Image, k: nat): seq<byte> {
    im.zip.sanitize(im.resource + "/" + BevvyName(k) + ".index")
  }

  /** Every bevvy and its index are filed in the archive. */
  ghost predicate ImageFiled(a: Archive, im: Image, pieces: seq<seq<byte>>) {
    forall k: nat :: k * im.chunksInSegment < |pieces| ==>
      && Filed(a, BevvySegment(im, k), Flat(Bevvy(pieces, im.chunksInSegment, k)))
      && Filed(a, IndexSegment(im, k), PointBytes(PointsOf(Bevvy(pieces, im.chunksInSegment, k), 0)))
  }

  /** The image is open on the archive, with a geometry that can be read. */
  ghost predicate OpenOn(a: Archive, im: Image, data: seq<byte>) {
    && Openable(a) && im.zip.file == Write(a) && AllWritable(a.members) && im.zip.entries == MeantAll(a.members)
    && 0 < im.chunkSize < U32 && 0 < im.chunksInSegment < U32 && im.length == |data| < U64
    && BevvyOf(im, im.length) < U32 && forall s :: |im.decode(s)| == im.chunkSize
  }

  // ---------- segments ----------

  lemma {:induction false} LookupFirst(es: seq<ZipEntry>, i: nat, name: seq<byte>)
    requires i < |es| && es[i].name == name && forall j :: 0 <= j < i ==> es[j].name != name
    ensures Lookup(es, name) == Some(es[i])
    decreases i
  {
    if i > 0 {
      assert es[1..][i - 1] == es[i];
      LookupFirst(es[1..], i - 1, name);
    }
  }

  /** A filed segment is found, and lies in the file as it was filed. */
  lemma FiledRead(a: Archive, im: Image, data: seq<byte>, name: seq<byte>, content: seq<byte>)
    requires OpenOn(a, im, data) && Filed(a, name, content)
    ensures Lookup(im.zip.entries, name).Some?
    ensures var e := Lookup(im.zip.entries, name).value;
            HasAt(im.zip.file, e.offset, content) && Contents(im.zip, e) == Some(content)
  {
    hide Write, Front, CdBytes, AllWritable, WritableArchive, NoLaterEnd, Lookup, Stand;
    OpenableFacts(a);
    var i :| 0 <= i < |a.members| && FiledAt(a.members, i, name, content);
    DataAt(im.zip.file, a.members, i);
    LookupFirst(im.zip.entries, i, name);
  }

  lemma HasBehind(a: seq<byte>, b: seq<byte>, q: nat, t: seq<byte>)
    requires HasAt(b, q, t)
    ensures HasAt(a + b, |a| + q, t)
  {
    assert (a + b)[|a| + q..|a| + q + |t|] == b[q..q + |t|];
  }

  /** Each piece lies in the bevvy where its point says. */
  lemma {:induction false} PieceAt(ps: seq<seq<byte>>, at: nat, j: nat)
    requires j < |ps|
    ensures var p := PointsOf(ps, at)[j];
            at <= p.offset && p.length == |ps[j]| && HasAt(Flat(ps), p.offset - at, ps[j])
    decreases j
  {
    hide HasAt;
    if j > 0 {
      PieceAt(ps[1..], at + |ps[0]|, j - 1);
      var q := PointsOf(ps[1..], at + |ps[0]|)[j - 1];
      assert PointsOf(ps, at)[j] == q;
      HasBehind(ps[0], Flat(ps[1..]), q.offset - (at + |ps[0]|), ps[j]);
      assert |ps[0]| + (q.offset - (at + |ps[0]|)) == q.offset - at;
    } else {
      HasAll(Flat(ps));
      HasPart(Flat(ps), 0, ps[0], Flat(ps[1..]), |ps[0]|);
    }
  }

  /** So every point fits its fields. */
  lemma PointsFitIn(ps: seq<seq<byte>>)
    requires |Flat(ps)| < U64 && forall i :: 0 <= i < |ps| ==> |ps[i]| < U32
    ensures PointsFit(PointsOf(ps, 0))
  {
    hide Flat, PointsOf;
    forall j | 0 <= j < |ps| ensures PointsOf(ps, 0)[j].offset < U64 && PointsOf(ps, 0)[j].length < U32 {
      PieceAt(ps, 0, j);
    }
  }

  // ---------- reading ----------

  lemma SlotInBevvy(i: nat, n: nat)
    requires n > 0
    ensures (i / n) * n + i % n == i && i % n < n && (i / n) * n <= i
  {
  }

  /** Where a byte's piece is: its bevvy, its slot, and its place in the list of pieces. */
  lemma PieceOf(im: Image, pieces: seq<seq<byte>>, size: nat, b: nat)
    requires im.chunkSize > 0 && im.chunksInSegment > 0 && b < size <= |pieces| * im.chunkSize
    ensures var k, slot, i := BevvyOf(im, b), SlotOf(im, b), b / im.chunkSize;
            && k * im.chunksInSegment + slot == i < |pieces| && k * im.chunksInSegment <= |pieces|
            && slot < |Bevvy(pieces, im.chunksInSegment, k)| && Bevvy(pieces, im.chunksInSegment, k)[slot] == pieces[i]
  {
    hide Bevvy;
    var i, n := b / im.chunkSize, im.chunksInSegment;
    AtLeast(i, |pieces|, im.chunkSize);
    SlotInBevvy(b, im.chunkSize);
    SlotInBevvy(i, n);
    BevvyHolds(pieces, n, i / n, i % n, (i / n) * n);
  }

  lemma BevvyHolds(pieces: seq<seq<byte>>, n: nat, k: nat, slot: nat, at: nat)
    requires at == k * n && slot < n && at + slot < |pieces|
    ensures slot < |Bevvy(pieces, n, k)| && Bevvy(pieces, n, k)[slot] == pieces[at + slot]
  {
  }

  lemma AtLeast(i: nat, n: nat, c: nat)
    ensures i >= n ==> i * c >= n * c
  {
  }

  /** The index that is loaded for a bevvy is the one that was filed. */
  lemma IndexRead(a: Archive, im: Image, data: seq<byte>, pieces: seq<seq<byte>>, k: nat)
    requires OpenOn(a, im, data) && Packed(im, data, pieces) && ImageFiled(a, im, pieces) && k * im.chunksInSegment < |pieces|
    ensures var ix, ps := LoadBevvy(im.zip, im.resource, k), Bevvy(pieces, im.chunksInSegment, k);
            ix.points == PointsOf(ps, 0) && HasAt(im.zip.file, ix.dataOffset, Flat(ps))
  {
    hide OpenOn, Filed, Contents, Lookup, Flat, PointsOf, PointBytes, Points, LoadBevvy, Bevvy, HasAt, BevvySegment, IndexSegment;
    var ps := Bevvy(pieces, im.chunksInSegment, k);
    FiledRead(a, im, data, BevvySegment(im, k), Flat(ps));
    FiledRead(a, im, data, IndexSegment(im, k), PointBytes(PointsOf(ps, 0)));
    SmallFile(a, im, data);
    PiecesFit(a, im, data, pieces, k);
    PointsFitIn(ps);
    PointsRoundTrip(PointsOf(ps, 0));
    Loads(im, k, Lookup(im.zip.entries, BevvySegment(im, k)).value, Lookup(im.zip.entries, IndexSegment(im, k)).value, PointBytes(PointsOf(ps, 0)));
  }

  /** The bevvy lies in a file of less than 2^64 bytes, and each of its pieces is below 2^32. */
  lemma PiecesFit(a: Archive, im: Image, data: seq<byte>, pieces: seq<seq<byte>>, k: nat)
    requires OpenOn(a, im, data) && Packed(im, data, pieces) && k * im.chunksInSegment < |pieces| && |im.zip.file| < U64
    requires exists p: nat :: HasAt(im.zip.file, p, Flat(Bevvy(pieces, im.chunksInSegment, k)))
    ensures var ps := Bevvy(pieces, im.chunksInSegment, k); |Flat(ps)| < U64 && forall i :: 0 <= i < |ps| ==> |ps[i]| < U32
  {
    hide OpenOn, Flat, Raw;
  }

  lemma Loads(im: Image, k: nat, e: ZipEntry, ix: ZipEntry, s: seq<byte>)
    requires Lookup(im.zip.entries, BevvySegment(im, k)) == Some(e) && Lookup(im.zip.entries, IndexSegment(im, k)) == Some(ix)
    requires Contents(im.zip, ix) == Some(s)
    ensures LoadBevvy(im.zip, im.resource, k) == BevvyIndex(e.offset, Points(s))
  {
    hide Contents, Lookup, Points, BevvyName;
    Named(im, k);
  }

  lemma SmallFile(a: Archive, im: Image, data: seq<byte>)
    requires OpenOn(a, im, data)
    ensures |im.zip.file| < U64
  {
    hide Write, Front, CdBytes, AllWritable, WritableArchive, NoLaterEnd, MeantAll, Stand;
    OpenableFacts(a);
  }

  lemma Named(im: Image, k: nat)
    ensures BevvySegment(im, k) == im.zip.sanitize(im.resource + "/" + BevvyName(k))
    ensures im.resource + "/" + BevvyName(k) + ".index" == (im.resource + "/" + BevvyName(k)) + ".index"
  {
  }

  /** The point of a byte's chunk names the bytes of its piece. */
  lemma PointRead(a: Archive, im: Image, data: seq<byte>, pieces: seq<seq<byte>>, b: nat, i: nat)
    requires im.chunkSize > 0 && im.chunksInSegment > 0 && b < |data| && i == b / im.chunkSize
    requires OpenOn(a, im, data) && Packed(im, data, pieces) && ImageFiled(a, im, pieces)
    ensures i < |pieces| && PointOf(im, b).length == |pieces[i]| && HasAt(im.zip.file, DataOf(im, b), pieces[i])
  {
    hide ImageFiled, LoadBevvy, Flat, PointsOf, HasAt, Openable, AllWritable, MeantAll, Write;
    PieceOf(im, pieces, |data|, b);
    var k, slot := BevvyOf(im, b), SlotOf(im, b);
    var ps := Bevvy(pieces, im.chunksInSegment, k);
    IndexRead(a, im, data, pieces, k);
    PieceAt(ps, 0, slot);
    HasWithin(im.zip.file, LoadBevvy(im.zip, im.resource, k).dataOffset, Flat(ps), PointsOf(ps, 0)[slot].offset, ps[slot]);
  }

  /** An image written into an archive and opened there is what was written: the image is sound, and
      every byte of it is the byte of the data. */
  lemma ImageRoundTrip(a: Archive, im: Image, data: seq<byte>, pieces: seq<seq<byte>>)
    requires OpenOn(a, im, data) && Packed(im, data, pieces) && ImageFiled(a, im, pieces)
    ensures Sound(im) && forall b: nat :: b < |data| ==> ByteAt(im, b) == Some(data[b])
  {
    hide ImageFiled, PointOf, DataOf, Openable, AllWritable, MeantAll, Write, ByteAt, Packed, BevvyOf;
    SmallFile(a, im, data);
    forall o: nat | o < im.length ensures DataOf(im, o) + PointOf(im, o).length <= |im.zip.file| {
      PointRead(a, im, data, pieces, o, o / im.chunkSize);
    }
    forall b: nat | b < |data| ensures ByteAt(im, b) == Some(data[b]) {
      ByteRead(a, im, data, pieces, b);
    }
  }

  lemma ByteRead(a: Archive, im: Image, data: seq<byte>, pieces: seq<seq<byte>>, b: nat)
    requires OpenOn(a, im, data) && Packed(im, data, pieces) && ImageFiled(a, im, pieces) && b < |data| && Sound(im)
    ensures ByteAt(im, b) == Some(data[b])
  {
    hide ImageFiled, Openable, AllWritable, MeantAll, Write, Sound, BevvyOf, ChunkAt, Packed;
    var size := im.chunkSize;
    var i, start := b / size, Floor(b, size);
    FloorFacts(b, size);
    DivideBack(i, 0, size);
    assert start == i * size && start / size == i;
    ChunkRead(a, im, data, pieces, start, i);
    assert Raw(data, size, i)[b - start] == data[b];
  }

  /** The chunk that starts at `start` is the one that was cut from the data. */
  lemma ChunkRead(a: Archive, im: Image, data: seq<byte>, pieces: seq<seq<byte>>, start: nat, i: nat)
    requires im.chunkSize > 0 && start < |data| && i == start / im.chunkSize
    requires OpenOn(a, im, data) && Packed(im, data, pieces) && ImageFiled(a, im, pieces) && Sound(im)
    ensures ChunkAt(im, start) == Loaded(Raw(data, im.chunkSize, i))
  {
    hide ImageFiled, PointOf, DataOf, OpenOn, Sound, BevvyOf, Raw;
    Geometric(a, im, data);
    PointRead(a, im, data, pieces, start, i);
  }

  lemma Geometric(a: Archive, im: Image, data: seq<byte>)
    requires OpenOn(a, im, data)
    ensures im.chunkSize > 0 && im.chunksInSegment > 0
  {
  }

  /** The image is sound and holds that data. */
  ghost predicate HoldsData(im: Image, data: seq<byte>) {
    ImageStreams.Sound(im) && im.length == |data| && forall b: nat :: b < |data| ==> ByteAt(im, b) == Some(data[b])
  }

  /** The image of that shape over a file and its directory. */
  function Over(shape: Image, file: seq<byte>, entries: seq<ZipEntry>): Image {
    shape.(zip := shape.zip.(file := file, entries := entries))
  }

  /** Opening the file and taking the image from its directory gives an image of the data written. */
  method OpenImage(file: seq<byte>, signed: bool, junk: Memory, shape: Image, ghost a: Archive, ghost data: seq<byte>, ghost pieces: seq<seq<byte>>)
    returns (im: Image)
    requires Openable(a) && file == Write(a) && ReadRight(a, signed)
    requires OpenOn(a, Over(shape, file, MeantAll(a.members)), data) && Packed(shape, data, pieces) && ImageFiled(a, shape, pieces)
    ensures im == Over(shape, file, MeantAll(a.members)) && HoldsData(im, data)
  {
    hide Openable, Write, ReadRight, AllWritable, WritableArchive, Parse, MeantAll, OpenOn, Packed, ImageFiled, ByteAt, ImageStreams.Sound;
    SmallArchive(a);
    var zipFile := new ZipFile(file, signed, junk);
    var _ := zipFile.ParseCD();
    ReadsRight(a, signed, junk);
    im := Over(shape, file, zipFile.entries);
    SameShape(a, shape, im, data, pieces);
    ImageRoundTrip(a, im, data, pieces);
    LengthIs(a, im, data);
  }

  /** Reading an image that holds some data delivers that data, whatever the capacities of the caches. */
  method ReadImage(im: Image, indexCacheSize: nat, chunkCacheSize: nat, buf: array<byte>, count: nat, offset: nat, ghost data: seq<byte>)
    returns (res: int)
    requires HoldsData(im, data) && indexCacheSize >= 1 && chunkCacheSize >= 1 && count <= buf.Length && offset + count < U64
    modifies buf
    ensures offset <= |data| ==> var n := Min(count, |data| - offset); res == n && buf[..n] == data[offset..offset + n]
    ensures offset > |data| ==> res == 0
  {
    hide ByteAt, ImageStreams.Sound, Delivered, Lru.Sound, Lru.Keys;
    var stream := new ImageStream(im, indexCacheSize, chunkCacheSize);
    res := stream.Read(buf, 0, count, offset);
    if offset <= |data| {
      var n := Min(count, |data| - offset);
      assert buf[0..0 + n] == buf[..n];
      DataDelivered(im, data, offset, n, buf[..n], res);
    }
  }

  /** The whole way: open the file, take the image from its directory, and read.  Exactly the bytes that
      were written come out. */
  method OpenAndRead(file: seq<byte>, signed: bool, junk: Memory, shape: Image, indexCacheSize: nat, chunkCacheSize: nat,
      buf: array<byte>, count: nat, offset: nat, ghost a: Archive, ghost data: seq<byte>, ghost pieces: seq<seq<byte>>)
    returns (res: int)
    requires Openable(a) && file == Write(a) && ReadRight(a, signed)
    requires OpenOn(a, Over(shape, file, MeantAll(a.members)), data) && Packed(shape, data, pieces) && ImageFiled(a, shape, pieces)
    requires indexCacheSize >= 1 && chunkCacheSize >= 1 && count <= buf.Length && offset + count < U64
    modifies buf
    ensures offset <= |data| ==> var n := Min(count, |data| - offset); res == n && buf[..n] == data[offset..offset + n]
    ensures offset > |data| ==> res == 0
  {
    hide Openable, Write, ReadRight, AllWritable, WritableArchive, MeantAll, OpenOn, Packed, ImageFiled, HoldsData;
    var im := OpenImage(file, signed, junk, shape, a, data, pieces);
    res := ReadImage(im, indexCacheSize, chunkCacheSize, buf, count, offset, data);
  }

  lemma LengthIs(a: Archive, im: Image, data: seq<byte>)
    requires OpenOn(a, im, data)
    ensures im.length == |data|
  {
  }

  lemma SmallArchive(a: Archive)
    requires Openable(a)
    ensures WritableArchive(a) && |Write(a)| < U64 - U32
  {
    hide Write, WritableArchive, NoLaterEnd, Front, Stand;
  }

  lemma SameShape(a: Archive, shape: Image, im: Image, data: seq<byte>, pieces: seq<seq<byte>>)
    requires Packed(shape, data, pieces) && ImageFiled(a, shape, pieces)
    requires im == shape.(zip := shape.zip.(file := im.zip.file, entries := im.zip.entries))
    ensures Packed(im, data, pieces) && ImageFiled(a, im, pieces)
  {
    hide Filed, Flat, PointsOf, PointBytes, BevvyName, Raw, Bevvy;
    forall k: nat ensures BevvySegment(im, k) == BevvySegment(shape, k) && IndexSegment(im, k) == IndexSegment(shape, k) {
    }
  }

  lemma DataDelivered(im: Image, data: seq<byte>, offset: nat, n: nat, out: seq<byte>, res: int)
    requires ImageStreams.Sound(im) && offset + n <= |data| && |out| == n && forall b: nat :: b < |data| ==> ByteAt(im, b) == Some(data[b])
    requires if res == -1 then exists b :: offset <= b < offset + n && ByteAt(im, b) == None else res == n && Delivered(im, offset, out)
    ensures res == n && out == data[offset..offset + n]
  {
    hide ByteAt, ImageStreams.Sound;
    if res != -1 {
      forall i | 0 <= i < n ensures out[i] == data[offset + i] {
        assert ByteAt(im, offset + i) == Some(out[offset + i - offset]);
      }
    }
  }
}
