/** Compressed image streams: the chunk loader, the two caches and the read loop
    (src/stream/ImageStream.cc, src/stream/struct/ChunkLoader.cc). */
module ImageStreams {
  import opened Bytes
  import opened Container
  import Lru
  import opened Options

  /** What an image stream is: its container, resource name, geometry and codec.  `decode` stands
      for the codec filling a buffer of `chunkSize` bytes. */
  datatype Image = Image(zip: Zip, resource: string, length: nat, chunkSize: nat, chunksInSegment: nat, decode: seq<byte> -> seq<byte>)

  /** A cached chunk: no data when its index point is missing. */
  datatype Chunk = Missing | Loaded(data: seq<byte>)

  function BevvyOf(im: Image, offset: nat): nat
    requires im.chunkSize > 0 && im.chunksInSegment > 0
  {
    (offset / im.chunkSize) / im.chunksInSegment
  }

  function SlotOf(im: Image, offset: nat): nat
    requires im.chunkSize > 0 && im.chunksInSegment > 0
  {
    (offset / im.chunkSize) % im.chunksInSegment
  }

  /** The point the bevvy index names for the chunk at `offset`. */
  function PointOf(im: Image, offset: nat): Point
    requires im.chunkSize > 0 && im.chunksInSegment > 0
  {
    GetPoint(LoadBevvy(im.zip, im.resource, BevvyOf(im, offset)), SlotOf(im, offset))
  }

  function DataOf(im: Image, offset: nat): nat
    requires im.chunkSize > 0 && im.chunksInSegment > 0
  {
    LoadBevvy(im.zip, im.resource, BevvyOf(im, offset)).dataOffset + PointOf(im, offset).offset
  }

  /** The geometry is positive, bevvy ids fit their 32 bits, the codec fills a chunk, and every index
      point lies in the file. */
  ghost predicate Sound(im: Image) {
    && 0 < im.chunkSize < U32 && 0 < im.chunksInSegment < U32 && im.length < U64 && |im.zip.file| < U64
    && (forall s :: |im.decode(s)| == im.chunkSize)
    && BevvyOf(im, im.length) < U32
    && (forall o: nat :: o < im.length && PointOf(im, o).length > 0 ==> DataOf(im, o) + PointOf(im, o).length <= |im.zip.file|)
  }

  /** The direct meaning of a chunk: the bytes its index point names, decoded unless stored whole. */
  ghost function ChunkAt(im: Image, offset: nat): (c: Chunk)
    requires Sound(im)
    ensures c.Loaded? ==> |c.data| == im.chunkSize
  {
    var p := PointOf(im, offset);
    if p.length == 0 || DataOf(im, offset) + p.length > |im.zip.file| then Missing
    else
      var raw := im.zip.file[DataOf(im, offset)..DataOf(im, offset) + p.length];
      Loaded(if p.length == im.chunkSize then raw else im.decode(raw))
  }

  function Floor(offset: nat, size: nat): nat
    requires size > 0
  {
    (offset / size) * size
  }

  /** The direct meaning of byte `b` of the image: locate its chunk, decode it, index it. */
  ghost function ByteAt(im: Image, b: nat): Option<byte>
    requires Sound(im)
  {
    FloorFacts(b, im.chunkSize);
    match ChunkAt(im, Floor(b, im.chunkSize))
    case Missing => None
    case Loaded(d) => Some(d[b - Floor(b, im.chunkSize)])
  }

  /** Nothing is stored for byte `b`: its bevvy or the index of it has no segment, or the index ends before
      the chunk's point, or the length there is zero. */
  ghost predicate NotStored(im: Image, b: nat)
    requires im.chunkSize > 0 && im.chunksInSegment > 0
  {
    var bevvy := im.resource + "/" + BevvyName(b / im.chunkSize / im.chunksInSegment);
    var at := 12 * (b / im.chunkSize % im.chunksInSegment);
    || Lookup(im.zip.entries, im.zip.sanitize(bevvy)) == None
    || match Lookup(im.zip.entries, im.zip.sanitize(bevvy + ".index"))
       case None => true
       case Some(ix) => Contents(im.zip, ix) == None || var s := Contents(im.zip, ix).value; |s| < at + 12 || s[at + 8..at + 12] == [0, 0, 0, 0]
  }

  /** Such a byte is missing. */
  lemma NotStoredIsMissing(im: Image, b: nat)
    requires Sound(im) && NotStored(im, b)
    ensures ByteAt(im, b) == None
  {
    hide Sound, NotStored, PointOf, DataOf, Floor, BevvyOf;
    Geometry(im);
    FloorFacts(b, im.chunkSize);
    SamePoint(im, b);
    NoPoint(im, b);
  }

  lemma SamePoint(im: Image, b: nat)
    requires im.chunkSize > 0 && im.chunksInSegment > 0
    ensures PointOf(im, Floor(b, im.chunkSize)) == PointOf(im, b)
  {
    hide LoadBevvy, GetPoint;
    DivideBack(b / im.chunkSize, 0, im.chunkSize);
  }

  lemma NoPoint(im: Image, b: nat)
    requires im.chunkSize > 0 && im.chunksInSegment > 0 && NotStored(im, b)
    ensures PointOf(im, b).length == 0
  {
    hide Lookup, Contents, BevvyName, Field, Points;
    var slot := SlotOf(im, b);
    match Lookup(im.zip.entries, im.zip.sanitize(im.resource + "/" + BevvyName(BevvyOf(im, b))))
    case None =>
    case Some(_) =>
      match Lookup(im.zip.entries, im.zip.sanitize(im.resource + "/" + BevvyName(BevvyOf(im, b)) + ".index"))
      case None =>
      case Some(ix) =>
        if Contents(im.zip, ix).Some? {
          ShortPoint(Contents(im.zip, ix).value, slot);
        }
  }

  lemma ShortPoint(s: seq<byte>, slot: nat)
    requires |s| < 12 * slot + 12 || s[12 * slot + 8..12 * slot + 12] == [0, 0, 0, 0]
    ensures slot < |Points(s)| ==> Points(s)[slot].length == 0
  {
    if slot < |Points(s)| {
      assert |s| >= 12 * slot + 12;
      assert Le([0, 0, 0, 0]) == 0 by { FourZeros(); }
    }
  }

  lemma FourZeros()
    ensures Le([0, 0, 0, 0]) == 0
  {
    assert [0, 0, 0, 0][1..] == [0, 0, 0] && [0, 0, 0][1..] == [0, 0] && [0, 0][1..] == [0] && [0][1..] == [];
  }

  lemma FloorFacts(b: nat, size: nat)
    requires size > 0
    ensures Floor(b, size) <= b < Floor(b, size) + size && b - Floor(b, size) == b % size
  {
  }

  /** Addresses in one chunk share their chunk. */
  lemma SameChunk(b: nat, i: nat, size: nat)
    requires size > 0 && b % size + i < size
    ensures Floor(b + i, size) == Floor(b, size)
  {
    var q := b / size;
    assert b + i == q * size + (b % size + i);
    DivideBack(q, b % size + i, size);
  }

  lemma SmallMultiple(k: int, size: int)
    requires -size < k * size < size
    ensures k == 0
  {
    assert k >= 1 ==> k * size >= size;
    assert k <= -1 ==> k * size <= -size;
  }

  lemma DivideBack(q: nat, r: nat, size: nat)
    requires r < size
    ensures (q * size + r) / size == q && (q * size + r) % size == r
  {
    var x := q * size + r;
    var d, m := x / size, x % size;
    assert x == d * size + m;
    assert (d - q) * size == r - m;
    SmallMultiple(d - q, size);
  }

  /** Chunk numbers and (bevvy, slot) pairs correspond one to one. */
  lemma ChunkAddressing(im: Image, bevvy: nat, slot: nat, offset: nat)
    requires im.chunkSize > 0 && im.chunksInSegment > 0
    ensures slot < im.chunksInSegment ==>
              var o := (bevvy * im.chunksInSegment + slot) * im.chunkSize;
              BevvyOf(im, o) == bevvy && SlotOf(im, o) == slot
    ensures (BevvyOf(im, offset) * im.chunksInSegment + SlotOf(im, offset)) * im.chunkSize == Floor(offset, im.chunkSize)
  {
    if slot < im.chunksInSegment {
      var n := bevvy * im.chunksInSegment + slot;
      DivideBack(n, 0, im.chunkSize);
      DivideBack(bevvy, slot, im.chunksInSegment);
    }
  }

  lemma SmallFactor(k: int, c: nat)
    requires k * c < c
    ensures k <= 0
  {
    assert k >= 1 ==> k * c >= c;
  }

  lemma Quotients(a: nat, b: nat, c: nat)
    requires a <= b && c > 0
    ensures a / c <= b / c
  {
    var q, p := a / c, b / c;
    assert q * c <= a && b < p * c + c;
    assert (q - p) * c == q * c - p * c;
    SmallFactor(q - p, c);
  }

  lemma Geometry(im: Image)
    requires Sound(im)
    ensures im.chunkSize > 0 && im.chunksInSegment > 0 && BevvyOf(im, im.length) < U32
  {
    hide BevvyOf, PointOf, DataOf;
  }

  /** Bevvy ids inside an image fit 32 bits. */
  lemma BevvyFits(im: Image, offset: nat)
    requires Sound(im) && offset < im.length
    ensures BevvyOf(im, offset) < U32
  {
    hide Sound, PointOf, DataOf;
    Geometry(im);
    Quotients(offset, im.length, im.chunkSize);
    Quotients(offset / im.chunkSize, im.length / im.chunkSize, im.chunksInSegment);
  }

  /** The bytes a point names are the bytes of the stored bevvy segment at the point's offset. */
  lemma PointInSegment(im: Image, offset: nat, e: ZipEntry)
    requires Sound(im) && offset < im.length && PointOf(im, offset).length > 0
    requires Lookup(im.zip.entries, im.zip.sanitize(im.resource + "/" + BevvyName(BevvyOf(im, offset)))) == Some(e)
    requires e.method_ == STORED && e.offset + e.length <= |im.zip.file|
    requires PointOf(im, offset).offset + PointOf(im, offset).length <= e.length
    ensures var p, d := PointOf(im, offset), DataOf(im, offset);
            d + p.length <= |im.zip.file| && im.zip.file[d..d + p.length] == Contents(im.zip, e).value[p.offset..p.offset + p.length]
  {
    hide Points, BevvyName;
    var p := PointOf(im, offset);
    SliceSlice(im.zip.file, e.offset, e.offset + e.length, p.offset, p.offset + p.length);
  }

  class ChunkLoader {
    const im: Image
    const bevvyCache: Lru.Cache<nat, BevvyIndex>

    ghost predicate Valid()
      reads this, bevvyCache
    {
      && Sound(im) && bevvyCache.Valid() && bevvyCache.maxSize >= 1
      && forall id: nat :: bevvyCache.spec(id) == LoadBevvy(im.zip, im.resource, id)
    }

    constructor (im: Image, indexCacheSize: nat)
      requires Sound(im) && indexCacheSize >= 1
      ensures Valid() && this.im == im && fresh(bevvyCache)
    {
      this.im := im;
      bevvyCache := new Lru.Cache(indexCacheSize, (id: nat) => LoadBevvy(im.zip, im.resource, id));
    }

    /** ChunkLoader::load. */
    method Load(offset: nat) returns (chunk: Chunk)
      requires Valid() && offset < im.length
      modifies bevvyCache
      ensures Valid() && chunk == ChunkAt(im, offset)
    {
      hide LoadBevvy, GetPoint, Lru.Trim, Lru.Touch, Lru.Keys, Lru.Sound;
      BevvyFits(im, offset);
      var bevvyID := (offset / im.chunkSize) / im.chunksInSegment;
      var index := bevvyCache.Get(bevvyID % U32, (id: nat) => LoadBevvy(im.zip, im.resource, id));
      var chunkID := (offset / im.chunkSize) % im.chunksInSegment;
      var point := GetPoint(index, chunkID);
      if point.length == 0 {
        return Missing;
      }
      assert point == PointOf(im, offset) && index.dataOffset + point.offset == DataOf(im, offset);
      var chunkOffset := index.dataOffset + point.offset;
      var buffer := ReadChunk(im.zip.file, chunkOffset, point.length);
      if point.length != im.chunkSize {
        return Loaded(im.decode(buffer[..]));
      }
      return Loaded(buffer[..]);
    }

    /** The read loop: however the reads are cut short, the buffer ends up holding the point's bytes. */
    static method ReadChunk(file: seq<byte>, offset: nat, length: nat) returns (buffer: array<byte>)
      requires offset + length <= |file| < U64
      ensures fresh(buffer) && buffer[..] == file[offset..offset + length]
    {
      buffer := new byte[length];
      var toRead: nat, chunkOffset: nat, buf: nat := length, offset, 0;
      while toRead > 0
        invariant toRead + buf == length && chunkOffset == offset + buf
        invariant buffer[..buf] == file[offset..offset + buf]
      {
        var data := FileRead(file, toRead, chunkOffset);
        if |data| == 0 {
          break;
        }
        CopyIn(buffer, buf, data);
        assert file[offset..offset + buf + |data|] == file[offset..offset + buf] + data;
        toRead := toRead - |data|;
        chunkOffset := chunkOffset + |data|;
        buf := buf + |data|;
      }
    }
  }

  lemma Join(buf: array<byte>, a: nat, b: nat, c: nat)
    requires a <= b <= c <= buf.Length
    ensures buf[a..c] == buf[a..b] + buf[b..c]
  {
  }

  /** memcpy of `data` into `buf` at `at`. */
  method CopyIn(buf: array<byte>, at: nat, data: seq<byte>)
    requires at + |data| <= buf.Length
    modifies buf
    ensures buf[..at] == old(buf[..at]) && buf[at..at + |data|] == data && buf[at + |data|..] == old(buf[at + |data|..])
    ensures buf[..at + |data|] == old(buf[..at]) + data
    ensures forall j :: 0 <= j < buf.Length && !(at <= j < at + |data|) ==> buf[j] == old(buf[j])
  {
    forall i | 0 <= i < |data| {
      buf[at + i] := data[i];
    }
  }

  /** `out` is what the image holds from `offset` on, with nothing missing. */
  ghost predicate Delivered(im: Image, offset: nat, out: seq<byte>)
    requires Sound(im)
  {
    forall b :: offset <= b < offset + |out| ==> ByteAt(im, b) == Some(out[b - offset])
  }

  lemma DeliveredAppend(im: Image, offset: nat, out: seq<byte>, more: seq<byte>)
    requires Sound(im) && Delivered(im, offset, out) && Delivered(im, offset + |out|, more)
    ensures Delivered(im, offset, out + more)
  {
    hide ByteAt, Sound;
  }

  /** What the chunk of address `off` supplies from there on. */
  lemma ChunkSupplies(im: Image, off: nat, n: nat)
    requires Sound(im) && off % im.chunkSize + n <= im.chunkSize
    ensures var c, d := ChunkAt(im, Floor(off, im.chunkSize)), off % im.chunkSize;
            if c == Missing then n > 0 ==> ByteAt(im, off) == None
            else Delivered(im, off, c.data[d..d + n])
  {
    hide Sound, ChunkAt, Floor;
    Positive(im);
    var c, d := ChunkAt(im, Floor(off, im.chunkSize)), off % im.chunkSize;
    FloorFacts(off, im.chunkSize);
    if c != Missing {
      forall b | off <= b < off + n ensures ByteAt(im, b) == Some(c.data[d..d + n][b - off]) {
        SameChunk(off, b - off, im.chunkSize);
      }
    }
  }

  lemma Positive(im: Image)
    requires Sound(im)
    ensures im.chunkSize > 0 && im.length < U64 && Delivered(im, 0, [])
    ensures forall o: nat :: Delivered(im, o, [])
  {
  }

  function Min(a: int, b: int): int { if a < b then a else b }

  ghost predicate Missed(im: Image, b: nat) {
    im.chunkSize > 0 && im.chunksInSegment > 0 && NotStored(im, b)
  }

  /** What is delivered is stored. */
  lemma NoneMissed(im: Image, offset: nat, out: seq<byte>)
    requires Sound(im) && Delivered(im, offset, out)
    ensures forall b: nat :: offset <= b < offset + |out| ==> !Missed(im, b)
  {
    hide Sound, ByteAt, NotStored;
    forall b: nat | offset <= b < offset + |out| ensures !Missed(im, b) {
      assert ByteAt(im, b).Some?;
      if Missed(im, b) {
        NotStoredIsMissing(im, b);
      }
    }
  }

  class ImageStream {
    const im: Image
    const loader: ChunkLoader
    const chunkCache: Lru.Cache<nat, Chunk>
    var closed: bool

    /** The objects a read may change: the two caches. */
    ghost function Caches(): set<object> {
      {loader.bevvyCache, chunkCache}
    }

    ghost predicate Valid()
      reads this, loader, Caches()
    {
      && loader.Valid() && loader.im == im
      && chunkCache.Valid() && chunkCache.maxSize >= 1 && chunkCache as object != loader.bevvyCache
      && forall o: nat :: chunkCache.spec(o) == ChunkAt(im, o)
    }

    constructor (im: Image, indexCacheSize: nat, chunkCacheSize: nat)
      requires Sound(im) && indexCacheSize >= 1 && chunkCacheSize >= 1
      ensures Valid() && !closed && this.im == im && fresh(Caches()) && fresh(loader)
    {
      this.im := im;
      loader := new ChunkLoader(im, indexCacheSize);
      chunkCache := new Lru.Cache(chunkCacheSize, (o: nat) => ChunkAt(im, o));
      closed := false;
    }

    /** chunkCache->get: a miss runs the chunk loader, which goes through the bevvy index cache. */
    method GetChunk(offset: nat) returns (chunk: Chunk)
      requires Valid() && offset < im.length
      modifies Caches()
      ensures Valid() && chunk == ChunkAt(im, offset)
    {
      hide Lru.Trim, Lru.Touch, Lru.Keys, Lru.Sound, ChunkAt, Sound;
      var found := chunkCache.Find(offset);
      if found.Some? {
        return found.value;
      }
      var value := loader.Load(offset);
      chunk := chunkCache.Load(offset, value);
    }

    /** One pass of the read loop: copy what the chunk of address `off` holds, 0 if it is missing. */
    method CopyFromChunk(buf: array<byte>, at: nat, leftToRead: nat, off: nat) returns (toCopy: nat)
      requires Valid() && 0 < leftToRead && at + leftToRead <= buf.Length && off < im.length
      modifies buf, Caches()
      ensures Valid() && toCopy <= leftToRead
      ensures if toCopy == 0 then ByteAt(im, off) == None else Delivered(im, off, buf[at..at + toCopy])
      ensures buf[..at] == old(buf[..at])
      ensures forall j :: 0 <= j < buf.Length && !(at <= j < at + toCopy) ==> buf[j] == old(buf[j])
    {
      hide Sound, ByteAt, Delivered, ChunkAt, Lru.Trim, Lru.Touch, Lru.Keys, Lru.Sound;
      Positive(im);
      var chunkOffset := Floor(off, im.chunkSize);
      FloorFacts(off, im.chunkSize);
      var entry := GetChunk(chunkOffset);
      if entry == Missing {
        ChunkSupplies(im, off, 1);
        return 0;
      }
      var delta := off - chunkOffset;
      toCopy := Min(im.chunkSize - delta, leftToRead);
      ChunkSupplies(im, off, toCopy);
      CopyIn(buf, at, entry.data[delta..delta + toCopy]);
    }

    /** ImageStream::read into `buf` at `at`.  It delivers every byte asked for that the stream
        has, each equal to its direct meaning whatever was read before; it fails exactly when one
        of their chunks is missing. */
    method Read(buf: array<byte>, at: nat, count: nat, offset: nat) returns (res: int)
      requires Valid() && at + count <= buf.Length && offset + count < U64
      modifies buf, Caches()
      ensures Valid()
      ensures forall j :: 0 <= j < buf.Length && !(at <= j < at + count) ==> buf[j] == old(buf[j])
      ensures closed ==> res == -1
      ensures !closed && offset > im.length ==> res == 0
      ensures !closed && offset <= im.length ==>
                var n := Min(count, im.length - offset);
                if res == -1 then exists b :: offset <= b < offset + n && ByteAt(im, b) == None
                else res == n && Delivered(im, offset, buf[at..at + n])
      ensures !closed && (exists b: nat :: offset <= b < offset + count && b < im.length && Missed(im, b)) ==> res == -1
    {
      hide Sound, ByteAt, Delivered, Missed, Lru.Trim, Lru.Touch, Lru.Keys, Lru.Sound;
      if closed {
        return -1;
      }
      if offset > im.length {
        return 0;
      }
      Positive(im);
      TruncateExact(count, offset, im.length);
      var n: nat := Truncate(count, offset, im.length);
      var leftToRead: nat, actualRead: nat := n, 0;
      assert buf[at..at + actualRead] == [];
      while leftToRead > 0
        invariant Valid() && !closed && leftToRead + actualRead == n
        invariant Delivered(im, offset, buf[at..at + actualRead])
        invariant forall j :: 0 <= j < buf.Length && !(at <= j < at + count) ==> buf[j] == old(buf[j])
      {
        ghost var done := buf[at..at + actualRead];
        assert done == buf[..at + actualRead][at..];
        var toCopy := CopyFromChunk(buf, at + actualRead, leftToRead, offset + actualRead);
        if toCopy == 0 {
          return -1;
        }
        assert buf[at..at + actualRead] == buf[..at + actualRead][at..] == done;
        Join(buf, at, at + actualRead, at + actualRead + toCopy);
        DeliveredAppend(im, offset, done, buf[at + actualRead..at + actualRead + toCopy]);
        actualRead := actualRead + toCopy;
        leftToRead := leftToRead - toCopy;
      }
      res := actualRead;
      NoneMissed(im, offset, buf[at..at + n]);
    }
  }
}
