/** Maps over stored images, from the bytes that are stored to the bytes that a read of the map
    delivers (src/stream/MapStream.cc over src/stream/ImageStream.cc over src/zip/Zip.cc). */
module MapFile {
  import opened Bytes
  import opened Container
  import opened ImageStreams
  import opened LowerStreams
  import opened MapModel
  import opened MapStreams
  import opened ZipReader
  import opened ZipWriter
  import opened ImageArchive
  import opened ImageFile
  import opened Options

  /** An image to be stored: its shape, its bytes, and the pieces they are stored as. */
  datatype Stored = Stored(shape: Image, data: seq<byte>, pieces: seq<seq<byte>>)

  ghost predicate AllFit(images: seq<Stored>) {
    forall i :: 0 <= i < |images| ==>
      var s := images[i];
      Shaped(s.shape, |s.data|) && Packed(s.shape, s.data, s.pieces) && ImageFile.Fits(s.shape, s.pieces)
  }

  /** How many bytes the streams of a class hold, when the gap stream repeats one symbol. */
  function SizeOf(images: seq<Stored>, c: Class): nat {
    match c
    case Listed(i) => if i < |images| then |images[i].data| else 0
    case _ => U64 - 1
  }

  /** The entries name only bytes that are stored. */
  ghost predicate Backs(images: seq<Stored>, es: seq<Entry>, size: nat) {
    && (forall e :: e in es ==> e.streamOffset + e.length <= SizeOf(images, ClassOf(|images|, e.streamID)))
    && size < U64 && |images| + |es| + 1 < U32
  }

  /** What a map means in terms of the bytes stored: scan the entries as given, and take the byte of the
      data, the symbol of the gap stream, or the pattern of unknown streams. */
  ghost function Expected(images: seq<Stored>, symbol: byte, es: seq<Entry>, b: nat): byte {
    match DirectSource(|images|, es, b)
    case (Listed(i), o) => if i < |images| && 0 <= o < |images[i].data| then images[i].data[o] else symbol
    case (Gap, _) => symbol
    case (Unknown, o) => if o >= 0 then PatternByte(UNKNOWN, o) else symbol
  }

  /** Spelled out: the byte of the one entry over `b` lies in its stream as far behind the entry's stream
      offset as `b` lies behind its offset.  Stream ids count the images, then the gap stream, and all
      larger ones repeat the word UNKNOWN. */
  lemma ExpectedIs(images: seq<Stored>, symbol: byte, es: seq<Entry>, size: nat, b: nat, i: nat)
    requires Disjoint(es) && Backs(images, es, size) && i < |es| && es[i].offset <= b < es[i].offset + es[i].length
    ensures var id, o := es[i].streamID, es[i].streamOffset + (b - es[i].offset);
            && (id < |images| ==> o < |images[id].data| && Expected(images, symbol, es, b) == images[id].data[o])
            && (id == |images| ==> Expected(images, symbol, es, b) == symbol)
            && (id > |images| ==> Expected(images, symbol, es, b) == "UNKNOWN"[o % 0x10_0000 % 7] as int)
  {
    hide PatternByte, Cover, Disjoint;
    OnlyCover(es, b, i);
    UnknownByte(es[i].streamOffset + (b - es[i].offset));
    assert es[i] in es;
  }

  /** Where no entry is, the gap stream stands. */
  lemma ExpectedGap(images: seq<Stored>, symbol: byte, es: seq<Entry>, b: nat)
    requires forall i :: 0 <= i < |es| ==> !(es[i].offset <= b < es[i].offset + es[i].length)
    ensures Expected(images, symbol, es, b) == symbol
  {
    hide Cover;
    CoverSpec(es, b);
  }

  lemma OnlyCover(es: seq<Entry>, b: nat, i: nat)
    requires Disjoint(es) && i < |es| && Covers(es[i], b)
    ensures Cover(es, b) == Some(es[i])
  {
    CoverSpec(es, b);
    assert es[i] in es;
    var e := Cover(es, b).value;
    var j :| 0 <= j < |es| && es[j] == e;
    assert !Apart(es[i], es[j]) && !Apart(es[j], es[i]);
  }

  /** The streams hold the data of the images. */
  ghost predicate Opened(images: seq<Stored>, idx: seq<Lower>) {
    |idx| == |images| && forall i :: 0 <= i < |idx| ==> idx[i].ImageLower? && HoldsData(idx[i].image.im, images[i].data)
  }

  lemma OneOpened(images: seq<Stored>, idx: seq<Lower>, i: nat)
    requires Opened(images, idx) && i < |idx|
    ensures idx[i].ImageLower? && LowerSize(idx[i]) == |images[i].data|
    ensures forall o: nat :: o < |images[i].data| ==> LowerByte(idx[i], o) == Some(images[i].data[o])
  {
    hide ByteAt, ImageStreams.Sound;
  }

  lemma OpenedBacks(images: seq<Stored>, idx: seq<Lower>, name: string, symbol: byte, es: seq<Entry>, size: nat)
    requires Opened(images, idx) && Backs(images, es, size) && Disjoint(es)
    ensures Backed(idx, SymbolicLower(name, symbol), es, size)
  {
    hide Opened;
    var gap := SymbolicLower(name, symbol);
    forall e | e in es ensures MapStreams.Fits(idx, gap, e) && e.offset + e.length <= LowerSize(gap) {
      var i :| 0 <= i < |es| && es[i] == e;
      SameCount(images, idx);
      if e.streamID < |idx| {
        OneOpened(images, idx, e.streamID);
      }
    }
    SameCount(images, idx);
  }

  lemma SameCount(images: seq<Stored>, idx: seq<Lower>)
    requires Opened(images, idx)
    ensures |idx| == |images|
  {
  }

  /** Every byte of such a map is the one expected. */
  lemma BytesExpected(images: seq<Stored>, idx: seq<Lower>, name: string, symbol: byte, es: seq<Entry>, size: nat, b: nat)
    requires Opened(images, idx) && Backs(images, es, size)
    ensures MapByte(idx, SymbolicLower(name, symbol), es, b) == Some(Expected(images, symbol, es, b))
  {
    hide Opened, LowerByte, PatternByte;
    SameCount(images, idx);
    CoverSpec(es, b);
    SymbolHolds(name, symbol, b);
    match Cover(es, b)
    case None =>
    case Some(e) =>
      var o := e.streamOffset + (b - e.offset);
      SymbolHolds(name, symbol, o);
      if e.streamID < |idx| {
        OneOpened(images, idx, e.streamID);
      }
  }

  lemma SymbolHolds(name: string, symbol: byte, o: nat)
    ensures LowerByte(SymbolicLower(name, symbol), o) == Some(symbol)
  {
  }

  lemma UsableGrows(idx: seq<Lower>, l: Lower)
    requires Usable(idx) && Ready(l) && forall i :: 0 <= i < |idx| ==> Footprint(idx[i]) !! Footprint(l)
    ensures Usable(idx + [l])
  {
    hide Footprint, Ready;
    var all := idx + [l];
    forall i | 0 <= i < |all| ensures Ready(all[i]) {
      assert i < |idx| ==> Ready(idx[i]);
    }
  }

  lemma OneMoreOpened(images: seq<Stored>, idx: seq<Lower>, n: nat, l: Lower)
    requires n < |images| && Opened(images[..n], idx) && l.ImageLower? && HoldsData(l.image.im, images[n].data)
    ensures Opened(images[..n + 1], idx + [l])
  {
    hide HoldsData;
    assert images[..n + 1] == images[..n] + [images[n]];
  }

  /** Storing the images, one file each, and opening them. */
  method StoreAll(images: seq<Stored>, signed: bool, junk: Memory, indexCacheSize: nat, chunkCacheSize: nat) returns (idx: seq<Lower>)
    requires AllFit(images) && indexCacheSize >= 1 && chunkCacheSize >= 1
    ensures Opened(images, idx) && Usable(idx)
    ensures forall i :: 0 <= i < |idx| ==> fresh(Footprint(idx[i]))
  {
    hide Opened, AllFit, Usable, Footprint;
    idx := [];
    NoneOpened(images);
    for n := 0 to |images|
      invariant Opened(images[..n], idx) && Usable(idx)
      invariant forall i :: 0 <= i < |idx| ==> fresh(Footprint(idx[i]))
    {
      idx := StoreOne(images, n, idx, signed, junk, indexCacheSize, chunkCacheSize);
    }
    assert images[..|images|] == images;
  }

  lemma NoneOpened(images: seq<Stored>)
    ensures Opened(images[..0], []) && Usable([])
  {
  }

  method StoreOne(images: seq<Stored>, n: nat, idx: seq<Lower>, signed: bool, junk: Memory, indexCacheSize: nat, chunkCacheSize: nat)
    returns (idx': seq<Lower>)
    requires AllFit(images) && indexCacheSize >= 1 && chunkCacheSize >= 1 && n < |images| && Opened(images[..n], idx) && Usable(idx)
    ensures Opened(images[..n + 1], idx') && Usable(idx')
    ensures |idx'| == |idx| + 1 && idx'[..|idx|] == idx && fresh(Footprint(idx'[|idx|]))
  {
    hide HoldsData, Shaped, Packed, ImageFile.Fits, Opened, Usable, Footprint, Ready;
    forall i | 0 <= i < |idx| ensures allocated(Footprint(idx[i])) {
    }
    var s := images[n];
    var im := StoreImage(s.shape, s.data, s.pieces, signed, junk);
    var next := OpenStream(im, indexCacheSize, chunkCacheSize, s.data);
    UsableGrows(idx, next);
    OneMoreOpened(images, idx, n, next);
    idx' := idx + [next];
  }

  method OpenStream(im: Image, indexCacheSize: nat, chunkCacheSize: nat, ghost data: seq<byte>) returns (l: Lower)
    requires HoldsData(im, data) && indexCacheSize >= 1 && chunkCacheSize >= 1
    ensures l.ImageLower? && l.image.im == im && Ready(l) && fresh(Footprint(l))
  {
    hide ByteAt, ImageStreams.Sound;
    var stream := new ImageStream(im, indexCacheSize, chunkCacheSize);
    l := ImageLower(stream);
  }

  lemma WritesWithin(l: Lower)
    ensures Writes(l) <= Footprint(l) && (!l.ImageLower? ==> Writes(l) == {})
  {
  }

  lemma NoFootprint(name: string, symbol: byte)
    ensures Footprint(SymbolicLower(name, symbol)) == {} && Writes(SymbolicLower(name, symbol)) == {} && Ready(SymbolicLower(name, symbol))
  {
  }

  /** What a map may change is what its listed streams may. */
  lemma WritesAmong(streams: seq<Lower>, idx: seq<Lower>, gap: Lower)
    requires MapStreams.Layout(streams, idx, gap) && Writes(gap) == {}
    ensures AllWrites(streams) == AllWrites(idx)
  {
    hide Writes;
    forall i | |idx| <= i < |streams| ensures Writes(streams[i]) == {} {
      WritesWithin(streams[i]);
    }
    assert forall i :: 0 <= i < |idx| ==> streams[i] == streams[..|idx|][i] == idx[i];
  }

  lemma WritesBelow(idx: seq<Lower>)
    ensures forall o :: o in AllWrites(idx) ==> exists i :: 0 <= i < |idx| && o in Footprint(idx[i])
  {
    hide Footprint, Writes;
    forall i | 0 <= i < |idx| ensures Writes(idx[i]) <= Footprint(idx[i]) {
      WritesWithin(idx[i]);
    }
  }

  lemma BufferApart(streams: seq<Lower>, idx: seq<Lower>, gap: Lower, buf: array<byte>)
    requires MapStreams.Layout(streams, idx, gap) && Footprint(gap) == {} && Untouched(buf, idx)
    requires forall i :: |idx| < i < |streams| ==> buf !in Footprint(streams[i])
    ensures Untouched(buf, streams)
  {
    hide Footprint;
    assert forall i :: 0 <= i < |idx| ==> streams[i] == streams[..|idx|][i] == idx[i];
  }

  lemma Arrived(images: seq<Stored>, idx: seq<Lower>, name: string, symbol: byte, es: seq<Entry>, size: nat, offset: nat, n: nat, out: seq<byte>, res: int)
    requires Opened(images, idx) && Backs(images, es, size) && |out| == n
    requires var gap := SymbolicLower(name, symbol);
             if res == -1 then exists b :: offset <= b < offset + n && MapByte(idx, gap, es, b) == None
             else res == n && MapHolds(idx, gap, es, offset, out)
    ensures res == n && forall b: nat :: offset <= b < offset + n ==> out[b - offset] == Expected(images, symbol, es, b)
  {
    hide Opened, Backs, MapByte, Expected;
    forall b: nat ensures MapByte(idx, SymbolicLower(name, symbol), es, b) == Some(Expected(images, symbol, es, b)) {
      BytesExpected(images, idx, name, symbol, es, size, b);
    }
  }

  /** A map over streams that hold the images' data. */
  method MapOver(images: seq<Stored>, idx: seq<Lower>, name: string, symbol: byte, points: seq<Entry>, size: nat) returns (m: MapStream)
    requires Opened(images, idx) && Usable(idx) && Disjoint(points) && Backs(images, points, size) && (size > 0 || points != [])
    ensures m.Valid() && !m.closed && m.idx == idx && m.gap == SymbolicLower(name, symbol) && m.points == points
    ensures MapStreams.Layout(m.streams, idx, m.gap) && forall i :: |idx| < i < |m.streams| ==> fresh(Footprint(m.streams[i]))
    ensures if size > 0 then m.length == size else MapStreams.LastEnd(points, m.length)
  {
    hide Disjoint, Backs, Opened, Backed, MapStreams.LastEnd, Footprint, Ready, Usable, MapStreams.Layout, Placed;
    var gap := SymbolicLower(name, symbol);
    NoFootprint(name, symbol);
    UsableGrows(idx, gap);
    OpenedBacks(images, idx, name, symbol, points, size);
    m := new MapStream(idx, gap, Some(points), size);
    OpenMap(m);
  }

  lemma OpenMap(m: MapStream)
    requires m.Valid() && !m.closed
    ensures MapStreams.Layout(m.streams, m.idx, m.gap)
  {
  }

  /** Reading such a map. */
  method ReadMap(m: MapStream, images: seq<Stored>, name: string, symbol: byte, size: nat, buf: array<byte>, count: nat, offset: nat)
    returns (res: int)
    requires m.Valid() && !m.closed && m.gap == SymbolicLower(name, symbol) && Opened(images, m.idx) && Backs(images, m.points, size)
    requires count <= buf.Length && offset + count < U64 && Untouched(buf, m.streams)
    modifies buf, AllWrites(m.streams)
    ensures offset > m.length ==> res == 0
    ensures offset <= m.length ==>
              res == Min(count, m.length - offset) && forall b: nat :: offset <= b < offset + res ==> buf[b - offset] == Expected(images, symbol, m.points, b)
  {
    hide Backs, Opened, MapByte, MapHolds, Expected, Footprint, AllWrites, Untouched, MapStreams.Layout, MapStream.Valid;
    res := m.Read(buf, count, offset);
    if offset <= m.length {
      var n := Min(count, m.length - offset);
      Arrived(images, m.idx, name, symbol, m.points, size, offset, n, buf[..n], res);
    }
  }

  /** Storing images and reading a map over them: each byte delivered is the one the entries name among
      the bytes stored, and none is missing. */
  method StoreMapAndRead(images: seq<Stored>, name: string, symbol: byte, points: seq<Entry>, size: nat, signed: bool, junk: Memory,
      indexCacheSize: nat, chunkCacheSize: nat, buf: array<byte>, count: nat, offset: nat)
    returns (res: int, length: nat)
    requires AllFit(images) && indexCacheSize >= 1 && chunkCacheSize >= 1
    requires Disjoint(points) && Backs(images, points, size) && (size > 0 || points != [])
    requires count <= buf.Length && offset + count < U64
    modifies buf
    ensures if size > 0 then length == size else MapStreams.LastEnd(points, length)
    ensures offset > length ==> res == 0
    ensures offset <= length ==>
              res == Min(count, length - offset) && forall b: nat :: offset <= b < offset + res ==> buf[b - offset] == Expected(images, symbol, points, b)
  {
    hide AllFit, Disjoint, Backs, Opened, MapStreams.LastEnd, Expected, Footprint, Usable, AllWrites, MapStreams.Layout, MapStream.Valid;
    var idx := StoreAll(images, signed, junk, indexCacheSize, chunkCacheSize);
    forall i | 0 <= i < |idx| ensures allocated(Footprint(idx[i])) {
    }
    var m := MapOver(images, idx, name, symbol, points, size);
    length := m.length;
    NoFootprint(name, symbol);
    WritesAmong(m.streams, idx, m.gap);
    WritesBelow(idx);
    BufferApart(m.streams, idx, m.gap, buf);
    res := ReadMap(m, images, name, symbol, size, buf, count, offset);
  }
}
