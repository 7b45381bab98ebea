/** The sparse-range query of the X-Ways plugin (win32/xwaysPlugin/Util.cc). */
module Sparse {
  import opened Bytes
  import opened Container
  import opened ImageStreams
  import opened LowerStreams
  import opened MapModel
  import opened MapStreams

  const BASE := "http://aff4.org/Schema#"

  /** isSpareResource: the names of streams that hold no data of their own. */
  predicate IsSparseResource(resource: string) {
    resource == BASE + "UnreadableData" || resource == BASE + "UnknownData" || resource == BASE + "Zero" || resource == BASE + "SymbolicStream" + "00"
  }

  /** Those names, and no others. */
  lemma SparseNames(resource: string)
    ensures IsSparseResource(resource) <==>
              || resource == "http://aff4.org/Schema#UnreadableData"
              || resource == "http://aff4.org/Schema#UnknownData"
              || resource == "http://aff4.org/Schema#Zero"
              || resource == "http://aff4.org/Schema#SymbolicStream00"
  {
    assert BASE + "UnreadableData" == "http://aff4.org/Schema#UnreadableData";
    assert BASE + "UnknownData" == "http://aff4.org/Schema#UnknownData";
    assert BASE + "Zero" == "http://aff4.org/Schema#Zero";
    assert BASE + "SymbolicStream" + "00" == "http://aff4.org/Schema#SymbolicStream00";
  }

  /** The name of the stream that a class stands for. */
  ghost function SourceName(idx: seq<Lower>, gap: Lower, c: Class): string {
    match c
    case Listed(i) => if i < |idx| then ResourceID(idx[i]) else ""
    case Gap => ResourceID(gap)
    case Unknown => UNKNOWN_NAME
  }

  /** The name of the stream that byte `b` of the map comes from, by a scan of the entries as given. */
  ghost function NameAt(stream: MapStream, b: nat): string {
    SourceName(stream.idx, stream.gap, DirectSource(|stream.idx|, stream.points, b).0)
  }

  lemma SparseByName(stream: MapStream, offset: nat, n: nat)
    ensures AllSparse(stream.idx, stream.gap, stream.points, offset, n) <==> forall b: nat :: offset <= b < offset + n ==>
              || NameAt(stream, b) == "http://aff4.org/Schema#UnreadableData"
              || NameAt(stream, b) == "http://aff4.org/Schema#UnknownData"
              || NameAt(stream, b) == "http://aff4.org/Schema#Zero"
              || NameAt(stream, b) == "http://aff4.org/Schema#SymbolicStream00"
  {
    hide IsSparseResource, SourceName, DirectSource;
    forall b: nat ensures SparseAt(stream.idx, stream.gap, stream.points, b) == IsSparseResource(NameAt(stream, b)) {
      SparseNames(NameAt(stream, b));
    }
    forall b: nat ensures SparseAt(stream.idx, stream.gap, stream.points, b) <==>
              || NameAt(stream, b) == "http://aff4.org/Schema#UnreadableData"
              || NameAt(stream, b) == "http://aff4.org/Schema#UnknownData"
              || NameAt(stream, b) == "http://aff4.org/Schema#Zero"
              || NameAt(stream, b) == "http://aff4.org/Schema#SymbolicStream00"
    {
      SparseNames(NameAt(stream, b));
    }
  }

  /** Byte `b` of the map, by a scan of the entries as given, comes from a sparse stream. */
  ghost predicate SparseAt(idx: seq<Lower>, gap: Lower, es: seq<Entry>, b: nat) {
    IsSparseResource(SourceName(idx, gap, DirectSource(|idx|, es, b).0))
  }

  ghost predicate AllSparse(idx: seq<Lower>, gap: Lower, es: seq<Entry>, offset: nat, n: nat) {
    forall b: nat :: offset <= b < offset + n ==> SparseAt(idx, gap, es, b)
  }

  /** The answer on a concatenated range is the conjunction over its parts. */
  lemma SparseSplits(idx: seq<Lower>, gap: Lower, es: seq<Entry>, offset: nat, a: nat, b: nat)
    ensures AllSparse(idx, gap, es, offset, a + b) <==> AllSparse(idx, gap, es, offset, a) && AllSparse(idx, gap, es, offset + a, b)
  {
    hide SparseAt;
    forall c: nat | offset <= c < offset + a + b
      ensures AllSparse(idx, gap, es, offset, a) && AllSparse(idx, gap, es, offset + a, b) ==> SparseAt(idx, gap, es, c)
    {
    }
  }

  /** All bytes of one tile have the sparseness of the stream it names. */
  lemma TileSparse(streams: seq<Lower>, idx: seq<Lower>, gap: Lower, ts: seq<Entry>, m: map<nat, Entry>, end: nat, es: seq<Entry>, b: nat, c: nat)
    requires Layout(streams, idx, gap) && Placed(idx, gap, |streams|, ts, m, end, es)
    requires b < end && ts != [] && b <= c < TileAt(ts, b).offset + TileAt(ts, b).length
    ensures TileAt(ts, b).streamID < |streams|
    ensures SparseAt(idx, gap, es, c) <==> IsSparseResource(ResourceID(streams[TileAt(ts, b).streamID]))
  {
    hide Layout, Tiling, TileAt, DirectSource, MapOf, Fits, IsSparseResource, SourceName;
    SameTile(ts, end, b, c);
    var t := TileAt(ts, b);
    assert TileSource(|idx|, ts, c) == DirectSource(|idx|, es, c);
    NameOf(streams, idx, gap, t.streamID);
  }

  lemma NameOf(streams: seq<Lower>, idx: seq<Lower>, gap: Lower, k: nat)
    requires Layout(streams, idx, gap) && k < |streams|
    ensures ResourceID(streams[k]) == SourceName(idx, gap, ClassOf(|idx|, k))
  {
    if k < |idx| {
      assert streams[k] == streams[..|idx|][k];
    }
  }

  lemma PieceSparse(streams: seq<Lower>, idx: seq<Lower>, gap: Lower, ts: seq<Entry>, m: map<nat, Entry>, end: nat, es: seq<Entry>, b: nat, n: nat)
    requires Layout(streams, idx, gap) && Placed(idx, gap, |streams|, ts, m, end, es)
    requires b < end && ts != [] && n > 0 && b + n <= TileAt(ts, b).offset + TileAt(ts, b).length
    ensures TileAt(ts, b).streamID < |streams|
    ensures AllSparse(idx, gap, es, b, n) <==> IsSparseResource(ResourceID(streams[TileAt(ts, b).streamID]))
  {
    hide Layout, Placed, SparseAt, TileAt, IsSparseResource;
    forall c: nat | b <= c < b + n
      ensures TileAt(ts, b).streamID < |streams| && (SparseAt(idx, gap, es, c) <==> IsSparseResource(ResourceID(streams[TileAt(ts, b).streamID])))
    {
      TileSparse(streams, idx, gap, ts, m, end, es, b, c);
    }
    assert TileAt(ts, b).streamID < |streams| by {
      TileSparse(streams, idx, gap, ts, m, end, es, b, b);
    }
    assert AllSparse(idx, gap, es, b, n) ==> SparseAt(idx, gap, es, b);
  }

  lemma NothingSparse(idx: seq<Lower>, gap: Lower, es: seq<Entry>, offset: nat)
    ensures AllSparse(idx, gap, es, offset, 0)
  {
  }

  /** The loop of isSparse. */
  method ScanSparse(stream: MapStream, nOfs: nat, nSize: nat) returns (r: bool)
    requires stream.Valid() && !stream.closed && nOfs + nSize <= stream.length
    ensures stream.Valid()
    ensures r <==> AllSparse(stream.idx, stream.gap, stream.points, nOfs, nSize)
  {
    hide Placed, Layout, Usable, Tiling, TileAt, AllSparse, IsSparseResource;
    ghost var idx, gap, points, tiles := stream.idx, stream.gap, stream.points, stream.tiles;
    var leftToRead: nat, offset: nat := nSize, nOfs;
    NothingSparse(idx, gap, points, nOfs);
    PlacedTiling(idx, gap, |stream.streams|, tiles, stream.entries, stream.end, points);
    while leftToRead > 0
      invariant stream.Valid()
      invariant offset + leftToRead == nOfs + nSize && nOfs <= offset && AllSparse(idx, gap, points, nOfs, offset - nOfs)
    {
      forall i | 0 <= i < |stream.streams| ensures allocated(Footprint(stream.streams[i])) {
      }
      var entry := FindEntry(stream.entries, offset, tiles, stream.end);
      var streamReadLength := Min(leftToRead, entry.length - (offset - entry.offset));
      PieceSparse(stream.streams, idx, gap, tiles, stream.entries, stream.end, points, offset, streamReadLength);
      SparseSplits(idx, gap, points, nOfs, offset - nOfs, streamReadLength);
      SparseSplits(idx, gap, points, nOfs, offset - nOfs + streamReadLength, leftToRead - streamReadLength);
      var resource := ResourceID(stream.streams[entry.streamID]);
      if !IsSparseResource(resource) {
        return false;
      }
      offset := offset + streamReadLength;
      leftToRead := leftToRead - streamReadLength;
    }
    return true;
  }

  /** isSparse, on a range within an open map: true exactly when every byte of the range comes from a
      stream of one of the four names. */
  method IsSparse(stream: MapStream, nOfs: nat, nSize: nat) returns (r: bool)
    requires stream.Valid() && !stream.closed && nOfs + nSize <= stream.length
    ensures stream.Valid()
    ensures r <==> forall b: nat :: nOfs <= b < nOfs + nSize ==>
              || NameAt(stream, b) == "http://aff4.org/Schema#UnreadableData"
              || NameAt(stream, b) == "http://aff4.org/Schema#UnknownData"
              || NameAt(stream, b) == "http://aff4.org/Schema#Zero"
              || NameAt(stream, b) == "http://aff4.org/Schema#SymbolicStream00"
  {
    hide Placed, Layout, Usable, AllSparse, NameAt;
    SparseByName(stream, nOfs, nSize);
    r := ScanSparse(stream, nOfs, nSize);
  }

  /** Asking about a range at once, or about its two parts, comes to the same. */
  method OneAnswerOrTwo(stream: MapStream, nOfs: nat, a: nat, b: nat) returns (whole: bool, first: bool, second: bool)
    requires stream.Valid() && !stream.closed && nOfs + a + b <= stream.length
    ensures whole <==> first && second
  {
    hide Placed, Layout, Usable, AllSparse, NameAt;
    SparseByName(stream, nOfs, a + b);
    SparseByName(stream, nOfs, a);
    SparseByName(stream, nOfs + a, b);
    whole := IsSparse(stream, nOfs, a + b);
    first := IsSparse(stream, nOfs, a);
    second := IsSparse(stream, nOfs + a, b);
    SparseSplits(stream.idx, stream.gap, stream.points, nOfs, a, b);
  }
}
