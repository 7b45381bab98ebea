/** Map streams: building the interval map and reading through it (src/stream/MapStream.cc). */
module MapStreams {
  import opened Bytes
  import opened Container
  import opened ImageStreams
  import opened LowerStreams
  import opened MapModel
  import OrderedMap
  import opened Options

  // ---------- sorting ----------

  /** In offset order, each entry ending before the next begins. */
  ghost predicate Chained(ps: seq<Entry>) {
    forall i, j :: 0 <= i < j < |ps| ==> ps[i].offset + ps[i].length <= ps[j].offset
  }

  method Position(ps: seq<Entry>, e: Entry) returns (k: nat)
    ensures k <= |ps| && (forall j :: 0 <= j < k ==> ps[j].offset <= e.offset) && (k < |ps| ==> e.offset < ps[k].offset)
  {
    k := 0;
    while k < |ps| && ps[k].offset <= e.offset
      invariant k <= |ps| && forall j :: 0 <= j < k ==> ps[j].offset <= e.offset
    {
      k := k + 1;
    }
  }

  /** std::sort by mapEntryPointCompare. */
  method SortEntries(es: seq<Entry>) returns (ps: seq<Entry>)
    requires Disjoint(es)
    ensures multiset(ps) == multiset(es) && |ps| == |es| && Chained(ps)
  {
    ps := [];
    hide Disjoint, Apart;
    for i := 0 to |es|
      invariant |ps| == i && multiset(ps) == multiset(es[..i]) && Chained(ps)
    {
      var e := es[i];
      AllApart(es, i, ps);
      var k := Position(ps, e);
      hide Chained;
      InsertChained(ps, e, k);
      InsertMultiset(es, i, ps, k);
      ps := ps[..k] + [e] + ps[k..];
    }
    assert es[..|es|] == es;
  }

  lemma AllApart(es: seq<Entry>, i: nat, ps: seq<Entry>)
    requires Disjoint(es) && i < |es| && multiset(ps) == multiset(es[..i])
    ensures es[i].length > 0 && forall j :: 0 <= j < |ps| ==> ps[j].length > 0 && Apart(ps[j], es[i])
  {
    forall j | 0 <= j < |ps| ensures ps[j].length > 0 && Apart(ps[j], es[i]) {
      assert ps[j] in multiset(ps);
      assert ps[j] in es[..i];
      var a :| 0 <= a < i && es[a] == ps[j];
    }
  }

  lemma InsertChained(ps: seq<Entry>, e: Entry, k: nat)
    requires Chained(ps) && k <= |ps| && e.length > 0 && forall j :: 0 <= j < |ps| ==> ps[j].length > 0 && Apart(ps[j], e)
    requires (forall j :: 0 <= j < k ==> ps[j].offset <= e.offset) && (k < |ps| ==> e.offset < ps[k].offset)
    ensures Chained(ps[..k] + [e] + ps[k..])
  {
    var qs := ps[..k] + [e] + ps[k..];
    forall j | 0 <= j < |ps| ensures if j < k then ps[j].offset + ps[j].length <= e.offset else e.offset + e.length <= ps[j].offset {
      assert Apart(ps[j], e);
      assert j > k ==> ps[k].offset + ps[k].length <= ps[j].offset;
    }
    assert forall j :: 0 <= j < |qs| ==> qs[j] == if j < k then ps[j] else if j == k then e else ps[j - 1];
  }

  lemma InsertMultiset(es: seq<Entry>, i: nat, ps: seq<Entry>, k: nat)
    requires i < |es| && k <= |ps| && multiset(ps) == multiset(es[..i])
    ensures multiset(ps[..k] + [es[i]] + ps[k..]) == multiset(es[..i + 1])
  {
    assert ps == ps[..k] + ps[k..] && es[..i + 1] == es[..i] + [es[i]];
  }

  // ---------- building the map ----------

  /** The tiles agree with the direct meaning of the entries `es` below `o`, and hold all of them. */
  ghost predicate Agrees(n: nat, ts: seq<Entry>, o: nat, es: seq<Entry>) {
    && Tiling(ts, o)
    && (forall b: nat :: b < o ==> ts != [] && TileSource(n, ts, b) == DirectSource(n, es, b))
    && (forall e :: e in es ==> e.offset + e.length <= o)
  }

  /** A sparse region inserted before the next entry. */
  lemma GapStep(n: nat, ts: seq<Entry>, o: nat, es: seq<Entry>, length: nat)
    requires Agrees(n, ts, o, es) && length > 0
    ensures Agrees(n, ts + [Entry(o, length, o, n)], o + length, es)
  {
    var t := Entry(o, length, o, n);
    AddTile(ts, o, t);
    TilingFacts(ts, o);
    forall b: nat | b < o + length ensures TileSource(n, ts + [t], b) == DirectSource(n, es, b) {
      CoverSpec(es, b);
    }
  }

  /** An entry inserted at the cursor, with a stream id of the same meaning. */
  lemma EntryStep(n: nat, ts: seq<Entry>, o: nat, es: seq<Entry>, e: Entry, id: nat)
    requires Agrees(n, ts, o, es) && e.offset == o && e.length > 0 && ClassOf(n, id) == ClassOf(n, e.streamID)
    ensures Agrees(n, ts + [e.(streamID := id)], o + e.length, es + [e])
  {
    var t := e.(streamID := id);
    AddTile(ts, o, t);
    TilingFacts(ts, o);
    assert (es + [e])[..|es|] == es;
    forall b: nat | b < o + e.length ensures TileSource(n, ts + [t], b) == DirectSource(n, es + [e], b) {
      if b < o {
        assert !Covers(e, b) && TileAt(ts + [t], b) == TileAt(ts, b);
        assert TileSource(n, ts, b) == DirectSource(n, es, b);
      } else {
        assert Covers(e, b) && TileAt(ts + [t], b) == t;
      }
    }
  }

  const UNKNOWN: seq<byte> := [85, 78, 75, 78, 79, 87, 78]
  /** The word `UNKNOWN` over and over, begun anew at each megabyte. */
  lemma UnknownByte(o: nat)
    ensures PatternByte(UNKNOWN, o) == "UNKNOWN"[o % 0x10_0000 % 7] as int
  {
  }

  const UNKNOWN_NAME := "http://aff4.org/Schema#UnknownData"

  /** The streams of a built map: the listed ones, then the gap stream, then unknown streams. */
  ghost predicate Layout(streams: seq<Lower>, idx: seq<Lower>, gap: Lower) {
    && |streams| > |idx| && streams[..|idx|] == idx && streams[|idx|] == gap
    && forall i :: |idx| < i < |streams| ==> streams[i].RepeatedLower? && streams[i].repeated.symbol == UNKNOWN && streams[i].repeated.name == UNKNOWN_NAME
  }

  ghost predicate Distinct(streams: seq<Lower>) {
    forall i, j :: 0 <= i < |streams| && 0 <= j < |streams| ==> streams[i] == streams[j] || Footprint(streams[i]) !! Footprint(streams[j])
  }

  ghost predicate AllReady(streams: seq<Lower>)
    reads set i, o | 0 <= i < |streams| && o in Footprint(streams[i]) :: o
  {
    forall i :: 0 <= i < |streams| ==> Ready(streams[i])
  }

  /** How many bytes the streams of a class hold. */
  ghost function ClassSize(idx: seq<Lower>, gap: Lower, c: Class): nat {
    match c
    case Listed(i) => if i < |idx| then LowerSize(idx[i]) else 0
    case Gap => LowerSize(gap)
    case Unknown => U64 - 1
  }

  /** Every byte the entry names exists in its lower stream. */
  ghost predicate Fits(idx: seq<Lower>, gap: Lower, e: Entry) {
    e.streamOffset + e.length <= ClassSize(idx, gap, ClassOf(|idx|, e.streamID))
  }

  /** The lower streams hold every byte the entries ask for, and the gap stream the whole map. */
  ghost predicate Backed(idx: seq<Lower>, gap: Lower, es: seq<Entry>, length: nat) {
    && (forall e :: e in es ==> Fits(idx, gap, e) && e.offset + e.length <= LowerSize(gap))
    && length <= LowerSize(gap) && length < U64
    && |idx| + |es| + 1 < U32
  }

  /** Byte `o` of the stream that a class stands for. */
  ghost function SourceByte(idx: seq<Lower>, gap: Lower, c: Class, o: nat): Option<byte> {
    match c
    case Listed(i) => if i < |idx| then LowerByte(idx[i], o) else None
    case Gap => LowerByte(gap, o)
    case Unknown => Some(PatternByte(UNKNOWN, o))
  }

  /** The direct meaning of byte `b` of a map: scan the entries as given, translate, ask the stream. */
  ghost function MapByte(idx: seq<Lower>, gap: Lower, es: seq<Entry>, b: nat): Option<byte> {
    var (c, o) := DirectSource(|idx|, es, b);
    if o < 0 then None else SourceByte(idx, gap, c, o)
  }

  /** The order in which a map lists its entries does not change what it holds. */
  lemma MapByteUnordered(idx: seq<Lower>, gap: Lower, es: seq<Entry>, fs: seq<Entry>, b: nat)
    requires Disjoint(es) && multiset(es) == multiset(fs)
    ensures MapByte(idx, gap, es, b) == MapByte(idx, gap, fs, b)
  {
    SourceUnordered(|idx|, es, fs, b);
  }

  /** The tiles placed so far, below the cursor `o`, mean what the entries `es` mean; they name
      existing streams and existing bytes, and the map holds each under its own offset. */
  ghost predicate Placed(idx: seq<Lower>, gap: Lower, k: nat, ts: seq<Entry>, m: map<nat, Entry>, o: nat, es: seq<Entry>) {
    && Agrees(|idx|, ts, o, es) && m == MapOf(ts)
    && (forall t :: t in ts ==> t.streamID < k && Fits(idx, gap, t))
  }

  lemma PlaceGap(idx: seq<Lower>, gap: Lower, k: nat, ts: seq<Entry>, m: map<nat, Entry>, o: nat, es: seq<Entry>, length: nat)
    requires Placed(idx, gap, k, ts, m, o, es) && length > 0 && o + length <= LowerSize(gap) && k > |idx|
    ensures var t := Entry(o, length, o, |idx|); Placed(idx, gap, k, ts + [t], m[o := t], o + length, es)
  {
    var t := Entry(o, length, o, |idx|);
    GapStep(|idx|, ts, o, es, length);
    AddTile(ts, o, t);
    hide Agrees;
  }

  lemma PlaceEntry(idx: seq<Lower>, gap: Lower, k: nat, ts: seq<Entry>, m: map<nat, Entry>, o: nat, es: seq<Entry>, e: Entry, id: nat, k': nat)
    requires Placed(idx, gap, k, ts, m, o, es) && e.offset == o && e.length > 0 && Fits(idx, gap, e)
    requires id < k' && k <= k' && ClassOf(|idx|, id) == ClassOf(|idx|, e.streamID)
    ensures var t := e.(streamID := id); Placed(idx, gap, k', ts + [t], m[o := t], o + e.length, es + [e])
  {
    var t := e.(streamID := id);
    EntryStep(|idx|, ts, o, es, e, id);
    AddTile(ts, o, t);
    hide Agrees;
  }

  lemma PlaceNothing(idx: seq<Lower>, gap: Lower, k: nat)
    ensures Placed(idx, gap, k, [], map[], 0, [])
  {
  }

  /** The order the entries came in does not matter. */
  lemma PlacedUnordered(idx: seq<Lower>, gap: Lower, k: nat, ts: seq<Entry>, m: map<nat, Entry>, o: nat, es: seq<Entry>, fs: seq<Entry>)
    requires Placed(idx, gap, k, ts, m, o, es) && Disjoint(fs) && multiset(es) == multiset(fs)
    ensures Placed(idx, gap, k, ts, m, o, fs)
  {
    forall b: nat ensures DirectSource(|idx|, es, b) == DirectSource(|idx|, fs, b) {
      SourceUnordered(|idx|, fs, es, b);
    }
    forall e | e in fs ensures e in es {
      assert e in multiset(fs);
    }
  }

  /** `n` is where the last of the entries ends. */
  ghost predicate LastEnd(es: seq<Entry>, n: nat) {
    && (forall e :: e in es ==> e.offset + e.length <= n)
    && if es == [] then n == 0 else exists e :: e in es && e.offset + e.length == n
  }

  lemma LastOf(idx: seq<Lower>, gap: Lower, k: nat, ts: seq<Entry>, m: map<nat, Entry>, o: nat, ps: seq<Entry>, points: seq<Entry>)
    requires Placed(idx, gap, k, ts, m, o, ps) && multiset(ps) == multiset(points) && |ps| == |points|
    requires o == if ps != [] then ps[|ps| - 1].offset + ps[|ps| - 1].length else 0
    ensures LastEnd(points, o)
  {
    forall e | e in points ensures e in ps {
      assert e in multiset(points);
    }
    if ps != [] {
      assert ps[|ps| - 1] in multiset(ps);
    }
  }

  /** What the next sorted entry satisfies. */
  lemma NextEntry(idx: seq<Lower>, gap: Lower, points: seq<Entry>, length: nat, ps: seq<Entry>, i: nat)
    requires Disjoint(points) && Backed(idx, gap, points, length) && multiset(ps) == multiset(points) && Chained(ps) && i < |ps|
    ensures ps[i].length > 0 && ps[i].offset + ps[i].length < U64 && ps[i].offset + ps[i].length <= LowerSize(gap) && Fits(idx, gap, ps[i])
    ensures i > 0 ==> ps[i - 1].offset + ps[i - 1].length <= ps[i].offset
  {
    assert ps[i] in multiset(ps);
    assert ps[i] in points;
  }

  /** The streams a map can read at any time. */
  ghost predicate Usable(streams: seq<Lower>)
    reads set i, o | 0 <= i < |streams| && o in Footprint(streams[i]) :: o
  {
    AllReady(streams) && Distinct(streams)
  }

  lemma LayoutGrows(streams: seq<Lower>, idx: seq<Lower>, gap: Lower, r: RepeatedStream)
    requires Layout(streams, idx, gap) && r.symbol == UNKNOWN && r.name == UNKNOWN_NAME
    ensures Layout(streams + [RepeatedLower(r)], idx, gap)
  {
    assert (streams + [RepeatedLower(r)])[..|idx|] == streams[..|idx|];
  }

  lemma JustGap(idx: seq<Lower>, gap: Lower)
    ensures Layout(idx + [gap], idx, gap)
  {
  }

  method AddUnknown(streams: seq<Lower>, idx: seq<Lower>, gap: Lower) returns (streams': seq<Lower>)
    requires Layout(streams, idx, gap) && Usable(streams)
    ensures Layout(streams', idx, gap) && Usable(streams') && |streams'| == |streams| + 1 && streams'[..|streams|] == streams
    ensures fresh(Footprint(streams'[|streams|]))
  {
    hide Layout, Filled, Lru.Sound, Lru.Keys, ImageStreams.Sound;
    forall i | 0 <= i < |streams| ensures allocated(Footprint(streams[i])) {
    }
    var r := new RepeatedStream(UNKNOWN_NAME, UNKNOWN);
    streams' := streams + [RepeatedLower(r)];
    forall i | 0 <= i < |streams'| ensures Ready(streams'[i]) {
      if i < |streams| { assert Ready(streams[i]); }
    }
    LayoutGrows(streams, idx, gap, r);
  }

  /** The stream of an entry: the one it names, or an unknown one in its place. */
  method StreamFor(streams: seq<Lower>, idx: seq<Lower>, gap: Lower, streamID: nat) returns (streams': seq<Lower>, id: nat)
    requires Layout(streams, idx, gap) && Usable(streams)
    ensures Layout(streams', idx, gap) && Usable(streams') && |streams| <= |streams'| <= |streams| + 1 && streams'[..|streams|] == streams
    ensures forall i :: |streams| <= i < |streams'| ==> fresh(Footprint(streams'[i]))
    ensures id < |streams'| && ClassOf(|idx|, id) == ClassOf(|idx|, streamID)
  {
    hide Usable, Footprint;
    streams', id := streams, streamID;
    if id >= |streams| {
      id := |streams|;
      streams' := AddUnknown(streams, idx, gap);
    }
  }

  /** The part of initMap after the entries are read: sort, fill gaps, repair stream ids, and settle
      the length.  The map covers at least the given length, or exactly its own end if none is given. */
  method BuildMap(idx: seq<Lower>, gap: Lower, points: seq<Entry>, length: nat)
    returns (streams: seq<Lower>, m: map<nat, Entry>, length': nat, ghost ts: seq<Entry>, ghost end: nat)
    requires Disjoint(points) && Backed(idx, gap, points, length) && Usable(idx + [gap])
    ensures Layout(streams, idx, gap) && Usable(streams) && forall i :: |idx| < i < |streams| ==> fresh(Footprint(streams[i]))
    ensures Placed(idx, gap, |streams|, ts, m, end, points)
    ensures length <= length' <= end < U64 && (length > 0 ==> length' == length) && (length == 0 ==> length' == end && LastEnd(points, end))
  {
    hide Disjoint, Placed, Fits, Usable, Footprint, Layout, LastEnd, ClassOf;
    JustGap(idx, gap);
    var n := |idx|;
    streams := idx + [gap];
    forall i | 0 <= i < |streams| ensures allocated(Footprint(streams[i])) {
    }
    var ps := SortEntries(points);
    m, ts := map[], [];
    PlaceNothing(idx, gap, n + 1);
    var offset: nat := 0;
    assert ps[..0] == [];
    for i := 0 to |ps|
      invariant Layout(streams, idx, gap) && Usable(streams) && n < |streams| <= n + 1 + i
      invariant forall j :: n < j < |streams| ==> fresh(Footprint(streams[j]))
      invariant Placed(idx, gap, |streams|, ts, m, offset, ps[..i])
      invariant offset < U64 && offset == if i > 0 then ps[i - 1].offset + ps[i - 1].length else 0
    {
      NextEntry(idx, gap, points, length, ps, i);
      var mapPoint := ps[i];
      if offset != mapPoint.offset {
        var sparseRegion := Entry(offset, mapPoint.offset - offset, offset, n);
        PlaceGap(idx, gap, |streams|, ts, m, offset, ps[..i], sparseRegion.length);
        m, ts := m[offset := sparseRegion], ts + [sparseRegion];
        offset := mapPoint.offset;
      }
      ghost var k := |streams|;
      var id;
      streams, id := StreamFor(streams, idx, gap, mapPoint.streamID);
      PlaceEntry(idx, gap, k, ts, m, offset, ps[..i], mapPoint, id, |streams|);
      mapPoint := mapPoint.(streamID := id);
      m, ts := m[offset := mapPoint], ts + [mapPoint];
      assert ps[..i + 1] == ps[..i] + [ps[i]];
      offset := offset + mapPoint.length;
    }
    assert ps[..|ps|] == ps;
    end := offset;
    LastOf(idx, gap, |streams|, ts, m, offset, ps, points);
    if offset < length {
      var sparseRegion := Entry(offset, length - offset, offset, n);
      PlaceGap(idx, gap, |streams|, ts, m, offset, ps, sparseRegion.length);
      m, ts, end := m[offset := sparseRegion], ts + [sparseRegion], length;
    }
    length' := if length == 0 then offset else length;
    PlacedUnordered(idx, gap, |streams|, ts, m, end, ps, points);
  }

  // ---------- reading through the map ----------

  /** The lookup of read and isSparse: lower_bound, one step back if that is past the offset, or the
      last entry.  It finds the tile that holds the offset. */
  method FindEntry(m: map<nat, Entry>, offset: nat, ghost ts: seq<Entry>, ghost end: nat) returns (entry: Entry)
    requires Tiling(ts, end) && m == MapOf(ts) && offset < end
    ensures ts != [] && entry == TileAt(ts, offset) && Covers(entry, offset)
  {
    TilingFacts(ts, end);
    TileAtFacts(ts, end, offset);
    ghost var t := TileAt(ts, offset);
    var mapIt := OrderedMap.LowerBound(m, offset);
    if mapIt.Some? {
      entry := m[mapIt.value];
      if entry.offset > offset {
        assert t.offset in m && t.offset < mapIt.value;
        var prior := OrderedMap.Before(m, mapIt);
        entry := m[prior];
      }
    } else {
      assert t.offset in m;
      var last := OrderedMap.Before(m, None);
      entry := m[last];
    }
  }

  lemma SameTile(ts: seq<Entry>, end: nat, b: nat, c: nat)
    requires Tiling(ts, end) && b < end && ts != [] && b <= c < TileAt(ts, b).offset + TileAt(ts, b).length
    ensures var t := TileAt(ts, b); t.offset <= b && t.offset + t.length <= end && c < end && TileAt(ts, c) == t && t in ts
  {
    TileAtFacts(ts, end, b);
    TileAtFacts(ts, end, c);
    hide Tiling, TileAt;
  }

  /** What a placed tile's stream id means in a layout, and that it names existing bytes. */
  lemma LaidOut(streams: seq<Lower>, idx: seq<Lower>, gap: Lower, t: Entry, o: nat)
    requires Layout(streams, idx, gap) && t.streamID < |streams| && Fits(idx, gap, t)
    ensures t.streamOffset + t.length <= LowerSize(streams[t.streamID])
    ensures LowerByte(streams[t.streamID], o) == SourceByte(idx, gap, ClassOf(|idx|, t.streamID), o)
  {
    hide ByteAt, Sound, PatternByte;
    if t.streamID < |idx| {
      assert streams[t.streamID] == streams[..|idx|][t.streamID];
    }
  }

  /** The bytes of one tile come from consecutive bytes of its stream. */
  lemma TileBytes(streams: seq<Lower>, idx: seq<Lower>, gap: Lower, ts: seq<Entry>, m: map<nat, Entry>, end: nat, es: seq<Entry>, b: nat, c: nat)
    requires Layout(streams, idx, gap) && Placed(idx, gap, |streams|, ts, m, end, es)
    requires b < end && ts != [] && b <= c < TileAt(ts, b).offset + TileAt(ts, b).length
    ensures var t := TileAt(ts, b);
            && t.offset <= b && t.offset + t.length <= end && t.streamID < |streams|
            && t.streamOffset + t.length <= LowerSize(streams[t.streamID])
            && c < end && TileAt(ts, c) == t
            && MapByte(idx, gap, es, c) == LowerByte(streams[t.streamID], t.streamOffset + (c - t.offset))
  {
    hide Layout, Tiling, TileAt, DirectSource, MapOf, Fits, SourceByte, LowerByte;
    SameTile(ts, end, b, c);
    var t := TileAt(ts, b);
    assert TileSource(|idx|, ts, c) == DirectSource(|idx|, es, c);
    LaidOut(streams, idx, gap, t, t.streamOffset + (c - t.offset));
  }

  /** `out` is what the map holds from `offset` on. */
  ghost predicate MapHolds(idx: seq<Lower>, gap: Lower, es: seq<Entry>, offset: nat, out: seq<byte>) {
    forall b :: offset <= b < offset + |out| ==> MapByte(idx, gap, es, b) == Some(out[b - offset])
  }

  /** Adjacent reads concatenate to one read. */
  lemma MapHoldsAppend(idx: seq<Lower>, gap: Lower, es: seq<Entry>, offset: nat, out: seq<byte>, next: nat, more: seq<byte>)
    requires next == offset + |out|
    ensures MapHolds(idx, gap, es, offset, out + more) <==> MapHolds(idx, gap, es, offset, out) && MapHolds(idx, gap, es, next, more)
  {
    hide MapByte;
    var all := out + more;
    assert forall i :: 0 <= i < |out| ==> all[i] == out[i];
    assert forall i :: 0 <= i < |more| ==> all[|out| + i] == more[i];
    if MapHolds(idx, gap, es, offset, all) {
      forall b | offset <= b < offset + |out| ensures MapByte(idx, gap, es, b) == Some(out[b - offset]) {
        assert MapByte(idx, gap, es, b) == Some(all[b - offset]);
      }
      forall b | offset + |out| <= b < offset + |out| + |more| ensures MapByte(idx, gap, es, b) == Some(more[b - (offset + |out|)]) {
        assert MapByte(idx, gap, es, b) == Some(all[b - offset]);
      }
    }
  }

  lemma HoldsNothing(idx: seq<Lower>, gap: Lower, es: seq<Entry>, offset: nat)
    ensures MapHolds(idx, gap, es, offset, [])
  {
  }

  lemma PlacedTiling(idx: seq<Lower>, gap: Lower, k: nat, ts: seq<Entry>, m: map<nat, Entry>, o: nat, es: seq<Entry>)
    requires Placed(idx, gap, k, ts, m, o, es)
    ensures Tiling(ts, o) && m == MapOf(ts)
  {
  }

  /** What a piece of one tile holds, or lacks, is what its stream holds, or lacks. */
  lemma TileHolds(streams: seq<Lower>, idx: seq<Lower>, gap: Lower, ts: seq<Entry>, m: map<nat, Entry>, end: nat, es: seq<Entry>, off: nat, n: nat, out: seq<byte>)
    requires Layout(streams, idx, gap) && Placed(idx, gap, |streams|, ts, m, end, es)
    requires off < end && ts != [] && TileAt(ts, off).offset <= off && off + n <= TileAt(ts, off).offset + TileAt(ts, off).length
    requires |out| == n && TileAt(ts, off).streamID < |streams|
    ensures var t := TileAt(ts, off);
            var o := t.streamOffset + (off - t.offset);
            && (Holds(streams[t.streamID], o, out) ==> MapHolds(idx, gap, es, off, out))
            && ((exists b :: o <= b < o + n && LowerByte(streams[t.streamID], b) == None) ==> exists b :: off <= b < off + n && MapByte(idx, gap, es, b) == None)
  {
    hide Layout, Placed, MapByte, LowerByte, TileAt;
    var t := TileAt(ts, off);
    var o := t.streamOffset + (off - t.offset);
    forall b: nat | off <= b < off + n ensures MapByte(idx, gap, es, b) == LowerByte(streams[t.streamID], o + (b - off)) {
      TileBytes(streams, idx, gap, ts, m, end, es, off, b);
    }
    if b: nat :| o <= b < o + n && LowerByte(streams[t.streamID], b) == None {
      assert MapByte(idx, gap, es, off + (b - o)) == None;
    }
  }

  ghost predicate Untouched(buf: array<byte>, streams: seq<Lower>) {
    forall i :: 0 <= i < |streams| ==> buf !in Footprint(streams[i])
  }

  ghost function AllWrites(streams: seq<Lower>): set<object> {
    set i, o | 0 <= i < |streams| && o in Writes(streams[i]) :: o
  }

  /** Reading one stream leaves all of them usable. */
  method ReadFrom(streams: seq<Lower>, k: nat, buf: array<byte>, at: nat, count: nat, offset: nat) returns (res: int)
    requires Usable(streams) && Untouched(buf, streams) && k < |streams|
    requires 0 < count && at + count <= buf.Length && offset + count <= LowerSize(streams[k])
    modifies buf, AllWrites(streams)
    ensures Usable(streams)
    ensures if res <= 0 then exists b :: offset <= b < offset + count && LowerByte(streams[k], b) == None
            else res == count && Holds(streams[k], offset, buf[at..at + count])
    ensures forall j :: 0 <= j < buf.Length && !(at <= j < at + count) ==> buf[j] == old(buf[j])
  {
    forall i | 0 <= i < |streams| ensures allocated(Footprint(streams[i])) {
    }
    assert Ready(streams[k]);
    res := ReadLower(streams[k], buf, at, count, offset);
    forall i | 0 <= i < |streams| ensures Ready(streams[i]) {
      if streams[i] != streams[k] {
        assert Footprint(streams[i]) !! Footprint(streams[k]) && Writes(streams[k]) <= Footprint(streams[k]);
      }
    }
  }

  lemma EmptyMap(es: seq<Entry>, end: nat)
    requires Disjoint(es)
    ensures LastEnd(es, end) ==> (end == 0 <==> es == [])
  {
  }

  class MapStream {
    var closed: bool
    var streams: seq<Lower>
    const length: nat
    const entries: map<nat, Entry>
    /** What the map was built from, and the tiles it holds. */
    ghost const idx: seq<Lower>
    ghost const gap: Lower
    ghost const points: seq<Entry>
    ghost const tiles: seq<Entry>
    ghost const end: nat

    ghost predicate Valid()
      reads this, set i, o | 0 <= i < |streams| && o in Footprint(streams[i]) :: o
    {
      && this as object !in AllWrites(streams)
      && (!closed ==>
        && Layout(streams, idx, gap) && Usable(streams)
        && Placed(idx, gap, |streams|, tiles, entries, end, points)
        && 0 < length <= end < U64)
    }

    /** The constructor: `idx` are the listed streams, `points` the entries of the map segment if it
        is there and not empty, `size` the declared length or 0. */
    constructor (idx: seq<Lower>, gap: Lower, points: Option<seq<Entry>>, size: nat)
      requires points.Some? ==> Disjoint(points.value) && Backed(idx, gap, points.value, size) && Usable(idx + [gap])
      ensures Valid()
      ensures points == None ==> closed
      ensures points.Some? ==>
                && this.idx == idx && this.gap == gap && this.points == points.value
                && (closed <==> size == 0 && points.value == [])
                && (size > 0 ==> length == size)
                && (size == 0 && !closed ==> length == end && LastEnd(points.value, end))
      ensures forall i :: |idx| < i < |streams| ==> fresh(Footprint(streams[i]))
    {
      hide Disjoint, Placed, Usable, Layout, Backed, LastEnd;
      var built, m, size' := [], map[], 0;
      ghost var ts, last := [], 0;
      if points.Some? {
        built, m, size', ts, last := BuildMap(idx, gap, points.value, size);
        EmptyMap(points.value, last);
        assert Usable(built);
      }
      forall i | 0 <= i < |built| ensures allocated(Footprint(built[i])) {
      }
      this.idx, this.gap, this.points := idx, gap, if points.Some? then points.value else [];
      streams, entries, length, tiles, end := built, m, size', ts, last;
      closed := size' == 0;
    }

    method Close()
      modifies this
      ensures closed && Valid()
    {
      closed := true;
      streams := [];
    }

    lemma ThisKept()
      requires Valid()
      ensures this as object !in AllWrites(streams)
    {
    }

    lemma LengthFits()
      requires Valid() && !closed
      ensures 0 < length < U64 && this as object !in AllWrites(streams)
    {
    }

    /** MapStream::read.  It delivers every byte asked for that the map has, each equal to the direct
        meaning of the entries, whatever was read before; it fails exactly when one is missing below. */
    method Read(buf: array<byte>, count: nat, offset: nat) returns (res: int)
      requires Valid() && count <= buf.Length && offset + count < U64 && Untouched(buf, streams)
      modifies buf, AllWrites(streams)
      ensures Valid() && closed == old(closed) && streams == old(streams)
      ensures forall j :: count <= j < buf.Length ==> buf[j] == old(buf[j])
      ensures closed ==> res == -1
      ensures !closed && offset > length ==> res == 0
      ensures !closed && offset <= length ==>
                var n := Min(count, length - offset);
                if res == -1 then exists b :: offset <= b < offset + n && MapByte(idx, gap, points, b) == None
                else res == n && MapHolds(idx, gap, points, offset, buf[..n])
    {
      hide MapByte, MapHolds, AllWrites, Untouched, Valid, Layout, Placed, Usable;
      ThisKept();
      if closed {
        return -1;
      }
      if offset > length {
        return 0;
      }
      LengthFits();
      TruncateExact(count, offset, length);
      var n: nat := Truncate(count, offset, length);
      var leftToRead: nat, actualRead: nat := n, 0;
      HoldsNothing(idx, gap, points, offset);
      assert buf[..0] == [];
      while leftToRead > 0
        invariant Valid() && !closed && streams == old(streams) && leftToRead + actualRead == n
        invariant MapHolds(idx, gap, points, offset, buf[..actualRead])
        invariant forall j :: count <= j < buf.Length ==> buf[j] == old(buf[j])
      {
        var toRead := ReadTile(buf, actualRead, leftToRead, offset + actualRead, offset);
        if toRead == 0 {
          return -1;
        }
        actualRead := actualRead + toRead;
        leftToRead := leftToRead - toRead;
      }
      res := actualRead;
    }

    /** One pass of the read loop: what the tile of address `off` holds, or 0 if its stream fails. */
    method ReadTile(buf: array<byte>, at: nat, leftToRead: nat, off: nat, ghost start: nat) returns (toRead: nat)
      requires Valid() && !closed && Untouched(buf, streams)
      requires 0 < leftToRead && at + leftToRead <= buf.Length && off + leftToRead <= length
      requires off == start + at && MapHolds(idx, gap, points, start, buf[..at])
      modifies buf, AllWrites(streams)
      ensures Valid() && toRead <= leftToRead
      ensures forall j :: at + leftToRead <= j < buf.Length ==> buf[j] == old(buf[j])
      ensures toRead == 0 ==> exists b :: off <= b < off + leftToRead && MapByte(idx, gap, points, b) == None
      ensures MapHolds(idx, gap, points, start, buf[..at + toRead])
    {
      hide Placed, MapByte, MapHolds, Holds, LowerByte, Layout, Usable, Tiling, TileAt;
      PlacedTiling(idx, gap, |streams|, tiles, entries, end, points);
      var entry := FindEntry(entries, off, tiles, end);
      TileBytes(streams, idx, gap, tiles, entries, end, points, off, off);
      var streamReadOffset := entry.streamOffset + (off - entry.offset);
      var streamReadLength := Min(leftToRead, entry.length - (off - entry.offset));
      var res := ReadFrom(streams, entry.streamID, buf, at, streamReadLength, streamReadOffset);
      TileHolds(streams, idx, gap, tiles, entries, end, points, off, streamReadLength, buf[at..at + streamReadLength]);
      toRead := if res <= 0 then 0 else streamReadLength;
      ghost var done := old(buf[..at]);
      assert buf[..at] == done;
      if toRead > 0 {
        MapHoldsAppend(idx, gap, points, start, done, off, buf[at..at + toRead]);
        assert buf[..at + toRead] == done + buf[at..at + toRead];
      }
    }
  }

  // ---------- one read or two ----------

  ghost predicate Lacks(idx: seq<Lower>, gap: Lower, es: seq<Entry>, offset: nat, n: nat) {
    exists b :: offset <= b < offset + n && MapByte(idx, gap, es, b) == None
  }

  /** A range is either held, by one string of bytes only, or lacks a byte. */
  lemma HeldOnce(idx: seq<Lower>, gap: Lower, es: seq<Entry>, offset: nat, out: seq<byte>, other: seq<byte>)
    requires MapHolds(idx, gap, es, offset, out)
    ensures !Lacks(idx, gap, es, offset, |out|)
    ensures MapHolds(idx, gap, es, offset, other) && |other| == |out| ==> other == out
  {
    hide MapByte;
    if MapHolds(idx, gap, es, offset, other) && |other| == |out| {
      forall i | 0 <= i < |out| ensures out[i] == other[i] {
        assert MapByte(idx, gap, es, offset + i) == Some(out[offset + i - offset]) == Some(other[offset + i - offset]);
      }
    }
  }

  lemma LacksSplits(idx: seq<Lower>, gap: Lower, es: seq<Entry>, offset: nat, a: nat, next: nat, b: nat)
    requires next == offset + a
    ensures Lacks(idx, gap, es, offset, a + b) <==> Lacks(idx, gap, es, offset, a) || Lacks(idx, gap, es, next, b)
  {
    hide MapByte;
  }

  lemma NotWritten(streams: seq<Lower>, buf: array<byte>)
    requires Untouched(buf, streams)
    ensures buf !in AllWrites(streams)
  {
  }

  /** A read of a range within an open map. */
  method ReadWithin(m: MapStream, buf: array<byte>, n: nat, offset: nat) returns (res: int)
    requires m.Valid() && !m.closed && n <= buf.Length && offset + n <= m.length && Untouched(buf, m.streams)
    modifies buf, AllWrites(m.streams)
    ensures m.Valid() && !m.closed && m.streams == old(m.streams)
    ensures res == -1 ==> Lacks(m.idx, m.gap, m.points, offset, n)
    ensures res != -1 ==> res == n && MapHolds(m.idx, m.gap, m.points, offset, buf[..n])
  {
    hide MapByte, MapHolds, AllWrites, Untouched, Layout, Placed, Usable;
    m.LengthFits();
    res := m.Read(buf, n, offset);
  }

  /** Reading a range at once, and reading it in two adjacent parts, fail together or deliver the same
      bytes, whatever the caches held before and between. */
  method OneReadOrTwo(m: MapStream, one: array<byte>, first: array<byte>, second: array<byte>, offset: nat, a: nat, b: nat)
    returns (res: int, res1: int, res2: int)
    requires m.Valid() && !m.closed && offset + a + b <= m.length && a + b <= one.Length && a <= first.Length && b <= second.Length
    requires Untouched(one, m.streams) && Untouched(first, m.streams) && Untouched(second, m.streams)
    requires one != first && one != second && first != second
    modifies one, first, second, AllWrites(m.streams)
    ensures m.Valid()
    ensures res == -1 <==> res1 == -1 || res2 == -1
    ensures res != -1 ==> res == a + b && res1 == a && res2 == b && one[..a + b] == first[..a] + second[..b]
  {
    hide MapByte, MapHolds, AllWrites, Untouched, Layout, Placed, Usable, Lacks;
    NotWritten(m.streams, one);
    NotWritten(m.streams, first);
    NotWritten(m.streams, second);
    res := ReadWithin(m, one, a + b, offset);
    ghost var x := one[..a + b];
    res1 := ReadWithin(m, first, a, offset);
    ghost var y := first[..a];
    res2 := ReadWithin(m, second, b, offset + a);
    ghost var z := second[..b];
    LacksSplits(m.idx, m.gap, m.points, offset, a, offset + a, b);
    if res1 != -1 && res2 != -1 {
      MapHoldsAppend(m.idx, m.gap, m.points, offset, y, offset + a, z);
      HeldOnce(m.idx, m.gap, m.points, offset, y + z, x);
    }
    if res != -1 {
      HeldOnce(m.idx, m.gap, m.points, offset, x, x);
    }
  }
}
