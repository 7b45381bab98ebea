/** Interval maps on values: entries, tilings, and what byte comes from where
    (src/stream/MapStream.cc). */
module MapModel {
  import opened Bytes
  import opened Container
  import opened Options

  /** A map entry (src/stream/struct/MapEntryPoint.h). */
  datatype Entry = Entry(offset: nat, length: nat, streamOffset: nat, streamID: nat)

  ghost predicate Covers(e: Entry, b: nat) {
    e.offset <= b < e.offset + e.length
  }

  ghost predicate Apart(e: Entry, f: Entry) {
    e.offset + e.length <= f.offset || f.offset + f.length <= e.offset
  }

  /** The working domain: entries of positive length that do not wrap, pairwise disjoint. */
  ghost predicate Disjoint(es: seq<Entry>) {
    && (forall i :: 0 <= i < |es| ==> es[i].length > 0 && es[i].offset + es[i].length < U64 && es[i].streamOffset + es[i].length < U64 && es[i].streamID < U32)
    && (forall i, j :: 0 <= i < j < |es| ==> Apart(es[i], es[j]))
  }

  // ---------- the direct meaning ----------

  /** A linear scan for the entry covering `b`. */
  ghost function Cover(es: seq<Entry>, b: nat): Option<Entry> {
    if es == [] then None
    else if Covers(es[|es| - 1], b) then Some(es[|es| - 1])
    else Cover(es[..|es| - 1], b)
  }

  /** What a stream id means for a map of `n` listed streams: the gap stream stands right after them,
      and larger ids name unknown streams. */
  datatype Class = Listed(i: nat) | Gap | Unknown

  function ClassOf(n: nat, id: nat): Class {
    if id < n then Listed(id) else if id == n then Gap else Unknown
  }

  /** Which stream byte `b` of the map comes from, and at which offset. */
  ghost function DirectSource(n: nat, es: seq<Entry>, b: nat): (Class, int) {
    match Cover(es, b)
    case None => (Gap, b)
    case Some(e) => (ClassOf(n, e.streamID), e.streamOffset + (b - e.offset))
  }

  lemma {:induction false} CoverSpec(es: seq<Entry>, b: nat)
    ensures Cover(es, b).Some? ==> Cover(es, b).value in es && Covers(Cover(es, b).value, b)
    ensures Cover(es, b) == None ==> forall e :: e in es ==> !Covers(e, b)
  {
    if es != [] {
      CoverSpec(es[..|es| - 1], b);
      assert es == es[..|es| - 1] + [es[|es| - 1]];
    }
  }

  /** The order of the entries does not matter. */
  lemma CoverUnordered(es: seq<Entry>, fs: seq<Entry>, b: nat)
    requires Disjoint(es) && multiset(es) == multiset(fs)
    ensures Cover(es, b) == Cover(fs, b)
  {
    CoverSpec(es, b);
    CoverSpec(fs, b);
    forall e ensures e in es <==> e in fs {
      assert e in es <==> e in multiset(es);
      assert e in fs <==> e in multiset(fs);
    }
    if Cover(es, b).Some? && Cover(fs, b).Some? {
      var e, f := Cover(es, b).value, Cover(fs, b).value;
      var i :| 0 <= i < |es| && es[i] == e;
      var j :| 0 <= j < |es| && es[j] == f;
      assert Apart(es[i], es[j]) || Apart(es[j], es[i]) || i == j;
    }
  }

  /** So neither does it matter for where bytes come from. */
  lemma SourceUnordered(n: nat, es: seq<Entry>, fs: seq<Entry>, b: nat)
    requires Disjoint(es) && multiset(es) == multiset(fs)
    ensures DirectSource(n, es, b) == DirectSource(n, fs, b)
  {
    CoverUnordered(es, fs, b);
  }

  // ---------- tilings ----------

  /** The tiles fill [0, end) from left to right without gap or overlap. */
  ghost predicate Tiling(ts: seq<Entry>, end: int) {
    if ts == [] then end == 0
    else
      var t := ts[|ts| - 1];
      t.length > 0 && t.offset + t.length == end && Tiling(ts[..|ts| - 1], t.offset)
  }

  /** The tree map of the source: each tile under its own offset. */
  ghost function MapOf(ts: seq<Entry>): map<nat, Entry> {
    if ts == [] then map[]
    else
      var t := ts[|ts| - 1];
      MapOf(ts[..|ts| - 1])[t.offset := t]
  }

  ghost function TileAt(ts: seq<Entry>, b: nat): Entry
    requires ts != []
  {
    var t := ts[|ts| - 1];
    if b >= t.offset || |ts| == 1 then t else TileAt(ts[..|ts| - 1], b)
  }

  /** The source of `b` as its tile gives it. */
  ghost function TileSource(n: nat, ts: seq<Entry>, b: nat): (Class, int)
    requires ts != []
  {
    var t := TileAt(ts, b);
    (ClassOf(n, t.streamID), t.streamOffset + (b - t.offset))
  }

  lemma {:induction false} TilingFacts(ts: seq<Entry>, end: int)
    requires Tiling(ts, end)
    ensures end >= 0 && (ts == [] <==> end == 0)
    ensures forall k :: k in MapOf(ts) ==> MapOf(ts)[k].offset == k && MapOf(ts)[k] in ts && MapOf(ts)[k].length > 0 && k + MapOf(ts)[k].length <= end
  {
    if ts != [] {
      TilingFacts(ts[..|ts| - 1], ts[|ts| - 1].offset);
    }
  }

  /** The tile of `b` covers it, is in the map, and no other tile starts inside it. */
  lemma {:induction false} TileAtFacts(ts: seq<Entry>, end: int, b: nat)
    requires Tiling(ts, end) && b < end
    ensures ts != []
    ensures var t := TileAt(ts, b);
            && t.offset <= b < t.offset + t.length <= end && t in ts
            && t.offset in MapOf(ts) && MapOf(ts)[t.offset] == t
            && forall k :: k in MapOf(ts) ==> k <= t.offset || k >= t.offset + t.length
  {
    TilingFacts(ts, end);
    var t := ts[|ts| - 1];
    TilingFacts(ts[..|ts| - 1], t.offset);
    if b < t.offset {
      TileAtFacts(ts[..|ts| - 1], t.offset, b);
    }
  }

  /** Adding a tile at the right end leaves every earlier byte alone. */
  lemma AddTile(ts: seq<Entry>, end: int, t: Entry)
    requires Tiling(ts, end) && t.offset == end && t.length > 0
    ensures Tiling(ts + [t], end + t.length) && MapOf(ts + [t]) == MapOf(ts)[t.offset := t]
    ensures forall b: nat :: b < end ==> ts != [] && TileAt(ts + [t], b) == TileAt(ts, b)
    ensures forall b: nat :: end <= b ==> TileAt(ts + [t], b) == t
  {
    TilingFacts(ts, end);
    assert (ts + [t])[..|ts|] == ts;
  }
}
