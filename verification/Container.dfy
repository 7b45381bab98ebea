/** The zip container under the image streams: bounded file reads, segments by name, and bevvy
    indexes (src/zip/Zip.cc, src/zip/ZipStream.cc, src/stream/struct/BevvyIndex.cc). */
module Container {
  import opened Bytes
  import opened Options

  /** One segment of the archive (src/zip/Zip.h). */
  datatype ZipEntry = ZipEntry(name: seq<byte>, headerOffset: nat, offset: nat, length: nat, compressedLength: nat, method_: nat)

  const STORED := 0
  const DEFLATE := 8
  const WHOLE_STREAM := 32 * 1024 * 1024

  /** An open container: the file's bytes, its directory, how a resource name becomes a segment
      name, and inflation of a compressed segment, which zlib performs. */
  datatype Zip = Zip(file: seq<byte>, entries: seq<ZipEntry>, sanitize: string -> seq<byte>, inflate: seq<byte> -> Option<seq<byte>>)

  /** Zip::fileRead, over a positioned read that delivers any number of the bytes asked for and
      present, but at least one if there is one. */
  method FileRead(file: seq<byte>, count: nat, offset: nat) returns (data: seq<byte>)
    requires count < U64 && offset < U64 && |file| < U64
    ensures |data| <= count
    ensures if offset <= |file| then offset + |data| <= |file| && data == file[offset..offset + |data|] else data == []
    ensures 0 < count && offset < |file| ==> data != []
  {
    if count == 0 || offset > |file| {
      return [];
    }
    var n := Truncate(count, offset, |file|);
    var present := |file| - offset;
    var most := if n < present then n else present;
    var got: nat :| got <= most && (most > 0 ==> got > 0);
    data := file[offset..offset + got];
  }

  /** The first entry of that name, as getStream and getSegmentEntry look it up. */
  function Lookup(entries: seq<ZipEntry>, name: seq<byte>): Option<ZipEntry> {
    if entries == [] then None
    else if entries[0].name == name then Some(entries[0])
    else Lookup(entries[1..], name)
  }

  /** The bytes of a stored segment: as many as the file has from its offset on. */
  function Stored(file: seq<byte>, e: ZipEntry): (s: seq<byte>)
    ensures e.offset + e.length <= |file| ==> s == file[e.offset..e.offset + e.length]
  {
    if e.offset > |file| then []
    else if e.offset + e.length > |file| then file[e.offset..]
    else file[e.offset..e.offset + e.length]
  }

  /** The bytes of a whole segment, as reading its stream from 0 to its size gives them: a stored
      segment is a piece of the file, a compressed one of at most 32 MB is inflated at once. */
  function Contents(zip: Zip, e: ZipEntry): Option<seq<byte>> {
    if e.method_ == DEFLATE then
      if e.length <= WHOLE_STREAM && e.offset + e.compressedLength <= |zip.file| then
        zip.inflate(zip.file[e.offset..e.offset + e.compressedLength])
      else None
    else if e.method_ == STORED then Some(Stored(zip.file, e))
    else None
  }

  /** ZipSegmentStream::read on an open stored segment. */
  method SegmentRead(zip: Zip, e: ZipEntry, count: nat, offset: nat) returns (data: seq<byte>)
    requires e.method_ == STORED && e.offset + e.length < U64 && |zip.file| < U64
    requires count < U64 && offset + count < U64
    ensures var s := Contents(zip, e).value;
            if offset <= |s| then
              && |data| <= count && offset + |data| <= |s| && data == s[offset..offset + |data|]
              && (0 < count && offset < |s| ==> data != [])
            else data == []
  {
    if offset > e.length {
      return [];
    }
    TruncateExact(count, offset, e.length);
    var n := Truncate(count, offset, e.length);
    data := FileRead(zip.file, n, offset + e.offset);
    ghost var s := Stored(zip.file, e);
    if offset <= |s| && e.offset <= |zip.file| {
      SliceSlice(zip.file, e.offset, e.offset + |s|, offset, offset + |data|);
    }
  }

  // ---------- bevvy indexes ----------

  /** A chunk's place in its bevvy (src/stream/struct/ImageStreamPoint.h). */
  datatype Point = Point(offset: nat, length: nat)

  const POINT_SIZE := 12

  /** A loaded bevvy index: where the bevvy's data starts in the file, and its points. */
  datatype BevvyIndex = BevvyIndex(dataOffset: nat, points: seq<Point>)

  function Points(s: seq<byte>): (ps: seq<Point>)
    ensures |ps| == |s| / POINT_SIZE
    ensures forall i :: 0 <= i < |ps| ==> ps[i] == Point(Field(s, POINT_SIZE * i, 8), Field(s, POINT_SIZE * i + 8, 4))
  {
    seq(|s| / POINT_SIZE, i requires 0 <= i < |s| / POINT_SIZE => Point(Field(s, POINT_SIZE * i, 8), Field(s, POINT_SIZE * i + 8, 4)))
  }

  /** How a writer lays out an index: 64 bits of offset, 32 of length. */
  function PointBytes(ps: seq<Point>): seq<byte> {
    if ps == [] then [] else LeBytes(ps[0].offset, 8) + LeBytes(ps[0].length, 4) + PointBytes(ps[1..])
  }

  predicate PointsFit(ps: seq<Point>) {
    forall i :: 0 <= i < |ps| ==> ps[i].offset < U64 && ps[i].length < U32
  }

  lemma {:induction false} PointBytesAt(ps: seq<Point>, i: nat)
    requires i < |ps|
    ensures |PointBytes(ps)| == POINT_SIZE * |ps|
    ensures PointBytes(ps)[POINT_SIZE * i..POINT_SIZE * i + 8] == LeBytes(ps[i].offset, 8)
    ensures PointBytes(ps)[POINT_SIZE * i + 8..POINT_SIZE * i + 12] == LeBytes(ps[i].length, 4)
    decreases |ps|
  {
    hide LeBytes;
    var head, rest := LeBytes(ps[0].offset, 8) + LeBytes(ps[0].length, 4), PointBytes(ps[1..]);
    var s := PointBytes(ps);
    assert s == head + rest && |head| == POINT_SIZE;
    if |ps| == 1 {
      assert ps[1..] == [] && |rest| == 0;
    } else {
      PointBytesAt(ps[1..], if i > 0 then i - 1 else 0);
    }
    if i == 0 {
      assert s[0..8] == LeBytes(ps[0].offset, 8) && s[8..12] == LeBytes(ps[0].length, 4);
    } else {
      var at := POINT_SIZE * (i - 1);
      assert s[POINT_SIZE * i..POINT_SIZE * i + 8] == rest[at..at + 8];
      assert s[POINT_SIZE * i + 8..POINT_SIZE * i + 12] == rest[at + 8..at + 12];
    }
  }

  /** A written index reads back. */
  lemma PointsRoundTrip(ps: seq<Point>)
    requires PointsFit(ps)
    ensures Points(PointBytes(ps)) == ps
  {
    hide LeBytes, Le, PointBytes;
    Widths();
    if ps != [] {
      PointBytesAt(ps, 0);
    } else {
      NoPoints();
    }
    forall i | 0 <= i < |ps| ensures i < |Points(PointBytes(ps))| && Points(PointBytes(ps))[i] == ps[i] {
      PointBytesAt(ps, i);
      LeRoundTrip(ps[i].offset, 8);
      LeRoundTrip(ps[i].length, 4);
    }
  }

  lemma NoPoints()
    ensures PointBytes([]) == []
  {
  }

  function Digits(n: nat): string {
    if n < 10 then [('0' as int + n) as char] else Digits(n / 10) + [('0' as int + n % 10) as char]
  }

  function Pad(s: string): string
    decreases 8 - |s|
  {
    if |s| < 8 then Pad("0" + s) else s
  }

  /** The name of a bevvy: snprintf("%08u") into nine bytes keeps the first eight digits. */
  function BevvyName(id: nat): (s: string)
    ensures |s| == 8
  {
    PadLength(Digits(id));
    Pad(Digits(id))[..8]
  }

  lemma PadLength(s: string)
    ensures |Pad(s)| >= 8
    decreases 8 - |s|
  {
  }

  // ---------- bevvy names ----------

  function Pow10(k: nat): nat {
    if k == 0 then 1 else 10 * Pow10(k - 1)
  }

  /** The number a string of digits stands for. */
  function Value(s: string): int {
    if s == [] then 0 else 10 * Value(s[..|s| - 1]) + (s[|s| - 1] as int - '0' as int)
  }

  lemma {:induction false} DigitsStandFor(n: nat, k: nat)
    ensures Value(Digits(n)) == n && |Digits(n)| > 0
    ensures k > 0 && n < Pow10(k) ==> |Digits(n)| <= k
    ensures n >= Pow10(k) ==> |Digits(n)| > k
    decreases n
  {
    if n < 10 {
      assert k > 0 ==> Pow10(k) >= 10 by { Pow10Positive(k); }
    } else {
      DigitsStandFor(n / 10, if k > 0 then k - 1 else 0);
      assert Digits(n)[..|Digits(n)| - 1] == Digits(n / 10);
      assert k == 1 ==> Pow10(k) == 10 * Pow10(0);
    }
  }

  lemma {:induction false} Pow10Positive(k: nat)
    ensures Pow10(k) >= 1
  {
    if k > 0 {
      Pow10Positive(k - 1);
    }
  }

  lemma {:induction false} LeadingZero(s: string)
    ensures Value("0" + s) == Value(s)
    decreases |s|
  {
    if s == [] {
      assert ("0" + s)[..0] == [];
    } else {
      LeadingZero(s[..|s| - 1]);
      assert ("0" + s)[..|s|] == "0" + s[..|s| - 1];
    }
  }

  lemma {:induction false} PadKeepsValue(s: string)
    ensures Value(Pad(s)) == Value(s) && |Pad(s)| == if |s| < 8 then 8 else |s|
    decreases 8 - |s|
  {
    if |s| < 8 {
      LeadingZero(s);
      PadKeepsValue("0" + s);
    }
  }

  /** Bevvies below a hundred million have names of their own. */
  lemma BevvyNamesDiffer(a: nat, b: nat)
    requires a < Pow10(8) && b < Pow10(8) && BevvyName(a) == BevvyName(b)
    ensures a == b
  {
    NameValue(a);
    NameValue(b);
  }

  lemma NameValue(a: nat)
    requires a < Pow10(8)
    ensures Value(BevvyName(a)) == a
  {
    DigitsStandFor(a, 8);
    PadKeepsValue(Digits(a));
    assert Pad(Digits(a))[..8] == Pad(Digits(a));
  }

  /** From there on the last digits are cut off, and every name is taken already. */
  lemma BevvyNamesClash(n: nat, digit: nat)
    requires Pow10(7) <= n && digit < 10
    ensures BevvyName(10 * n + digit) == BevvyName(n)
  {
    DigitsStandFor(n, 7);
    var ds := Digits(n);
    Pow10Positive(7);
    assert Digits(10 * n + digit) == ds + [('0' as int + digit) as char] by {
      assert (10 * n + digit) / 10 == n && (10 * n + digit) % 10 == digit;
    }
    PadKeepsValue(ds);
    assert (ds + [('0' as int + digit) as char])[..8] == ds[..8];
  }

  /** So the name of a bevvy is new exactly below a hundred million. */
  lemma BevvyNameNew(id: nat)
    ensures (forall j: nat :: j < id ==> BevvyName(j) != BevvyName(id)) <==> id < Pow10(8)
  {
    hide BevvyName;
    if id < Pow10(8) {
      forall j: nat | j < id ensures BevvyName(j) != BevvyName(id) {
        if BevvyName(j) == BevvyName(id) {
          BevvyNamesDiffer(j, id);
        }
      }
    } else {
      TenTimes(id);
      BevvyNamesClash(id / 10, id % 10);
    }
  }

  lemma TenTimes(id: nat)
    requires id >= Pow10(8)
    ensures Pow10(7) <= id / 10 < id && 10 * (id / 10) + id % 10 == id
  {
    Pow10Positive(7);
    assert Pow10(8) == 10 * Pow10(7);
  }

  /** BevvyIndex::BevvyIndex: look up the bevvy and read its index segment. */
  function LoadBevvy(zip: Zip, resource: string, id: nat): BevvyIndex {
    var name := resource + "/" + BevvyName(id);
    match Lookup(zip.entries, zip.sanitize(name))
    case None => BevvyIndex(0, [])
    case Some(e) =>
      match Lookup(zip.entries, zip.sanitize(name + ".index"))
      case None => BevvyIndex(e.offset, [])
      case Some(ix) =>
        match Contents(zip, ix)
        case None => BevvyIndex(e.offset, [])
        case Some(s) => BevvyIndex(e.offset, Points(s))
  }

  /** BevvyIndex::getPoint. */
  function GetPoint(index: BevvyIndex, i: nat): Point {
    if i < |index.points| then index.points[i] else Point(0, 0)
  }
}
