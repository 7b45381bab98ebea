/** Opening a written archive: what the reader gets, and exactly when it gets everything. */
module ZipArchive {
  import opened Bytes
  import opened Container
  import opened ZipReader
  import opened ZipWriter
  import opened ZipRoundTrip
  import opened Options

  /** The bytes of the file the scan looks at. */
  function WindowSize(size: nat): nat {
    if size < BUFFER_SIZE then size else BUFFER_SIZE
  }

  /** No end signature follows the end record within reach of the scan. */
  predicate NoLaterEnd(file: seq<byte>, eocd: nat) {
    forall j :: eocd < j && j + END_SIZE <= |file| ==> Field(file, j, 4) != END_MAGIC
  }

  /** The scan reaches the end record: its comment is short enough, and it is not the first byte of
      the window. */
  predicate InWindow(a: Archive, size: nat) {
    END_SIZE + |a.comment| < WindowSize(size)
  }

  lemma FieldShift(file: seq<byte>, start: nat, j: nat, k: nat)
    requires start + j + k <= |file|
    ensures Field(file[start..], j, k) == Field(file, start + j, k)
  {
    assert file[start..][j..j + k] == file[start + j..start + j + k];
  }

  /** The scan over the window ends at the end record, or nowhere. */
  lemma {:induction false} ScanFinds(file: seq<byte>, start: nat, eocd: nat, i: nat)
    requires eocd + 4 <= |file| && Field(file, eocd, 4) == END_MAGIC && NoLaterEnd(file, eocd)
    requires start + i + END_SIZE <= |file| && (start < eocd ==> start + i >= eocd)
    ensures LastEnd(file[start..], i) == if start < eocd then eocd - start else 0
  {
    hide Field;
    if i > 0 {
      FieldShift(file, start, i, 4);
      if start + i != eocd {
        ScanFinds(file, start, eocd, i - 1);
      }
    }
  }

  lemma HasField(file: seq<byte>, p: nat, s: seq<byte>, at: nat, k: nat)
    requires HasAt(file, p, s) && at + k <= |s|
    ensures p + at + k <= |file| && Field(file, p + at, k) == Field(s, at, k)
  {
    SliceSlice(file, p, p + |s|, at, at + k);
  }

  lemma BufferIs(file: seq<byte>)
    requires |file| < U64 - U32
    ensures var read := WindowSize(|file|); FileBytes(file, read, |file| - read) == file[|file| - read..]
  {
    hide FileBytes;
    var read := WindowSize(|file|);
    assert file[|file| - read..|file|] == file[|file| - read..];
    assert read == 0 ==> file[|file| - read..] == [];
  }

  lemma CommentIs(file: seq<byte>, p: nat, comment: seq<byte>)
    requires |file| < U64 - U32 && HasAt(file, p, comment) && |comment| < 0x1_0000
    ensures FileBytes(file, |comment|, p) == comment
  {
    hide Field;
    HasFields(file, p, comment);
  }

  /** Where the records of a written archive stand. */
  lemma WrittenParts(a: Archive, file: seq<byte>, h: nat, cd: nat, eocd: nat)
    requires WritableArchive(a) && file == Write(a) && h == |a.body| && cd == |CdBytes(a.members)| && eocd == |Front(a)|
    ensures HasAt(file, 0, a.body) && HasAt(file, h, CdBytes(a.members))
    ensures eocd == h + cd + if IsZip64(a) then END64_SIZE + |a.sector| + LOCATOR_SIZE else 0
    ensures IsZip64(a) ==> |Tail64(a)| == END64_SIZE + |a.sector| && HasAt(file, h + cd, Tail64(a))
    ensures IsZip64(a) ==> HasAt(file, h + cd + END64_SIZE + |a.sector|, Locator(h + cd))
    ensures HasAt(file, eocd, EndRecord(a, |a.members|, cd, h)) && HasAt(file, eocd + END_SIZE, a.comment) && |file| == eocd + END_SIZE + |a.comment|
  {
    hide AllWritable, CdBytes, Tail64, Locator, EndRecord, HasAt, Field, Front;
    var end := EndRecord(a, |a.members|, cd, h);
    EndFields(a, |a.members|, cd, h);
    HasAll(file);
    HasPart(file, 0, Front(a) + end, a.comment, eocd + END_SIZE);
    HasPart(file, 0, Front(a), end, eocd);
    FrontParts(a, file, h, cd);
  }

  lemma FrontParts(a: Archive, file: seq<byte>, h: nat, cd: nat)
    requires HasAt(file, 0, Front(a)) && |a.versions| == 20 && h == |a.body| && cd == |CdBytes(a.members)|
    ensures HasAt(file, 0, a.body) && HasAt(file, h, CdBytes(a.members))
    ensures |Front(a)| == h + cd + if IsZip64(a) then END64_SIZE + |a.sector| + LOCATOR_SIZE else 0
    ensures IsZip64(a) ==> |Tail64(a)| == END64_SIZE + |a.sector| && HasAt(file, h + cd, Tail64(a))
    ensures IsZip64(a) ==> HasAt(file, h + cd + END64_SIZE + |a.sector|, Locator(h + cd))
  {
    hide CdBytes, Tail64, Locator, HasAt, IsZip64;
    var dir, tail64, locator := CdBytes(a.members), Tail64(a), Locator(h + cd);
    var tail := if IsZip64(a) then tail64 + locator else [];
    Tail64Size(a);
    LocatorFields(h + cd);
    HasPart(file, 0, a.body + dir, tail, h + cd);
    HasPart(file, 0, a.body, dir, h);
    if IsZip64(a) {
      HasPart(file, h + cd, tail64, locator, h + cd + END64_SIZE + |a.sector|);
    }
  }

  lemma Tail64Size(a: Archive)
    requires |a.versions| == 20
    ensures |Tail64(a)| == END64_SIZE + |a.sector|
  {
    hide CdBytes;
  }

  // ---------- opening the archive ----------

  /** The archive can be written, and no signature after its end record misleads the scan. */
  predicate Findable(a: Archive) {
    && WritableArchive(a) && |Write(a)| < U64 - U32
    && NoLaterEnd(Write(a), |Front(a)|)
  }

  /** ... and its local records stand where its directory says. */
  predicate Openable(a: Archive) {
    Findable(a) && Stand(a.body, a.members)
  }

  lemma FindableFacts(a: Archive)
    requires Findable(a)
    ensures WritableArchive(a) && AllWritable(a.members) && |Write(a)| < U64 - U32
    ensures |a.body| + |CdBytes(a.members)| + |a.sector| < U64 - 2 * U32 && |a.members| < U64
    ensures |a.disks| == 4 && |a.onDisk| == 2 && |a.versions| == 20 && |a.comment| < 0x1_0000
    ensures (!a.wideCount ==> |a.members| < 0xffff) && (!a.wideSize ==> |CdBytes(a.members)| < SATURATED) && (!a.wideOffset ==> |a.body| < SATURATED)
  {
    hide Write, Front, AllWritable, CdBytes, NoLaterEnd;
  }

  lemma OpenableFacts(a: Archive)
    requires Openable(a)
    ensures Findable(a) && WritableArchive(a) && AllWritable(a.members) && |Write(a)| < U64 - U32
    ensures Stand(a.body, a.members) && Stand(Write(a), a.members)
  {
    hide Write, Front, AllWritable, CdBytes, NoLaterEnd, Local, HasAt;
    WrittenParts(a, Write(a), |a.body|, |CdBytes(a.members)|, |Front(a)|);
    StandAlso(a.body, Write(a), a.members);
  }

  lemma StandAlso(body: seq<byte>, file: seq<byte>, ms: seq<Member>)
    requires AllWritable(ms) && Stand(body, ms) && HasAt(file, 0, body)
    ensures Stand(file, ms)
  {
    hide Local, Writable;
    forall i | 0 <= i < |ms| ensures Writable(ms[i]) && |ms[i].localHead| == 22 && HasAt(file, ms[i].header, Local(ms[i])) {
      LocalHead(ms[i]);
      HasWithin(file, 0, body, ms[i].header, Local(ms[i]));
    }
  }

  lemma HasWithin(file: seq<byte>, p: nat, s: seq<byte>, q: nat, t: seq<byte>)
    requires HasAt(file, p, s) && HasAt(s, q, t)
    ensures HasAt(file, p + q, t)
  {
    SliceSlice(file, p, p + |s|, q, q + |t|);
  }

  /** What the scan finds in a written archive. */
  lemma EndFound(a: Archive, file: seq<byte>, eocd: nat)
    requires Findable(a) && file == Write(a) && eocd == |Front(a)|
    ensures var read := WindowSize(|file|);
            read >= END_SIZE && LastEnd(file[|file| - read..], read - END_SIZE) == if InWindow(a, |file|) then eocd - (|file| - read) else 0
  {
    hide Write, Front, EndRecord, CdBytes, HasAt, NoLaterEnd, AllWritable, Field, Locator, Tail64;
    var h, cd := |a.body|, |CdBytes(a.members)|;
    WrittenParts(a, file, h, cd, eocd);
    EndFields(a, |a.members|, cd, h);
    HasField(file, eocd, EndRecord(a, |a.members|, cd, h), 0, 4);
    var read := WindowSize(|file|);
    ScanFinds(file, |file| - read, eocd, read - END_SIZE);
  }

  /** The value of the size field of the end record. */
  function SizeField(a: Archive): nat {
    Narrow(a.wideSize, |CdBytes(a.members)|)
  }

  /** The bytes in front of the locator that the reader takes for the Zip64 end record. */
  function LastEnd64(a: Archive): (s: seq<byte>)
    requires |a.versions| == 20
    ensures |s| == END64_SIZE
  {
    Widths();
    assert |End64(|a.members|, |CdBytes(a.members)|, |a.body|, a.versions)| == END64_SIZE;
    Tail64(a)[|a.sector|..]
  }

  /** Where the reader takes the directory to start, and how many records it then reads. */
  function TakenDirectory(a: Archive): Option<Directory>
    requires WritableArchive(a)
  {
    if a.wideOffset then
      var end64 := LastEnd64(a);
      if Field(end64, 0, 4) != END64_MAGIC then None
      else Some(Directory(Wrap(|a.body| + |CdBytes(a.members)| + |a.sector| - Field(end64, 40, 8)), Field(end64, 24, 8)))
    else Some(Directory(Wrap(|Front(a)| - SizeField(a)), if a.wideCount then 0xffff else |a.members|))
  }

  lemma DirectoryTaken(a: Archive, file: seq<byte>, end: seq<byte>)
    requires Findable(a) && file == Write(a) && end == EndRecord(a, |a.members|, |CdBytes(a.members)|, |a.body|) && |end| == END_SIZE
    ensures FindDirectory(file, end, |Front(a)|) == TakenDirectory(a)
  {
    hide Write, Front, EndRecord, CdBytes, HasAt, NoLaterEnd, AllWritable, Field, LastEnd64, Wrap, FileBytes, Tail64, Locator;
    FindableFacts(a);
    EndFields(a, |a.members|, |CdBytes(a.members)|, |a.body|);
    if a.wideOffset {
      Directory64Taken(a, file, end, |a.body| + |CdBytes(a.members)| + |a.sector|);
    }
  }

  lemma Directory64Taken(a: Archive, file: seq<byte>, end: seq<byte>, at: nat)
    requires Findable(a) && file == Write(a) && |end| == END_SIZE && Field(end, 16, 4) == SATURATED && a.wideOffset
    requires at == |a.body| + |CdBytes(a.members)| + |a.sector|
    ensures FindDirectory(file, end, |Front(a)|) == TakenDirectory(a)
  {
    hide Write, Front, CdBytes, HasAt, NoLaterEnd, AllWritable, Field, LastEnd64, Wrap, FileBytes, Tail64, Locator;
    var h, cd := |a.body|, |CdBytes(a.members)|;
    FindableFacts(a);
    WrittenParts(a, file, h, cd, |Front(a)|);
    LocatorFields(h + cd);
    LastEnd64At(a, file);
    HasFields(file, at, LastEnd64(a));
    HasFields(file, at + END64_SIZE, Locator(h + cd));
    assert |Front(a)| - LOCATOR_SIZE == at + END64_SIZE;
  }

  lemma LastEnd64At(a: Archive, file: seq<byte>)
    requires |a.versions| == 20 && HasAt(file, |a.body| + |CdBytes(a.members)|, Tail64(a)) && |Tail64(a)| == END64_SIZE + |a.sector|
    ensures HasAt(file, |a.body| + |CdBytes(a.members)| + |a.sector|, LastEnd64(a))
  {
    hide Tail64, HasAt;
    var s := Tail64(a);
    assert s == s[..|a.sector|] + s[|a.sector|..];
    HasPart(file, |a.body| + |CdBytes(a.members)|, s[..|a.sector|], s[|a.sector|..], |a.body| + |CdBytes(a.members)| + |a.sector|);
  }

  /** The whole parse, in terms of the directory taken. */
  lemma ParseTakes(a: Archive, file: seq<byte>, signed: bool, junk: Memory)
    requires Findable(a) && file == Write(a)
    ensures Parse(file, signed, junk) ==
              if !InWindow(a, |file|) then Parsed([], [], if |file| == END_SIZE then NullScan else Failed)
              else
                match TakenDirectory(a)
                case None => Parsed([], UpToNul(a.comment), Failed)
                case Some(d) =>
                  var (es, o) := ParseEntries(file, d.pos, d.count, signed, junk);
                  Parsed(es, UpToNul(a.comment), o)
  {
    hide Write, Front, EndRecord, CdBytes, HasAt, NoLaterEnd, AllWritable, Field, Locator, Tail64, Wrap, FileBytes, TakenDirectory, ParseEntries, UpToNul, LastEnd, FindDirectory, WritableArchive;
    FindableFacts(a);
    var h, cd, eocd := |a.body|, |CdBytes(a.members)|, |Front(a)|;
    var end := EndRecord(a, |a.members|, cd, h);
    WrittenParts(a, file, h, cd, eocd);
    EndFields(a, |a.members|, cd, h);
    BufferIs(file);
    EndFound(a, file, eocd);
    DirectoryTaken(a, file, end);
    CommentIs(file, eocd + END_SIZE, a.comment);
    EndSlice(file, WindowSize(|file|), eocd, end);
  }

  lemma EndSlice(file: seq<byte>, read: nat, eocd: nat, end: seq<byte>)
    requires HasAt(file, eocd, end) && read <= |file| && |end| == END_SIZE
    ensures var start := |file| - read; start <= eocd ==> eocd - start + END_SIZE <= read && file[start..][eocd - start..eocd - start + END_SIZE] == end
  {
    var start := |file| - read;
    if start <= eocd {
      assert file[start..][eocd - start..eocd - start + END_SIZE] == file[eocd..eocd + END_SIZE];
    }
  }

  /** The end of the Zip64 record's sector reads as a record of its own that leads to the directory. */
  predicate SectorRepeats(a: Archive)
    requires |a.versions| == 20
  {
    var end64 := LastEnd64(a);
    && Field(end64, 0, 4) == END64_MAGIC && Field(end64, 24, 8) == |a.members|
    && Field(end64, 40, 8) == |CdBytes(a.members)| + |a.sector|
  }

  /** The reader finds the directory: the end record saturates nothing, or the directory offset, and
      then the Zip64 end record has no sector that hides it.  With the Zip64 records there but the
      offset not saturated it counts back from the end record as if they were not there, which is right
      only if the saturation mark happens to be the distance. */
  predicate DirectoryRight(a: Archive)
    requires |a.versions| == 20
  {
    if a.wideOffset then a.sector == [] || SectorRepeats(a)
    else
      || !IsZip64(a)
      || (a.wideSize && |CdBytes(a.members)| + END64_SIZE + |a.sector| + LOCATOR_SIZE == SATURATED && (!a.wideCount || |a.members| == 0xffff))
  }

  /** Without a sector the record is the one that was written. */
  lemma NoSector(a: Archive)
    requires WritableArchive(a) && a.sector == []
    ensures SectorRepeats(a)
  {
    hide End64, CdBytes, AllWritable, Field;
    End64Fields(|a.members|, |CdBytes(a.members)|, |a.body|, a.versions);
    assert LastEnd64(a) == End64(|a.members|, |CdBytes(a.members)|, |a.body|, a.versions);
  }

  lemma WrapBack(x: nat, y: nat, z: nat)
    requires x + y < U64 && z < U64
    ensures Wrap(x + y - z) == x <==> z == y
  {
  }

  lemma DirectoryExact(a: Archive)
    requires Findable(a)
    ensures TakenDirectory(a) == Some(Directory(|a.body|, |a.members|)) <==> DirectoryRight(a)
  {
    hide Write, Front, CdBytes, HasAt, NoLaterEnd, AllWritable, WritableArchive, Field, LastEnd64;
    FindableFacts(a);
    WrittenParts(a, Write(a), |a.body|, |CdBytes(a.members)|, |Front(a)|);
    if a.wideOffset {
      if a.sector == [] {
        NoSector(a);
      }
      Field8(LastEnd64(a), 40);
      WrapBack(|a.body|, |CdBytes(a.members)| + |a.sector|, Field(LastEnd64(a), 40, 8));
    }
  }

  lemma Field8(s: seq<byte>, at: nat)
    requires at + 8 <= |s|
    ensures Field(s, at, 8) < U64
  {
    LeBound(s[at..at + 8]);
    Widths();
  }

  /** On an archive with no members and no comment the scan never runs. */
  lemma EmptyArchive(a: Archive, signed: bool, junk: Memory)
    requires Findable(a) && a.members == [] && a.body == [] && a.comment == [] && !IsZip64(a)
    ensures Parse(Write(a), signed, junk).outcome == NullScan
  {
    hide Write, Front, HasAt, NoLaterEnd, WritableArchive, Parse;
    FindableFacts(a);
    WrittenParts(a, Write(a), |a.body|, |CdBytes(a.members)|, |Front(a)|);
    ParseTakes(a, Write(a), signed, junk);
  }

  /** Opening a written archive whose directory is found gives its members up to the first whose local
      record is not where the directory says, as in an archive that other data was put in front of. */
  lemma ReadsUpTo(a: Archive, k: nat, signed: bool, junk: Memory)
    requires Findable(a) && DirectoryRight(a) && InWindow(a, |Write(a)|) && k <= |a.members|
    requires AllWritable(a.members[..k]) && Stand(Write(a), a.members[..k]) && (k < |a.members| ==> NoLocalAt(Write(a), a.members[k].header))
    ensures Parse(Write(a), signed, junk)
         == Parsed(SeenAll(a.members[..k], signed), UpToNul(a.comment), if k == |a.members| then Complete else Failed)
  {
    hide Write, Front, CdBytes, HasAt, NoLaterEnd, AllWritable, Parse, ParseEntries, TakenDirectory, DirectoryRight, SeenAll, UpToNul, WritableArchive, Stand, NoLocalAt;
    FindableFacts(a);
    var file, h, cd := Write(a), |a.body|, |CdBytes(a.members)|;
    WrittenParts(a, file, h, cd, |Front(a)|);
    ParseTakes(a, file, signed, junk);
    DirectoryExact(a);
    EntriesUpTo(file, h, a.members, k, signed, junk);
  }

  /** What a comment says: the whole of it if it holds no NUL, else what stands before the first one. */
  predicate Says(comment: seq<byte>, c: seq<byte>) {
    0 !in c && (comment == c || c + [0] <= comment)
  }

  lemma NotLonger(s: seq<byte>, c: seq<byte>, d: seq<byte>)
    requires c <= s && d <= s && 0 !in d && (c == s || s[|c|] == 0)
    ensures |d| <= |c|
  {
    assert forall i :: 0 <= i < |d| ==> s[i] == d[i] && d[i] in d;
  }

  lemma SaysText(comment: seq<byte>, c: seq<byte>)
    requires Says(comment, c)
    ensures UpToNul(comment) == c
  {
    hide UpToNul;
    UpToNulIs(comment);
    assert c != comment ==> c < c + [0] <= comment && comment[|c|] == (c + [0])[|c|];
    NotLonger(comment, UpToNul(comment), c);
    NotLonger(comment, c, UpToNul(comment));
    assert UpToNul(comment) == comment[..|c|] == c;
  }

  /** What opening a written archive gives. */
  lemma ReadsBack(a: Archive, signed: bool, junk: Memory)
    requires Openable(a) && DirectoryRight(a) && InWindow(a, |Write(a)|)
    ensures AllWritable(a.members) && Parse(Write(a), signed, junk) == Parsed(SeenAll(a.members, signed), UpToNul(a.comment), Complete)
    ensures forall c :: Says(a.comment, c) ==> Parse(Write(a), signed, junk).comment == c
  {
    hide Write, Front, AllWritable, Parse, DirectoryRight, SeenAll, UpToNul, Stand, Findable, Says;
    forall c | Says(a.comment, c) ensures UpToNul(a.comment) == c {
      SaysText(a.comment, c);
    }
    OpenableFacts(a);
    assert a.members[..|a.members|] == a.members;
    ReadsUpTo(a, |a.members|, signed, junk);
  }

  /** There is no directory record at `p`. */
  predicate NoRecordAt(file: seq<byte>, p: nat)
    requires |file| < U64 - U32
  {
    var head := FileBytes(file, CD_SIZE, p);
    |head| != CD_SIZE || Field(head, 0, 4) != CD_MAGIC
  }

  /** The directory is looked for nowhere, or where no record stands. */
  predicate LedAway(a: Archive)
    requires WritableArchive(a) && |Write(a)| < U64 - U32
  {
    TakenDirectory(a) == None || NoRecordAt(Write(a), TakenDirectory(a).value.pos)
  }

  /** No member is there to be read, and none is claimed. */
  predicate ClaimsNone(a: Archive)
    requires WritableArchive(a)
  {
    TakenDirectory(a).Some? && TakenDirectory(a).value.count == 0
  }

  /** Where the directory is looked for in a place that holds none, nothing is read. */
  lemma ReadsNothing(a: Archive, signed: bool, junk: Memory)
    requires Findable(a) && InWindow(a, |Write(a)|) && LedAway(a)
    ensures Parse(Write(a), signed, junk) == Parsed([], UpToNul(a.comment), if ClaimsNone(a) then Complete else Failed)
  {
    hide Write, Front, CdBytes, HasAt, NoLaterEnd, AllWritable, Parse, TakenDirectory, UpToNul, WritableArchive, FileBytes, ParseRest;
    FindableFacts(a);
    ParseTakes(a, Write(a), signed, junk);
  }

  /** A saturated directory size leads out of any file that is smaller than its mark. */
  lemma SizeLeadsAway(a: Archive)
    requires Findable(a) && a.wideSize && !a.wideOffset && |Write(a)| < SATURATED
    ensures LedAway(a)
  {
    hide Write, Front, CdBytes, HasAt, NoLaterEnd, AllWritable, WritableArchive, Field, IsZip64;
    FindableFacts(a);
    WrittenParts(a, Write(a), |a.body|, |CdBytes(a.members)|, |Front(a)|);
  }

  /** A sector whose end does not look like a Zip64 end record hides the record. */
  lemma SectorHides(a: Archive)
    requires Findable(a) && a.wideOffset && |a.sector| >= END64_SIZE && Field(a.sector, |a.sector| - END64_SIZE, 4) != END64_MAGIC
    ensures LedAway(a) && !ClaimsNone(a)
  {
    hide Write, Front, CdBytes, HasAt, NoLaterEnd, AllWritable, WritableArchive, End64;
    FindableFacts(a);
    End64Fields(|a.members|, |CdBytes(a.members)|, |a.body|, a.versions);
    var n := |a.sector| - END64_SIZE;
    assert LastEnd64(a) == a.sector[n..];
    assert a.sector[n..][0..4] == a.sector[n..n + 4];
  }

  /** The condition under which everything is read as its writer means it. */
  predicate ReadRight(a: Archive, signed: bool)
    requires WritableArchive(a)
  {
    && InWindow(a, |Write(a)|)
    && if a.members == [] then ClaimsNone(a) else DirectoryRight(a) && SizesRight(a.members, signed)
  }

  /** The reader gets every member as its writer means it where the end record lies within reach, the
      directory is found, and every size is one it reads right. */
  lemma ReadsRight(a: Archive, signed: bool, junk: Memory)
    requires Openable(a) && ReadRight(a, signed)
    ensures Parse(Write(a), signed, junk) == Parsed(MeantAll(a.members), UpToNul(a.comment), Complete)
    ensures forall c :: Says(a.comment, c) ==> Parse(Write(a), signed, junk).comment == c
  {
    hide Write, Front, CdBytes, HasAt, NoLaterEnd, AllWritable, Parse, SeenAll, MeantAll, SizesRight, UpToNul, WritableArchive, Stand, DirectoryRight, TakenDirectory, Says;
    forall c | Says(a.comment, c) ensures UpToNul(a.comment) == c {
      SaysText(a.comment, c);
    }
    OpenableFacts(a);
    if a.members == [] {
      ParseTakes(a, Write(a), signed, junk);
      assert MeantAll([]) == [];
    } else {
      ReadsBack(a, signed, junk);
      AllSeenAreMeant(a.members, signed);
    }
  }

  /** ... and exactly there, unless a directory record happens to stand where it looks for the directory
      in a wrong place. */
  lemma ReadsExactly(a: Archive, signed: bool, junk: Memory)
    requires Openable(a) && (DirectoryRight(a) || LedAway(a))
    ensures var p := Parse(Write(a), signed, junk);
            (p.entries == MeantAll(a.members) && p.outcome == Complete) <==> ReadRight(a, signed)
  {
    hide Write, Front, CdBytes, HasAt, NoLaterEnd, AllWritable, Parse, ParseEntries, SeenAll, MeantAll, SizesRight, UpToNul, WritableArchive, Stand, LedAway, DirectoryRight, TakenDirectory;
    OpenableFacts(a);
    FindableFacts(a);
    ParseTakes(a, Write(a), signed, junk);
    AllSeenAreMeant(a.members, signed);
    DirectoryExact(a);
    NoneRight(a.members, signed);
    if InWindow(a, |Write(a)|) {
      if DirectoryRight(a) {
        ReadsBack(a, signed, junk);
      } else {
        ReadsNothing(a, signed, junk);
      }
    }
  }

  lemma NoneRight(ms: seq<Member>, signed: bool)
    ensures ms == [] ==> SizesRight(ms, signed)
  {
  }

  // ---------- the data ----------

  lemma DataAt(file: seq<byte>, ms: seq<Member>, k: nat)
    requires AllWritable(ms) && Stand(file, ms) && k < |ms|
    ensures HasAt(file, MeantAll(ms)[k].offset, ms[k].data)
  {
    hide Writable, HasAt, Local;
    LocalHead(ms[k]);
    LocalData(file, ms[k].header, ms[k]);
  }

  /** Reading a stored segment of a written archive whole gives the member's data back. */
  lemma StoredRoundTrip(a: Archive, zip: Zip, k: nat)
    requires Openable(a) && zip.file == Write(a) && AllWritable(a.members) && zip.entries == MeantAll(a.members)
    requires k < |a.members| && a.members[k].method_ == STORED && a.members[k].size == |a.members[k].data|
    ensures Contents(zip, zip.entries[k]) == Some(a.members[k].data)
  {
    hide Write, Front, CdBytes, NoLaterEnd, AllWritable, WritableArchive, Stand;
    OpenableFacts(a);
    DataAt(zip.file, a.members, k);
  }

  /** Reading a compressed one of up to 32 MB inflates the member's data; a larger one is not read. */
  lemma DeflatedRoundTrip(a: Archive, zip: Zip, k: nat)
    requires Openable(a) && zip.file == Write(a) && AllWritable(a.members) && zip.entries == MeantAll(a.members)
    requires k < |a.members| && a.members[k].method_ == DEFLATE
    ensures Contents(zip, zip.entries[k]) == if a.members[k].size <= 0x200_0000 then zip.inflate(a.members[k].data) else None
  {
    hide Write, Front, CdBytes, NoLaterEnd, AllWritable, WritableArchive, Stand;
    OpenableFacts(a);
    DataAt(zip.file, a.members, k);
  }
}
