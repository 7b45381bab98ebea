/** The streams a map reads from: image streams, repeated patterns and symbolic streams
    (src/stream/RepeatedImageStream.cc, src/stream/SymbolicImageStream.cc). */
module LowerStreams {
  import opened Bytes
  import opened Container
  import opened ImageStreams
  import opened Options

  /** The pattern restarts at every megabyte. */
  const UNITS_M := 1024 * 1024

  function PatternByte(symbol: seq<byte>, b: nat): byte
    requires symbol != []
  {
    symbol[(b % UNITS_M) % |symbol|]
  }

  /** `n` bytes of the pattern from address `offset` on. */
  ghost function Pattern(symbol: seq<byte>, offset: nat, n: nat): (p: seq<byte>)
    requires symbol != []
    ensures |p| == n && forall i :: 0 <= i < n ==> p[i] == PatternByte(symbol, offset + i)
  {
    seq<byte>(n, i requires 0 <= i < n => PatternByte(symbol, offset + i))
  }

  lemma PatternSplit(symbol: seq<byte>, offset: nat, a: nat, b: nat)
    requires symbol != []
    ensures Pattern(symbol, offset, a + b) == Pattern(symbol, offset, a) + Pattern(symbol, offset + a, b)
  {
  }

  lemma NoPattern(symbol: seq<byte>, offset: nat)
    requires symbol != []
    ensures Pattern(symbol, offset, 0) == []
  {
  }

  /** A megabyte filled with copies of the symbol from its start. */
  ghost predicate Filled(block: seq<byte>, symbol: seq<byte>)
    requires symbol != []
  {
    |block| == UNITS_M && forall i :: 0 <= i < UNITS_M ==> block[i] == symbol[i % |symbol|]
  }

  lemma FilledPiece(block: seq<byte>, symbol: seq<byte>, offset: nat, n: nat)
    requires symbol != [] && Filled(block, symbol) && offset % UNITS_M + n <= UNITS_M
    ensures |block| == UNITS_M
    ensures var o := offset % UNITS_M; block[o..o + n] == Pattern(symbol, offset, n)
  {
    var o := offset % UNITS_M;
    var piece := block[o..o + n];
    forall i | 0 <= i < n ensures piece[i] == PatternByte(symbol, offset + i) {
      assert (offset + i) % UNITS_M == o + i;
    }
  }

  /** The fill loop of the constructor. */
  method Fill(symbol: seq<byte>) returns (b: array<byte>)
    requires symbol != []
    ensures fresh(b) && Filled(b[..], symbol)
  {
    b := new byte[UNITS_M];
    var i: nat, n := 0, |symbol|;
    ghost var q: nat := 0;
    while i < UNITS_M
      invariant i == q * n
      invariant forall j :: 0 <= j < i && j < UNITS_M ==> b[j] == symbol[j % n]
    {
      var limit := Min(UNITS_M - i, n);
      CopyIn(b, i, symbol[..limit]);
      forall j | i <= j < i + limit ensures b[j] == symbol[j % n] {
        DivideBack(q, j - i, n);
        assert b[j] == b[i..i + limit][j - i];
      }
      i := i + n;
      q := q + 1;
    }
  }

  class RepeatedStream {
    const name: string
    const symbol: seq<byte>
    const buffer: array<byte>

    ghost predicate Valid()
      reads buffer
    {
      symbol != [] && Filled(buffer[..], symbol)
    }

    /** The source never finishes on an empty pattern. */
    constructor (name: string, symbol: seq<byte>)
      requires symbol != []
      ensures Valid() && this.name == name && this.symbol == symbol && fresh(buffer)
    {
      this.name, this.symbol := name, symbol;
      var b := Fill(symbol);
      buffer := b;
    }

    /** The body of the read loop: one piece of the block goes behind what is already there. */
    method CopyPiece(buf: array<byte>, at: nat, pos: nat, ghost offset: nat, boffset: nat, limit: nat)
      requires Valid() && at + pos + limit <= buf.Length && buf != buffer
      requires boffset == (offset + pos) % UNITS_M && boffset + limit <= UNITS_M && buf[at..at + pos] == Pattern(symbol, offset, pos)
      modifies buf
      ensures Valid() && buf[at..at + (pos + limit)] == Pattern(symbol, offset, pos + limit)
      ensures forall j :: 0 <= j < buf.Length && !(at + pos <= j < at + pos + limit) ==> buf[j] == old(buf[j])
    {
      hide Filled, PatternByte, Pattern;
      FilledPiece(buffer[..], symbol, offset + pos, limit);
      PatternSplit(symbol, offset, pos, limit);
      ghost var done := buf[at..at + pos];
      CopyIn(buf, at + pos, buffer[..][boffset..boffset + limit]);
      Join(buf, at, at + pos, at + pos + limit);
      assert buf[at..at + pos] == done;
    }

    /** RepeatedImageStream::read. */
    method Read(buf: array<byte>, at: nat, count: nat, offset: nat) returns (res: int)
      requires Valid() && at + count <= buf.Length && buf != buffer
      modifies buf
      ensures Valid() && res == count && buf[at..at + count] == Pattern(symbol, offset, count)
      ensures forall j :: 0 <= j < buf.Length && !(at <= j < at + count) ==> buf[j] == old(buf[j])
    {
      hide Filled, PatternByte, Pattern;
      NoPattern(symbol, offset);
      var boffset := offset % UNITS_M;
      var limit := Min(count, UNITS_M - boffset);
      var remainder: nat, pos: nat := count, 0;
      assert buf[at..at + pos] == Pattern(symbol, offset, pos);
      while remainder > 0
        invariant Valid() && remainder + pos == count
        invariant remainder > 0 ==> boffset == (offset + pos) % UNITS_M && 0 < limit == Min(remainder, UNITS_M - boffset)
        invariant buf[at..at + pos] == Pattern(symbol, offset, pos)
        invariant forall j :: 0 <= j < buf.Length && !(at <= j < at + count) ==> buf[j] == old(buf[j])
      {
        CopyPiece(buf, at, pos, offset, boffset, limit);
        NextBlock(offset + pos, limit);
        boffset := 0;
        remainder := remainder - limit;
        pos := pos + limit;
        limit := Min(remainder, UNITS_M);
      }
      res := count;
    }
  }

  lemma NextBlock(a: nat, n: nat)
    requires a % UNITS_M + n <= UNITS_M
    ensures a % UNITS_M + n == UNITS_M ==> (a + n) % UNITS_M == 0
  {
  }

  /** A stream a map can name. */
  datatype Lower = ImageLower(image: ImageStream) | RepeatedLower(repeated: RepeatedStream) | SymbolicLower(name: string, symbol: byte)

  function ResourceID(l: Lower): string {
    match l
    case ImageLower(i) => i.im.resource
    case RepeatedLower(r) => r.name
    case SymbolicLower(name, _) => name
  }

  function LowerSize(l: Lower): nat {
    if l.ImageLower? then l.image.im.length else U64 - 1
  }

  /** The objects the state of a stream lives in, and those a read of it may change. */
  ghost function Footprint(l: Lower): set<object> {
    match l
    case ImageLower(i) => {i, i.loader, i.loader.bevvyCache, i.chunkCache}
    case RepeatedLower(r) => {r, r.buffer}
    case SymbolicLower(_, _) => {}
  }

  ghost function Writes(l: Lower): set<object> {
    if l.ImageLower? then l.image.Caches() else {}
  }

  ghost predicate Ready(l: Lower)
    reads Footprint(l)
  {
    match l
    case ImageLower(i) => i.Valid() && !i.closed
    case RepeatedLower(r) => r.Valid()
    case SymbolicLower(_, _) => true
  }

  /** The direct meaning of byte `b` of a stream. */
  ghost function LowerByte(l: Lower, b: nat): Option<byte> {
    match l
    case ImageLower(i) => if Sound(i.im) then ByteAt(i.im, b) else None
    case RepeatedLower(r) => if r.symbol != [] then Some(PatternByte(r.symbol, b)) else None
    case SymbolicLower(_, s) => Some(s)
  }

  /** `out` is what the stream holds from `offset` on. */
  ghost predicate Holds(l: Lower, offset: nat, out: seq<byte>) {
    forall b :: offset <= b < offset + |out| ==> LowerByte(l, b) == Some(out[b - offset])
  }

  /** IAFF4Stream::read on any of them, within the stream's size. */
  method ReadLower(l: Lower, buf: array<byte>, at: nat, count: nat, offset: nat) returns (res: int)
    requires Ready(l) && buf !in Footprint(l)
    requires 0 < count && at + count <= buf.Length && offset + count <= LowerSize(l)
    modifies buf, Writes(l)
    ensures Ready(l)
    ensures if res <= 0 then exists b :: offset <= b < offset + count && LowerByte(l, b) == None
            else res == count && Holds(l, offset, buf[at..at + count])
    ensures forall j :: 0 <= j < buf.Length && !(at <= j < at + count) ==> buf[j] == old(buf[j])
  {
    hide ByteAt, PatternByte, Lru.Sound, Lru.Keys;
    match l {
      case ImageLower(i) =>
        res := i.Read(buf, at, count, offset);
        if res == -1 {
          ghost var b :| offset <= b < offset + count && ByteAt(i.im, b) == None;
          assert LowerByte(l, b) == None;
        }
      case RepeatedLower(r) =>
        res := r.Read(buf, at, count, offset);
      case SymbolicLower(_, symbol) =>
        CopyIn(buf, at, seq(count, _ => symbol));
        res := count;
    }
  }
}
