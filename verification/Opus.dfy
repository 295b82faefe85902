/**
  getOpusDuration of common/audio.go: a scanner for Ogg pages that resynchronises byte by
  byte on the capture pattern. Pages follow section 6 of RFC 3533.
 */
module Opus {

  import opened Bytes

  const CAPTURE: seq<byte> := [0x4f, 0x67, 0x67, 0x53]  // "OggS"
  const HEADER_SIZE := 27
  const SAMPLE_RATE := 48000.0
  const TWO63 := 0x8000_0000_0000_0000
  const TWO64 := 0x1_0000_0000_0000_0000

  // ------------------------------------------------------------------ numbers

  function FromLittleEndian(bs: seq<byte>): nat {
    if bs == [] then 0 else bs[0] + 256 * FromLittleEndian(bs[1..])
  }

  function ToLittleEndian(n: nat, size: nat): (bs: seq<byte>)
    ensures |bs| == size
  {
    if size == 0 then [] else [n % 256] + ToLittleEndian(n / 256, size - 1)
  }

  function Pow256(k: nat): nat {
    if k == 0 then 1 else 256 * Pow256(k - 1)
  }

  lemma {:induction false} LittleEndianRoundTrip(n: nat, size: nat)
    requires n < Pow256(size)
    ensures FromLittleEndian(ToLittleEndian(n, size)) == n
  {
    if size == 0 {
    } else {
      LittleEndianRoundTrip(n / 256, size - 1);
      assert ToLittleEndian(n, size)[1..] == ToLittleEndian(n / 256, size - 1);
    }
  }

  /** int64(uint64): the same 64 bits read as a signed number. */
  function AsSigned(u: nat): int {
    if u >= TWO63 then u - TWO64 else u
  }

  function AsUnsigned(i: int): nat
    requires -TWO63 <= i < TWO63
  {
    if i < 0 then i + TWO64 else i
  }

  function Sum(bs: seq<byte>): nat {
    if bs == [] then 0 else bs[0] + Sum(bs[1..])
  }

  /** The sum of two tables one after the other is the sum of their sums. */
  lemma {:induction false} SumIs(b: byte, x: seq<byte>, y: seq<byte>)
    ensures Sum([]) == 0 && Sum([b]) == b && Sum(x + y) == Sum(x) + Sum(y)
  {
    if x == [] {
      assert x + y == y;
    } else {
      SumIs(b, x[1..], y);
      assert (x + y)[1..] == x[1..] + y;
    }
  }

  function Max(a: int, b: int): int {
    if a > b then a else b
  }

  // ------------------------------------------------------------------ the scanner

  /** A recognised page: where its header starts and its granule position. */
  datatype Found = Found(at: nat, granule: int)

  /** A full page header could start here, and the capture pattern does. */
  predicate CapturesAt(data: seq<byte>, pos: nat) {
    pos + 4 <= |data| && data[pos..pos + 4] == CAPTURE
  }

  function GranuleAt(data: seq<byte>, pos: nat): int
    requires pos + HEADER_SIZE <= |data|
  {
    AsSigned(FromLittleEndian(data[pos + 6..pos + 14]))
  }

  /** Header, segment table and the body the table announces. */
  function PageLength(table: seq<byte>): (n: nat)
    ensures n >= HEADER_SIZE
  {
    HEADER_SIZE + |table| + Sum(table)
  }

  /** Every page the scanner recognises from offset pos on. */
  function Scan(data: seq<byte>, pos: nat): seq<Found>
    decreases |data| - pos
  {
    if pos + HEADER_SIZE > |data| then []
    else if !CapturesAt(data, pos) then Scan(data, pos + 1)
    else
      var found, n := Found(pos, GranuleAt(data, pos)), data[pos + 26];
      var start := pos + HEADER_SIZE;
      if start + n > |data| then [found]
      else [found] + Scan(data, pos + PageLength(data[start..start + n]))
  }

  /** The largest granule position seen, never below zero. */
  function Highest(found: seq<Found>): int {
    if found == [] then 0 else Max(found[0].granule, Highest(found[1..]))
  }

  lemma {:induction false} HighestNonNegative(found: seq<Found>)
    ensures Highest(found) >= 0
  {
    if found == [] {
    } else {
      HighestNonNegative(found[1..]);
    }
  }

  lemma HighestCons(f: Found, rest: seq<Found>)
    ensures Highest([f] + rest) == Max(f.granule, Highest(rest))
  {
    assert ([f] + rest)[1..] == rest;
  }

  /** A reader whose Read fills the buffer unless the data ends; it may be positioned past the end. */
  class Reader {
    const data: seq<byte>
    var pos: nat

    constructor (data: seq<byte>)
      ensures this.data == data && pos == 0
    {
      this.data := data;
      pos := 0;
    }

    method Read(n: nat) returns (buf: seq<byte>)
      modifies this
      ensures old(pos) + n <= |data| ==> buf == data[old(pos)..old(pos) + n]
      ensures old(pos) + n > |data| ==> |buf| < n || n == 0
      ensures pos == old(pos) + |buf|
    {
      if pos >= |data| {
        return [];
      }
      var end := if pos + n < |data| then pos + n else |data|;
      buf := data[pos..end];
      pos := end;
    }
  }

  /** The sum over the segment table. */
  method PageSize(table: seq<byte>) returns (size: nat)
    ensures size == Sum(table)
  {
    size := 0;
    var i := |table|;
    while i > 0
      invariant 0 <= i <= |table| && size == Sum(table[i..])
    {
      i := i - 1;
      assert table[i..][1..] == table[i + 1..];
      size := size + table[i];
    }
  }

  /** From pos the scanner finds one page and goes on at next. */
  ghost predicate FindsThen(data: seq<byte>, pos: nat, found: Found, next: nat) {
    Scan(data, pos) == [found] + Scan(data, next)
  }

  lemma PageStep(data: seq<byte>, pos: nat, table: seq<byte>)
    requires pos + HEADER_SIZE <= |data| && CapturesAt(data, pos)
    requires pos + HEADER_SIZE + data[pos + 26] <= |data|
    requires table == data[pos + HEADER_SIZE..pos + HEADER_SIZE + data[pos + 26]]
    ensures FindsThen(data, pos, Found(pos, GranuleAt(data, pos)), pos + PageLength(table))
  {
  }

  /** The largest granule position seen from pos on. */
  function HighestFrom(data: seq<byte>, pos: nat): int {
    Highest(Scan(data, pos))
  }

  lemma PageHighest(data: seq<byte>, pos: nat, table: seq<byte>)
    requires pos + HEADER_SIZE <= |data| && CapturesAt(data, pos)
    requires pos + HEADER_SIZE + data[pos + 26] <= |data|
    requires table == data[pos + HEADER_SIZE..pos + HEADER_SIZE + data[pos + 26]]
    ensures HighestFrom(data, pos) == Max(GranuleAt(data, pos), HighestFrom(data, pos + PageLength(table)))
  {
    PageStep(data, pos, table);
    HighestCons(Found(pos, GranuleAt(data, pos)), Scan(data, pos + PageLength(table)));
  }

  lemma CutHighest(data: seq<byte>, pos: nat)
    requires pos + HEADER_SIZE <= |data| && CapturesAt(data, pos)
    requires pos + HEADER_SIZE + data[pos + 26] > |data|
    ensures HighestFrom(data, pos) == Max(GranuleAt(data, pos), 0)
  {
    var found := Found(pos, GranuleAt(data, pos));
    HighestCons(found, []);
    assert Scan(data, pos) == [found] + [];
  }

  lemma SliceOfSlice(data: seq<byte>, pos: nat, n: nat, a: nat, b: nat)
    requires pos + n <= |data| && a <= b <= n
    ensures data[pos..pos + n][a..b] == data[pos + a..pos + b]
  {
    var x, y := data[pos..pos + n][a..b], data[pos + a..pos + b];
    assert |x| == |y|;
    forall k | 0 <= k < |x| ensures x[k] == y[k] {
      assert x[k] == data[pos..pos + n][a + k] == data[pos + (a + k)];
    }
  }

  /** The header bytes in the buffer are those at the reader's position. */
  lemma HeaderRead(data: seq<byte>, pos: nat, buf: seq<byte>)
    requires pos + HEADER_SIZE <= |data| && buf == data[pos..pos + HEADER_SIZE]
    ensures CapturesAt(data, pos) <==> buf[0..4] == CAPTURE
    ensures GranuleAt(data, pos) == AsSigned(FromLittleEndian(buf[6..14])) && data[pos + 26] == buf[26]
  {
    SliceOfSlice(data, pos, HEADER_SIZE, 0, 4);
    SliceOfSlice(data, pos, HEADER_SIZE, 6, 14);
  }

  method GetOpusDuration(data: seq<byte>) returns (duration: real)
    ensures duration == HighestFrom(data, 0) as real / 48000.0
  {
    var r := new Reader(data);
    var total, more := 0, true;
    HighestNonNegative(Scan(data, 0));
    while more
      invariant r.data == data && total >= 0
      invariant HighestFrom(data, 0) == if more then Max(total, HighestFrom(data, r.pos)) else total
      decreases more, |data| - r.pos
    {
      more, total := ReadPage(r, total);
    }
    duration := total as real / SAMPLE_RATE;
  }

  datatype Headline = EndOfData | Noise | PageHeader(granule: int, segments: nat)

  /** Reads 27 bytes and looks for the capture pattern; after noise, 26 of them are given back. */
  method ReadHeader(r: Reader) returns (h: Headline)
    modifies r
    ensures h.EndOfData? <==> old(r.pos) + HEADER_SIZE > |r.data|
    ensures h.Noise? ==> !CapturesAt(r.data, old(r.pos)) && r.pos == old(r.pos) + 1
    ensures h.PageHeader? ==>
              && CapturesAt(r.data, old(r.pos)) && r.pos == old(r.pos) + HEADER_SIZE
              && h.granule == GranuleAt(r.data, old(r.pos)) && h.segments == r.data[old(r.pos) + 26]
  {
    ghost var at := r.pos;
    var buf := r.Read(HEADER_SIZE);
    if |buf| < HEADER_SIZE {
      return EndOfData;
    }
    HeaderRead(r.data, at, buf);
    if buf[0..4] != CAPTURE {
      r.pos := r.pos - 26;
      return Noise;
    }
    h := PageHeader(AsSigned(FromLittleEndian(buf[6..14])), buf[26]);
  }

  lemma NothingAhead(data: seq<byte>, pos: nat)
    requires pos + HEADER_SIZE > |data|
    ensures HighestFrom(data, pos) == 0
  {
  }

  lemma NoiseHighest(data: seq<byte>, pos: nat)
    requires pos + HEADER_SIZE <= |data| && !CapturesAt(data, pos)
    ensures HighestFrom(data, pos) == HighestFrom(data, pos + 1)
  {
  }

  /** Behind a header: the segment table, and a seek past the body that it announces. */
  method SkipBody(r: Reader, ghost at: nat, segments: nat) returns (complete: bool)
    requires at + HEADER_SIZE <= |r.data| && CapturesAt(r.data, at)
    requires r.pos == at + HEADER_SIZE && segments == r.data[at + 26]
    modifies r
    ensures complete ==> at < r.pos
    ensures HighestFrom(r.data, at) == Max(GranuleAt(r.data, at), if complete then HighestFrom(r.data, r.pos) else 0)
  {
    var table := r.Read(segments);
    if |table| < segments {
      CutHighest(r.data, at);
      return false;
    }
    PageHighest(r.data, at, table);
    var pageSize := PageSize(table);
    r.pos := r.pos + pageSize;
    assert r.pos == at + PageLength(table);
    complete := true;
  }

  /** The loop body: a page, one byte of noise, or the end. The position strictly increases. */
  method ReadPage(r: Reader, total: int) returns (more: bool, total': int)
    requires total >= 0
    modifies r
    ensures total' >= 0
    ensures more ==> old(r.pos) < r.pos && old(r.pos) < |r.data|
    ensures Max(total, HighestFrom(r.data, old(r.pos)))
         == if more then Max(total', HighestFrom(r.data, r.pos)) else total'
  {
    ghost var at := r.pos;
    var h := ReadHeader(r);
    match h
    case EndOfData =>
      NothingAhead(r.data, at);
      return false, total;
    case Noise =>
      NoiseHighest(r.data, at);
      return true, total;
    case PageHeader(granule, segments) =>
      total' := if granule > total then granule else total;
      more := SkipBody(r, at, segments);
  }

  // ------------------------------------------------------------------ the bytes of a header

  /** The four bytes of the capture pattern, byte by byte. */
  lemma CaptureBytes(data: seq<byte>, pos: nat)
    requires pos + 27 <= |data|
    ensures CapturesAt(data, pos) <==>
              data[pos] == 'O' as int && data[pos + 1] == 'g' as int
              && data[pos + 2] == 'g' as int && data[pos + 3] == 'S' as int
  {
    var b := data[pos..pos + 4];
    assert b == [data[pos], data[pos + 1], data[pos + 2], data[pos + 3]];
  }

  /** Four bytes, least significant first. */
  function Weighed(a: int, b: int, c: int, d: int): int {
    a + 0x100 * b + 0x1_0000 * c + 0x100_0000 * d
  }

  /** The granule position: bytes 6 to 13, least significant first, the highest bit a sign. */
  lemma GranuleBytes(data: seq<byte>, pos: nat)
    requires pos + 27 <= |data|
    ensures GranuleAt(data, pos)
         == Weighed(data[pos + 6], data[pos + 7], data[pos + 8], data[pos + 9])
            + 0x1_0000_0000 * Weighed(data[pos + 10], data[pos + 11], data[pos + 12], data[pos + 13])
            - if data[pos + 13] >= 0x80 then 0x1_0000_0000_0000_0000 else 0
  {
    var b := data[pos + 6..pos + 14];
    EightBytes(b);
    assert forall k | 0 <= k < 8 :: b[k] == data[pos + 6 + k];
  }

  lemma EightBytes(b: seq<byte>)
    requires |b| == 8
    ensures AsSigned(FromLittleEndian(b))
         == Weighed(b[0], b[1], b[2], b[3]) + 0x1_0000_0000 * Weighed(b[4], b[5], b[6], b[7])
            - if b[7] >= 0x80 then 0x1_0000_0000_0000_0000 else 0
  {
    FourBytes(b);
    FourBytes(b[4..]);
    assert FromLittleEndian(b[8..]) == 0;
  }

  lemma FourBytes(b: seq<byte>)
    requires |b| >= 4
    ensures FromLittleEndian(b)
         == Weighed(b[0], b[1], b[2], b[3]) + 0x1_0000_0000 * FromLittleEndian(b[4..])
  {
    assert b[1..][1..] == b[2..] && b[2..][1..] == b[3..] && b[3..][1..] == b[4..];
  }

  // ------------------------------------------------------------------ Ogg pages

  /** A page of section 6 of RFC 3533; the scanner looks at neither serial, number nor checksum. */
  datatype Page = Page(
    version: byte, headerType: byte, granule: int,
    serial: seq<byte>, number: seq<byte>, checksum: seq<byte>,
    table: seq<byte>, body: seq<byte>)

  predicate WellFormed(p: Page) {
    && -TWO63 <= p.granule < TWO63
    && |p.serial| == 4 && |p.number| == 4 && |p.checksum| == 4
    && |p.table| < 256 && |p.body| == Sum(p.table)
  }

  function Header(p: Page): (h: seq<byte>)
    requires WellFormed(p)
    ensures |h| == HEADER_SIZE
  {
    CAPTURE + [p.version, p.headerType] + ToLittleEndian(AsUnsigned(p.granule), 8)
    + p.serial + p.number + p.checksum + [|p.table|]
  }

  function Encode(p: Page): (bs: seq<byte>)
    requires WellFormed(p)
    ensures |bs| == PageLength(p.table)
  {
    Header(p) + p.table + p.body
  }

  lemma HeaderFields(p: Page)
    requires WellFormed(p)
    ensures Header(p)[..4] == CAPTURE && Header(p)[26] == |p.table|
    ensures Header(p)[6..14] == ToLittleEndian(AsUnsigned(p.granule), 8)
  {
  }

  lemma GranuleRoundTrip(i: int)
    requires -TWO63 <= i < TWO63
    ensures AsSigned(FromLittleEndian(ToLittleEndian(AsUnsigned(i), 8))) == i
  {
    assert Pow256(4) == 0x1_0000_0000;
    assert Pow256(8) == TWO64;
    LittleEndianRoundTrip(AsUnsigned(i), 8);
  }

  /** What the scanner sees of an encoded page, of which at least the header is there. */
  lemma PageHeaderAt(data: seq<byte>, pos: nat, p: Page)
    requires WellFormed(p) && pos + HEADER_SIZE <= |data|
    requires data[pos..pos + HEADER_SIZE] == Header(p)
    ensures CapturesAt(data, pos) && GranuleAt(data, pos) == p.granule && data[pos + 26] == |p.table|
  {
    HeaderFields(p);
    GranuleRoundTrip(p.granule);
    HeaderRead(data, pos, Header(p));
  }

  /** An encoded page lies at offset pos. */
  predicate PageAt(data: seq<byte>, pos: nat, p: Page)
    requires WellFormed(p)
  {
    pos + |Encode(p)| <= |data| && data[pos..pos + |Encode(p)|] == Encode(p)
  }

  /** Header and segment table of an encoded page, where they lie. */
  lemma PageParts(data: seq<byte>, pos: nat, p: Page)
    requires WellFormed(p) && PageAt(data, pos, p)
    ensures pos + HEADER_SIZE + |p.table| <= |data|
    ensures data[pos..pos + HEADER_SIZE] == Header(p)
    ensures data[pos + HEADER_SIZE..pos + HEADER_SIZE + |p.table|] == p.table
  {
    var end := HEADER_SIZE + |p.table|;
    SliceOfSlice(data, pos, |Encode(p)|, 0, HEADER_SIZE);
    SliceOfSlice(data, pos, |Encode(p)|, HEADER_SIZE, end);
    assert Encode(p)[0..HEADER_SIZE] == Header(p) && Encode(p)[HEADER_SIZE..end] == p.table;
  }

  /** The scanner reads one encoded page and goes on right behind it. */
  lemma ScanPage(data: seq<byte>, pos: nat, p: Page)
    requires WellFormed(p) && PageAt(data, pos, p)
    ensures FindsThen(data, pos, Found(pos, p.granule), pos + |Encode(p)|)
  {
    PageParts(data, pos, p);
    PageHeaderAt(data, pos, p);
    PageStep(data, pos, p.table);
  }

  /** No capture pattern starts in the n bytes from pos on. */
  predicate Quiet(data: seq<byte>, pos: nat, n: nat) {
    forall i | pos <= i < pos + n :: !CapturesAt(data, i)
  }

  /** Bytes that do not look like a page are skipped one by one. */
  lemma {:induction false} ScanNoise(data: seq<byte>, pos: nat, n: nat)
    requires Quiet(data, pos, n) && pos + n <= |data|
    ensures Scan(data, pos) == Scan(data, pos + n)
    decreases n
  {
    if n == 0 {
    } else {
      ScanNoise(data, pos + 1, n - 1);
    }
  }

  /** A page with arbitrary bytes in front of it. */
  datatype Chunk = Chunk(noise: nat, page: Page)

  function ChunkEnd(pos: nat, c: Chunk): nat
    requires WellFormed(c.page)
  {
    pos + c.noise + |Encode(c.page)|
  }

  /**
    From offset pos on, data is a sequence of well-formed pages with the given numbers of
    bytes before each and after the last, and no capture pattern starts in those bytes.
   */
  ghost predicate StreamAt(data: seq<byte>, pos: nat, chunks: seq<Chunk>)
    decreases chunks
  {
    if chunks == [] then pos <= |data| && Quiet(data, pos, |data| - pos)
    else
      var start := pos + chunks[0].noise;
      && WellFormed(chunks[0].page)
      && Quiet(data, pos, chunks[0].noise) && PageAt(data, start, chunks[0].page)
      && StreamAt(data, ChunkEnd(pos, chunks[0]), chunks[1..])
  }

  /** The pages at their true offsets. */
  ghost function Expected(chunks: seq<Chunk>, pos: nat): seq<Found>
    requires forall i | 0 <= i < |chunks| :: WellFormed(chunks[i].page)
  {
    if chunks == [] then []
    else
      var start := pos + chunks[0].noise;
      [Found(start, chunks[0].page.granule)] + Expected(chunks[1..], ChunkEnd(pos, chunks[0]))
  }

  lemma {:induction false} StreamWellFormed(data: seq<byte>, pos: nat, chunks: seq<Chunk>)
    requires StreamAt(data, pos, chunks)
    ensures forall i | 0 <= i < |chunks| :: WellFormed(chunks[i].page)
    decreases chunks
  {
    if chunks == [] {
    } else {
      StreamWellFormed(data, ChunkEnd(pos, chunks[0]), chunks[1..]);
    }
  }

  /**
    On every concatenation of well-formed pages, with any bytes between them in which no
    capture pattern starts, the scanner stops at exactly the page boundaries.
   */
  lemma {:induction false} ScanStream(data: seq<byte>, pos: nat, chunks: seq<Chunk>)
    requires StreamAt(data, pos, chunks)
    ensures forall i | 0 <= i < |chunks| :: WellFormed(chunks[i].page)
    ensures Scan(data, pos) == Expected(chunks, pos)
    decreases chunks
  {
    StreamWellFormed(data, pos, chunks);
    if chunks == [] {
      ScanTail(data, pos);
    } else {
      ScanChunk(data, pos, chunks[0]);
      ScanStream(data, ChunkEnd(pos, chunks[0]), chunks[1..]);
    }
  }

  lemma ScanTail(data: seq<byte>, pos: nat)
    requires pos <= |data| && Quiet(data, pos, |data| - pos)
    ensures Scan(data, pos) == []
  {
    ScanNoise(data, pos, |data| - pos);
  }

  lemma NoiseThenPage(data: seq<byte>, pos: nat, noise: nat, found: Found, next: nat)
    requires Quiet(data, pos, noise) && pos + noise <= |data| && FindsThen(data, pos + noise, found, next)
    ensures FindsThen(data, pos, found, next)
  {
    ScanNoise(data, pos, noise);
  }

  lemma ScanChunk(data: seq<byte>, pos: nat, c: Chunk)
    requires WellFormed(c.page) && Quiet(data, pos, c.noise) && PageAt(data, pos + c.noise, c.page)
    ensures FindsThen(data, pos, Found(pos + c.noise, c.page.granule), ChunkEnd(pos, c))
  {
    var start := pos + c.noise;
    PageScanned(data, start, c.page, ChunkEnd(pos, c));
    NoiseThenPage(data, pos, c.noise, Found(start, c.page.granule), ChunkEnd(pos, c));
  }

  lemma PageScanned(data: seq<byte>, start: nat, p: Page, end: nat)
    requires WellFormed(p) && PageAt(data, start, p) && end == start + |Encode(p)|
    ensures FindsThen(data, start, Found(start, p.granule), end) && start <= |data|
  {
    ScanPage(data, start, p);
  }

  /** m is the largest granule position of the pages, or zero if none is positive. */
  ghost predicate IsHighestGranule(chunks: seq<Chunk>, m: int) {
    && m >= 0
    && (forall i | 0 <= i < |chunks| :: chunks[i].page.granule <= m)
    && (m > 0 ==> exists i | 0 <= i < |chunks| :: chunks[i].page.granule == m)
  }

  lemma {:induction false} ExpectedHighest(chunks: seq<Chunk>, pos: nat)
    requires forall i | 0 <= i < |chunks| :: WellFormed(chunks[i].page)
    ensures IsHighestGranule(chunks, Highest(Expected(chunks, pos)))
  {
    if chunks == [] {
    } else {
      var start := pos + chunks[0].noise;
      var rest := Expected(chunks[1..], ChunkEnd(pos, chunks[0]));
      ExpectedHighest(chunks[1..], ChunkEnd(pos, chunks[0]));
      HighestCons(Found(start, chunks[0].page.granule), rest);
    }
  }

  /** So the duration of an Ogg/Opus file is its largest granule position over 48000. */
  lemma StreamHighest(data: seq<byte>, chunks: seq<Chunk>)
    requires StreamAt(data, 0, chunks)
    ensures IsHighestGranule(chunks, HighestFrom(data, 0))
  {
    ScanStream(data, 0, chunks);
    ExpectedHighest(chunks, 0);
  }

  /** A page cut off anywhere behind its header still counts, and ends the scan. */
  lemma CutPageCounts(p: Page, k: nat)
    requires WellFormed(p) && HEADER_SIZE <= k < |Encode(p)|
    ensures Scan(Encode(p)[..k], 0) == [Found(0, p.granule)]
  {
    var data, end := Encode(p)[0..k], HEADER_SIZE + |p.table|;
    assert Encode(p)[..k] == data;
    SliceOfSlice(Encode(p), 0, k, 0, HEADER_SIZE);
    assert Encode(p)[0..HEADER_SIZE] == Header(p);
    PageHeaderAt(data, 0, p);
    if end <= k {
      SliceOfSlice(Encode(p), 0, k, HEADER_SIZE, end);
      assert Encode(p)[HEADER_SIZE..end] == p.table;
      PageStep(data, 0, p.table);
    }
  }
}
