/** The hand-built solid-colour PNG: chunks as sections 3.2 and 3.4 of RFC 2083 lay them out. */
module Png {
  import opened Text
  import opened Crc32

  type Bytes = seq<Byte>

  datatype Chunk = Chunk(name: Bytes, data: Bytes)

  const SIGNATURE: Bytes := [137, 80, 78, 71, 13, 10, 26, 10]
  const IHDR: Bytes := [73, 72, 68, 82]
  const IDAT: Bytes := [73, 68, 65, 84]
  const IEND: Bytes := [73, 69, 78, 68]

  // ---- Numbers and checksums as bytes -----------------------------------------------------------

  /** The low `k` bytes of a number, most significant first. */
  function BytesOf(n: nat, k: nat): (b: Bytes)
    ensures |b| == k
  {
    if k == 0 then [] else BytesOf(n / 256, k - 1) + [n % 256]
  }

  function NumberOf(b: Bytes): nat {
    if b == [] then 0
    else
      var last: nat := b[|b| - 1];
      NumberOf(b[..|b| - 1]) * 256 + last
  }

  /** `writeUInt32BE`. */
  function BigEndian(n: nat): (b: Bytes)
    ensures |b| == 4
  {
    BytesOf(n, 4)
  }

  function Power256(k: nat): nat {
    if k == 0 then 1 else 256 * Power256(k - 1)
  }

  lemma {:induction false} NumberRoundTrip(n: nat, k: nat)
    requires n < Power256(k)
    ensures NumberOf(BytesOf(n, k)) == n
  {
    if k > 0 {
      NumberRoundTrip(n / 256, k - 1);
      assert BytesOf(n, k)[..k - 1] == BytesOf(n / 256, k - 1);
    }
  }

  lemma BigEndianRoundTrip(n: nat)
    requires n < 0x1_0000_0000
    ensures NumberOf(BigEndian(n)) == n
  {
    assert Power256(2) == 0x1_0000 && Power256(4) == 0x1_0000_0000;
    NumberRoundTrip(n, 4);
  }

  function NibbleValue(bits: seq<bool>): (n: nat)
    requires |bits| == 4
    ensures n < 16 && Nibble(n) == bits
  {
    (if bits[0] then 1 else 0) + (if bits[1] then 2 else 0) + (if bits[2] then 4 else 0) + (if bits[3] then 8 else 0)
  }

  function ByteValue(bits: seq<bool>): (b: Byte)
    requires |bits| == 8
    ensures ByteBits(b) == bits
  {
    var low, high := NibbleValue(bits[..4]), NibbleValue(bits[4..]);
    assert bits == bits[..4] + bits[4..];
    assert (low + 16 * high) % 16 == low && (low + 16 * high) / 16 == high;
    low + 16 * high
  }

  /** The bytes of a bit string, most significant first. */
  function BitsBytes(bits: seq<bool>): (b: Bytes)
    ensures |b| == |bits| / 8
  {
    if |bits| < 8 then [] else BitsBytes(bits[8..]) + [ByteValue(bits[..8])]
  }

  /** A checksum's four bytes. */
  function WordBytes(w: Word32): (b: Bytes)
    ensures |b| == 4
  {
    BitsBytes(w)
  }

  lemma SameByteValue(a: seq<bool>, b: seq<bool>)
    requires |a| == |b| == 8 && ByteValue(a) == ByteValue(b)
    ensures a == b
  {
  }

  lemma {:induction false} BitsBytesInjective(a: seq<bool>, b: seq<bool>)
    requires |a| == |b| && |a| % 8 == 0 && BitsBytes(a) == BitsBytes(b)
    ensures a == b
  {
    if |a| >= 8 {
      var x, y := BitsBytes(a), BitsBytes(b);
      assert x[|x| - 1] == ByteValue(a[..8]) && y[|y| - 1] == ByteValue(b[..8]);
      assert x[..|x| - 1] == BitsBytes(a[8..]) && y[..|y| - 1] == BitsBytes(b[8..]);
      SameByteValue(a[..8], b[..8]);
      BitsBytesInjective(a[8..], b[8..]);
      assert a == a[..8] + a[8..] && b == b[..8] + b[8..];
    }
  }

  // ---- Chunks -----------------------------------------------------------------------------------

  predicate ValidChunk(c: Chunk) {
    |c.name| == 4 && |c.data| < 0x1_0000_0000
  }

  /** Length, type and data, then the CRC of type and data. */
  function ChunkBytes(c: Chunk): Bytes
    requires ValidChunk(c)
  {
    BigEndian(|c.data|) + (c.name + c.data) + WordBytes(Crc(c.name + c.data))
  }

  function ChunksBytes(chunks: seq<Chunk>): Bytes
    requires forall i :: 0 <= i < |chunks| ==> ValidChunk(chunks[i])
  {
    if chunks == [] then [] else ChunkBytes(chunks[0]) + ChunksBytes(chunks[1..])
  }

  /** A reader that walks the chunks one by one and refuses a short chunk or a wrong checksum. */
  function Walk(b: Bytes): Option<seq<Chunk>>
    decreases |b|
  {
    if b == [] then Some([])
    else if |b| < 12 then None
    else
      var n := NumberOf(b[..4]);
      if |b| < 12 + n then None
      else if b[8 + n..12 + n] != WordBytes(Crc(b[4..8 + n])) then None
      else
        match Walk(b[12 + n..])
        case None => None
        case Some(rest) => Some([Chunk(b[4..8], b[8..8 + n])] + rest)
  }

  function ReadPng(b: Bytes): Option<seq<Chunk>> {
    if |b| < 8 || b[..8] != SIGNATURE then None else Walk(b[8..])
  }

  /** What a walker finds at the front of one chunk's bytes, with whatever checksum they carry. */
  lemma WalkOne(length: Bytes, body: Bytes, sum: Bytes, rest: Bytes)
    requires |length| == 4 && |body| >= 4 && |sum| == 4 && NumberOf(length) == |body| - 4
    ensures Walk(length + body + sum + rest) ==
            if sum != WordBytes(Crc(body)) || Walk(rest).None? then None
            else Some([Chunk(body[..4], body[4..])] + Walk(rest).value)
  {
    var b := length + body + sum + rest;
    var n := |body| - 4;
    assert b[..4] == length && b[4..8 + n] == body && b[8 + n..12 + n] == sum && b[12 + n..] == rest;
    assert b[4..8] == body[..4] && b[8..8 + n] == body[4..];
  }

  lemma {:induction false} WalkReadsBack(chunks: seq<Chunk>)
    requires forall i :: 0 <= i < |chunks| ==> ValidChunk(chunks[i])
    ensures Walk(ChunksBytes(chunks)) == Some(chunks)
  {
    if chunks != [] {
      var c := chunks[0];
      var body := c.name + c.data;
      WalkReadsBack(chunks[1..]);
      BigEndianRoundTrip(|c.data|);
      WalkOne(BigEndian(|c.data|), body, WordBytes(Crc(body)), ChunksBytes(chunks[1..]));
      assert body[..4] == c.name && body[4..] == c.data;
      assert [c] + chunks[1..] == chunks;
    }
  }

  /** A chunk whose type or data suffered a burst of up to 32 bits is never accepted. */
  lemma DamagedChunkIsRefused(c: Chunk, damaged: Bytes, from: nat, rest: Bytes)
    requires ValidChunk(c) && damaged != c.name + c.data && WithinBurst(c.name + c.data, damaged, from)
    ensures Walk(BigEndian(|c.data|) + damaged + WordBytes(Crc(c.name + c.data)) + rest) == None
  {
    var body := c.name + c.data;
    BigEndianRoundTrip(|c.data|);
    WalkOne(BigEndian(|c.data|), damaged, WordBytes(Crc(body)), rest);
    BurstsAreDetected(body, damaged, from);
    if WordBytes(Crc(body)) == WordBytes(Crc(damaged)) {
      BitsBytesInjective(Crc(body), Crc(damaged));
    }
  }

  // ---- The image --------------------------------------------------------------------------------

  /** Storing a number in a byte buffer keeps its low eight bits. */
  function ToByte(n: int): Byte { n % 256 }

  function Header(size: nat): (b: Bytes)
    requires size < 0x1_0000_0000
    ensures |b| == 13
  {
    BigEndian(size) + BigEndian(size) + [8, 2, 0, 0, 0]
  }

  /** The header as section 4.1.1 of RFC 2083 reads it: width and height, eight bits a sample, true colour,
      and the only methods there are of compression, filtering and no interlacing. */
  lemma HeaderSays(size: nat)
    requires size < 0x1_0000_0000
    ensures NumberOf(Header(size)[..4]) == size && NumberOf(Header(size)[4..8]) == size
    ensures Header(size)[8..] == [8, 2, 0, 0, 0]
  {
    BigEndianRoundTrip(size);
    assert Header(size)[..4] == BigEndian(size) && Header(size)[4..8] == BigEndian(size);
  }

  function Letter(c: char): Byte { c as int % 256 }

  /** The signature and the chunk names are the letters of sections 3.1 and 3.2 of RFC 2083. */
  lemma NamesAreLetters()
    ensures SIGNATURE == [137, Letter('P'), Letter('N'), Letter('G'), 13, 10, 26, 10]
    ensures IHDR == [Letter('I'), Letter('H'), Letter('D'), Letter('R')]
    ensures IDAT == [Letter('I'), Letter('D'), Letter('A'), Letter('T')]
    ensures IEND == [Letter('I'), Letter('E'), Letter('N'), Letter('D')]
  {
  }

  function Stride(size: nat): nat { 1 + size * 3 }

  function Pixels(r: int, g: int, b: int, n: nat): (row: Bytes)
    ensures |row| == 3 * n
  {
    if n == 0 then [] else Pixels(r, g, b, n - 1) + [ToByte(r), ToByte(g), ToByte(b)]
  }

  /** One scan line: filter byte zero, then the pixels. */
  function ScanLine(r: int, g: int, b: int, size: nat): (line: Bytes)
    ensures |line| == Stride(size)
  {
    [0] + Pixels(r, g, b, size)
  }

  function ScanLines(r: int, g: int, b: int, size: nat, rows: nat): (raw: Bytes)
    ensures |raw| == rows * Stride(size)
  {
    if rows == 0 then [] else
      assert rows * Stride(size) == (rows - 1) * Stride(size) + Stride(size);
      ScanLines(r, g, b, size, rows - 1) + ScanLine(r, g, b, size)
  }

  method PutPixel(raw: array<Byte>, o: nat, r: int, g: int, b: int)
    requires o + 3 <= raw.Length
    modifies raw
    ensures raw[..o] == old(raw[..o]) && raw[o..o + 3] == [ToByte(r), ToByte(g), ToByte(b)]
  {
    raw[o] := ToByte(r);
    raw[o + 1] := ToByte(g);
    raw[o + 2] := ToByte(b);
  }

  /** One row of the fixture's pixel buffer, filled in place from offset `o`. */
  method FillRow(raw: array<Byte>, o: nat, r: int, g: int, b: int, size: nat)
    requires o + Stride(size) <= raw.Length
    modifies raw
    ensures raw[..o] == old(raw[..o])
    ensures raw[o..o + Stride(size)] == ScanLine(r, g, b, size)
  {
    raw[o] := 0;
    for x := 0 to size
      invariant raw[..o] == old(raw[..o])
      invariant raw[o..o + 1 + 3 * x] == [0] + Pixels(r, g, b, x)
    {
      ghost var head := raw[..o + 1 + 3 * x];
      PutPixel(raw, o + 1 + 3 * x, r, g, b);
      assert head == raw[..o + 1 + 3 * x] && head[..o] == raw[..o];
      assert raw[o..o + 1 + 3 * x] == head[o..];
      assert raw[o..o + 4 + 3 * x] == head[o..] + raw[o + 1 + 3 * x..o + 4 + 3 * x];
    }
  }

  method FillRaw(r: int, g: int, b: int, size: nat) returns (raw: array<Byte>)
    ensures fresh(raw) && raw[..] == ScanLines(r, g, b, size, size)
  {
    raw := new Byte[size * Stride(size)](i => 0);
    for y := 0 to size
      invariant y * Stride(size) <= raw.Length == size * Stride(size)
      invariant raw[..y * Stride(size)] == ScanLines(r, g, b, size, y)
    {
      var o := y * Stride(size);
      RowFits(y, size);
      FillRow(raw, o, r, g, b, size);
      assert raw[..o + Stride(size)] == raw[..o] + raw[o..o + Stride(size)];
      assert (y + 1) * Stride(size) == o + Stride(size);
    }
    assert raw[..] == raw[..size * Stride(size)];
  }

  lemma RowFits(y: nat, size: nat)
    requires y < size
    ensures y * Stride(size) + Stride(size) <= size * Stride(size)
  {
    assert (y + 1) * Stride(size) <= size * Stride(size);
  }

  function Image(r: int, g: int, b: int, size: nat, deflate: Bytes -> Bytes): seq<Chunk>
    requires size < 0x1_0000_0000
  {
    [Chunk(IHDR, Header(size)), Chunk(IDAT, deflate(ScanLines(r, g, b, size, size))), Chunk(IEND, [])]
  }

  lemma SignedRead(rest: Bytes)
    ensures ReadPng(SIGNATURE + rest) == Walk(rest)
  {
    assert (SIGNATURE + rest)[..8] == SIGNATURE && (SIGNATURE + rest)[8..] == rest;
  }

  lemma {:induction false} ChunksBytesConcat(a: seq<Chunk>, b: seq<Chunk>)
    requires forall i :: 0 <= i < |a| ==> ValidChunk(a[i])
    requires forall i :: 0 <= i < |b| ==> ValidChunk(b[i])
    ensures ChunksBytes(a + b) == ChunksBytes(a) + ChunksBytes(b)
  {
    if a == [] {
      assert a + b == b;
    } else {
      assert (a + b)[1..] == a[1..] + b;
      ChunksBytesConcat(a[1..], b);
      Assoc(ChunkBytes(a[0]), ChunksBytes(a[1..]), ChunksBytes(b));
    }
  }

  lemma ThreeChunksReadBack(a: Chunk, b: Chunk, c: Chunk)
    requires ValidChunk(a) && ValidChunk(b) && ValidChunk(c)
    ensures ReadPng(SIGNATURE + (ChunkBytes(a) + (ChunkBytes(b) + ChunkBytes(c)))) == Some([a, b, c])
  {
    WalkReadsBack([a, b, c]);
    ChunksBytesConcat([a], [b] + [c]);
    ChunksBytesConcat([b], [c]);
    SingleChunk(a);
    SingleChunk(b);
    SingleChunk(c);
    assert [a, b, c] == [a] + ([b] + [c]);
    SignedRead(ChunkBytes(a) + (ChunkBytes(b) + ChunkBytes(c)));
  }

  lemma SingleChunk(c: Chunk)
    requires ValidChunk(c)
    ensures ChunksBytes([c]) == ChunkBytes(c)
  {
    assert [c][1..] == [];
    assert ChunksBytes([c]) == ChunkBytes(c) + [];
  }

  /** `solidPng`, up to its base64 text. `deflate` is the compression library. */
  method SolidPng(r: int, g: int, b: int, size: nat, deflate: Bytes -> Bytes) returns (png: Bytes)
    requires size < 0x1_0000_0000 && |deflate(ScanLines(r, g, b, size, size))| < 0x1_0000_0000
    ensures ReadPng(png) == Some(Image(r, g, b, size, deflate))
  {
    var raw := FillRaw(r, g, b, size);
    var image := Image(r, g, b, size, deflate);
    var header := WriteChunk(IHDR, Header(size));
    var body := WriteChunk(IDAT, deflate(raw[..]));
    var end := WriteChunk(IEND, []);
    png := SIGNATURE + (header + (body + end));
    ThreeChunksReadBack(image[0], image[1], image[2]);
  }

  method WriteChunk(name: Bytes, data: Bytes) returns (b: Bytes)
    requires ValidChunk(Chunk(name, data))
    ensures b == ChunkBytes(Chunk(name, data))
  {
    var td := name + data;
    var c := ComputeCrc(td);
    b := BigEndian(|data|) + td + WordBytes(c);
  }

  // ---- What a decoder shows ---------------------------------------------------------------------

  /** The three samples of a pixel in unfiltered truecolour scan lines. */
  function PixelAt(raw: Bytes, size: nat, x: nat, y: nat): Bytes
    requires x < size && y < size && |raw| == size * Stride(size)
  {
    RowFits(y, size);
    raw[y * Stride(size) + 1 + 3 * x..y * Stride(size) + 4 + 3 * x]
  }

  lemma {:induction false} PixelsAt(r: int, g: int, b: int, n: nat, x: nat)
    requires x < n
    ensures Pixels(r, g, b, n)[3 * x..3 * x + 3] == [ToByte(r), ToByte(g), ToByte(b)]
  {
    if x < n - 1 {
      PixelsAt(r, g, b, n - 1, x);
      assert Pixels(r, g, b, n)[3 * x..3 * x + 3] == Pixels(r, g, b, n - 1)[3 * x..3 * x + 3];
    }
  }

  lemma {:induction false} LineAt(r: int, g: int, b: int, size: nat, rows: nat, y: nat)
    requires y < rows
    ensures y * Stride(size) + Stride(size) <= rows * Stride(size)
    ensures ScanLines(r, g, b, size, rows)[y * Stride(size)..y * Stride(size) + Stride(size)] == ScanLine(r, g, b, size)
  {
    assert rows * Stride(size) == (rows - 1) * Stride(size) + Stride(size);
    var all := ScanLines(r, g, b, size, rows);
    var above := ScanLines(r, g, b, size, rows - 1);
    if y < rows - 1 {
      LineAt(r, g, b, size, rows - 1, y);
      assert all[y * Stride(size)..y * Stride(size) + Stride(size)]
             == above[y * Stride(size)..y * Stride(size) + Stride(size)];
    }
  }

  lemma SliceOfSlice(s: Bytes, lo: nat, hi: nat, i: nat, j: nat)
    requires lo <= hi <= |s| && i <= j <= hi - lo
    ensures s[lo + i..lo + j] == s[lo..hi][i..j]
  {
    forall k | 0 <= k < j - i ensures s[lo + i..lo + j][k] == s[lo..hi][i..j][k] {
    }
  }

  lemma PixelInLine(raw: Bytes, o: nat, pixels: Bytes, i: nat)
    requires o + 1 + |pixels| <= |raw| && raw[o..o + 1 + |pixels|] == [0] + pixels && i + 3 <= |pixels|
    ensures raw[o + 1 + i..o + 4 + i] == pixels[i..i + 3]
  {
    SliceOfSlice(raw, o, o + 1 + |pixels|, 1 + i, 4 + i);
    assert ([0] + pixels)[1 + i..4 + i] == pixels[i..i + 3];
  }

  lemma PixelOfSolidLines(r: int, g: int, b: int, size: nat, x: nat, y: nat)
    requires x < size && y < size
    ensures PixelAt(ScanLines(r, g, b, size, size), size, x, y) == [ToByte(r), ToByte(g), ToByte(b)]
  {
    LineAt(r, g, b, size, size, y);
    PixelsAt(r, g, b, size, x);
    RowFits(y, size);
    PixelInLine(ScanLines(r, g, b, size, size), y * Stride(size), Pixels(r, g, b, size), 3 * x);
  }

  lemma HeaderSizes(size: nat)
    requires size < 0x1_0000_0000
    ensures NumberOf(Header(size)[..4]) == size && NumberOf(Header(size)[4..8]) == size
  {
    BigEndianRoundTrip(size);
    assert Header(size)[..4] == BigEndian(size) && Header(size)[4..8] == BigEndian(size);
  }

  /** With any decompressor that undoes the compressor, a reader of the file finds an unfiltered
      square of exactly the requested colour. */
  lemma EveryPixelIsTheColour(r: int, g: int, b: int, size: nat, deflate: Bytes -> Bytes, inflate: Bytes -> Bytes,
                              x: nat, y: nat)
    requires size < 0x1_0000_0000 && x < size && y < size
    requires forall raw: Bytes :: inflate(deflate(raw)) == raw
    ensures var image := Image(r, g, b, size, deflate);
            var raw := inflate(image[1].data);
            && NumberOf(image[0].data[..4]) == size && NumberOf(image[0].data[4..8]) == size
            && |raw| == size * Stride(size)
            && PixelAt(raw, size, x, y) == [ToByte(r), ToByte(g), ToByte(b)]
  {
    HeaderSizes(size);
    PixelOfSolidLines(r, g, b, size, x, y);
    assert inflate(deflate(ScanLines(r, g, b, size, size))) == ScanLines(r, g, b, size, size);
  }
}
