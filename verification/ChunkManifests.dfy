/** The text form of a content-defined manifest, and the scanner that produces manifests. */
module ChunkManifests {
  import opened Outcomes
  import opened Text
  import opened Disks
  import opened Documents
  import opened ContentChunks
  import opened Chunking

  const MAX_ENCODED_BYTES: nat := 64 * 1024 * 1024
  const FOOTER: string := "CHASH "

  type BodyDigest = string -> Bytes

  // ----- single lines -----

  function HeaderLine(h: (nat, nat)): string {
    Join(["CDC1", Decimal(h.0), Decimal(h.1)], ' ')
  }

  function ParseHeader(line: string): Option<(nat, nat)> {
    var fields := Split(line, ' ');
    if |fields| != 3 || fields[0] != "CDC1" then None else
      match (ParseCanonical(fields[1]), ParseCanonical(fields[2]))
      case (Some(size), Some(count)) => Some((size, count))
      case _ => None
  }

  predicate ValidHeader(h: (nat, nat)) {
    h.0 < U64_LIMIT && h.1 < U64_LIMIT
  }

  function ChunkLine(c: Chunk): string {
    Join(["C", Decimal(c.offset), Decimal(c.length), Hex(c.hash)], ' ')
  }

  function ParseChunkLine(line: string): Option<Chunk> {
    var fields := Split(line, ' ');
    if |fields| != 4 || fields[0] != "C" then None else
      match (ParseCanonical(fields[1]), ParseCanonical(fields[2]), DecodeHash(fields[3]))
      case (Some(offset), Some(length), Some(hash)) =>
        if length < 0x1_0000_0000 then Some(Chunk(offset, length, hash)) else None
      case _ => None
  }

  predicate ValidChunk(c: Chunk) {
    c.offset < U64_LIMIT && c.length < 0x1_0000_0000 && |c.hash| == 32
  }

  lemma FieldsWithout(n: nat, hash: Bytes)
    ensures Without(Decimal(n), ' ') && Without(Hex(hash), ' ')
    ensures Without(Decimal(n), '\n') && Without(Hex(hash), '\n')
    ensures Without(Decimal(n), '\r') && Without(Hex(hash), '\r')
  {
    DigitsAreSolid(Decimal(n));
    HexIsSolid(Hex(hash));
  }

  lemma HeaderLineExact(line: string, h: (nat, nat))
    ensures ParseHeader(line) == Some(h) <==> ValidHeader(h) && line == HeaderLine(h)
  {
    var printed, fields := ["CDC1", Decimal(h.0), Decimal(h.1)], Split(line, ' ');
    FieldsWithout(h.0, []);
    FieldsWithout(h.1, []);
    SplitIffJoin(line, ' ', printed);
    if |fields| == 3 {
      ParseCanonicalExact(fields[1], h.0);
      ParseCanonicalExact(fields[2], h.1);
      assert fields == printed <==> fields[0] == "CDC1" && fields[1] == Decimal(h.0) && fields[2] == Decimal(h.1);
    }
  }

  lemma ChunkLineExact(line: string, c: Chunk)
    ensures ParseChunkLine(line) == Some(c) <==> ValidChunk(c) && line == ChunkLine(c)
  {
    var printed, fields := ["C", Decimal(c.offset), Decimal(c.length), Hex(c.hash)], Split(line, ' ');
    FieldsWithout(c.offset, c.hash);
    FieldsWithout(c.length, []);
    SplitIffJoin(line, ' ', printed);
    if |fields| == 4 {
      ParseCanonicalExact(fields[1], c.offset);
      ParseCanonicalExact(fields[2], c.length);
      DecodeHexExact(fields[3], c.hash);
      assert fields == printed <==>
        fields[0] == "C" && fields[1] == Decimal(c.offset) && fields[2] == Decimal(c.length)
          && fields[3] == Hex(c.hash);
    }
  }

  lemma HeaderWithoutBreaks(h: (nat, nat), c: char)
    requires c == '\n' || c == '\r'
    ensures Without(HeaderLine(h), c)
  {
    FieldsWithout(h.0, []);
    FieldsWithout(h.1, []);
    JoinWithout(["CDC1", Decimal(h.0), Decimal(h.1)], c);
  }

  lemma ChunkWithoutBreaks(k: Chunk, c: char)
    requires c == '\n' || c == '\r'
    ensures Without(ChunkLine(k), c)
  {
    FieldsWithout(k.offset, k.hash);
    FieldsWithout(k.length, []);
    JoinWithout(["C", Decimal(k.offset), Decimal(k.length), Hex(k.hash)], c);
  }

  // ----- the format -----

  const HEADERS: Codec<(nat, nat)> := Codec(HeaderLine, ParseHeader, ValidHeader)
  const CHUNKS: Codec<Chunk> := Codec(ChunkLine, ParseChunkLine, ValidChunk)

  /** Not too long, and not short unless it ends the object. */
  predicate FitsLayout(c: Chunk, size: nat) {
    0 < c.length <= MAX_CHUNK_BYTES && (c.length < MIN_CHUNK_BYTES ==> c.offset + c.length == size)
  }

  /** Each chunk where the one before ended, from `expected` to `size`. */
  predicate Covering(chunks: seq<Chunk>, expected: nat, size: nat)
    decreases |chunks|
  {
    if chunks == [] then expected == size
    else chunks[0].offset == expected && FitsLayout(chunks[0], size)
         && Covering(chunks[1..], expected + chunks[0].length, size)
  }

  predicate CheckLayout(h: (nat, nat), chunks: seq<Chunk>) {
    Covering(chunks, 0, h.0) && (h.0 == 0 <==> chunks == [])
  }

  function Cdc(digest: BodyDigest): Format<(nat, nat), Chunk> {
    Format(HEADERS, CHUNKS, (h: (nat, nat)) => h.1, FOOTER, MAX_CHUNKS, MAX_ENCODED_BYTES, digest, CheckLayout)
  }

  lemma CdcIsSound(digest: BodyDigest)
    ensures Sound(Cdc(digest))
  {
    HeadersAreExact();
    ChunksAreExact();
  }

  lemma HeadersAreExact()
    ensures Exact(HEADERS)
  {
    forall line: string, h: (nat, nat)
      ensures HEADERS.parse(line) == Some(h) <==> HEADERS.valid(h) && line == HEADERS.show(h)
    {
      HeaderLineExact(line, h);
    }
    forall h: (nat, nat) ensures Without(HEADERS.show(h), '\n') && Without(HEADERS.show(h), '\r') {
      HeaderWithoutBreaks(h, '\n');
      HeaderWithoutBreaks(h, '\r');
    }
  }

  lemma ChunksAreExact()
    ensures Exact(CHUNKS)
  {
    forall line: string, c: Chunk ensures CHUNKS.parse(line) == Some(c) <==> CHUNKS.valid(c) && line == CHUNKS.show(c) {
      ChunkLineExact(line, c);
    }
    forall c: Chunk ensures Without(CHUNKS.show(c), '\n') && Without(CHUNKS.show(c), '\r') {
      ChunkWithoutBreaks(c, '\n');
      ChunkWithoutBreaks(c, '\r');
    }
  }

  /** The header line, letter by letter. */
  lemma HeaderLineIff(line: string, size: nat, count: nat)
    ensures ParseHeader(line) == Some((size, count)) <==>
            size < U64_LIMIT && count < U64_LIMIT
            && line == "CDC1" + [' '] + (Decimal(size) + [' '] + Decimal(count))
  {
    HeaderLineExact(line, (size, count));
    JoinOfThree("CDC1", Decimal(size), Decimal(count), ' ');
  }

  /** A chunk line, letter by letter: offset, length and hash. */
  lemma ChunkLineIff(line: string, c: Chunk)
    ensures ParseChunkLine(line) == Some(c) <==>
            c.offset < U64_LIMIT && c.length < 0x1_0000_0000 && |c.hash| == 32
            && line == "C" + [' '] + (Decimal(c.offset) + [' '] + (Decimal(c.length) + [' '] + Hex(c.hash)))
  {
    ChunkLineExact(line, c);
    JoinOfFour("C", Decimal(c.offset), Decimal(c.length), Hex(c.hash), ' ');
  }

  function DocumentOf(m: Manifest): Document<(nat, nat), Chunk> {
    Document((m.size, |m.chunks|), m.chunks, m.hash)
  }

  function CanonicalBody(size: nat, chunks: seq<Chunk>, digest: BodyDigest): string {
    Body(Cdc(digest), (size, |chunks|), chunks)
  }

  function EncodeManifest(m: Manifest, digest: BodyDigest): string {
    Encode(Cdc(digest), DocumentOf(m))
  }

  predicate ValidManifest(m: Manifest, digest: BodyDigest) {
    && m.size < U64_LIMIT && |m.chunks| <= MAX_CHUNKS && AllValid(CHUNKS, m.chunks)
    && Covering(m.chunks, 0, m.size)
    && |m.hash| == 32 && m.hash == digest(CanonicalBody(m.size, m.chunks, digest))
  }

  function ParseManifest(encoded: string, digest: BodyDigest): Option<Manifest> {
    match Parse(Cdc(digest), encoded)
    case None => None
    case Some(d) => Some(Manifest(d.header.0, d.items, d.hash))
  }

  /** The manifest codec is a bijection between valid manifests within the limit and accepted texts. */
  lemma ManifestExact(encoded: string, digest: BodyDigest, m: Manifest)
    ensures ParseManifest(encoded, digest) == Some(m) <==>
            ValidManifest(m, digest) && encoded == EncodeManifest(m, digest) && |encoded| <= MAX_ENCODED_BYTES
  {
    CdcIsSound(digest);
    ParseExact(Cdc(digest), encoded, DocumentOf(m));
    ValidIffDocument(m, digest);
    if Parse(Cdc(digest), encoded).Some? {
      var d := Parse(Cdc(digest), encoded).value;
      ParseExact(Cdc(digest), encoded, d);
      assert d.header == (d.header.0, |d.items|);
    }
  }

  /** The lines of a manifest. */
  ghost predicate ManifestLines(encoded: string, digest: BodyDigest, m: Manifest, lines: seq<string>) {
    var n := |m.chunks|;
    && encoded == Unlines(lines) && |lines| == n + 2
    && ParseHeader(lines[0]) == Some((m.size, n)) && n <= 1_000_000
    && (forall i :: 0 <= i < n ==> ParseChunkLine(lines[i + 1]) == Some(m.chunks[i]))
    && |m.hash| == 32 && lines[n + 1] == "CHASH " + Hex(m.hash) && m.hash == digest(Unlines(lines[..n + 1]))
  }

  lemma ManifestIsWritten(encoded: string, digest: BodyDigest, m: Manifest, lines: seq<string>)
    ensures Written(Cdc(digest), encoded, DocumentOf(m), lines) <==>
            ManifestLines(encoded, digest, m, lines) && CheckLayout((m.size, |m.chunks|), m.chunks)
  {
  }

  lemma {:induction false} CoveringIff(chunks: seq<Chunk>, size: nat)
    ensures CheckLayout((size, |chunks|), chunks) <==> Tiles(chunks, 0, size) && ChunkSizes(chunks)
  {
    if Covering(chunks, 0, size) {
      CoveringTiles(chunks, 0, size);
      forall i | 0 <= i < |chunks|
        ensures 0 < chunks[i].length <= MAX_CHUNK_BYTES
        ensures i + 1 < |chunks| ==> chunks[i].length >= MIN_CHUNK_BYTES
      {
        CoveringShape(chunks, 0, size, i);
      }
    }
    if Tiles(chunks, 0, size) && ChunkSizes(chunks) {
      TilesCover(chunks, 0, size);
      if chunks != [] { TilesForward(chunks[1..], chunks[0].length, size); }
    }
  }

  /**
    A text is accepted as a manifest if and only if it is at most 64 MiB and consists of a header line, a line for each
    chunk and a last line with the digest of all before it, and the chunks tile the object, none longer than 256 KiB
    and only the last shorter than 16 KiB.
  */
  lemma ManifestIff(encoded: string, digest: BodyDigest, m: Manifest)
    ensures ParseManifest(encoded, digest) == Some(m) <==>
            && |encoded| <= 67_108_864 && Tiles(m.chunks, 0, m.size) && ChunkSizes(m.chunks)
            && exists lines :: ManifestLines(encoded, digest, m, lines)
  {
    CdcIsSound(digest);
    ParseIff(Cdc(digest), encoded, DocumentOf(m));
    CoveringIff(m.chunks, m.size);
    forall lines ensures Written(Cdc(digest), encoded, DocumentOf(m), lines) <==>
      ManifestLines(encoded, digest, m, lines) && Tiles(m.chunks, 0, m.size) && ChunkSizes(m.chunks)
    {
      ManifestIsWritten(encoded, digest, m, lines);
    }
    ParsesAsDocument(encoded, digest, m);
  }

  lemma ParsesAsDocument(encoded: string, digest: BodyDigest, m: Manifest)
    ensures ParseManifest(encoded, digest) == Some(m) <==> Parse(Cdc(digest), encoded) == Some(DocumentOf(m))
  {
    if Parse(Cdc(digest), encoded).Some? {
      var d := Parse(Cdc(digest), encoded).value;
      CdcIsSound(digest);
      ParseExact(Cdc(digest), encoded, d);
      assert d.header == (d.header.0, |d.items|);
    }
  }

  lemma ValidIffDocument(m: Manifest, digest: BodyDigest)
    ensures ValidDocument(Cdc(digest), DocumentOf(m)) <==> ValidManifest(m, digest)
  {
    if Covering(m.chunks, 0, m.size) {
      CoveringTiles(m.chunks, 0, m.size);
      if m.chunks != [] { TileEdges(m.chunks, 0, m.size, 0); }
    }
  }

  // ----- what an accepted manifest is -----

  lemma {:induction false} CoveringTiles(chunks: seq<Chunk>, from: nat, size: nat)
    requires Covering(chunks, from, size)
    ensures Tiles(chunks, from, size)
    decreases |chunks|
  {
    if chunks != [] {
      CoveringTiles(chunks[1..], from + chunks[0].length, size);
    }
  }

  lemma {:induction false} CoveringShape(chunks: seq<Chunk>, from: nat, size: nat, i: nat)
    requires Covering(chunks, from, size) && i < |chunks|
    ensures 0 < chunks[i].length <= MAX_CHUNK_BYTES
    ensures i + 1 < |chunks| ==> chunks[i].length >= MIN_CHUNK_BYTES
    ensures chunks[i].offset + chunks[i].length <= from + (i + 1) * MAX_CHUNK_BYTES
    decreases |chunks|
  {
    if i > 0 {
      CoveringShape(chunks[1..], from + chunks[0].length, size, i - 1);
    } else if |chunks| > 1 {
      CoveringTiles(chunks, from, size);
      TileEdges(chunks, from, size, 1);
    }
  }

  lemma TotalFits(i: nat)
    requires i < MAX_CHUNKS
    ensures (i + 1) * MAX_CHUNK_BYTES <= MAX_CHUNKS * MAX_CHUNK_BYTES < U64_LIMIT
  {
  }

  /** An accepted manifest is a tiling with only the last chunk short, far from overflowing 64 bits. */
  lemma AcceptedManifestIsTiling(encoded: string, digest: BodyDigest, m: Manifest)
    requires ParseManifest(encoded, digest) == Some(m)
    ensures Tiles(m.chunks, 0, m.size) && ChunkSizes(m.chunks)
    ensures forall i :: 0 <= i < |m.chunks| ==>
      m.chunks[i].offset + m.chunks[i].length <= MAX_CHUNKS * MAX_CHUNK_BYTES < U64_LIMIT
  {
    ManifestExact(encoded, digest, m);
    CoveringTiles(m.chunks, 0, m.size);
    forall i | 0 <= i < |m.chunks|
      ensures 0 < m.chunks[i].length <= MAX_CHUNK_BYTES
      ensures i + 1 < |m.chunks| ==> m.chunks[i].length >= MIN_CHUNK_BYTES
      ensures m.chunks[i].offset + m.chunks[i].length <= MAX_CHUNKS * MAX_CHUNK_BYTES < U64_LIMIT
    {
      CoveringShape(m.chunks, 0, m.size, i);
      TotalFits(i);
    }
  }

  // ----- the parser's loop -----

  /** Where the chunks end when each is placed right after the one before. */
  function Laid(chunks: seq<Chunk>, from: nat, size: nat): Option<nat> {
    if chunks == [] then Some(from)
    else
      match Laid(chunks[..|chunks| - 1], from, size)
      case None => None
      case Some(end) =>
        var c := chunks[|chunks| - 1];
        if c.offset == end && FitsLayout(c, size) then Some(end + c.length) else None
  }

  lemma {:induction false} LaidCons(c: Chunk, rest: seq<Chunk>, from: nat, size: nat)
    ensures Laid([c] + rest, from, size)
         == if c.offset == from && FitsLayout(c, size) then Laid(rest, from + c.length, size) else None
  {
    if rest == [] {
      assert [c] + rest == [c] && [c][..0] == [];
    } else {
      var front := rest[..|rest| - 1];
      LaidCons(c, front, from, size);
      assert ([c] + rest)[..|rest|] == [c] + front;
    }
  }

  lemma {:induction false} CoveringIsLaid(chunks: seq<Chunk>, from: nat, size: nat)
    ensures Covering(chunks, from, size) <==> Laid(chunks, from, size) == Some(size)
    decreases |chunks|
  {
    if chunks != [] {
      LaidCons(chunks[0], chunks[1..], from, size);
      assert chunks == [chunks[0]] + chunks[1..];
      CoveringIsLaid(chunks[1..], from + chunks[0].length, size);
    }
  }

  lemma {:induction false} LaidPrefix(chunks: seq<Chunk>, i: nat, from: nat, size: nat)
    requires i <= |chunks| && Laid(chunks[..i], from, size).None?
    ensures Laid(chunks, from, size).None?
    decreases |chunks|
  {
    if i == |chunks| {
      assert chunks[..i] == chunks;
    } else {
      assert chunks[..|chunks| - 1][..i] == chunks[..i];
      LaidPrefix(chunks[..|chunks| - 1], i, from, size);
    }
  }

  lemma LaidNext(chunks: seq<Chunk>, c: Chunk, expected: nat, size: nat)
    requires Laid(chunks, 0, size) == Some(expected)
    ensures Laid(chunks + [c], 0, size)
         == if c.offset == expected && FitsLayout(c, size) then Some(expected + c.length) else None
  {
    assert (chunks + [c])[..|chunks|] == chunks;
  }

  /** A chunk out of place makes the whole text unacceptable. */
  lemma MisplacedChunk(lineCodec: Codec<Chunk>, lines: seq<string>, i: nat, chunks: seq<Chunk>, size: nat)
    requires i < |lines| && ParseAll(lineCodec, lines[..i + 1]) == Some(chunks) && Laid(chunks, 0, size).None?
    ensures ParseAll(lineCodec, lines).Some? ==> !Covering(ParseAll(lineCodec, lines).value, 0, size)
  {
    if ParseAll(lineCodec, lines).Some? {
      var items := ParseAll(lineCodec, lines).value;
      ParseAllPrefix(lineCodec, lines, i + 1);
      LaidPrefix(items, i + 1, 0, size);
      CoveringIsLaid(items, 0, size);
    }
  }

  /** The chunk lines, with the expected offset carried along. */
  method ReadChunks(lineCodec: Codec<Chunk>, lines: seq<string>, size: nat) returns (r: Option<seq<Chunk>>)
    requires |lines| <= MAX_CHUNKS
    ensures r == match ParseAll(lineCodec, lines)
                 case None => None
                 case Some(chunks) => if Covering(chunks, 0, size) then Some(chunks) else None
  {
    var chunks: seq<Chunk>, expected: nat := [], 0;
    var i := 0;
    while i < |lines|
      invariant 0 <= i <= |lines| && ParseAll(lineCodec, lines[..i]) == Some(chunks)
      invariant Laid(chunks, 0, size) == Some(expected) && expected <= i * MAX_CHUNK_BYTES
    {
      NextParsed(lineCodec, lines, i);
      var parsed := lineCodec.parse(lines[i]);
      if parsed.None? {
        ParseAllFails(lineCodec, lines, i);
        return None;
      }
      var c := parsed.value;
      LaidNext(chunks, c, expected, size);
      if c.offset != expected || !FitsLayout(c, size) {
        MisplacedChunk(lineCodec, lines, i, chunks + [c], size);
        return None;
      }
      TotalFits(i);
      assert expected + c.length < U64_LIMIT;
      expected := expected + c.length;
      chunks := chunks + [c];
      i := i + 1;
    }
    assert lines[..i] == lines;
    CoveringIsLaid(chunks, 0, size);
    if expected != size {
      return None;
    }
    return Some(chunks);
  }

  /** Header, chunks, footer, digest and canonical form, in terms of this format's own lines. */
  function ReadLines(lines: seq<string>, digest: BodyDigest): Option<Manifest> {
    if lines == [] then None else
      match ParseHeader(lines[0])
      case None => None
      case Some((size, count)) =>
        if count > MAX_CHUNKS || |lines| != count + 2 then None else
          match (ParseAll(CHUNKS, lines[1..count + 1]), ParseFooter(FOOTER, lines[count + 1]))
          case (Some(chunks), Some(hash)) =>
            var body := Unlines(lines[..count + 1]);
            if hash != digest(body) || !CheckLayout((size, count), chunks)
              || Body(Cdc(digest), (size, count), chunks) != body
            then None else Some(Manifest(size, chunks, hash))
          case _ => None
  }

  lemma ReadLinesIsParse(lines: seq<string>, digest: BodyDigest)
    ensures ReadLines(lines, digest) ==
            match ParseLines(Cdc(digest), lines)
            case None => None
            case Some(d) => Some(Manifest(d.header.0, d.items, d.hash))
  {
  }

  /** `cdc::parse` */
  method ReadManifest(encoded: string, digest: BodyDigest) returns (r: Option<Manifest>)
    ensures r == ParseManifest(encoded, digest)
  {
    if !WellTerminated(encoded, MAX_ENCODED_BYTES) {
      return None;
    }
    r := ReadManifestLines(Lines(encoded), digest);
    ReadLinesIsParse(Lines(encoded), digest);
  }

  method ReadManifestLines(lines: seq<string>, digest: BodyDigest) returns (r: Option<Manifest>)
    ensures r == ReadLines(lines, digest)
  {
    if lines == [] {
      return None;
    }
    var header := ParseHeader(lines[0]);
    if header.None? || header.value.1 > MAX_CHUNKS || |lines| != header.value.1 + 2 {
      return None;
    }
    var (size, count) := header.value;
    var chunks := ReadChunks(CHUNKS, lines[1..count + 1], size);
    var hash := ParseFooter(FOOTER, lines[count + 1]);
    if chunks.None? || hash.None? || (size == 0) != (chunks.value == []) {
      return None;
    }
    var body := Unlines(lines[..count + 1]);
    var canonical := PrintBody(Cdc(digest), header.value, chunks.value);
    if hash.value != digest(body) || canonical != body {
      return None;
    }
    return Some(Manifest(size, chunks.value, hash.value));
  }

  // ----- scanning and printing together -----

  const RESERVED: nat := 70

  /** `cdc::scan` on a file of `length` bytes */
  method ScanManifest(buffers: seq<Bytes>, length: nat, gear: Mixing, digest: Bytes -> Bytes, bodyDigest: BodyDigest)
    returns (r: Result<Manifest>)
    ensures r.Ok? <==> ScanAccepts(Joined(buffers), length, gear, digest, bodyDigest)
    ensures r.Ok? ==> r.value == ManifestOf(Joined(buffers), gear, digest, bodyDigest)
  {
    var scanned := Scan(buffers, gear, digest);
    if scanned.Err? || scanned.value.0 != length {
      return Err;
    }
    var (size, chunks) := scanned.value;
    var body := PrintBody(Cdc(bodyDigest), (size, |chunks|), chunks);
    if |body| + RESERVED > MAX_ENCODED_BYTES {
      return Err;
    }
    return Ok(Manifest(size, chunks, bodyDigest(body)));
  }

  /** The same with the program's mixing of bytes. */
  method ScanFile(buffers: seq<Bytes>, length: nat, digest: Bytes -> Bytes, bodyDigest: BodyDigest)
    returns (r: Result<Manifest>)
    ensures r.Ok? <==> ScanAccepts(Joined(buffers), length, Gear, digest, bodyDigest)
    ensures r.Ok? ==> r.value == ManifestOf(Joined(buffers), Gear, digest, bodyDigest)
  {
    r := ScanManifest(buffers, length, Gear, digest, bodyDigest);
  }

  function ManifestOf(content: Bytes, gear: Mixing, digest: Bytes -> Bytes, bodyDigest: BodyDigest): Manifest {
    var chunks := ChunksIn(content, CutRule(gear), digest);
    Manifest(|content|, chunks, bodyDigest(CanonicalBody(|content|, chunks, bodyDigest)))
  }

  predicate ScanAccepts(content: Bytes, length: nat, gear: Mixing, digest: Bytes -> Bytes, bodyDigest: BodyDigest) {
    var chunks := ChunksIn(content, CutRule(gear), digest);
    && |chunks| <= MAX_CHUNKS && |content| == length
    && |CanonicalBody(|content|, chunks, bodyDigest)| + RESERVED <= MAX_ENCODED_BYTES
  }

  /**
    What is scanned successfully: a file of the length it was opened with, of at most a million pieces, whose encoded
    manifest is at most one byte longer than 64 MiB.
  */
  lemma ScanAcceptsIff(content: Bytes, length: nat, gear: Mixing, digest: Bytes -> Bytes, bodyDigest: BodyDigest)
    requires (forall b :: |digest(b)| == 32) && (forall t :: |bodyDigest(t)| == 32)
    ensures ScanAccepts(content, length, gear, digest, bodyDigest) <==>
            && |content| == length && |Pieces(content, CutRule(gear))| <= 1_000_000
            && |EncodeManifest(ManifestOf(content, gear, digest, bodyDigest), bodyDigest)| <= 67_108_865
  {
    PiecesAreCut(content, CutRule(gear));
    forall i | 0 <= i < |Pieces(content, CutRule(gear))| ensures Pieces(content, CutRule(gear))[i] != [] {
      assert CutOnce(Pieces(content, CutRule(gear))[i], CutRule(gear));
    }
    ChunksOfShape(Pieces(content, CutRule(gear)), 0, digest);
    EncodedLength(ManifestOf(content, gear, digest, bodyDigest), bodyDigest);
  }

  lemma {:induction false} TilesCover(chunks: seq<Chunk>, from: nat, size: nat)
    requires Tiles(chunks, from, size) && ChunkSizes(chunks)
    ensures Covering(chunks, from, size)
    decreases |chunks|
  {
    if chunks != [] {
      TilesForward(chunks[1..], from + chunks[0].length, size);
      if |chunks| > 1 { TileEdges(chunks, from, size, 1); } else { assert chunks[1..] == []; }
      TilesCover(chunks[1..], from + chunks[0].length, size);
    }
  }

  lemma {:induction false} HashLengths(pieces: seq<Bytes>, offset: nat, digest: Bytes -> Bytes)
    requires forall b :: |digest(b)| == 32
    ensures forall i :: 0 <= i < |ChunksOf(pieces, offset, digest)| ==> |ChunksOf(pieces, offset, digest)[i].hash| == 32
  {
    if pieces != [] {
      HashLengths(pieces[1..], offset + |pieces[0]|, digest);
    }
  }

  /** What a scan yields is a valid manifest. */
  lemma ScannedIsValid(content: Bytes, gear: Mixing, digest: Bytes -> Bytes, bodyDigest: BodyDigest)
    requires |content| < U64_LIMIT && |ChunksIn(content, CutRule(gear), digest)| <= MAX_CHUNKS
    requires (forall b :: |digest(b)| == 32) && (forall t :: |bodyDigest(t)| == 32)
    ensures ValidManifest(ManifestOf(content, gear, digest, bodyDigest), bodyDigest)
  {
    ScannedChunksTile(content, gear, digest);
    HashLengths(Pieces(content, CutRule(gear)), 0, digest);
    TilingIsValid(ChunksIn(content, CutRule(gear), digest), |content|);
  }

  lemma TilingIsValid(chunks: seq<Chunk>, size: nat)
    requires Tiles(chunks, 0, size) && ChunkSizes(chunks) && size < U64_LIMIT
    requires forall i :: 0 <= i < |chunks| ==> |chunks[i].hash| == 32
    ensures Covering(chunks, 0, size) && AllValid(CHUNKS, chunks)
  {
    TilesCover(chunks, 0, size);
    forall i | 0 <= i < |chunks| ensures CHUNKS.valid(chunks[i]) {
      TileEdges(chunks, 0, size, i);
    }
  }

  /**
    The exact condition of the round trip. The scanner leaves room for 70 bytes after the body, the
    footer takes 71: what it accepts reads back if and only if 71 bytes fit, so a body of exactly the
    limit less 70 bytes is printed and then refused.
  */
  lemma ScanRoundTripIff(content: Bytes, gear: Mixing, digest: Bytes -> Bytes, bodyDigest: BodyDigest)
    requires |content| < U64_LIMIT && ScanAccepts(content, |content|, gear, digest, bodyDigest)
    requires (forall b :: |digest(b)| == 32) && (forall t :: |bodyDigest(t)| == 32)
    ensures var m := ManifestOf(content, gear, digest, bodyDigest);
            ParseManifest(EncodeManifest(m, bodyDigest), bodyDigest) == Some(m)
            <==> |CanonicalBody(m.size, m.chunks, bodyDigest)| + 71 <= MAX_ENCODED_BYTES
  {
    var m := ManifestOf(content, gear, digest, bodyDigest);
    ScannedIsValid(content, gear, digest, bodyDigest);
    ManifestExact(EncodeManifest(m, bodyDigest), bodyDigest, m);
    EncodedLength(m, bodyDigest);
  }

  lemma EncodedLength(m: Manifest, digest: BodyDigest)
    requires |m.hash| == 32
    ensures |EncodeManifest(m, digest)| == |CanonicalBody(m.size, m.chunks, digest)| + 71
  {
    assert |FOOTER| == 6;
  }
}
