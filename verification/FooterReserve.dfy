/**
  A file on which encoding a manifest and parsing it disagree: 13,076,201,472 bytes of two characters,
  whose manifest body has exactly the one length for which the scanner's reserve is a byte too small.
*/
module FooterReserve {
  import opened Outcomes
  import opened Text
  import opened Bitmaps
  import opened Disks
  import opened Documents
  import opened ContentChunks
  import opened Chunking
  import opened ChunkManifests

  // ----- the file -----

  const COMMON: Byte := 53
  const LAST: Byte := 39

  function Copies<T>(x: T, n: nat): (s: seq<T>)
    ensures |s| == n && forall i :: 0 <= i < n ==> s[i] == x
  {
    seq(n, _ => x)
  }

  /** Cut as soon as it is long enough: the last byte clears the sixteen bits the rule looks at. */
  function Short(): Bytes { Copies(COMMON, MIN_CHUNK_BYTES - 1) + [LAST] }

  /** Cut only because it is as long as a chunk may be. */
  function Long(): Bytes { Copies(COMMON, MAX_CHUNK_BYTES) }

  const SHORTS: nat := 797_452
  const LONGS: nat := 41
  const SIZE: nat := 13_076_201_472

  function Parts(): seq<Bytes> { Copies(Short(), SHORTS) + Copies(Long(), LONGS) }

  function Content(): Bytes { Joined(Parts()) }

  // ----- where it is cut -----

  /** All that matters of a mixing here: what it makes of the two characters. */
  predicate Mixes(gear: Mixing) {
    gear(COMMON) == 0xc85e_84f4_6020_6f76 && gear(LAST) == 0xce6a_57a6_e3cc_deec
  }

  lemma GearMixes()
    ensures Mixes(Gear)
  {
  }

  /** The value that rolling in the common character leaves as it is. */
  const FIXED: Word := U64_LIMIT - 0xc85e_84f4_6020_6f76

  lemma {:induction false} FixedStays(gear: Mixing, n: nat)
    requires Mixes(gear)
    ensures RollFrom(gear, FIXED, Copies(COMMON, n)) == FIXED
  {
    if n > 0 {
      FixedStays(gear, n - 1);
      assert Copies(COMMON, n)[..n - 1] == Copies(COMMON, n - 1);
    }
  }

  /** The low bits of a run of the common character are those of the fixed value, and not all zero. */
  lemma RunBits(gear: Mixing, n: nat)
    requires Mixes(gear) && n >= 16
    ensures Roll(gear, Copies(COMMON, n)) % AVERAGE_CHUNK_BYTES == FIXED % AVERAGE_CHUNK_BYTES != 0
  {
    var run, tail := Copies(COMMON, n), Copies(COMMON, 16);
    assert run[n - 16..] == tail && tail[|tail| - 16..] == tail;
    LowBitsAreLocal(gear, run, tail);
    LowBitsForget(gear, 0, FIXED, tail);
    FixedStays(gear, 16);
    Pow2Of16();
  }

  /** Agreement on sixteen bits survives one more byte. */
  lemma LowBitsStep(x: Word, y: Word, g: Word)
    requires x % AVERAGE_CHUNK_BYTES == y % AVERAGE_CHUNK_BYTES
    ensures ((2 * x + g) % U64_LIMIT) % AVERAGE_CHUNK_BYTES == ((2 * y + g) % U64_LIMIT) % AVERAGE_CHUNK_BYTES
  {
    Pow2Of16();
    RollInForgets(x, y, g, 16);
    LowBits((2 * x + g) % U64_LIMIT, (2 * y + g) % U64_LIMIT);
  }

  lemma LowBits(x: nat, y: nat)
    requires x % Pow2(17) == y % Pow2(17)
    ensures x % AVERAGE_CHUNK_BYTES == y % AVERAGE_CHUNK_BYTES
  {
    Pow2Of16();
    assert Pow2(17) == AVERAGE_CHUNK_BYTES * 2;
    ModMod(x, AVERAGE_CHUNK_BYTES, 2);
    ModMod(y, AVERAGE_CHUNK_BYTES, 2);
  }

  /** One last character after such a run clears them. */
  lemma LastClears(r: Word)
    requires r % AVERAGE_CHUNK_BYTES == FIXED % AVERAGE_CHUNK_BYTES
    ensures ((2 * r + 0xce6a_57a6_e3cc_deec) % U64_LIMIT) % AVERAGE_CHUNK_BYTES == 0
  {
    LowBitsStep(r, FIXED, 0xce6a_57a6_e3cc_deec);
    LastClearsFixed();
  }

  lemma LastClearsFixed()
    ensures ((2 * FIXED + 0xce6a_57a6_e3cc_deec) % U64_LIMIT) % AVERAGE_CHUNK_BYTES == 0
  {
  }

  lemma ShortRoll(gear: Mixing)
    requires Mixes(gear)
    ensures Roll(gear, Short()) % AVERAGE_CHUNK_BYTES == 0
  {
    var run := Copies(COMMON, MIN_CHUNK_BYTES - 1);
    assert Short()[..|Short()| - 1] == run;
    RunBits(gear, MIN_CHUNK_BYTES - 1);
    LastClears(Roll(gear, run));
  }

  /** The rule ends the piece where it ends and nowhere before. */
  ghost predicate Whole(piece: Bytes, rule: Rule) {
    piece != [] && rule(piece) && forall i :: 1 <= i < |piece| ==> !Ends(piece, rule, i)
  }

  lemma ShortIsWhole(gear: Mixing, rule: Rule)
    requires Mixes(gear) && Decides(gear, rule)
    ensures Whole(Short(), rule)
  {
    ShortRoll(gear);
    assert DecidesAt(gear, rule, Short());
    forall i | 1 <= i < MIN_CHUNK_BYTES ensures !Ends(Short(), rule, i) {
      assert DecidesAt(gear, rule, Short()[..i]);
    }
  }

  lemma LongStaysOpen(gear: Mixing, rule: Rule, i: nat)
    requires Mixes(gear) && Decides(gear, rule) && 1 <= i < MAX_CHUNK_BYTES
    ensures !Ends(Long(), rule, i)
  {
    var run := Copies(COMMON, i);
    assert Long()[..i] == run;
    assert DecidesAt(gear, rule, run);
    if i >= MIN_CHUNK_BYTES {
      RunBits(gear, i);
    }
  }

  lemma LongIsWhole(gear: Mixing, rule: Rule)
    requires Mixes(gear) && Decides(gear, rule)
    ensures Whole(Long(), rule)
  {
    assert DecidesAt(gear, rule, Long());
    forall i | 1 <= i < MAX_CHUNK_BYTES ensures !Ends(Long(), rule, i) {
      LongStaysOpen(gear, rule, i);
    }
  }

  lemma {:induction false} WholePieces(parts: seq<Bytes>, rule: Rule)
    requires forall i :: 0 <= i < |parts| ==> Whole(parts[i], rule)
    ensures Pieces(Joined(parts), rule) == parts
    decreases |parts|
  {
    if parts != [] {
      var s, n := Joined(parts), |parts[0]|;
      WholePieces(parts[1..], rule);
      assert parts[0][..n] == parts[0] && s[..n] == parts[0] && s[n..] == Joined(parts[1..]);
      EndsAgree(parts[0], Joined(parts[1..]), rule);
      CutLengthIs(s, rule, 1, n);
      assert parts == [parts[0]] + parts[1..];
    }
  }

  lemma ContentPieces(gear: Mixing, rule: Rule)
    requires Mixes(gear) && Decides(gear, rule)
    ensures Pieces(Content(), rule) == Parts()
  {
    ShortIsWhole(gear, rule);
    LongIsWhole(gear, rule);
    TwoPieces(Short(), SHORTS, Long(), LONGS, rule);
  }

  lemma TwoPieces(a: Bytes, n: nat, b: Bytes, m: nat, rule: Rule)
    requires Whole(a, rule) && Whole(b, rule)
    ensures Pieces(Joined(Copies(a, n) + Copies(b, m)), rule) == Copies(a, n) + Copies(b, m)
  {
    WholePieces(Copies(a, n) + Copies(b, m), rule);
  }

  // ----- how long its manifest is -----

  lemma {:induction false} DecimalExactLength(n: nat, digits: nat)
    requires digits > 0 && (digits == 1 || Pow10(digits - 1) <= n) && n < Pow10(digits)
    ensures |Decimal(n)| == digits
  {
    if n >= 10 {
      assert digits > 1;
      DecimalExactLength(n / 10, digits - 1);
    }
  }

  lemma FourFieldsLength(a: string, b: string, c: string, d: string)
    ensures |Join([a, b, c, d], ' ')| == |a| + |b| + |c| + |d| + 3
  {
    assert [c, d][1..] == [d] && |Join([c, d], ' ')| == |c| + |d| + 1;
    assert [b, c, d][1..] == [c, d] && |Join([b, c, d], ' ')| == |b| + |Join([c, d], ' ')| + 1;
    assert [a, b, c, d][1..] == [b, c, d];
  }

  lemma ChunkLineLength(c: Chunk)
    requires |c.hash| == 32
    ensures |ChunkLine(c)| == 68 + |Decimal(c.offset)| + |Decimal(c.length)|
  {
    FourFieldsLength("C", Decimal(c.offset), Decimal(c.length), Hex(c.hash));
  }

  lemma PrintedHead<T>(codec: Codec<T>, x: T, rest: seq<T>)
    ensures |Unlines(PrintAll(codec, [x] + rest))| == |codec.show(x)| + 1 + |Unlines(PrintAll(codec, rest))|
  {
    var line, lines := codec.show(x), PrintAll(codec, rest);
    assert PrintAll(codec, [x] + rest) == [line] + lines;
    assert ([line] + lines)[1..] == lines;
  }

  /** The length of the lines for the pieces, when the first begins at `offset`. */
  function Width(pieces: seq<Bytes>, offset: nat): nat {
    if pieces == [] then 0
    else 69 + |Decimal(offset)| + |Decimal(|pieces[0]|)| + Width(pieces[1..], offset + |pieces[0]|)
  }

  lemma {:induction false} PrintedWidth(codec: Codec<Chunk>, pieces: seq<Bytes>, offset: nat, digest: Bytes -> Bytes)
    requires (forall c: Chunk :: codec.show(c) == ChunkLine(c)) && (forall b :: |digest(b)| == 32)
    ensures |Unlines(PrintAll(codec, ChunksOf(pieces, offset, digest)))| == Width(pieces, offset)
    decreases |pieces|
  {
    if pieces != [] {
      var next := offset + |pieces[0]|;
      var c := Chunk(offset, |pieces[0]|, digest(pieces[0]));
      PrintedWidth(codec, pieces[1..], next, digest);
      PrintedHead(codec, c, ChunksOf(pieces[1..], next, digest));
      assert codec.show(c) == ChunkLine(c);
      ChunkLineLength(c);
    }
  }

  /** Offsets from `offset` on, `step` apart and below `end`, print in that many digits. */
  predicate Spans(offset: nat, end: nat, step: nat, digits: nat) {
    digits > 0 && (digits == 1 || Pow10(digits - 1) <= offset) && end < Pow10(digits) + step
  }

  function Times(n: nat, a: nat): nat {
    if n == 0 then 0 else a + Times(n - 1, a)
  }

  lemma {:induction false} TimesIsProduct(n: nat, a: nat)
    ensures Times(n, a) == n * a
  {
    if n > 0 {
      TimesIsProduct(n - 1, a);
      assert n * a == (n - 1) * a + a;
    }
  }

  /** The first `n` pieces have that length. */
  predicate Equal(pieces: seq<Bytes>, n: nat, step: nat) {
    n <= |pieces| && forall i :: 0 <= i < n ==> |pieces[i]| == step
  }

  lemma EqualRest(pieces: seq<Bytes>, n: nat, m: nat, step: nat)
    requires Equal(pieces, n + m, step)
    ensures Equal(pieces, n, step) && Equal(pieces[n..], m, step) && pieces[n..][m..] == pieces[n + m..]
  {
  }

  lemma FirstWidth(pieces: seq<Bytes>, step: nat, offset: nat, end: nat, digits: nat, line: nat)
    requires pieces != [] && |pieces[0]| == step && offset + step <= end && Spans(offset, end, step, digits)
    requires line == 69 + digits + |Decimal(step)|
    ensures Width(pieces, offset) == line + Width(pieces[1..], offset + step) && Spans(offset + step, end, step, digits)
  {
    DecimalExactLength(offset, digits);
  }

  lemma FirstOff(pieces: seq<Bytes>, n: nat, step: nat)
    requires n > 0 && Equal(pieces, n, step)
    ensures pieces != [] && |pieces[0]| == step && Equal(pieces[1..], n - 1, step)
            && pieces[1..][n - 1..] == pieces[n..]
  {
  }

  lemma TimesNext(n: nat, a: nat)
    requires n > 0
    ensures Times(n, a) == a + Times(n - 1, a)
  {
  }

  /** `n` pieces of one length whose offsets have equally many digits, and what follows them. */
  lemma {:induction false} EqualWidth(pieces: seq<Bytes>, n: nat, step: nat, offset: nat, end: nat, digits: nat,
                                      line: nat)
    requires Equal(pieces, n, step) && end == offset + Times(n, step) && Spans(offset, end, step, digits)
    requires line == 69 + digits + |Decimal(step)|
    ensures Width(pieces, offset) == Times(n, line) + Width(pieces[n..], end)
    decreases n
  {
    if n == 0 {
      assert pieces[0..] == pieces;
    } else {
      FirstOff(pieces, n, step);
      TimesNext(n, step);
      TimesNext(n, line);
      FirstWidth(pieces, step, offset, end, digits, line);
      EqualWidth(pieces[1..], n - 1, step, offset + step, end, digits, line);
    }
  }

  /** Stretches of equal pieces: how many, where they end, the digits of their offsets and the width of their lines. */
  datatype Stretches = Done | Stretch(more: nat, end: nat, digits: nat, line: nat, rest: Stretches)

  function Count(stretches: Stretches): nat {
    match stretches
    case Done => 0
    case Stretch(more, _, _, _, rest) => more + Count(rest)
  }

  function TotalWidth(stretches: Stretches): nat {
    match stretches
    case Done => 0
    case Stretch(more, _, _, line, rest) => more * line + TotalWidth(rest)
  }

  function EndOf(stretches: Stretches, offset: nat): nat {
    match stretches
    case Done => offset
    case Stretch(_, end, _, _, rest) => EndOf(rest, end)
  }

  /** The stretches say the truth about pieces of length `step`, printed in `length` digits. */
  predicate Follow(stretches: Stretches, offset: nat, step: nat, length: nat) {
    stretches.Stretch? ==>
      && stretches.end == offset + stretches.more * step && Spans(offset, stretches.end, step, stretches.digits)
      && stretches.line == 69 + stretches.digits + length && Follow(stretches.rest, stretches.end, step, length)
  }

  lemma {:induction false} StretchesWidth(pieces: seq<Bytes>, stretches: Stretches, step: nat, offset: nat)
    requires Equal(pieces, Count(stretches), step) && Follow(stretches, offset, step, |Decimal(step)|)
    ensures Width(pieces, offset) == TotalWidth(stretches) + Width(pieces[Count(stretches)..], EndOf(stretches, offset))
    decreases stretches
  {
    match stretches
    case Done =>
      assert pieces[0..] == pieces;
    case Stretch(more, end, digits, line, later) =>
      EqualRest(pieces, more, Count(later), step);
      TimesIsProduct(more, step);
      TimesIsProduct(more, line);
      EqualWidth(pieces, more, step, offset, end, digits, line);
      StretchesWidth(pieces[more..], later, step, end);
  }

  /** How many short pieces have offsets of how many digits. */
  const STRETCHES: Stretches :=
    Stretch(1, 16_384, 1, 75, Stretch(6, 114_688, 5, 79, Stretch(55, 1_015_808, 6, 80, Stretch(549, 10_010_624, 7, 81,
    Stretch(5_493, 100_007_936, 8, 82, Stretch(54_932, 1_000_013_824, 9, 83, Stretch(549_316, 10_000_007_168, 10, 84,
    Stretch(187_100, 13_065_453_568, 11, 85, Done))))))))

  const LAST_STRETCH: Stretches := Stretch(41, SIZE, 11, 86, Done)

  lemma StretchesAreRight() returns (stretches: Stretches, last: Stretches)
    ensures Follow(stretches, 0, MIN_CHUNK_BYTES, 5) && Count(stretches) == SHORTS
            && TotalWidth(stretches) == 67_105_244
    ensures Follow(last, EndOf(stretches, 0), MAX_CHUNK_BYTES, 6) && Count(last) == LONGS && TotalWidth(last) == 3_526
  {
    stretches, last := STRETCHES, LAST_STRETCH;
  }

  lemma NumberLengths()
    ensures |Decimal(MIN_CHUNK_BYTES)| == 5 && |Decimal(MAX_CHUNK_BYTES)| == 6
    ensures |Decimal(SIZE)| == 11 && |Decimal(SHORTS + LONGS)| == 6
  {
    assert Pow10(4) == 10_000 && Pow10(5) == 100_000 && Pow10(6) == 1_000_000;
    assert Pow10(10) == 10_000_000_000 && Pow10(11) == 100_000_000_000;
    DecimalExactLength(MIN_CHUNK_BYTES, 5);
    DecimalExactLength(MAX_CHUNK_BYTES, 6);
    DecimalExactLength(SIZE, 11);
    DecimalExactLength(SHORTS + LONGS, 6);
  }

  lemma {:induction false} CopiesJoined(piece: Bytes, n: nat)
    ensures |Joined(Copies(piece, n))| == n * |piece|
  {
    if n > 0 {
      CopiesJoined(piece, n - 1);
      assert Copies(piece, n)[1..] == Copies(piece, n - 1);
    }
  }

  lemma TwoStretchesJoined(a: Bytes, n: nat, b: Bytes, m: nat)
    ensures |Joined(Copies(a, n) + Copies(b, m))| == n * |a| + m * |b|
  {
    JoinedConcat(Copies(a, n), Copies(b, m));
    CopiesJoined(a, n);
    CopiesJoined(b, m);
  }

  lemma TwoStretchesWidth(a: Bytes, n: nat, b: Bytes, m: nat, stretches: Stretches, last: Stretches)
    requires Follow(stretches, 0, |a|, |Decimal(|a|)|) && n == Count(stretches)
    requires Follow(last, EndOf(stretches, 0), |b|, |Decimal(|b|)|) && m == Count(last)
    ensures Width(Copies(a, n) + Copies(b, m), 0) == TotalWidth(stretches) + TotalWidth(last)
  {
    var pieces := Copies(a, n) + Copies(b, m);
    StretchesWidth(pieces, stretches, |a|, 0);
    assert pieces[n..] == Copies(b, m) && Copies(b, m)[m..] == [];
    StretchesWidth(Copies(b, m), last, |b|, EndOf(stretches, 0));
  }

  lemma HeaderLength()
    ensures |HeaderLine((SIZE, SHORTS + LONGS))| == 23
  {
    NumberLengths();
    var a, b := Decimal(SIZE), Decimal(SHORTS + LONGS);
    assert [a, b][1..] == [b] && |Join([a, b], ' ')| == 18;
    assert ["CDC1", a, b][1..] == [a, b];
  }

  lemma BodyLength(size: nat, pieces: seq<Bytes>, digest: Bytes -> Bytes, bodyDigest: BodyDigest)
    requires forall b :: |digest(b)| == 32
    ensures var chunks := ChunksOf(pieces, 0, digest);
            |CanonicalBody(size, chunks, bodyDigest)| == |HeaderLine((size, |chunks|))| + 1 + Width(pieces, 0)
  {
    var chunks := ChunksOf(pieces, 0, digest);
    var line, lines := HeaderLine((size, |chunks|)), PrintAll(CHUNKS, chunks);
    assert HEADERS.show((size, |chunks|)) == line;
    assert ([line] + lines)[1..] == lines;
    PrintedWidth(CHUNKS, pieces, 0, digest);
  }

  /** What does not fit is not read back, as that or as anything else. */
  lemma OverLimit(m: Manifest, bodyDigest: BodyDigest)
    requires |m.hash| == 32 && |CanonicalBody(m.size, m.chunks, bodyDigest)| + 71 > MAX_ENCODED_BYTES
    ensures ParseManifest(EncodeManifest(m, bodyDigest), bodyDigest).None?
  {
    EncodedLength(m, bodyDigest);
    var encoded := EncodeManifest(m, bodyDigest);
    if ParseManifest(encoded, bodyDigest).Some? {
      ManifestExact(encoded, bodyDigest, ParseManifest(encoded, bodyDigest).value);
    }
  }

  lemma PartsMeasured(parts: seq<Bytes>)
    requires parts == Parts()
    ensures |Joined(parts)| == SIZE && |parts| == SHORTS + LONGS && Width(parts, 0) == 67_108_770
    ensures forall i :: 0 <= i < |parts| ==> parts[i] != []
  {
    var stretches, last := StretchesAreRight();
    NumberLengths();
    TwoStretchesJoined(Short(), SHORTS, Long(), LONGS);
    TwoStretchesWidth(Short(), SHORTS, Long(), LONGS, stretches, last);
  }

  lemma ContentPrinted(parts: seq<Bytes>, digest: Bytes -> Bytes, bodyDigest: BodyDigest)
    requires |parts| == SHORTS + LONGS && Width(parts, 0) == 67_108_770
    requires (forall i :: 0 <= i < |parts| ==> parts[i] != []) && forall b :: |digest(b)| == 32
    ensures |ChunksOf(parts, 0, digest)| == SHORTS + LONGS
    ensures |CanonicalBody(SIZE, ChunksOf(parts, 0, digest), bodyDigest)| + RESERVED == MAX_ENCODED_BYTES
  {
    ChunksOfShape(parts, 0, digest);
    HeaderLength();
    BodyLength(SIZE, parts, digest, bodyDigest);
  }

  lemma EncodedThenRefusedBy(content: Bytes, parts: seq<Bytes>, gear: Mixing, digest: Bytes -> Bytes,
                             bodyDigest: BodyDigest)
    requires parts == Parts() && content == Content() && Mixes(gear)
    requires (forall b :: |digest(b)| == 32) && (forall t :: |bodyDigest(t)| == 32)
    ensures |content| == SIZE && ScanAccepts(content, SIZE, gear, digest, bodyDigest)
    ensures var m := ManifestOf(content, gear, digest, bodyDigest);
            ParseManifest(EncodeManifest(m, bodyDigest), bodyDigest).None?
  {
    CutRuleDecides(gear);
    ContentPieces(gear, CutRule(gear));
    PartsMeasured(parts);
    ContentPrinted(parts, digest, bodyDigest);
    OverLimit(ManifestOf(content, gear, digest, bodyDigest), bodyDigest);
  }

  /**
    For any hashes of 32 bytes, the program scans this file and encodes its manifest, and refuses to
    parse what it has encoded.
  */
  lemma EncodedThenRefused(digest: Bytes -> Bytes, bodyDigest: BodyDigest)
    requires (forall b :: |digest(b)| == 32) && (forall t :: |bodyDigest(t)| == 32)
    ensures |Content()| == SIZE && ScanAccepts(Content(), SIZE, Gear, digest, bodyDigest)
    ensures var m := ManifestOf(Content(), Gear, digest, bodyDigest);
            ParseManifest(EncodeManifest(m, bodyDigest), bodyDigest).None?
  {
    GearMixes();
    EncodedThenRefusedBy(Content(), Parts(), Gear, digest, bodyDigest);
  }
}
