/** The durable receipt map: its file format, and when `load_map` trusts a file. */
module ResumeMaps {
  import opened Outcomes
  import opened Text
  import opened Bitmaps
  import opened Layouts
  import opened Disks

  const MAGIC: seq<Byte> := [84, 83, 85, 77, 65, 80, 52, 0]  // "TSUMAP4\0"
  const HEADER_LEN: nat := 64

  /** What identifies an object across sessions. */
  datatype Key = Key(layout: Layout, hash: Bytes)

  ghost predicate ValidKey(k: Key) {
    ValidLayout(k.layout) && |k.hash| == 32
  }

  function Header(k: Key): (h: Bytes)
    requires |k.hash| == 32
    ensures |h| == HEADER_LEN
  {
    MAGIC + BigEndian(k.layout.size, 8) + BigEndian(k.layout.chunks, 8) + BigEndian(k.layout.payload, 8) + k.hash
  }

  /** `word.to_be_bytes()` */
  function WordBytes(w: Word): (bytes: Bytes)
    ensures |bytes| == 8
  {
    BigEndian(w, 8)
  }

  function EncodeWords(words: seq<Word>): (bytes: Bytes)
    ensures |bytes| == 8 * |words|
  {
    if words == [] then [] else EncodeWords(words[..|words| - 1]) + WordBytes(words[|words| - 1])
  }

  function DecodeWords(bytes: Bytes): (words: seq<Word>)
    requires |bytes| % 8 == 0
    ensures |words| == |bytes| / 8
  {
    if bytes == [] then [] else
      BigEndianOf(bytes[|bytes| - 8..]);
      Pow256Of8();
      DecodeWords(bytes[..|bytes| - 8]) + [FromBigEndian(bytes[|bytes| - 8..])]
  }

  lemma {:induction false} DecodeWordsOfEncode(words: seq<Word>)
    ensures DecodeWords(EncodeWords(words)) == words
  {
    if words != [] {
      var front, last := words[..|words| - 1], words[|words| - 1];
      var bytes := EncodeWords(words);
      assert bytes[..|bytes| - 8] == EncodeWords(front) && bytes[|bytes| - 8..] == WordBytes(last);
      DecodeWordsOfEncode(front);
      Pow256Of8();
      FromBigEndianOf(last, 8);
      assert words == front + [last];
    }
  }

  lemma {:induction false} EncodeWordsOfDecode(bytes: Bytes)
    requires |bytes| % 8 == 0
    ensures EncodeWords(DecodeWords(bytes)) == bytes
  {
    if bytes != [] {
      var front, last := bytes[..|bytes| - 8], bytes[|bytes| - 8..];
      EncodeWordsOfDecode(front);
      BigEndianOf(last);
      var words := DecodeWords(bytes);
      assert words[..|words| - 1] == DecodeWords(front);
      assert bytes == front + last;
    }
  }

  /** The bytes `checkpoint` writes. */
  function EncodeMap(k: Key, bitmap: seq<Word>): Bytes
    requires |k.hash| == 32
  {
    Header(k) + EncodeWords(bitmap)
  }

  lemma EightDivides(n: nat, words: nat)
    requires n == 8 * words
    ensures n % 8 == 0 && n / 8 == words
  {
  }

  /** What `load_map` makes of a map file: the recorded bitmap, or nothing it trusts. */
  function LoadMap(content: Bytes, k: Key): Option<seq<Word>>
    requires |k.hash| == 32
  {
    if |content| != HEADER_LEN + 8 * WordsFor(k.layout.chunks) then None
    else if content[..HEADER_LEN] != Header(k) then None
    else
      var body := content[HEADER_LEN..];
      assert |body| == 8 * WordsFor(k.layout.chunks);
      EightDivides(|body|, WordsFor(k.layout.chunks));
      var bitmap := DecodeWords(body);
      if TailClear(bitmap, k.layout.chunks) then Some(bitmap) else None
  }

  lemma LoadedIsEncoded(content: Bytes, k: Key, bitmap: seq<Word>)
    requires |k.hash| == 32 && LoadMap(content, k) == Some(bitmap)
    ensures Fits(bitmap, k.layout.chunks) && content == EncodeMap(k, bitmap)
  {
    EncodeWordsOfDecode(content[HEADER_LEN..]);
    assert content == content[..HEADER_LEN] + content[HEADER_LEN..];
    TailClearIffFits(bitmap, k.layout.chunks);
  }

  lemma EncodedIsLoaded(k: Key, bitmap: seq<Word>)
    requires |k.hash| == 32 && Fits(bitmap, k.layout.chunks)
    ensures LoadMap(EncodeMap(k, bitmap), k) == Some(bitmap)
  {
    var content := EncodeMap(k, bitmap);
    assert content[..HEADER_LEN] == Header(k) && content[HEADER_LEN..] == EncodeWords(bitmap);
    DecodeWordsOfEncode(bitmap);
    TailClearIffFits(bitmap, k.layout.chunks);
  }

  /** `load_map` trusts exactly the files `checkpoint` writes for this object. */
  lemma LoadMapExact(content: Bytes, k: Key, bitmap: seq<Word>)
    requires |k.hash| == 32
    ensures LoadMap(content, k) == Some(bitmap) <==> Fits(bitmap, k.layout.chunks) && content == EncodeMap(k, bitmap)
  {
    if LoadMap(content, k) == Some(bitmap) {
      LoadedIsEncoded(content, k, bitmap);
    }
    if Fits(bitmap, k.layout.chunks) {
      EncodedIsLoaded(k, bitmap);
    }
  }

  lemma HeaderParts(k: Key)
    requires |k.hash| == 32
    ensures Header(k)[..8] == MAGIC
    ensures Header(k)[8..16] == BigEndian(k.layout.size, 8)
    ensures Header(k)[16..24] == BigEndian(k.layout.chunks, 8)
    ensures Header(k)[24..32] == BigEndian(k.layout.payload, 8)
    ensures Header(k)[32..64] == k.hash
  {
  }

  lemma SizesFit(l: Layout)
    requires ValidLayout(l)
    ensures l.size < Pow256(8) && l.chunks < Pow256(8) && l.payload < Pow256(8)
  {
    Pow256Of8();
    LastEdge(l);
    assert l.size <= l.chunks * l.payload;
    Product(l.chunks, l.payload, MAX_CHUNKS, 1424);
  }

  lemma HalfOf(w: nat, q: nat, half: nat, r: nat)
    requires w == q * (2 * half) + r
    ensures w / 2 == q * half + r / 2 && w % 2 == r % 2
  {
    assert q * (2 * half) == 2 * (q * half);
  }

  lemma LowBitsStep(w: nat, half: nat)
    requires half > 0
    ensures w % (2 * half) / 2 == w / 2 % half && w % (2 * half) % 2 == w % 2
  {
    var q, r := Divided(w, 2 * half);
    HalfOf(w, q, half, r);
    RemainderIs(w / 2, half, q, r / 2);
  }

  lemma {:induction false} LowBits(w: nat, m: nat, n: nat)
    requires m < n
    ensures WordBit(w % Pow2(n), m) <==> WordBit(w, m)
  {
    LowBitsStep(w, Pow2(n - 1));
    if m > 0 { LowBits(w / 2, m - 1, n - 1); }
  }

  lemma ByteBit(w: nat, m: nat)
    requires m < 8
    ensures WordBit(w % 256, m) <==> WordBit(w, m)
  {
    LowBits(w, m, 8);
    assert Pow2(8) == 256;
  }

  lemma HigherByTwo(w: nat, m: nat)
    ensures WordBit(w, m + 2) <==> WordBit(w / 4, m)
  {
    assert WordBit(w, m + 2) <==> WordBit(w / 2, m + 1);
  }

  lemma HigherByEight(w: nat, m: nat)
    ensures WordBit(w, m + 8) <==> WordBit(w / 256, m)
  {
    HigherByTwo(w, m + 6);
    HigherByTwo(w / 4, m + 4);
    HigherByTwo(w / 16, m + 2);
    HigherByTwo(w / 64, m);
  }

  /** Counted from the end, byte `j` of a big-endian number holds its bits from `8 j` on. */
  lemma {:induction false} BigEndianBit(n: nat, count: nat, j: nat, m: nat)
    requires j < count && m < 8
    ensures WordBit(BigEndian(n, count)[count - 1 - j], m) <==> WordBit(n, 8 * j + m)
  {
    if j == 0 {
      ByteBit(n, m);
    } else {
      BigEndianBit(n / 256, count - 1, j - 1, m);
      HigherByEight(n, 8 * (j - 1) + m);
    }
  }

  lemma Appended(a: Bytes, b: Bytes)
    ensures (a + b)[..|a|] == a && (a + b)[|a|..|a| + |b|] == b
  {
  }

  lemma EncodeLastWord(front: seq<Word>, last: Word)
    ensures EncodeWords(front + [last]) == EncodeWords(front) + WordBytes(last)
  {
    assert (front + [last])[..|front|] == front;
  }

  lemma {:induction false} EncodedWord(words: seq<Word>, i: nat)
    requires i < |words|
    ensures EncodeWords(words)[8 * i..8 * i + 8] == WordBytes(words[i])
  {
    var n := |words| - 1;
    var front, last := words[..n], words[n];
    assert words == front + [last];
    EncodeLastWord(front, last);
    Appended(EncodeWords(front), WordBytes(last));
    if i < n {
      EncodedWord(front, i);
      SliceOfFront(EncodeWords(front), WordBytes(last), 8 * i);
    }
  }

  lemma SliceOfFront(a: Bytes, b: Bytes, i: nat)
    requires i + 8 <= |a|
    ensures (a + b)[i..i + 8] == a[i..i + 8]
  {
  }

  lemma MapByte(k: Key, bitmap: seq<Word>, i: nat, j: nat)
    requires |k.hash| == 32 && i < |bitmap| && j < 8
    ensures |EncodeMap(k, bitmap)| == 64 + 8 * |bitmap|
    ensures EncodeMap(k, bitmap)[64 + 8 * i + j] == WordBytes(bitmap[i])[j]
  {
    EncodedWord(bitmap, i);
    assert EncodeMap(k, bitmap)[64 + 8 * i + j] == EncodeWords(bitmap)[8 * i + j];
    assert EncodeWords(bitmap)[8 * i + j] == EncodeWords(bitmap)[8 * i..8 * i + 8][j];
  }

  lemma MapBit(k: Key, bitmap: seq<Word>, i: nat, j: nat, m: nat)
    requires |k.hash| == 32 && i < |bitmap| && j < 8 && m < 8
    ensures |EncodeMap(k, bitmap)| == 64 + 8 * |bitmap|
    ensures WordBit(EncodeMap(k, bitmap)[64 + 8 * i + (7 - j)], m) <==> WordBit(bitmap[i], 8 * j + m)
  {
    MapByte(k, bitmap, i, 7 - j);
    BigEndianBit(bitmap[i], 8, j, m);
  }

  /** A map file begins with a magic number and the object's size, number of chunks, payload and hash. */
  lemma MapFileHeader(k: Key, bitmap: seq<Word>)
    requires |k.hash| == 32
    ensures var f := EncodeMap(k, bitmap);
            && |f| == 64 + 8 * |bitmap|
            && f[..8] == [84, 83, 85, 77, 65, 80, 52, 0] && f[8..16] == BigEndian(k.layout.size, 8)
            && f[16..24] == BigEndian(k.layout.chunks, 8) && f[24..32] == BigEndian(k.layout.payload, 8)
            && f[32..64] == k.hash
  {
    HeaderParts(k);
    HeaderInMap(k, bitmap);
  }

  /** Then it has one bit for each chunk, in words of eight bytes with the most significant byte first. */
  lemma MapFileBits(k: Key, bitmap: seq<Word>, i: nat, j: nat, m: nat)
    requires |k.hash| == 32 && i < |bitmap| && j < 8 && m < 8
    ensures |EncodeMap(k, bitmap)| == 64 + 8 * |bitmap|
    ensures EncodeMap(k, bitmap)[64 + 8 * i + (7 - j)] / Pow2(m) % 2 == 1 <==> Contains(bitmap, 64 * i + 8 * j + m)
  {
    MapBit(k, bitmap, i, j, m);
    WordBitIff(EncodeMap(k, bitmap)[64 + 8 * i + (7 - j)], m);
    ChunkPlace(i, 8 * j + m);
  }

  lemma ChunkPlace(i: nat, b: nat)
    requires b < 64
    ensures (64 * i + b) / 64 == i && (64 * i + b) % 64 == b
  {
  }

  lemma HeaderInMap(k: Key, bitmap: seq<Word>)
    requires |k.hash| == 32
    ensures var f := EncodeMap(k, bitmap);
            && f[..8] == Header(k)[..8] && f[8..16] == Header(k)[8..16] && f[16..24] == Header(k)[16..24]
            && f[24..32] == Header(k)[24..32] && f[32..64] == Header(k)[32..64]
  {
  }

  /** A map written for one object is never trusted for another. */
  lemma MapIdentifiesObject(j: Key, k: Key, bitmap: seq<Word>)
    requires ValidKey(j) && ValidKey(k) && LoadMap(EncodeMap(j, bitmap), k).Some?
    ensures j == k
  {
    assert EncodeMap(j, bitmap)[..HEADER_LEN] == Header(j);
    assert Header(j) == Header(k);
    HeaderParts(j);
    HeaderParts(k);
    SizesFit(j.layout);
    SizesFit(k.layout);
    FromBigEndianOf(j.layout.size, 8);
    FromBigEndianOf(k.layout.size, 8);
    FromBigEndianOf(j.layout.chunks, 8);
    FromBigEndianOf(k.layout.chunks, 8);
    FromBigEndianOf(j.layout.payload, 8);
    FromBigEndianOf(k.layout.payload, 8);
  }

  lemma DecodeNextWord(body: Bytes, i: nat)
    requires 8 * (i + 1) <= |body|
    ensures FromBigEndian(body[8 * i..8 * i + 8]) < 0x1_0000_0000_0000_0000
    ensures DecodeWords(body[..8 * (i + 1)])
         == DecodeWords(body[..8 * i]) + [FromBigEndian(body[8 * i..8 * i + 8])]
  {
    var bytes := body[8 * i..8 * i + 8];
    assert body[..8 * (i + 1)][..8 * i] == body[..8 * i];
    assert body[..8 * (i + 1)][8 * i..] == bytes;
    BigEndianOf(bytes);
    Pow256Of8();
  }

  /** `load_map`: length, header, then one word at a time, then the tail mask. */
  method LoadMapFile(file: Option<Bytes>, k: Key) returns (r: Option<seq<Word>>)
    requires |k.hash| == 32
    ensures r == match file case None => None case Some(content) => LoadMap(content, k)
  {
    if file == None {
      return None;
    }
    var content := file.value;
    var bitmapWords := WordsFor(k.layout.chunks);
    if |content| != HEADER_LEN + 8 * bitmapWords {
      return None;
    }
    if content[..HEADER_LEN] != Header(k) {
      return None;
    }
    var bitmap: seq<Word> := [];
    var body := content[HEADER_LEN..];
    for i := 0 to bitmapWords
      invariant |bitmap| == i && bitmap == DecodeWords(body[..8 * i])
    {
      DecodeNextWord(body, i);
      bitmap := bitmap + [FromBigEndian(body[8 * i..8 * i + 8])];
    }
    assert body[..8 * bitmapWords] == body;
    if !TailClear(bitmap, k.layout.chunks) {
      return None;
    }
    return Some(bitmap);
  }
}
