/**
  Content-defined chunking: where a byte string is cut. The definition comes first, cutting a whole
  string piece by piece; the scanner, which sees the string through read buffers of any size, follows.
*/
module Chunking {
  import opened Outcomes
  import opened Text
  import opened Bitmaps
  import opened Disks
  import opened ContentChunks

  // ----- the rolling value -----

  /** How a byte is mixed into 64 bits. Everything below holds for any mixing; `Gear` is the program's. */
  type Mixing = Byte -> Word

  function Gear(b: Byte): Word {
    var v := (b as bv64) + 0x9e37_79b9_7f4a_7c15;
    var w := (v ^ (v >> 30)) * 0xbf58_476d_1ce4_e5b9;
    var x := (w ^ (w >> 27)) * 0x94d0_49bb_1331_11eb;
    (x ^ (x >> 31)) as Word
  }

  /** Shift in one byte, modulo 2^64. */
  function RollIn(gear: Mixing, rolling: Word, b: Byte): Word {
    (2 * rolling + gear(b)) % U64_LIMIT
  }

  function RollFrom(gear: Mixing, start: Word, bytes: Bytes): Word {
    if bytes == [] then start else RollIn(gear, RollFrom(gear, start, bytes[..|bytes| - 1]), bytes[|bytes| - 1])
  }

  function Roll(gear: Mixing, bytes: Bytes): Word {
    RollFrom(gear, 0, bytes)
  }

  lemma ModPlus(r: nat, n: nat, k: nat)
    requires n > 0
    ensures (n * k + r) % n == r % n
  {
    assert (k + r / n) * n == n * k + n * (r / n);
    RemainderIs(n * k + r, n, k + r / n, r % n);
  }

  lemma ModMod(x: nat, n: nat, c: nat)
    requires n > 0 && c > 0
    ensures n * c > 0 && (x % (n * c)) % n == x % n
  {
    ProductAtLeast(n, c);
    var q, r := x / (n * c), x % (n * c);
    assert x == n * (c * q) + r;
    ModPlus(r, n, c * q);
  }

  /** Doubling shifts agreement one bit up. */
  lemma DoubleMod(x: nat, y: nat, g: nat, n: nat)
    requires n > 0 && x % n == y % n
    ensures (2 * x + g) % (2 * n) == (2 * y + g) % (2 * n)
  {
    var r := x % n;
    DoubleQuotient(x, g, n);
    DoubleQuotient(y, g, n);
    ModPlus(2 * r + g, 2 * n, x / n);
    ModPlus(2 * r + g, 2 * n, y / n);
  }

  lemma DoubleQuotient(x: nat, g: nat, n: nat)
    requires n > 0
    ensures 2 * x + g == 2 * n * (x / n) + (2 * (x % n) + g)
  {
    assert x == n * (x / n) + x % n;
  }

  lemma {:induction false} Pow2Adds(m: nat, n: nat)
    ensures Pow2(m + n) == Pow2(m) * Pow2(n)
  {
    if n > 0 {
      Pow2Adds(m, n - 1);
      TwiceInside(Pow2(m), Pow2(n - 1));
      assert Pow2(m + n) == 2 * Pow2(m + (n - 1));
    }
  }

  lemma TwiceInside(a: nat, b: nat)
    ensures a * (2 * b) == 2 * (a * b)
  {
  }

  lemma RollInForgets(x: Word, y: Word, g: Word, k: nat)
    requires k < 64 && x % Pow2(k) == y % Pow2(k)
    ensures ((2 * x + g) % U64_LIMIT) % Pow2(k + 1) == ((2 * y + g) % U64_LIMIT) % Pow2(k + 1)
  {
    var n := Pow2(k);
    DoubleMod(x, y, g, n);
    Pow2Splits(k);
    WrapAgrees(2 * x + g, 2 * y + g, 2 * n, Pow2(63 - k));
  }

  lemma WrapAgrees(x: nat, y: nat, n: nat, c: nat)
    requires n > 0 && c > 0 && n * c == U64_LIMIT && x % n == y % n
    ensures (x % U64_LIMIT) % n == (y % U64_LIMIT) % n
  {
    ModMod(x, n, c);
    ModMod(y, n, c);
  }

  lemma Pow2Splits(k: nat)
    requires k < 64
    ensures 2 * Pow2(k) * Pow2(63 - k) == U64_LIMIT
  {
    Pow2Of64();
    Pow2Adds(k + 1, 63 - k);
    assert Pow2(k + 1) == 2 * Pow2(k);
  }

  /** After `k` bytes the low `k` bits no longer depend on where the value started. */
  lemma {:induction false} LowBitsForget(gear: Mixing, r: Word, s: Word, bytes: Bytes)
    requires |bytes| <= 64
    ensures RollFrom(gear, r, bytes) % Pow2(|bytes|) == RollFrom(gear, s, bytes) % Pow2(|bytes|)
  {
    if bytes == [] {
      assert Pow2(0) == 1;
    } else {
      var k, front := |bytes| - 1, bytes[..|bytes| - 1];
      LowBitsForget(gear, r, s, front);
      RollInForgets(RollFrom(gear, r, front), RollFrom(gear, s, front), gear(bytes[k]), k);
    }
  }

  lemma {:induction false} RollConcat(gear: Mixing, start: Word, a: Bytes, b: Bytes)
    ensures RollFrom(gear, start, a + b) == RollFrom(gear, RollFrom(gear, start, a), b)
  {
    if b == [] {
      assert a + b == a;
    } else {
      var front := b[..|b| - 1];
      RollConcat(gear, start, a, front);
      assert (a + b)[..|a + b| - 1] == a + front;
    }
  }

  lemma Pow2Of16()
    ensures Pow2(16) == AVERAGE_CHUNK_BYTES
  {
    assert Pow2(4) == 16;
    Pow2Adds(4, 4);
    Pow2Adds(8, 8);
  }

  /** Locality: the bits the cut rule looks at depend only on the last 16 bytes. */
  lemma LowBitsAreLocal(gear: Mixing, p: Bytes, q: Bytes)
    requires |p| >= 16 && |q| >= 16 && p[|p| - 16..] == q[|q| - 16..]
    ensures Roll(gear, p) % AVERAGE_CHUNK_BYTES == Roll(gear, q) % AVERAGE_CHUNK_BYTES
  {
    var a, b, tail := p[..|p| - 16], q[..|q| - 16], p[|p| - 16..];
    assert p == a + tail && q == b + tail;
    RollConcat(gear, 0, a, tail);
    RollConcat(gear, 0, b, tail);
    LowBitsForget(gear, Roll(gear, a), Roll(gear, b), tail);
    Pow2Of16();
  }

  /** The last `n` bytes, mixed and weighted by powers of two, the last byte by one. */
  function TailSum(gear: Mixing, p: Bytes, n: nat): nat
    requires n <= |p|
  {
    if n == 0 then 0 else TailSum(gear, p, n - 1) + Pow2(n - 1) * gear(p[|p| - n])
  }

  lemma {:induction false} TailSumStep(gear: Mixing, p: Bytes, n: nat)
    requires 0 < n <= |p|
    ensures TailSum(gear, p, n) == 2 * TailSum(gear, p[..|p| - 1], n - 1) + gear(p[|p| - 1])
  {
    if n == 1 {
      assert TailSum(gear, p, 0) == 0 && Pow2(0) == 1;
    } else {
      TailSumStep(gear, p, n - 1);
      assert p[..|p| - 1][|p| - 1 - (n - 1)] == p[|p| - n];
      TwiceOf(Pow2(n - 2), gear(p[|p| - n]));
    }
  }

  lemma TwiceOf(a: nat, b: nat)
    ensures 2 * a * b == 2 * (a * b)
  {
  }

  lemma RollInAgrees(x: Word, y: nat, g: Word, k: nat)
    requires k < 64 && x % Pow2(k) == y % Pow2(k)
    ensures ((2 * x + g) % U64_LIMIT) % Pow2(k + 1) == (2 * y + g) % Pow2(k + 1)
  {
    DoubleMod(x, y, g, Pow2(k));
    Pow2Splits(k);
    ModMod(2 * x + g, 2 * Pow2(k), Pow2(63 - k));
  }

  /** The low `n` bits of the rolling value are those of the weighted sum of the last `n` bytes. */
  lemma {:induction false} RollIsTailSum(gear: Mixing, p: Bytes, n: nat)
    requires n <= |p| && n <= 64
    ensures Roll(gear, p) % Pow2(n) == TailSum(gear, p, n) % Pow2(n)
  {
    if n == 0 {
      assert Pow2(0) == 1;
    } else {
      var front, g := p[..|p| - 1], gear(p[|p| - 1]);
      RollIsTailSum(gear, front, n - 1);
      TailSumStep(gear, p, n);
      RollInAgrees(Roll(gear, front), TailSum(gear, front, n - 1), g, n - 1);
    }
  }

  // ----- where a string is cut -----

  predicate CutsAt(length: nat, rolling: Word) {
    length >= MIN_CHUNK_BYTES && (rolling % AVERAGE_CHUNK_BYTES == 0 || length >= MAX_CHUNK_BYTES)
  }

  /** Whether a piece ends here. */
  type Rule = Bytes -> bool

  function CutRule(gear: Mixing): Rule {
    piece => CutsAt(|piece|, Roll(gear, piece))
  }

  /**
    Which pieces end by the rule: those of 256 KiB, and those of at least 16 KiB on whose last sixteen bytes the
    weighted sum is a multiple of 65,536.
  */
  lemma CutRuleIff(gear: Mixing, p: Bytes)
    ensures CutRule(gear)(p) <==>
            |p| >= 262_144 || (|p| >= 16_384 && TailSum(gear, p, 16) % 65_536 == 0)
  {
    if |p| >= 16 {
      RollIsTailSum(gear, p, 16);
      Pow2Of16();
    }
  }

  /** Between the minimum and the maximum, only the last 16 bytes decide. */
  lemma CutIsLocal(gear: Mixing, p: Bytes, q: Bytes)
    requires MIN_CHUNK_BYTES <= |p| < MAX_CHUNK_BYTES && MIN_CHUNK_BYTES <= |q| < MAX_CHUNK_BYTES
    requires p[|p| - 16..] == q[|q| - 16..]
    ensures CutRule(gear)(p) <==> CutRule(gear)(q)
  {
    LowBitsAreLocal(gear, p, q);
  }

  /** Every piece of the maximal length ends, none below the minimum does. */
  ghost predicate Bounded(rule: Rule) {
    forall piece :: (|piece| >= MAX_CHUNK_BYTES ==> rule(piece)) && (rule(piece) ==> |piece| >= MIN_CHUNK_BYTES)
  }

  lemma CutRuleIsBounded(gear: Mixing)
    ensures Bounded(CutRule(gear))
  {
  }

  /** The rule ends a piece after the first `i` bytes. */
  predicate Ends(s: Bytes, rule: Rule, i: nat)
    requires i <= |s|
  {
    rule(s[..i])
  }

  /** The first length from `n` on at which the rule ends a piece of `s`, or all of `s`. */
  function CutLength(s: Bytes, rule: Rule, n: nat): (m: nat)
    requires n <= |s|
    ensures n <= m <= |s| && (m < |s| ==> Ends(s, rule, m))
    ensures forall i :: n <= i < m ==> !Ends(s, rule, i)
    decreases |s| - n
  {
    if n == |s| || Ends(s, rule, n) then n else CutLength(s, rule, n + 1)
  }

  function Pieces(s: Bytes, rule: Rule): seq<Bytes>
    decreases |s|
  {
    if s == [] then [] else
      var n := CutLength(s, rule, 1);
      [s[..n]] + Pieces(s[n..], rule)
  }

  lemma CutLengthIs(s: Bytes, rule: Rule, n: nat, m: nat)
    requires n <= m <= |s| && (m == |s| || Ends(s, rule, m)) && forall i :: n <= i < m ==> !Ends(s, rule, i)
    ensures CutLength(s, rule, n) == m
  {
  }

  ghost predicate PieceSizes(pieces: seq<Bytes>, rule: Rule) {
    && (forall i :: 0 <= i < |pieces| ==> 0 < |pieces[i]| <= MAX_CHUNK_BYTES)
    && (forall i :: 0 <= i < |pieces| - 1 ==> rule(pieces[i]) && |pieces[i]| >= MIN_CHUNK_BYTES)
  }

  /** The pieces make up the string; all but the last end by the rule, and lengths are bounded. */
  lemma {:induction false} PiecesTile(s: Bytes, rule: Rule)
    requires Bounded(rule)
    ensures Joined(Pieces(s, rule)) == s && PieceSizes(Pieces(s, rule), rule)
    decreases |s|
  {
    if s != [] {
      var n := CutLength(s, rule, 1);
      if |s| > MAX_CHUNK_BYTES { assert Ends(s, rule, MAX_CHUNK_BYTES); }
      PiecesTile(s[n..], rule);
      assert s == s[..n] + s[n..];
    }
  }

  /** Non-empty pieces that end by the rule where they end, except perhaps the last, and nowhere before. */
  ghost predicate CutAlways(pieces: seq<Bytes>, rule: Rule) {
    forall i :: 0 <= i < |pieces| ==> CutOnce(pieces[i], rule) && (i < |pieces| - 1 ==> rule(pieces[i]))
  }

  ghost predicate CutOnce(piece: Bytes, rule: Rule) {
    piece != [] && forall n :: 1 <= n < |piece| ==> !rule(piece[..n])
  }

  lemma CutAlwaysCons(pieces: seq<Bytes>, rule: Rule)
    requires pieces != []
    ensures CutAlways(pieces, rule) <==>
            && CutOnce(pieces[0], rule) && (|pieces| > 1 ==> rule(pieces[0])) && CutAlways(pieces[1..], rule)
  {
    var rest := pieces[1..];
    if CutAlways(pieces, rule) {
      forall i | 0 <= i < |rest| ensures CutOnce(rest[i], rule) && (i < |rest| - 1 ==> rule(rest[i])) {
        assert rest[i] == pieces[i + 1];
      }
    }
    if CutOnce(pieces[0], rule) && (|pieces| > 1 ==> rule(pieces[0])) && CutAlways(rest, rule) {
      forall i | 0 <= i < |pieces| ensures CutOnce(pieces[i], rule) && (i < |pieces| - 1 ==> rule(pieces[i])) {
        if i > 0 { assert pieces[i] == rest[i - 1]; }
      }
    }
  }

  lemma FirstPieceIs(s: Bytes, rule: Rule, head: Bytes)
    requires s != [] && head <= s && CutOnce(head, rule) && (head == s || rule(head))
    ensures CutLength(s, rule, 1) == |head|
  {
    assert head == s[..|head|];
    forall i | 1 <= i < |head| ensures !Ends(s, rule, i) {
      assert s[..i] == head[..i];
    }
    CutLengthIs(s, rule, 1, |head|);
  }

  lemma FirstPieceIsCut(s: Bytes, rule: Rule)
    requires s != []
    ensures var n := CutLength(s, rule, 1); CutOnce(s[..n], rule) && (n < |s| ==> rule(s[..n]))
  {
    var n := CutLength(s, rule, 1);
    forall i | 1 <= i < n ensures !rule(s[..n][..i]) {
      assert s[..n][..i] == s[..i] && !Ends(s, rule, i);
    }
  }

  lemma {:induction false} PiecesAreCut(s: Bytes, rule: Rule)
    ensures Joined(Pieces(s, rule)) == s && CutAlways(Pieces(s, rule), rule)
    decreases |s|
  {
    if s != [] {
      var n := CutLength(s, rule, 1);
      FirstPieceIsCut(s, rule);
      PiecesAreCut(s[n..], rule);
      PiecesStep(s, rule);
      CutAlwaysCons(Pieces(s, rule), rule);
      assert s == s[..n] + s[n..];
      if n == |s| { assert Pieces(s[n..], rule) == []; }
    }
  }

  /** The pieces of a string are the one way to put it together from pieces cut where the rule first ends them. */
  lemma {:induction false} PiecesIff(s: Bytes, rule: Rule, pieces: seq<Bytes>)
    ensures Pieces(s, rule) == pieces <==> Joined(pieces) == s && CutAlways(pieces, rule)
    decreases |s|
  {
    PiecesAreCut(s, rule);
    if Joined(pieces) == s && CutAlways(pieces, rule) && pieces != [] {
      var head, rest := pieces[0], Joined(pieces[1..]);
      CutAlwaysCons(pieces, rule);
      if |pieces| == 1 { assert rest == []; }
      FirstPieceIs(s, rule, head);
      assert s[..|head|] == head && s[|head|..] == rest;
      PiecesIff(rest, rule, pieces[1..]);
      PiecesStep(s, rule);
    }
  }

  // ----- resynchronisation -----

  /** The string ends exactly where the rule makes a cut. */
  predicate EndsOnCut(p: Bytes, rule: Rule) {
    p == [] || (Pieces(p, rule) != [] && rule(Pieces(p, rule)[|Pieces(p, rule)| - 1]))
  }

  lemma FirstCutStays(p: Bytes, s: Bytes, rule: Rule)
    requires p != [] && (CutLength(p, rule, 1) < |p| || rule(p))
    ensures CutLength(p + s, rule, 1) == CutLength(p, rule, 1)
  {
    var n := CutLength(p, rule, 1);
    assert p[..|p|] == p;
    EndsAgree(p, s, rule);
    CutLengthIs(p + s, rule, 1, n);
  }

  lemma EndsAgree(p: Bytes, s: Bytes, rule: Rule)
    ensures forall i :: 0 <= i <= |p| ==> (Ends(p + s, rule, i) <==> Ends(p, rule, i))
  {
    assert forall i :: 0 <= i <= |p| ==> (p + s)[..i] == p[..i];
  }

  /** What follows a rule-made cut is chunked as if it stood alone; and only a rule-made cut does that. */
  lemma {:induction false} ResynchronisesIff(p: Bytes, s: Bytes, rule: Rule)
    requires s != []
    ensures Pieces(p + s, rule) == Pieces(p, rule) + Pieces(s, rule) <==> EndsOnCut(p, rule)
    decreases |p|
  {
    if p == [] {
      assert p + s == s;
    } else {
      var n := CutLength(p, rule, 1);
      if n < |p| || rule(p) {
        ResynchronisesIff(p[n..], s, rule);
        FirstPieceOff(p, s, rule);
        SameTail(p[..n], Pieces(p[n..] + s, rule), Pieces(p[n..], rule) + Pieces(s, rule));
        EndsOnCutOff(p, rule);
      } else {
        OpenPieceGrows(p, s, rule);
      }
    }
  }

  lemma PiecesStep(s: Bytes, rule: Rule)
    requires s != []
    ensures var n := CutLength(s, rule, 1); Pieces(s, rule) == [s[..n]] + Pieces(s[n..], rule)
  {
  }

  lemma FirstPieceOff(p: Bytes, s: Bytes, rule: Rule)
    requires p != [] && (CutLength(p, rule, 1) < |p| || rule(p))
    ensures var n := CutLength(p, rule, 1);
            && Pieces(p + s, rule) == [p[..n]] + Pieces(p[n..] + s, rule)
            && Pieces(p, rule) + Pieces(s, rule) == [p[..n]] + (Pieces(p[n..], rule) + Pieces(s, rule))
  {
    var n := CutLength(p, rule, 1);
    FirstCutStays(p, s, rule);
    PiecesStep(p, rule);
    PiecesStep(p + s, rule);
    assert (p + s)[..n] == p[..n] && (p + s)[n..] == p[n..] + s;
    HeadMoves(p[..n], Pieces(p[n..], rule), Pieces(s, rule));
  }

  lemma HeadMoves(head: Bytes, a: seq<Bytes>, b: seq<Bytes>)
    ensures [head] + a + b == [head] + (a + b)
  {
  }

  lemma EndsOnCutOff(p: Bytes, rule: Rule)
    requires p != [] && (CutLength(p, rule, 1) < |p| || rule(p))
    ensures EndsOnCut(p, rule) <==> EndsOnCut(p[CutLength(p, rule, 1)..], rule)
  {
    var n := CutLength(p, rule, 1);
    assert p[..|p|] == p;
    if n == |p| {
      assert p[n..] == [] && Pieces(p, rule) == [p];
    }
  }

  lemma SameTail(head: Bytes, a: seq<Bytes>, b: seq<Bytes>)
    ensures [head] + a == [head] + b <==> a == b
  {
    assert ([head] + a)[1..] == a && ([head] + b)[1..] == b;
  }

  lemma OpenPieceGrows(p: Bytes, s: Bytes, rule: Rule)
    requires p != [] && s != [] && CutLength(p, rule, 1) == |p| && !rule(p)
    ensures !EndsOnCut(p, rule) && Pieces(p + s, rule) != Pieces(p, rule) + Pieces(s, rule)
  {
    assert p[..|p|] == p && p[|p|..] == [];
    assert Pieces(p, rule) == [p];
    var n := CutLength(p + s, rule, 1);
    EndsAgree(p, s, rule);
    assert |Pieces(p + s, rule)[0]| == n > |p|;
    assert (Pieces(p, rule) + Pieces(s, rule))[0] == p;
  }

  /** However two strings begin, once both are cut before a common rest, the rest is cut alike. */
  lemma CommonRestSameChunks(p: Bytes, q: Bytes, s: Bytes, rule: Rule)
    requires s != [] && EndsOnCut(p, rule) && EndsOnCut(q, rule)
    ensures Pieces(p + s, rule) == Pieces(p, rule) + Pieces(s, rule)
    ensures Pieces(q + s, rule) == Pieces(q, rule) + Pieces(s, rule)
  {
    ResynchronisesIff(p, s, rule);
    ResynchronisesIff(q, s, rule);
  }

  // ----- the chunks of a string -----

  function ChunksOf(pieces: seq<Bytes>, offset: nat, digest: Bytes -> Bytes): seq<Chunk> {
    if pieces == [] then []
    else [Chunk(offset, |pieces[0]|, digest(pieces[0]))] + ChunksOf(pieces[1..], offset + |pieces[0]|, digest)
  }

  lemma {:induction false} ChunksOfShape(pieces: seq<Bytes>, offset: nat, digest: Bytes -> Bytes)
    requires forall i :: 0 <= i < |pieces| ==> pieces[i] != []
    ensures |ChunksOf(pieces, offset, digest)| == |pieces|
    ensures forall i :: 0 <= i < |pieces| ==> ChunksOf(pieces, offset, digest)[i].length == |pieces[i]|
    ensures Tiles(ChunksOf(pieces, offset, digest), offset, offset + |Joined(pieces)|)
  {
    if pieces != [] {
      ChunksOfShape(pieces[1..], offset + |pieces[0]|, digest);
    }
  }

  lemma {:induction false} ChunksOfDescribe(pieces: seq<Bytes>, before: Bytes, digest: Bytes -> Bytes)
    ensures Describes(ChunksOf(pieces, |before|, digest), digest, before + Joined(pieces))
    decreases |pieces|
  {
    if pieces != [] {
      var head, rest := pieces[0], pieces[1..];
      ChunksOfDescribe(rest, before + head, digest);
      PieceInPlace(before, head, Joined(rest));
      DescribesCons(Chunk(|before|, |head|, digest(head)), ChunksOf(rest, |before + head|, digest), digest,
                    before + (head + Joined(rest)));
    }
  }

  lemma PieceInPlace(before: Bytes, head: Bytes, rest: Bytes)
    ensures before + (head + rest) == before + head + rest
    ensures (before + (head + rest))[|before|..|before| + |head|] == head
  {
  }

  lemma DescribesCons(c: Chunk, chunks: seq<Chunk>, digest: Bytes -> Bytes, content: Bytes)
    requires Describes(chunks, digest, content) && c.offset + c.length <= |content|
    requires c.hash == digest(content[c.offset..c.offset + c.length])
    ensures Describes([c] + chunks, digest, content)
  {
    var all := [c] + chunks;
    assert forall i :: 1 <= i < |all| ==> all[i] == chunks[i - 1];
  }

  /** The chunks of a string. */
  function ChunksIn(s: Bytes, rule: Rule, digest: Bytes -> Bytes): seq<Chunk> {
    ChunksOf(Pieces(s, rule), 0, digest)
  }

  /** Chunks of a string that starts `shift` bytes later. */
  function Shifted(chunks: seq<Chunk>, shift: nat): (moved: seq<Chunk>)
    ensures |moved| == |chunks|
  {
    seq(|chunks|, i requires 0 <= i < |chunks| => chunks[i].(offset := chunks[i].offset + shift))
  }

  lemma {:induction false} ChunksOfConcat(a: seq<Bytes>, b: seq<Bytes>, offset: nat, digest: Bytes -> Bytes)
    ensures ChunksOf(a + b, offset, digest) == ChunksOf(a, offset, digest) + ChunksOf(b, offset + |Joined(a)|, digest)
    decreases |a|
  {
    if a == [] {
      assert a + b == b;
    } else {
      assert (a + b)[1..] == a[1..] + b;
      ChunksOfConcat(a[1..], b, offset + |a[0]|, digest);
    }
  }

  lemma {:induction false} ChunksOfShift(pieces: seq<Bytes>, offset: nat, shift: nat, digest: Bytes -> Bytes)
    ensures ChunksOf(pieces, offset + shift, digest) == Shifted(ChunksOf(pieces, offset, digest), shift)
    decreases |pieces|
  {
    if pieces != [] {
      ChunksOfShift(pieces[1..], offset + |pieces[0]|, shift, digest);
    }
  }

  /** The lengths of the pieces and what they make up determine them. */
  lemma {:induction false} SameLengthsSamePieces(a: seq<Bytes>, b: seq<Bytes>, digest: Bytes -> Bytes, offset: nat)
    requires Joined(a) == Joined(b) && ChunksOf(a, offset, digest) == ChunksOf(b, offset, digest)
    ensures a == b
    decreases |a|
  {
    if a == [] || b == [] {
    } else {
      var x, y := ChunksOf(a, offset, digest), ChunksOf(b, offset, digest);
      assert x[0] == y[0] && x[1..] == ChunksOf(a[1..], offset + |a[0]|, digest);
      assert y[1..] == ChunksOf(b[1..], offset + |b[0]|, digest);
      JoinedHead(a);
      JoinedHead(b);
      SameLengthsSamePieces(a[1..], b[1..], digest, offset + |a[0]|);
      assert a == [a[0]] + a[1..] && b == [b[0]] + b[1..];
    }
  }

  lemma JoinedHead(pieces: seq<Bytes>)
    requires pieces != []
    ensures Joined(pieces)[..|pieces[0]|] == pieces[0] && Joined(pieces)[|pieces[0]|..] == Joined(pieces[1..])
  {
  }

  lemma ChunksOfBoth(a: seq<Bytes>, b: seq<Bytes>, digest: Bytes -> Bytes)
    ensures ChunksOf(a + b, 0, digest) == ChunksOf(a, 0, digest) + Shifted(ChunksOf(b, 0, digest), |Joined(a)|)
  {
    ChunksOfConcat(a, b, 0, digest);
    ChunksOfShift(b, 0, |Joined(a)|, digest);
  }

  lemma SameChunksIffSamePieces(a: seq<Bytes>, b: seq<Bytes>, digest: Bytes -> Bytes)
    requires Joined(a) == Joined(b)
    ensures ChunksOf(a, 0, digest) == ChunksOf(b, 0, digest) <==> a == b
  {
    if ChunksOf(a, 0, digest) == ChunksOf(b, 0, digest) {
      SameLengthsSamePieces(a, b, digest, 0);
    }
  }

  /**
    Resynchronisation of whole chunks: the chunks of p followed by s are those of p and then those of s, with
    their offsets shifted by |p|, if and only if p ends on a rule-made cut.
  */
  lemma ChunksResynchroniseIff(p: Bytes, s: Bytes, rule: Rule, digest: Bytes -> Bytes)
    requires s != [] && Bounded(rule)
    ensures ChunksIn(p + s, rule, digest) == ChunksIn(p, rule, digest) + Shifted(ChunksIn(s, rule, digest), |p|)
        <==> EndsOnCut(p, rule)
  {
    var a, b, c := Pieces(p, rule), Pieces(s, rule), Pieces(p + s, rule);
    ResynchronisesIff(p, s, rule);
    PiecesTile(p, rule);
    PiecesTile(s, rule);
    PiecesTile(p + s, rule);
    JoinedConcat(a, b);
    ChunksOfBoth(a, b, digest);
    SameChunksIffSamePieces(c, a + b, digest);
  }

  /** Lengths between the minimum and the maximum, except a shorter last one. */
  predicate ChunkSizes(chunks: seq<Chunk>) {
    && (forall i :: 0 <= i < |chunks| ==> 0 < chunks[i].length <= MAX_CHUNK_BYTES)
    && (forall i :: 0 <= i < |chunks| - 1 ==> chunks[i].length >= MIN_CHUNK_BYTES)
  }

  lemma PiecesTileChunks(pieces: seq<Bytes>, rule: Rule, digest: Bytes -> Bytes)
    requires PieceSizes(pieces, rule)
    ensures Tiles(ChunksOf(pieces, 0, digest), 0, |Joined(pieces)|)
    ensures ChunkSizes(ChunksOf(pieces, 0, digest))
    ensures Describes(ChunksOf(pieces, 0, digest), digest, Joined(pieces))
  {
    assert forall i :: 0 <= i < |pieces| ==> |pieces[i]| > 0;
    ChunksOfShape(pieces, 0, digest);
    ChunksOfDescribe(pieces, [], digest);
    assert [] + Joined(pieces) == Joined(pieces);
  }

  /** For every byte string: a tiling from zero to its size, sizes bounded, each hash that of its bytes. */
  lemma ChunksTile(s: Bytes, rule: Rule, digest: Bytes -> Bytes)
    requires Bounded(rule)
    ensures Tiles(ChunksIn(s, rule, digest), 0, |s|)
    ensures ChunkSizes(ChunksIn(s, rule, digest))
    ensures Describes(ChunksIn(s, rule, digest), digest, s)
  {
    PiecesTile(s, rule);
    PiecesTileChunks(Pieces(s, rule), rule, digest);
  }

  /** The same for the program's rule, whatever the mixing of bytes. */
  lemma ScannedChunksTile(s: Bytes, gear: Mixing, digest: Bytes -> Bytes)
    ensures Tiles(ChunksIn(s, CutRule(gear), digest), 0, |s|)
    ensures ChunkSizes(ChunksIn(s, CutRule(gear), digest))
    ensures Describes(ChunksIn(s, CutRule(gear), digest), digest, s)
  {
    CutRuleIsBounded(gear);
    ChunksTile(s, CutRule(gear), digest);
  }

  // ----- the scanner -----

  /** No length up to `n` ends a piece. */
  ghost predicate Unended(s: Bytes, rule: Rule, n: nat)
    requires n <= |s|
  {
    forall i :: 1 <= i <= n ==> !Ends(s, rule, i)
  }

  /** The finished chunks and those of `rest`, which starts at `offset`, are all the chunks there will be. */
  ghost predicate Splits(total: seq<Chunk>, chunks: seq<Chunk>, offset: nat, rest: Bytes, rule: Rule,
                         digest: Bytes -> Bytes)
  {
    total == chunks + ChunksOf(Pieces(rest, rule), offset, digest)
  }

  lemma UnendedNext(s: Bytes, rule: Rule, n: nat)
    requires n < |s| && Unended(s, rule, n) && !Ends(s, rule, n + 1)
    ensures Unended(s, rule, n + 1)
  {
  }

  /** The scanner's cut is the defined one. */
  lemma TakePiece(total: seq<Chunk>, chunks: seq<Chunk>, offset: nat, rest: Bytes, rule: Rule, digest: Bytes -> Bytes,
                  n: nat)
    requires Splits(total, chunks, offset, rest, rule, digest)
    requires 1 <= n <= |rest| && Unended(rest, rule, n - 1) && (Ends(rest, rule, n) || n == |rest|)
    ensures Splits(total, chunks + [Chunk(offset, n, digest(rest[..n]))], offset + n, rest[n..], rule, digest)
    ensures |chunks| < |total|
  {
    CutLengthIs(rest, rule, 1, n);
    var later := Pieces(rest[n..], rule);
    assert Pieces(rest, rule) == [rest[..n]] + later;
    FirstChunk(rest[..n], later, offset, digest);
    Regroup(chunks, Chunk(offset, n, digest(rest[..n])), ChunksOf(later, offset + n, digest));
  }

  lemma Regroup(chunks: seq<Chunk>, c: Chunk, later: seq<Chunk>)
    ensures chunks + ([c] + later) == chunks + [c] + later
  {
  }

  lemma FirstChunk(piece: Bytes, rest: seq<Bytes>, offset: nat, digest: Bytes -> Bytes)
    ensures ChunksOf([piece] + rest, offset, digest)
         == [Chunk(offset, |piece|, digest(piece))] + ChunksOf(rest, offset + |piece|, digest)
  {
    assert ([piece] + rest)[1..] == rest;
  }

  lemma ReadPrefix(buffers: seq<Bytes>, i: nat)
    requires i < |buffers|
    ensures |Joined(buffers[..i])| + |buffers[i]| <= |Joined(buffers)|
    ensures Joined(buffers)[..|Joined(buffers[..i])|] == Joined(buffers[..i])
    ensures Joined(buffers)[|Joined(buffers[..i])|..|Joined(buffers[..i])| + |buffers[i]|] == buffers[i]
  {
    assert buffers == buffers[..i + 1] + buffers[i + 1..];
    JoinedConcat(buffers[..i + 1], buffers[i + 1..]);
    JoinedNext(buffers, i);
  }

  /** The scanner's variables. */
  datatype Scanner = Scanner(chunks: seq<Chunk>, offset: nat, piece: Bytes, rolling: Word)

  const IDLE: Scanner := Scanner([], 0, [], 0)

  /** `push_chunk` and the reset after it, apart from the limit on the number of chunks. */
  function Push(s: Scanner, digest: Bytes -> Bytes): Scanner {
    Scanner(s.chunks + [Chunk(s.offset, |s.piece|, digest(s.piece))], s.offset + |s.piece|, [], 0)
  }

  function Grow(s: Scanner, b: Byte, gear: Mixing): Scanner {
    s.(piece := s.piece + [b], rolling := RollIn(gear, s.rolling, b))
  }

  /** One byte: roll it in, append it, and cut when the rule says so. */
  function Feed(s: Scanner, b: Byte, gear: Mixing, digest: Bytes -> Bytes): Scanner {
    var grown := Grow(s, b, gear);
    if CutsAt(|grown.piece|, grown.rolling) then Push(grown, digest) else grown
  }

  function Fed(bytes: Bytes, gear: Mixing, digest: Bytes -> Bytes): Scanner {
    if bytes == [] then IDLE else Feed(Fed(bytes[..|bytes| - 1], gear, digest), bytes[|bytes| - 1], gear, digest)
  }

  /** The end of the input ends the last piece. */
  function Finished(s: Scanner, digest: Bytes -> Bytes): Scanner {
    if s.piece == [] then s else Push(s, digest)
  }

  /** The rule is the one computed from the rolling value. */
  ghost predicate Decides(gear: Mixing, rule: Rule) {
    forall piece :: DecidesAt(gear, rule, piece)
  }

  predicate DecidesAt(gear: Mixing, rule: Rule, piece: Bytes) {
    rule(piece) <==> CutsAt(|piece|, Roll(gear, piece))
  }

  /** Where the scanner stands, `rest` being what follows its last cut. */
  ghost predicate ScanOk(s: Scanner, gear: Mixing, rule: Rule, digest: Bytes -> Bytes, total: seq<Chunk>, rest: Bytes) {
    && s.rolling == Roll(gear, s.piece) && s.piece <= rest
    && Unended(rest, rule, |s.piece|)
    && Splits(total, s.chunks, s.offset, rest, rule, digest)
  }

  lemma NextByte(gear: Mixing, rule: Rule, rest: Bytes, n: nat)
    requires n < |rest| && Decides(gear, rule)
    ensures rest[..n + 1] == rest[..n] + [rest[n]]
    ensures Roll(gear, rest[..n + 1]) == RollIn(gear, Roll(gear, rest[..n]), rest[n])
    ensures Ends(rest, rule, n + 1) <==> CutsAt(n + 1, Roll(gear, rest[..n + 1]))
  {
    assert rest[..n + 1][..n] == rest[..n];
    assert DecidesAt(gear, rule, rest[..n + 1]);
  }

  lemma PushKeepsOk(s: Scanner, gear: Mixing, rule: Rule, digest: Bytes -> Bytes, total: seq<Chunk>, rest: Bytes)
    requires Splits(total, s.chunks, s.offset, rest, rule, digest) && s.piece != [] && s.piece <= rest
    requires Unended(rest, rule, |s.piece| - 1) && (Ends(rest, rule, |s.piece|) || |s.piece| == |rest|)
    ensures ScanOk(Push(s, digest), gear, rule, digest, total, rest[|s.piece|..]) && |s.chunks| < |total|
  {
    assert rest[..|s.piece|] == s.piece;
    TakePiece(total, s.chunks, s.offset, rest, rule, digest, |s.piece|);
  }

  lemma FeedKeepsOk(s: Scanner, b: Byte, gear: Mixing, rule: Rule, digest: Bytes -> Bytes, total: seq<Chunk>,
                    rest: Bytes)
    requires ScanOk(s, gear, rule, digest, total, rest) && Decides(gear, rule)
    requires |s.piece| < |rest| && b == rest[|s.piece|]
    ensures var t := Feed(s, b, gear, digest);
            && s.offset <= t.offset <= s.offset + |rest| && t.offset + |t.piece| == s.offset + |s.piece| + 1
            && ScanOk(t, gear, rule, digest, total, rest[t.offset - s.offset..])
  {
    NextByte(gear, rule, rest, |s.piece|);
    var grown := Grow(s, b, gear);
    assert rest[..|s.piece|] == s.piece && grown.piece == rest[..|s.piece| + 1];
    if Ends(rest, rule, |s.piece| + 1) {
      PushKeepsOk(grown, gear, rule, digest, total, rest);
    } else {
      UnendedNext(rest, rule, |s.piece|);
      assert rest[0..] == rest;
    }
  }

  lemma DropDrop(s: Bytes, a: nat, b: nat)
    requires a + b <= |s|
    ensures s[a..][b..] == s[a + b..]
  {
  }

  /** After the first `k` bytes of `content`, `total` being all its chunks. */
  ghost predicate ScannedTo(content: Bytes, total: seq<Chunk>, k: nat, s: Scanner, gear: Mixing, rule: Rule,
                            digest: Bytes -> Bytes)
  {
    && s.offset + |s.piece| == k <= |content|
    && ScanOk(s, gear, rule, digest, total, content[s.offset..])
  }

  lemma IdleIsOk(content: Bytes, gear: Mixing, rule: Rule, digest: Bytes -> Bytes)
    ensures ScannedTo(content, ChunksIn(content, rule, digest), 0, IDLE, gear, rule, digest)
  {
    assert content[0..] == content;
    assert [] + ChunksIn(content, rule, digest) == ChunksIn(content, rule, digest);
  }

  lemma FedNext(content: Bytes, total: seq<Chunk>, k: nat, s: Scanner, gear: Mixing, rule: Rule, digest: Bytes -> Bytes)
    requires k < |content| && ScannedTo(content, total, k, s, gear, rule, digest) && Decides(gear, rule)
    ensures ScannedTo(content, total, k + 1, Feed(s, content[k], gear, digest), gear, rule, digest)
  {
    FeedKeepsOk(s, content[k], gear, rule, digest, total, content[s.offset..]);
    DropDrop(content, s.offset, Feed(s, content[k], gear, digest).offset - s.offset);
  }

  lemma FedPrefix(content: Bytes, k: nat, gear: Mixing, digest: Bytes -> Bytes, s: Scanner, t: Scanner)
    requires k < |content| && s == Fed(content[..k], gear, digest) && t == Feed(s, content[k], gear, digest)
    ensures Fed(content[..k + 1], gear, digest) == t
  {
    assert content[..k + 1][..k] == content[..k];
  }

  lemma {:induction false} FedIsOk(content: Bytes, total: seq<Chunk>, k: nat, gear: Mixing, rule: Rule,
                                   digest: Bytes -> Bytes)
    returns (s: Scanner)
    requires k <= |content| && Decides(gear, rule) && ScannedTo(content, total, 0, IDLE, gear, rule, digest)
    ensures s == Fed(content[..k], gear, digest)
    ensures ScannedTo(content, total, k, s, gear, rule, digest)
  {
    if k == 0 {
      s := IDLE;
    } else {
      var before := FedIsOk(content, total, k - 1, gear, rule, digest);
      FedNext(content, total, k - 1, before, gear, rule, digest);
      s := Feed(before, content[k - 1], gear, digest);
      FedPrefix(content, k - 1, gear, digest, before, s);
    }
  }

  /** Feeding a string byte by byte yields its chunks; no prefix has more of them. */
  lemma FedGivesChunks(content: Bytes, k: nat, gear: Mixing, rule: Rule, digest: Bytes -> Bytes)
    requires k <= |content| && Decides(gear, rule)
    ensures |Fed(content[..k], gear, digest).chunks| <= |ChunksIn(content, rule, digest)|
    ensures Finished(Fed(content, gear, digest), digest).chunks == ChunksIn(content, rule, digest)
    ensures Finished(Fed(content, gear, digest), digest).offset == |content|
  {
    var total := ChunksIn(content, rule, digest);
    IdleIsOk(content, gear, rule, digest);
    var part := FedIsOk(content, total, k, gear, rule, digest);
    var s := FedIsOk(content, total, |content|, gear, rule, digest);
    assert content[..|content|] == content;
    var rest := content[s.offset..];
    if s.piece != [] {
      PushKeepsOk(s, gear, rule, digest, total, rest);
      assert rest[|s.piece|..] == [];
    } else {
      assert rest == [];
    }
    var end := Finished(s, digest);
    assert end.chunks + [] == end.chunks;
  }

  lemma CutRuleDecides(gear: Mixing)
    ensures Decides(gear, CutRule(gear))
  {
    forall piece ensures DecidesAt(gear, CutRule(gear), piece) {
    }
  }

  /** The bytes fed once the first `j` bytes of buffer `i` are in. */
  function Consumed(buffers: seq<Bytes>, i: nat, j: nat): Bytes
    requires i < |buffers| && j <= |buffers[i]|
  {
    Joined(buffers[..i]) + buffers[i][..j]
  }

  lemma ConsumedNext(buffers: seq<Bytes>, i: nat, j: nat)
    requires i < |buffers| && j < |buffers[i]|
    ensures Consumed(buffers, i, j + 1) == Consumed(buffers, i, j) + [buffers[i][j]]
    ensures Consumed(buffers, i, j + 1)[..|Consumed(buffers, i, j)|] == Consumed(buffers, i, j)
    ensures Consumed(buffers, i, j + 1) <= Joined(buffers)
  {
    ReadPrefix(buffers, i);
    assert buffers[i][..j + 1] == buffers[i][..j] + [buffers[i][j]];
    var c := Joined(buffers[..i]);
    assert Joined(buffers)[..|c| + j + 1] == c + buffers[i][..j + 1];
  }

  lemma TooMany(buffers: seq<Bytes>, i: nat, j: nat, gear: Mixing, digest: Bytes -> Bytes)
    requires i < |buffers| && j <= |buffers[i]| && Consumed(buffers, i, j) <= Joined(buffers)
    ensures |Fed(Consumed(buffers, i, j), gear, digest).chunks| <= |ChunksIn(Joined(buffers), CutRule(gear), digest)|
  {
    var content, k := Joined(buffers), |Consumed(buffers, i, j)|;
    assert content[..k] == Consumed(buffers, i, j);
    CutRuleDecides(gear);
    FedGivesChunks(content, k, gear, CutRule(gear), digest);
  }

  lemma FeedConsumed(buffers: seq<Bytes>, i: nat, j: nat, gear: Mixing, digest: Bytes -> Bytes)
    requires i < |buffers| && j < |buffers[i]|
    ensures Fed(Consumed(buffers, i, j + 1), gear, digest)
         == Feed(Fed(Consumed(buffers, i, j), gear, digest), buffers[i][j], gear, digest)
    ensures Consumed(buffers, i, j + 1) <= Joined(buffers)
  {
    ConsumedNext(buffers, i, j);
  }

  lemma ScanEnds(buffers: seq<Bytes>, gear: Mixing, digest: Bytes -> Bytes)
    ensures var end := Finished(Fed(Joined(buffers), gear, digest), digest);
            end.offset == |Joined(buffers)| && end.chunks == ChunksIn(Joined(buffers), CutRule(gear), digest)
  {
    CutRuleDecides(gear);
    FedGivesChunks(Joined(buffers), 0, gear, CutRule(gear), digest);
  }

  lemma BufferDone(buffers: seq<Bytes>, i: nat)
    requires i < |buffers|
    ensures Consumed(buffers, i, 0) == Joined(buffers[..i])
    ensures Consumed(buffers, i, |buffers[i]|) == Joined(buffers[..i + 1])
  {
    JoinedNext(buffers, i);
    assert buffers[i][..|buffers[i]|] == buffers[i];
  }

  /**
    The scanner's loops, over whatever the read calls returned. The chunks depend on the bytes alone, not
    on how they were read; it fails exactly when there are more than a million of them.
  */
  method Scan(buffers: seq<Bytes>, gear: Mixing, digest: Bytes -> Bytes) returns (r: Result<(nat, seq<Chunk>)>)
    ensures r.Ok? <==> |ChunksIn(Joined(buffers), CutRule(gear), digest)| <= MAX_CHUNKS
    ensures r.Ok? ==> r.value == (|Joined(buffers)|, ChunksIn(Joined(buffers), CutRule(gear), digest))
  {
    var s := IDLE;
    var i := 0;
    while i < |buffers|
      invariant 0 <= i <= |buffers| && |s.chunks| <= MAX_CHUNKS && s == Fed(Joined(buffers[..i]), gear, digest)
    {
      BufferDone(buffers, i);
      var j := 0;
      while j < |buffers[i]|
        invariant 0 <= j <= |buffers[i]| && |s.chunks| <= MAX_CHUNKS && s == Fed(Consumed(buffers, i, j), gear, digest)
      {
        FeedConsumed(buffers, i, j, gear, digest);
        s := Feed(s, buffers[i][j], gear, digest);
        if |s.chunks| > MAX_CHUNKS {
          TooMany(buffers, i, j + 1, gear, digest);
          return Err;
        }
        j := j + 1;
      }
      i := i + 1;
    }
    assert buffers[..i] == buffers;
    ScanEnds(buffers, gear, digest);
    s := Finished(s, digest);
    if |s.chunks| > MAX_CHUNKS {
      return Err;
    }
    return Ok((s.offset, s.chunks));
  }
}
