/**
  The receipt bitmap: 64-bit words, least significant bit first.

  A word is a natural number below 2^64. The machine operations the program uses on words
  (bit test, bit set, population count, leading zeros, masking) are defined on its binary digits.
*/
module Bitmaps {
  import opened Outcomes

  type Word = w: nat | w < 0x1_0000_0000_0000_0000

  function Pow2(n: nat): (p: nat)
    ensures p > 0
  {
    if n == 0 then 1 else 2 * Pow2(n - 1)
  }

  lemma Pow2Of64()
    ensures Pow2(64) == 0x1_0000_0000_0000_0000
  {
    Pow2Plus8(0);
    Pow2Plus8(8);
    Pow2Plus8(16);
    Pow2Plus8(24);
    Pow2Plus8(32);
    Pow2Plus8(40);
    Pow2Plus8(48);
    Pow2Plus8(56);
  }

  lemma Pow2Plus8(n: nat)
    ensures Pow2(n + 8) == 256 * Pow2(n)
  {
    assert Pow2(n + 4) == 16 * Pow2(n) by {
      assert Pow2(n + 2) == 4 * Pow2(n);
    }
    assert Pow2(n + 6) == 4 * Pow2(n + 4);
  }

  // ----- one word -----

  /** `w & (1 << b) != 0` */
  predicate WordBit(w: nat, b: nat) {
    if b == 0 then w % 2 == 1 else WordBit(w / 2, b - 1)
  }

  /** `w | (1 << b)` */
  function WordWith(w: nat, b: nat): nat {
    if b == 0 then (if w % 2 == 1 then w else w + 1) else 2 * WordWith(w / 2, b - 1) + w % 2
  }

  /** `w.count_ones()` */
  function CountOnes(w: nat): nat {
    if w == 0 then 0 else w % 2 + CountOnes(w / 2)
  }

  /** `63 - w.leading_zeros()` */
  function TopBit(w: nat): nat
    requires w > 0
  {
    if w == 1 then 0 else 1 + TopBit(w / 2)
  }

  lemma {:induction false} WordWithBit(w: nat, b: nat, c: nat)
    ensures WordBit(WordWith(w, b), c) <==> c == b || WordBit(w, c)
  {
    if b > 0 && c > 0 {
      assert WordWith(w, b) / 2 == WordWith(w / 2, b - 1);
      WordWithBit(w / 2, b - 1, c - 1);
    }
  }

  lemma {:induction false} WordWithFits(w: nat, b: nat, n: nat)
    requires w < Pow2(n) && b < n
    ensures WordWith(w, b) < Pow2(n)
  {
    var half := Pow2(n - 1);
    HalfBelow(w, half);
    if b > 0 {
      WordWithFits(w / 2, b - 1, n - 1);
      DoubleBelow(WordWith(w / 2, b - 1), w % 2, half);
    }
  }

  lemma HalfBelow(w: nat, half: nat)
    requires w < 2 * half
    ensures w / 2 < half && (w % 2 == 0 ==> w + 1 < 2 * half)
  {
  }

  lemma DoubleBelow(w: nat, bit: nat, half: nat)
    requires w < half && bit < 2
    ensures 2 * w + bit < 2 * half
  {
  }

  lemma {:induction false} NoBitsAbove(w: nat, n: nat, b: nat)
    requires w < Pow2(n) && n <= b
    ensures !WordBit(w, b)
  {
    if b > 0 {
      if n == 0 {
        NoBitsAbove(0, 0, b - 1);
      } else {
        NoBitsAbove(w / 2, n - 1, b - 1);
      }
    }
  }

  lemma BitBelow(w: nat, n: nat, b: nat)
    requires w < Pow2(n) && WordBit(w, b)
    ensures b < n
  {
    if n <= b {
      NoBitsAbove(w, n, b);
    }
  }

  lemma {:induction false} TopBitIsTop(w: nat)
    requires w > 0
    ensures WordBit(w, TopBit(w)) && w < Pow2(TopBit(w) + 1)
  {
    if w > 1 {
      TopBitIsTop(w / 2);
    }
  }

  lemma {:induction false} TopBitSmall(w: nat, n: nat)
    requires 0 < w < Pow2(n)
    ensures TopBit(w) < n
  {
    if w > 1 {
      TopBitSmall(w / 2, n - 1);
    }
  }

  ghost predicate NoHighBits(w: nat, n: nat) {
    forall b: nat :: n <= b ==> !WordBit(w, b)
  }

  /** A word is below 2^n exactly when all its bits from n on are clear. */
  lemma SmallIffNoHighBits(w: nat, n: nat)
    ensures w < Pow2(n) <==> NoHighBits(w, n)
  {
    if w < Pow2(n) {
      forall b: nat | n <= b ensures !WordBit(w, b) { NoBitsAbove(w, n, b); }
    } else {
      TopBitIsTop(w);
      Pow2Monotone(TopBit(w) + 1, n);
    }
  }

  lemma {:induction false} Pow2Monotone(m: nat, n: nat)
    ensures m <= n ==> Pow2(m) <= Pow2(n)
    decreases n
  {
    if m < n {
      Pow2Monotone(m, n - 1);
    }
  }

  lemma {:induction false} EqualBitsEqualWords(v: nat, w: nat)
    requires forall b: nat :: WordBit(v, b) <==> WordBit(w, b)
    ensures v == w
    decreases v + w
  {
    if v + w > 0 {
      assert WordBit(v, 0) <==> WordBit(w, 0);
      forall b: nat ensures WordBit(v / 2, b) <==> WordBit(w / 2, b) {
        assert WordBit(v, b + 1) <==> WordBit(w, b + 1);
      }
      EqualBitsEqualWords(v / 2, w / 2);
    }
  }

  /** Bit `b` stands for 2^b. */
  lemma {:induction false} WordBitIff(w: nat, b: nat)
    ensures WordBit(w, b) <==> w / Pow2(b) % 2 == 1
  {
    if b > 0 {
      WordBitIff(w / 2, b - 1);
      QuotientOfQuotient(w, 2, Pow2(b - 1));
    }
  }

  /** Chunk `k` is bit `k % 64` of word `k / 64`. */
  lemma ContainsIff(bitmap: seq<Word>, k: nat)
    ensures Contains(bitmap, k) <==> k / 64 < |bitmap| && bitmap[k / 64] / Pow2(k % 64) % 2 == 1
  {
    if k / 64 < |bitmap| { WordBitIff(bitmap[k / 64], k % 64); }
  }

  // ----- the bitmap -----

  /** `bitmap_contains`: a word outside the map holds no receipts. */
  predicate Contains(bitmap: seq<Word>, k: nat) {
    k / 64 < |bitmap| && WordBit(bitmap[k / 64], k % 64)
  }

  /** `bitmap_insert` */
  function Insert(bitmap: seq<Word>, k: nat): (r: seq<Word>)
    requires k / 64 < |bitmap|
    ensures |r| == |bitmap|
    ensures forall j: nat :: Contains(r, j) <==> j == k || Contains(bitmap, j)
  {
    Pow2Of64();
    WordWithFits(bitmap[k / 64], k % 64, 64);
    var r := bitmap[k / 64 := WordWith(bitmap[k / 64], k % 64)];
    assert forall j: nat :: Contains(r, j) <==> j == k || Contains(bitmap, j) by {
      forall j: nat ensures Contains(r, j) <==> j == k || Contains(bitmap, j) {
        if j / 64 == k / 64 {
          WordWithBit(bitmap[k / 64], k % 64, j % 64);
        }
      }
    }
    r
  }

  /** The chunks a bitmap records. */
  ghost function Members(bitmap: seq<Word>): (s: set<nat>)
    ensures forall k: nat :: k in s <==> Contains(bitmap, k)
  {
    set k: nat | k < 64 * |bitmap| && Contains(bitmap, k)
  }

  /** `bitmap.iter().map(count_ones).sum()` */
  function Population(bitmap: seq<Word>): nat {
    if bitmap == [] then 0 else Population(bitmap[..|bitmap| - 1]) + CountOnes(bitmap[|bitmap| - 1])
  }

  /** `chunks.div_ceil(64)` */
  function WordsFor(chunks: nat): nat {
    (chunks + 63) / 64
  }

  /** The mask test on the last word that `load_map` and `read_acceptance` share. */
  predicate TailClear(bitmap: seq<Word>, chunks: nat) {
    chunks % 64 != 0 && bitmap != [] ==> bitmap[|bitmap| - 1] / Pow2(chunks % 64) == 0
  }

  /** A bitmap that fits an object of `chunks` chunks. */
  ghost predicate Fits(bitmap: seq<Word>, chunks: nat) {
    |bitmap| == WordsFor(chunks) && forall k: nat :: Contains(bitmap, k) ==> k < chunks
  }

  /** The mask test accepts exactly the maps that name no chunk beyond the object. */
  lemma TailClearIffFits(bitmap: seq<Word>, chunks: nat)
    requires |bitmap| == WordsFor(chunks)
    ensures TailClear(bitmap, chunks) <==> Fits(bitmap, chunks)
  {
    if chunks % 64 != 0 {
      var last, used := |bitmap| - 1, chunks % 64;
      assert chunks == 64 * last + used;
      SmallIffNoHighBits(bitmap[last], used);
      QuotientZero(bitmap[last], Pow2(used));
      if Fits(bitmap, chunks) {
        forall b: nat | used <= b ensures !WordBit(bitmap[last], b) {
          NoBitBeyond(bitmap, chunks, b);
        }
      }
      if TailClear(bitmap, chunks) {
        forall k: nat | Contains(bitmap, k) ensures k < chunks {
          if k / 64 == last { BitBelow(bitmap[last], used, k % 64); }
        }
      }
    }
  }

  lemma QuotientZero(a: nat, b: nat)
    requires b > 0
    ensures a / b == 0 <==> a < b
  {
    if a >= b {
      assert a / b >= 1 by { assert a / b * b + a % b == a; }
    }
  }

  lemma NoBitBeyond(bitmap: seq<Word>, chunks: nat, b: nat)
    requires Fits(bitmap, chunks) && chunks % 64 != 0 && chunks % 64 <= b
    ensures !WordBit(bitmap[|bitmap| - 1], b)
  {
    var last := |bitmap| - 1;
    if b < 64 {
      var k := 64 * last + b;
      assert k / 64 == last && k % 64 == b;
      assert !Contains(bitmap, k);
    } else {
      Pow2Of64();
      NoBitsAbove(bitmap[last], 64, b);
    }
  }

  /** How many of the first `n` chunks are recorded. */
  ghost function CountBelow(bitmap: seq<Word>, n: nat): nat {
    if n == 0 then 0 else CountBelow(bitmap, n - 1) + if Contains(bitmap, n - 1) then 1 else 0
  }

  ghost function MembersBelow(bitmap: seq<Word>, n: nat): (s: set<nat>)
    ensures forall k: nat :: k in s <==> k < n && Contains(bitmap, k)
  {
    set k: nat | k < n && Contains(bitmap, k)
  }

  lemma MembersBelowNext(bitmap: seq<Word>, n: nat)
    ensures MembersBelow(bitmap, n + 1) == if Contains(bitmap, n) then MembersBelow(bitmap, n) + {n}
                                           else MembersBelow(bitmap, n)
    ensures n !in MembersBelow(bitmap, n)
  {
  }

  lemma OneMore(s: set<nat>, k: nat)
    requires k !in s
    ensures |s + {k}| == |s| + 1
  {
  }

  lemma {:induction false} CountBelowIsCardinality(bitmap: seq<Word>, n: nat)
    ensures CountBelow(bitmap, n) == |MembersBelow(bitmap, n)|
  {
    if n == 0 {
      assert MembersBelow(bitmap, 0) == {};
    } else {
      CountBelowIsCardinality(bitmap, n - 1);
      MembersBelowNext(bitmap, n - 1);
      if Contains(bitmap, n - 1) { OneMore(MembersBelow(bitmap, n - 1), n - 1); }
    }
  }

  ghost function OnesBelow(w: nat, n: nat): nat {
    if n == 0 then 0 else OnesBelow(w, n - 1) + if WordBit(w, n - 1) then 1 else 0
  }

  lemma {:induction false} OnesBelowHalves(w: nat, n: nat)
    ensures OnesBelow(w, n + 1) == w % 2 + OnesBelow(w / 2, n)
  {
    if n > 0 {
      OnesBelowHalves(w, n - 1);
    }
  }

  lemma {:induction false} CountOnesIsOnesBelow(w: nat, n: nat)
    requires w < Pow2(n)
    ensures CountOnes(w) == OnesBelow(w, n)
  {
    if n > 0 {
      CountOnesIsOnesBelow(w / 2, n - 1);
      OnesBelowHalves(w, n - 1);
    }
  }

  lemma {:induction false} CountBelowIgnoresLaterWords(bitmap: seq<Word>, shorter: seq<Word>, n: nat)
    requires shorter <= bitmap && n <= 64 * |shorter|
    ensures CountBelow(bitmap, n) == CountBelow(shorter, n)
  {
    if n > 0 {
      CountBelowIgnoresLaterWords(bitmap, shorter, n - 1);
    }
  }

  lemma {:induction false} CountBelowLastWord(bitmap: seq<Word>, n: nat)
    requires bitmap != [] && n <= 64
    ensures CountBelow(bitmap, 64 * (|bitmap| - 1) + n)
         == CountBelow(bitmap, 64 * (|bitmap| - 1)) + OnesBelow(bitmap[|bitmap| - 1], n)
  {
    if n > 0 {
      CountBelowLastWord(bitmap, n - 1);
      var k := 64 * (|bitmap| - 1) + n - 1;
      assert k / 64 == |bitmap| - 1 && k % 64 == n - 1;
    }
  }

  /** The sum of the population counts is the number of recorded chunks. */
  lemma {:induction false} PopulationIsCardinality(bitmap: seq<Word>)
    ensures Population(bitmap) == |Members(bitmap)|
  {
    PopulationIsCountBelow(bitmap);
    CountBelowIsCardinality(bitmap, 64 * |bitmap|);
    assert Members(bitmap) == MembersBelow(bitmap, 64 * |bitmap|);
  }

  lemma {:induction false} PopulationIsCountBelow(bitmap: seq<Word>)
    ensures Population(bitmap) == CountBelow(bitmap, 64 * |bitmap|)
  {
    if bitmap != [] {
      var shorter := bitmap[..|bitmap| - 1];
      PopulationIsCountBelow(shorter);
      CountBelowIgnoresLaterWords(bitmap, shorter, 64 * |shorter|);
      CountBelowLastWord(bitmap, 64);
      Pow2Of64();
      CountOnesIsOnesBelow(bitmap[|bitmap| - 1], 64);
    }
  }

  lemma InsertMembers(bitmap: seq<Word>, k: nat)
    requires k / 64 < |bitmap|
    ensures Members(Insert(bitmap, k)) == Members(bitmap) + {k}
    ensures !Contains(bitmap, k) ==> |Members(Insert(bitmap, k))| == |Members(bitmap)| + 1
  {
  }

  lemma {:induction false} SubsetOfRange(s: set<nat>, n: nat)
    requires forall k :: k in s ==> k < n
    ensures |s| <= n
    ensures |s| == n ==> forall k: nat :: k < n ==> k in s
  {
    if n > 0 {
      if n - 1 in s {
        SubsetOfRange(s - {n - 1}, n - 1);
      } else {
        SubsetOfRange(s, n - 1);
      }
    } else if k :| k in s {
      assert false;
    }
  }

  /** A fitting map records at most `chunks` chunks, and `chunks` of them only when none is missing. */
  lemma FullIffAllReceived(bitmap: seq<Word>, chunks: nat)
    requires Fits(bitmap, chunks)
    ensures |Members(bitmap)| <= chunks
    ensures |Members(bitmap)| == chunks <==> forall k: nat :: k < chunks ==> Contains(bitmap, k)
  {
    SubsetOfRange(Members(bitmap), chunks);
    if forall k: nat :: k < chunks ==> Contains(bitmap, k) {
      CountBelowAll(bitmap, chunks);
      CountBelowIsCardinality(bitmap, chunks);
      assert Members(bitmap) == MembersBelow(bitmap, chunks);
    }
  }

  lemma {:induction false} CountBelowAll(bitmap: seq<Word>, n: nat)
    requires forall k: nat :: k < n ==> Contains(bitmap, k)
    ensures CountBelow(bitmap, n) == n
  {
    if n > 0 {
      CountBelowAll(bitmap, n - 1);
    }
  }

  /** Maps of one length that record the same chunks are equal. */
  lemma EqualMembersEqualMaps(a: seq<Word>, b: seq<Word>)
    requires |a| == |b| && forall k: nat :: Contains(a, k) <==> Contains(b, k)
    ensures a == b
  {
    Pow2Of64();
    forall i | 0 <= i < |a| ensures a[i] == b[i] {
      forall j: nat ensures WordBit(a[i], j) <==> WordBit(b[i], j) {
        if j < 64 {
          assert Contains(a, 64 * i + j) <==> Contains(b, 64 * i + j);
        } else {
          NoBitsAbove(a[i], 64, j);
          NoBitsAbove(b[i], 64, j);
        }
      }
      EqualBitsEqualWords(a[i], b[i]);
    }
  }

  /** The map with no receipts. */
  function Zeros(words: nat): (z: seq<Word>)
    ensures |z| == words
    ensures forall k: nat :: !Contains(z, k)
  {
    var z := seq(words, i => 0 as Word);
    assert forall k: nat :: !Contains(z, k) by {
      forall k: nat ensures !Contains(z, k) {
        NoBitsAbove(0, 0, k % 64);
      }
    }
    z
  }

  // ----- highest received chunk -----

  ghost predicate IsHighest(bitmap: seq<Word>, h: Option<nat>) {
    match h
    case None => forall k: nat :: !Contains(bitmap, k)
    case Some(top) => Contains(bitmap, top) && forall k: nat :: Contains(bitmap, k) ==> k <= top
  }

  /** The highest recorded chunk, read off the last non-zero word. */
  function Highest(bitmap: seq<Word>): Option<nat> {
    if bitmap == [] then None
    else
      var last := |bitmap| - 1;
      if bitmap[last] != 0 then Some(last * 64 + TopBit(bitmap[last])) else Highest(bitmap[..last])
  }

  lemma {:induction false} HighestIsHighest(bitmap: seq<Word>)
    ensures IsHighest(bitmap, Highest(bitmap))
  {
    if bitmap != [] {
      var last := |bitmap| - 1;
      var word := bitmap[last];
      if word != 0 {
        Pow2Of64();
        TopBitIsTop(word);
        TopBitSmall(word, 64);
        forall k: nat | Contains(bitmap, k) ensures k <= last * 64 + TopBit(word) {
          if k / 64 == last { BitBelow(word, TopBit(word) + 1, k % 64); }
        }
      } else {
        var front := bitmap[..last];
        HighestIsHighest(front);
        forall k: nat ensures Contains(bitmap, k) <==> Contains(front, k) {
          if k / 64 == last && WordBit(0, k % 64) { BitBelow(0, 0, k % 64); }
        }
      }
    }
  }

  /** `highest_received`: the words from the back, up to the first non-zero one. */
  method HighestReceived(bitmap: seq<Word>) returns (h: Option<nat>)
    ensures IsHighest(bitmap, h) && h == Highest(bitmap)
  {
    HighestIsHighest(bitmap);
    var index := |bitmap|;
    assert bitmap[..index] == bitmap;
    while index > 0
      invariant 0 <= index <= |bitmap|
      invariant Highest(bitmap) == Highest(bitmap[..index])
    {
      index := index - 1;
      var word := bitmap[index];
      assert bitmap[..index + 1][..index] == bitmap[..index];
      if word != 0 {
        return Some(index * 64 + TopBit(word));
      }
    }
    return None;
  }
}
