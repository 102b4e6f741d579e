/**
  Reusing an earlier copy of an object: content-defined chunks found in the candidate are copied into
  the partial file, their ranges are merged, and one sweep marks every UDP chunk they cover.
*/
module Reuse {
  import opened Outcomes
  import opened Bitmaps
  import opened Layouts
  import opened Disks
  import opened ResumeMaps
  import opened Transfers
  import opened Durability
  import opened ReceiveUdp
  import opened ContentChunks

  /** Half-open byte ranges. */
  type Span = (nat, nat)

  ghost predicate Covers(spans: seq<Span>, x: nat) {
    exists i :: 0 <= i < |spans| && spans[i].0 <= x < spans[i].1
  }

  // ----- merging -----

  /** In order of their starts, not overlapping, none empty. */
  ghost predicate Ordered(spans: seq<Span>) {
    && (forall i :: 0 <= i < |spans| ==> spans[i].0 < spans[i].1)
    && (forall i, j :: 0 <= i < j < |spans| ==> spans[i].1 <= spans[j].0)
  }

  /** Sorted, disjoint, and with a gap between any two. */
  ghost predicate Separated(spans: seq<Span>) {
    && (forall i :: 0 <= i < |spans| ==> spans[i].0 < spans[i].1)
    && (forall i, j :: 0 <= i < j < |spans| ==> spans[i].1 < spans[j].0)
  }

  lemma CoversSnoc(spans: seq<Span>, s: Span, x: nat)
    ensures Covers(spans + [s], x) <==> Covers(spans, x) || s.0 <= x < s.1
  {
    var all := spans + [s];
    if Covers(spans, x) {
      var i :| 0 <= i < |spans| && spans[i].0 <= x < spans[i].1;
      assert all[i] == spans[i];
    }
    if s.0 <= x < s.1 { assert all[|spans|] == s; }
  }

  /** Extending the last span to take in one that touches it. */
  lemma CoversExtended(spans: seq<Span>, s: Span, x: nat)
    requires spans != [] && spans[|spans| - 1].0 <= s.0 <= spans[|spans| - 1].1 <= s.1
    ensures var last := |spans| - 1;
            Covers(spans[last := (spans[last].0, s.1)], x) <==> Covers(spans, x) || s.0 <= x < s.1
  {
    var last := |spans| - 1;
    var front := spans[..last];
    assert spans == front + [spans[last]] && spans[last := (spans[last].0, s.1)] == front + [(spans[last].0, s.1)];
    CoversSnoc(front, spans[last], x);
    CoversSnoc(front, (spans[last].0, s.1), x);
  }

  ghost predicate SameCover(a: seq<Span>, b: seq<Span>) {
    forall x: nat :: Covers(a, x) <==> Covers(b, x)
  }

  lemma MergeExtends(merged: seq<Span>, copied: seq<Span>, s: Span)
    requires SameCover(merged, copied)
    requires merged != [] && merged[|merged| - 1].0 <= s.0 <= merged[|merged| - 1].1 <= s.1
    ensures var last := |merged| - 1; SameCover(merged[last := (merged[last].0, s.1)], copied + [s])
  {
    var last := |merged| - 1;
    forall x: nat ensures Covers(merged[last := (merged[last].0, s.1)], x) <==> Covers(copied + [s], x) {
      CoversSnoc(copied, s, x);
      CoversExtended(merged, s, x);
    }
  }

  lemma MergeAppends(merged: seq<Span>, copied: seq<Span>, s: Span)
    requires SameCover(merged, copied)
    ensures SameCover(merged + [s], copied + [s])
  {
    forall x: nat ensures Covers(merged + [s], x) <==> Covers(copied + [s], x) {
      CoversSnoc(copied, s, x);
      CoversSnoc(merged, s, x);
    }
  }

  /** One more copied range: it extends the last span if it touches it, else it follows. */
  function Absorbed(merged: seq<Span>, s: Span): seq<Span> {
    if merged != [] && s.0 <= merged[|merged| - 1].1
    then merged[|merged| - 1 := (merged[|merged| - 1].0, Max(merged[|merged| - 1].1, s.1))]
    else merged + [s]
  }

  /** What the loop has made of the first `n` ranges. */
  ghost predicate MergedUpTo(copied: seq<Span>, n: nat, merged: seq<Span>)
    requires n <= |copied|
  {
    && Separated(merged) && SameCover(merged, copied[..n])
    && (n == 0 ==> merged == []) && (n > 0 ==> merged != [] && merged[|merged| - 1].1 == copied[n - 1].1)
  }

  lemma MergedNext(copied: seq<Span>, n: nat, merged: seq<Span>)
    requires Ordered(copied) && n < |copied| && MergedUpTo(copied, n, merged)
    ensures MergedUpTo(copied, n + 1, Absorbed(merged, copied[n]))
  {
    var s := copied[n];
    assert copied[..n + 1] == copied[..n] + [s];
    if merged != [] && s.0 <= merged[|merged| - 1].1 {
      MergeExtends(merged, copied[..n], s);
    } else {
      MergeAppends(merged, copied[..n], s);
    }
  }

  lemma NothingMerged(copied: seq<Span>)
    ensures MergedUpTo(copied, 0, [])
  {
  }

  lemma AllMerged(copied: seq<Span>, merged: seq<Span>)
    requires MergedUpTo(copied, |copied|, merged)
    ensures Separated(merged) && (copied != [] ==> merged != [])
    ensures forall x: nat :: Covers(merged, x) <==> Covers(copied, x)
  {
    assert copied[..|copied|] == copied;
  }

  /** The merge covers what the copied ranges cover, in spans that do not even touch. */
  method Merge(copied: seq<Span>) returns (merged: seq<Span>)
    requires Ordered(copied)
    ensures Separated(merged)
    ensures forall x: nat :: Covers(merged, x) <==> Covers(copied, x)
    ensures copied != [] ==> merged != []
  {
    merged := [];
    NothingMerged(copied);
    var i := 0;
    while i < |copied|
      invariant 0 <= i <= |copied| && MergedUpTo(copied, i, merged)
    {
      var range := copied[i];
      ghost var absorbed := Absorbed(merged, range);
      MergedNext(copied, i, merged);
      if merged != [] && range.0 <= merged[|merged| - 1].1 {
        var last := |merged| - 1;
        merged := merged[last := (merged[last].0, Max(merged[last].1, range.1))];
      } else {
        merged := merged + [range];
      }
      assert merged == absorbed;
      i := i + 1;
    }
    AllMerged(copied, merged);
  }

  // ----- the sweep -----

  /** Every byte of UDP chunk `k` lies in some span. */
  ghost predicate Covered(l: Layout, spans: seq<Span>, k: nat) {
    forall x: nat :: Edge(l, k) <= x < Edge(l, k + 1) ==> Covers(spans, x)
  }

  /** The one-range test of the sweep decides coverage: a gap would show as an uncovered byte. */
  lemma OneRangeDecides(spans: seq<Span>, at: nat, start: nat, end: nat)
    requires Separated(spans) && at <= |spans| && start < end
    requires forall i :: 0 <= i < at ==> spans[i].1 <= start
    requires at < |spans| ==> start < spans[at].1
    ensures (at < |spans| && spans[at].0 <= start && spans[at].1 >= end)
            <==> forall x: nat :: start <= x < end ==> Covers(spans, x)
  {
    if forall x: nat :: start <= x < end ==> Covers(spans, x) {
      assert Covers(spans, start);
      var i :| 0 <= i < |spans| && spans[i].0 <= start < spans[i].1;
      assert i == at;
      if spans[at].1 < end {
        OnlyOneSpan(spans, at, start);
      }
    }
  }

  lemma OnlyOneSpan(spans: seq<Span>, at: nat, start: nat)
    requires Separated(spans) && at < |spans| && spans[at].0 <= start < spans[at].1
    ensures !Covers(spans, spans[at].1)
  {
  }

  /** The bytes newly received by the sweep, over the chunks below `n`. */
  ghost function NewBytes(l: Layout, before: seq<Word>, spans: seq<Span>, n: nat): nat {
    if n == 0 then 0
    else
      EdgeMonotone(l, n - 1, n);
      NewBytes(l, before, spans, n - 1)
      + if !Contains(before, n - 1) && Covered(l, spans, n - 1) then Edge(l, n) - Edge(l, n - 1) else 0
  }

  lemma {:induction false} NewBytesFit(l: Layout, before: seq<Word>, spans: seq<Span>, n: nat)
    ensures NewBytes(l, before, spans, n) <= Edge(l, n) <= l.size
  {
    if n > 0 {
      NewBytesFit(l, before, spans, n - 1);
      EdgeMonotone(l, n - 1, n);
    }
  }

  /** After looking at the chunks below `n`: the old receipts and the covered chunks, nothing else. */
  ghost predicate Swept(l: Layout, before: seq<Word>, spans: seq<Span>, n: nat, after: seq<Word>) {
    |after| == |before| && forall k: nat :: Contains(after, k) <==>
      Contains(before, k) || (k < n && Covered(l, spans, k))
  }

  /** The spans below the index end before `start`. */
  ghost predicate Passed(spans: seq<Span>, index: nat, start: nat) {
    index <= |spans| && forall i :: 0 <= i < index ==> spans[i].1 <= start
  }

  lemma PassedFurther(spans: seq<Span>, index: nat, n: nat, payload: nat)
    requires Passed(spans, index, n * payload)
    ensures Passed(spans, index, (n + 1) * payload)
  {
    assert (n + 1) * payload == n * payload + payload;
  }

  /** One round: the index passes the spans that end before the chunk, then the test. */
  method VisitChunk(state: ResumeState, merged: seq<Span>, l: Layout, sequence: nat, from: nat)
    returns (rangeIndex: nat, gained: bool)
    requires ValidLayout(l) && Separated(merged) && sequence < l.chunks && sequence / 64 < state.bitmap.Length
    requires Passed(merged, from, sequence * l.payload)
    modifies state, state.bitmap
    ensures from <= rangeIndex && Passed(merged, rangeIndex, sequence * l.payload)
    ensures gained <==> !Contains(old(state.bitmap[..]), sequence) && Covered(l, merged, sequence)
    ensures state.bitmap[..] == if gained then Insert(old(state.bitmap[..]), sequence) else old(state.bitmap[..])
    ensures state.receivedCount == old(state.receivedCount) + if gained then 1 else 0
  {
    rangeIndex := from;
    if Contains(state.bitmap[..], sequence) {
      return rangeIndex, false;
    }
    ChunkShape(l, sequence);
    assert (sequence + 1) * l.payload == sequence * l.payload + l.payload;
    var start := sequence * l.payload;
    var end := Min(start + l.payload, l.size);
    while rangeIndex < |merged| && merged[rangeIndex].1 <= start
      invariant from <= rangeIndex && Passed(merged, rangeIndex, start)
    {
      rangeIndex := rangeIndex + 1;
    }
    OneRangeDecides(merged, rangeIndex, start, end);
    gained := rangeIndex < |merged| && merged[rangeIndex].0 <= start && merged[rangeIndex].1 >= end;
    if gained {
      state.Insert(sequence);
    }
  }

  lemma SweptNext(l: Layout, before: seq<Word>, spans: seq<Span>, n: nat, now: seq<Word>, gained: bool, next: seq<Word>)
    requires Swept(l, before, spans, n, now) && Fits(now, l.chunks) && n < l.chunks
    requires gained <==> !Contains(now, n) && Covered(l, spans, n)
    requires next == if gained then Insert(now, n) else now
    ensures Swept(l, before, spans, n + 1, next) && Fits(next, l.chunks)
    ensures |Members(next)| == |Members(now)| + if gained then 1 else 0
    ensures NewBytes(l, before, spans, n + 1)
         == NewBytes(l, before, spans, n) + if gained then Edge(l, n + 1) - Edge(l, n) else 0
  {
    if gained { InsertMembers(now, n); }
  }

  /** Before chunk `n`: the bitmap, the index, the count and both totals of the loop. */
  ghost predicate Sweeping(l: Layout, before: seq<Word>, spans: seq<Span>, n: nat, now: seq<Word>, index: nat,
                           received: nat, gainedChunks: nat, gainedBytes: nat) {
    && Swept(l, before, spans, n, now) && Fits(now, l.chunks) && Passed(spans, index, n * l.payload)
    && received == |Members(now)| == |Members(before)| + gainedChunks
    && gainedBytes == NewBytes(l, before, spans, n)
  }

  lemma SweepingNext(l: Layout, before: seq<Word>, spans: seq<Span>, n: nat, now: seq<Word>, index: nat, received: nat,
                     gainedChunks: nat, gainedBytes: nat, gained: bool, next: seq<Word>, further: nat)
    requires Sweeping(l, before, spans, n, now, index, received, gainedChunks, gainedBytes) && n < l.chunks
    requires gained <==> !Contains(now, n) && Covered(l, spans, n)
    requires next == if gained then Insert(now, n) else now
    requires Passed(spans, further, n * l.payload)
    ensures Edge(l, n) <= Edge(l, n + 1)
    ensures if gained
            then Sweeping(l, before, spans, n + 1, next, further, received + 1, gainedChunks + 1,
                          gainedBytes + (Edge(l, n + 1) - Edge(l, n)))
            else Sweeping(l, before, spans, n + 1, next, further, received, gainedChunks, gainedBytes)
  {
    SweptNext(l, before, spans, n, now, gained, next);
    PassedFurther(spans, further, n, l.payload);
    EdgeMonotone(l, n, n + 1);
  }

  /** One round: the test, and the totals. */
  method SweepChunk(state: ResumeState, merged: seq<Span>, l: Layout, sequence: nat, from: nat, bytes: nat, chunks: nat,
                    ghost before: seq<Word>)
    returns (rangeIndex: nat, reusedBytes: nat, reusedChunks: nat)
    requires ValidLayout(l) && Separated(merged) && sequence < l.chunks
    requires Sweeping(l, before, merged, sequence, state.bitmap[..], from, state.receivedCount, chunks, bytes)
    modifies state, state.bitmap
    ensures Sweeping(l, before, merged, sequence + 1, state.bitmap[..], rangeIndex, state.receivedCount,
                     reusedChunks, reusedBytes)
  {
    ghost var now, received := state.bitmap[..], state.receivedCount;
    var gained;
    rangeIndex, gained := VisitChunk(state, merged, l, sequence, from);
    SweepingNext(l, before, merged, sequence, now, from, received, chunks, bytes, gained, state.bitmap[..], rangeIndex);
    reusedBytes, reusedChunks := bytes, chunks;
    if gained {
      reusedChunks := reusedChunks + 1;
      reusedBytes := reusedBytes + (Edge(l, sequence + 1) - Edge(l, sequence));
    }
  }

  /** `apply_reusable_content`, the loop over the UDP chunks: one pass, one index into the merged spans. */
  method Sweep(state: ResumeState, merged: seq<Span>, l: Layout) returns (reusedBytes: nat, reusedChunks: nat)
    requires ValidLayout(l) && Separated(merged) && Fits(state.bitmap[..], l.chunks)
    requires state.receivedCount == |Members(state.bitmap[..])|
    modifies state, state.bitmap
    ensures Fits(state.bitmap[..], l.chunks) && Swept(l, old(state.bitmap[..]), merged, l.chunks, state.bitmap[..])
    ensures state.receivedCount == |Members(state.bitmap[..])|
    ensures reusedChunks == |Members(state.bitmap[..])| - |Members(old(state.bitmap[..]))|
    ensures reusedBytes == NewBytes(l, old(state.bitmap[..]), merged, l.chunks)
  {
    ghost var before := state.bitmap[..];
    reusedBytes, reusedChunks := 0, 0;
    var rangeIndex, sequence := 0, 0;
    while sequence < l.chunks
      invariant 0 <= sequence <= l.chunks
      invariant Sweeping(l, before, merged, sequence, state.bitmap[..], rangeIndex, state.receivedCount, reusedChunks,
                reusedBytes)
    {
      rangeIndex, reusedBytes, reusedChunks :=
        SweepChunk(state, merged, l, sequence, rangeIndex, reusedBytes, reusedChunks, before);
      sequence := sequence + 1;
    }
  }

  // ----- finding and copying -----

  /** Where the candidate first has a chunk of this length and hash. */
  type Index = map<(nat, Bytes), nat>

  function KeyOfChunk(c: Chunk): (nat, Bytes) {
    (c.length, c.hash)
  }

  function IndexOf(chunks: seq<Chunk>): Index {
    if chunks == [] then map[]
    else
      var (front, c) := (IndexOf(chunks[..|chunks| - 1]), chunks[|chunks| - 1]);
      if KeyOfChunk(c) in front then front else front[KeyOfChunk(c) := c.offset]
  }

  /** The index knows exactly the candidate's chunks, each by its first occurrence. */
  lemma {:induction false} IndexFindsFirst(chunks: seq<Chunk>, key: (nat, Bytes))
    ensures key in IndexOf(chunks) <==> exists i :: 0 <= i < |chunks| && KeyOfChunk(chunks[i]) == key
    ensures key in IndexOf(chunks) ==>
      exists i :: 0 <= i < |chunks| && KeyOfChunk(chunks[i]) == key && chunks[i].offset == IndexOf(chunks)[key]
                  && forall j :: 0 <= j < i ==> KeyOfChunk(chunks[j]) != key
  {
    if chunks != [] {
      var front, n := chunks[..|chunks| - 1], |chunks| - 1;
      IndexFindsFirst(front, key);
      if key in IndexOf(front) {
        var i :| 0 <= i < |front| && KeyOfChunk(front[i]) == key && front[i].offset == IndexOf(front)[key]
                 && forall j :: 0 <= j < i ==> KeyOfChunk(front[j]) != key;
        assert chunks[i] == front[i] && forall j :: 0 <= j < i ==> chunks[j] == front[j];
      } else {
        assert forall j :: 0 <= j < n ==> KeyOfChunk(front[j]) != key && chunks[j] == front[j];
      }
    }
  }

  method IndexCandidate(chunks: seq<Chunk>) returns (available: Index)
    ensures available == IndexOf(chunks)
  {
    available := map[];
    var n := 0;
    while n < |chunks|
      invariant 0 <= n <= |chunks| && available == IndexOf(chunks[..n])
    {
      assert chunks[..n + 1][..n] == chunks[..n];
      if KeyOfChunk(chunks[n]) !in available {
        available := available[KeyOfChunk(chunks[n]) := chunks[n].offset];
      }
      n := n + 1;
    }
    assert chunks[..n] == chunks;
  }

  /** `read_exact_at`: the candidate may have changed since it was scanned. */
  function ReadExactAt(candidate: Bytes, offset: nat, n: nat): (r: Option<Bytes>)
    ensures r.Some? ==> |r.value| == n
  {
    if offset + n <= |candidate| then Some(candidate[offset..offset + n]) else None
  }

  /** The bytes to copy for a chunk: indexed, still readable, and with the right digest when read again. */
  function Find(available: Index, candidate: Bytes, digest: Digest, c: Chunk): (r: Result<Option<Bytes>>)
    ensures r.Ok? && r.value.Some? ==> |r.value.value| == c.length && digest.of(r.value.value) == c.hash
  {
    if KeyOfChunk(c) !in available then Ok(None)
    else
      match ReadExactAt(candidate, available[KeyOfChunk(c)], c.length)
      case None => Err
      case Some(bytes) => Ok(if digest.of(bytes) == c.hash then Some(bytes) else None)
  }

  predicate Matches(available: Index, candidate: Bytes, digest: Digest, c: Chunk) {
    Find(available, candidate, digest, c).Ok? && Find(available, candidate, digest, c).value.Some?
  }

  /** Chunk `i` of the candidate is the first with this length and hash. */
  ghost predicate FirstAlike(chunks: seq<Chunk>, i: nat, c: Chunk) {
    && i < |chunks| && chunks[i].length == c.length && chunks[i].hash == c.hash
    && forall j :: 0 <= j < i ==> chunks[j].length != c.length || chunks[j].hash != c.hash
  }

  lemma IndexedIsFirst(chunks: seq<Chunk>, c: Chunk) returns (i: nat)
    requires KeyOfChunk(c) in IndexOf(chunks)
    ensures FirstAlike(chunks, i, c) && IndexOf(chunks)[KeyOfChunk(c)] == chunks[i].offset
  {
    IndexFindsFirst(chunks, KeyOfChunk(c));
    i :| 0 <= i < |chunks| && KeyOfChunk(chunks[i]) == KeyOfChunk(c)
      && chunks[i].offset == IndexOf(chunks)[KeyOfChunk(c)]
      && forall j :: 0 <= j < i ==> KeyOfChunk(chunks[j]) != KeyOfChunk(c);
    forall j | 0 <= j < i ensures chunks[j].length != c.length || chunks[j].hash != c.hash {
      assert KeyOfChunk(chunks[j]) != KeyOfChunk(c);
    }
  }

  lemma FirstIsUnique(chunks: seq<Chunk>, i: nat, j: nat, c: Chunk)
    requires FirstAlike(chunks, i, c) && FirstAlike(chunks, j, c)
    ensures i == j
  {
  }

  lemma FirstIsIndexed(chunks: seq<Chunk>, i: nat, c: Chunk)
    requires FirstAlike(chunks, i, c)
    ensures KeyOfChunk(c) in IndexOf(chunks) && IndexOf(chunks)[KeyOfChunk(c)] == chunks[i].offset
  {
    IndexFindsFirst(chunks, KeyOfChunk(c));
    assert KeyOfChunk(chunks[i]) == KeyOfChunk(c);
    var j := IndexedIsFirst(chunks, c);
    FirstIsUnique(chunks, i, j, c);
  }

  /** Where that chunk was seen, the candidate still has these bytes, with the right hash. */
  ghost predicate Supplies(chunks: seq<Chunk>, i: nat, candidate: Bytes, digest: Digest, c: Chunk, bytes: Bytes) {
    && FirstAlike(chunks, i, c) && chunks[i].offset + c.length <= |candidate|
    && bytes == candidate[chunks[i].offset..chunks[i].offset + c.length] && digest.of(bytes) == c.hash
  }

  /** The candidate has become too short for it. */
  ghost predicate TooShort(chunks: seq<Chunk>, i: nat, candidate: Bytes, c: Chunk) {
    FirstAlike(chunks, i, c) && chunks[i].offset + c.length > |candidate|
  }

  lemma FindAlike(chunks: seq<Chunk>, i: nat, candidate: Bytes, digest: Digest, c: Chunk)
    requires FirstAlike(chunks, i, c)
    ensures TooShort(chunks, i, candidate, c) <==> Find(IndexOf(chunks), candidate, digest, c).Err?
    ensures forall bytes :: Supplies(chunks, i, candidate, digest, c, bytes) <==>
              Find(IndexOf(chunks), candidate, digest, c) == Ok(Some(bytes))
  {
    FirstIsIndexed(chunks, i, c);
  }

  lemma NoneAlike(chunks: seq<Chunk>, i: nat, candidate: Bytes, digest: Digest, c: Chunk)
    requires KeyOfChunk(c) !in IndexOf(chunks)
    ensures Find(IndexOf(chunks), candidate, digest, c) == Ok(None) && !FirstAlike(chunks, i, c)
  {
    if FirstAlike(chunks, i, c) { FirstIsIndexed(chunks, i, c); }
  }

  /**
    What is copied for a chunk: the bytes where the candidate's first chunk of that length and hash was seen, if they
    are still there and still have the hash. And the search fails exactly when they are no longer there.
  */
  lemma FindIff(chunks: seq<Chunk>, candidate: Bytes, digest: Digest, c: Chunk, bytes: Bytes)
    ensures Find(IndexOf(chunks), candidate, digest, c) == Ok(Some(bytes)) <==>
            exists i :: Supplies(chunks, i, candidate, digest, c, bytes)
    ensures Find(IndexOf(chunks), candidate, digest, c).Err? <==> exists i :: TooShort(chunks, i, candidate, c)
  {
    if KeyOfChunk(c) in IndexOf(chunks) {
      var i := IndexedIsFirst(chunks, c);
      FindAlike(chunks, i, candidate, digest, c);
      forall j: nat | FirstAlike(chunks, j, c) ensures j == i { FirstIsUnique(chunks, i, j, c); }
    } else {
      NoneAlike(chunks, 0, candidate, digest, c);
      forall j: nat ensures !FirstAlike(chunks, j, c) { NoneAlike(chunks, j, candidate, digest, c); }
    }
  }

  /** One of the first `n` chunks can no longer be read from the candidate. */
  ghost predicate Unreadable(target: seq<Chunk>, n: nat, available: Index, candidate: Bytes, digest: Digest)
    requires n <= |target|
  {
    exists i :: 0 <= i < n && Find(available, candidate, digest, target[i]).Err?
  }

  /** Byte `x` belongs to a verified chunk among the first `n`. */
  ghost predicate InMatched(target: seq<Chunk>, n: nat, available: Index, candidate: Bytes, digest: Digest, x: nat)
    requires n <= |target|
  {
    exists i :: 0 <= i < n && Matches(available, candidate, digest, target[i])
                && target[i].offset <= x < target[i].offset + target[i].length
  }

  function End(c: Chunk): nat { c.offset + c.length }

  /** The chunk, if it was verified, is in place. */
  ghost predicate InPlace(c: Chunk, available: Index, candidate: Bytes, digest: Digest, content: Bytes) {
    Matches(available, candidate, digest, c) ==>
      End(c) <= |content| && content[c.offset..End(c)] == Find(available, candidate, digest, c).value.value
  }

  /** The verified chunks among the first `n` are in place and nothing else has moved. */
  ghost predicate Copied(target: seq<Chunk>, n: nat, available: Index, candidate: Bytes, digest: Digest, before: Bytes,
                         content: Bytes)
    requires n <= |target|
  {
    && |content| == |before|
    && (forall i :: 0 <= i < n ==> InPlace(target[i], available, candidate, digest, content))
    && (forall x: nat :: x < |before| && content[x] != before[x] ==>
          InMatched(target, n, available, candidate, digest, x))
  }

  lemma InMatchedNext(target: seq<Chunk>, n: nat, available: Index, candidate: Bytes, digest: Digest, x: nat)
    requires n < |target|
    ensures InMatched(target, n + 1, available, candidate, digest, x)
        <==> InMatched(target, n, available, candidate, digest, x)
             || (Matches(available, candidate, digest, target[n]) && target[n].offset <= x < End(target[n]))
  {
  }

  lemma {:induction false} EarlierEnds(chunks: seq<Chunk>, size: nat, i: nat, j: nat)
    requires Tiles(chunks, 0, size) && i < j < |chunks|
    ensures End(chunks[i]) <= chunks[j].offset
  {
    TileEdges(chunks, 0, size, i);
    TileEdges(chunks, 0, size, j - 1);
    TileEdges(chunks, 0, size, j);
    if i < j - 1 {
      EarlierEnds(chunks, size, i, j - 1);
    }
  }

  lemma CopyNext(target: seq<Chunk>, n: nat, available: Index, candidate: Bytes, digest: Digest, before: Bytes,
                 content: Bytes)
    requires n < |target| && Tiles(target, 0, |before|)
    requires Copied(target, n, available, candidate, digest, before, content)
    requires Matches(available, candidate, digest, target[n])
    ensures End(target[n]) <= |content|
    ensures var bytes := Find(available, candidate, digest, target[n]).value.value;
            Copied(target, n + 1, available, candidate, digest, before, Overwrite(content, target[n].offset, bytes))
  {
    TileEdges(target, 0, |before|, n);
    var c, bytes := target[n], Find(available, candidate, digest, target[n]).value.value;
    var content' := Overwrite(content, c.offset, bytes);
    forall i | 0 <= i < n + 1 ensures InPlace(target[i], available, candidate, digest, content') {
      if i < n {
        EarlierEnds(target, |before|, i, n);
        EarlierStays(target[i], available, candidate, digest, content, c.offset, bytes);
      } else {
        assert content'[c.offset..End(c)] == bytes;
      }
    }
    forall x: nat | x < |before| && content'[x] != before[x]
      ensures InMatched(target, n + 1, available, candidate, digest, x)
    {
      InMatchedNext(target, n, available, candidate, digest, x);
    }
  }

  /** A write behind a chunk leaves it in place. */
  lemma EarlierStays(c: Chunk, available: Index, candidate: Bytes, digest: Digest, content: Bytes, offset: nat,
                     bytes: Bytes)
    requires InPlace(c, available, candidate, digest, content) && End(c) <= offset && offset + |bytes| <= |content|
    ensures InPlace(c, available, candidate, digest, Overwrite(content, offset, bytes))
  {
    assert Overwrite(content, offset, bytes)[c.offset..End(c)] == content[c.offset..End(c)];
  }

  /** The chunk's place in the source, and the bytes `Find` reads for it, are among what the run hashes. */
  ghost predicate ChunkHashed(digest: Digest, c: Chunk, available: Index, candidate: Bytes, source: Bytes) {
    && (End(c) <= |source| ==> digest.hashed(source[c.offset..End(c)]))
    && (KeyOfChunk(c) in available ==>
          match ReadExactAt(candidate, available[KeyOfChunk(c)], c.length)
          case None => true
          case Some(bytes) => digest.hashed(bytes))
  }

  /** What ties a manifest and a candidate to the object on offer; nothing is assumed of what the candidate holds. */
  ghost predicate Trusted(digest: Digest, target: seq<Chunk>, available: Index, candidate: Bytes, z: Offer) {
    && Describes(target, digest.of, z.source)
    && forall i :: 0 <= i < |target| ==> ChunkHashed(digest, target[i], available, candidate, z.source)
  }

  /** Whatever is copied is the source's. */
  lemma FoundIsSource(digest: Digest, target: seq<Chunk>, n: nat, available: Index, candidate: Bytes, z: Offer)
    requires CollisionFree(digest) && Trusted(digest, target, available, candidate, z) && n < |target|
    requires Matches(available, candidate, digest, target[n])
    ensures End(target[n]) <= |z.source|
    ensures Find(available, candidate, digest, target[n]).value.value == z.source[target[n].offset..End(target[n])]
  {
    var c := target[n];
    assert ChunkHashed(digest, c, available, candidate, z.source);
  }

  /** The state between two copies: how much is in place, and whether a crash now would be harmless. */
  ghost predicate Copying(storage: Storage, start: nat, live: bool, digest: Digest, z: Offer, bitmap: seq<Word>)
    requires CollisionFree(digest) && ValidOffer(digest, z)
    reads storage
  {
    && start <= |storage.history|
    && (live ==> Live(digest, storage.disk, z, bitmap) && AllCrashSafe(digest, storage.history[start..], z))
  }

  method CopyChunk(storage: Storage, c: Chunk, bytes: Bytes, ghost start: nat, ghost live: bool, ghost digest: Digest,
                   ghost z: Offer, ghost bitmap: seq<Word>)
    requires CollisionFree(digest) && ValidOffer(digest, z) && Copying(storage, start, live, digest, z, bitmap)
    requires storage.disk.receipts.Some? ==> |storage.disk.receipts.value| == 1
    requires CanWrite(storage.disk, c.offset, bytes)
    requires live ==> c.offset + |bytes| <= z.layout.size && bytes == z.source[c.offset..c.offset + |bytes|]
    modifies storage
    ensures storage.disk == WritePart(old(storage.disk), c.offset, bytes)
    ensures Copying(storage, start, live, digest, z, bitmap) && old(storage.history) <= storage.history
  {
    if live { SourceWriteKeepsLive(digest, storage.disk, z, bitmap, c.offset, bytes); }
    storage.Perform(WritePart(storage.disk, c.offset, bytes));
    if live { LiveIsCrashSafe(digest, storage.disk, z, bitmap); }
  }

  /** The copied spans, in order, are the verified chunks among the first `n`. */
  ghost predicate Listed(target: seq<Chunk>, n: nat, available: Index, candidate: Bytes, digest: Digest,
                         copied: seq<Span>)
    requires n <= |target|
  {
    && Ordered(copied) && (copied != [] ==> n > 0 && copied[|copied| - 1].1 <= End(target[n - 1]))
    && forall x: nat :: Covers(copied, x) <==> InMatched(target, n, available, candidate, digest, x)
  }

  lemma ListedNext(target: seq<Chunk>, size: nat, n: nat, available: Index, candidate: Bytes, digest: Digest,
                   spans: seq<Span>)
    requires n < |target| && Tiles(target, 0, size) && Matches(available, candidate, digest, target[n])
    requires Listed(target, n, available, candidate, digest, spans)
    ensures Listed(target, n + 1, available, candidate, digest, spans + [(target[n].offset, End(target[n]))])
  {
    TileEdges(target, 0, size, n);
    if n > 0 { EarlierEnds(target, size, n - 1, n); }
    SpansNext(target, n, available, candidate, digest, spans);
  }

  lemma ListedSkip(target: seq<Chunk>, size: nat, n: nat, available: Index, candidate: Bytes, digest: Digest,
                   spans: seq<Span>)
    requires n < |target| && Tiles(target, 0, size) && !Matches(available, candidate, digest, target[n])
    requires Listed(target, n, available, candidate, digest, spans)
    ensures Listed(target, n + 1, available, candidate, digest, spans)
  {
    TileEdges(target, 0, size, n);
    if n > 0 { EarlierEnds(target, size, n - 1, n); }
    forall x: nat
      ensures InMatched(target, n + 1, available, candidate, digest, x) <==>
              InMatched(target, n, available, candidate, digest, x)
    {
      InMatchedNext(target, n, available, candidate, digest, x);
    }
  }

  method CopyFound(storage: Storage, target: seq<Chunk>, i: nat, available: Index, candidate: Bytes, digest: Digest,
                   ghost start: nat, ghost live: bool, ghost z: Offer, ghost bitmap: seq<Word>, ghost before: Bytes)
    requires CollisionFree(digest) && ValidOffer(digest, z) && Copying(storage, start, live, digest, z, bitmap)
    requires storage.disk.receipts.Some? ==> |storage.disk.receipts.value| == 1
    requires live ==> Trusted(digest, target, available, candidate, z)
    requires PartOk(z, storage.disk) && Tiles(target, 0, z.layout.size) && i < |target| && |before| == z.layout.size
    requires Copied(target, i, available, candidate, digest, before, Latest(storage.disk.part.value))
    requires Matches(available, candidate, digest, target[i])
    modifies storage
    ensures storage.disk == old(storage.disk).(part := storage.disk.part) && PartOk(z, storage.disk)
    ensures Copied(target, i + 1, available, candidate, digest, before, Latest(storage.disk.part.value))
    ensures Copying(storage, start, live, digest, z, bitmap) && old(storage.history) <= storage.history
  {
    CopyNext(target, i, available, candidate, digest, before, Latest(storage.disk.part.value));
    if live { FoundIsSource(digest, target, i, available, candidate, z); }
    CopyChunk(storage, target[i], Find(available, candidate, digest, target[i]).value.value, start, live, digest, z,
      bitmap);
  }

  /** One chunk of the target: look it up, and copy it when the candidate has it. */
  method CopyOne(storage: Storage, target: seq<Chunk>, i: nat, available: Index, candidate: Bytes, digest: Digest,
                 copied: seq<Span>, ghost start: nat, ghost live: bool, ghost z: Offer, ghost bitmap: seq<Word>,
                 ghost before: Bytes)
    returns (r: Result<seq<Span>>)
    requires CollisionFree(digest) && ValidOffer(digest, z) && Copying(storage, start, live, digest, z, bitmap)
    requires storage.disk.receipts.Some? ==> |storage.disk.receipts.value| == 1
    requires live ==> Trusted(digest, target, available, candidate, z)
    requires PartOk(z, storage.disk) && Tiles(target, 0, z.layout.size) && i < |target| && |before| == z.layout.size
    requires Copied(target, i, available, candidate, digest, before, Latest(storage.disk.part.value))
    requires Listed(target, i, available, candidate, digest, copied)
    modifies storage
    ensures storage.disk == old(storage.disk).(part := storage.disk.part) && PartOk(z, storage.disk)
    ensures Copying(storage, start, live, digest, z, bitmap) && old(storage.history) <= storage.history
    ensures r.Err? <==> Find(available, candidate, digest, target[i]).Err?
    ensures Copied(target, if r.Ok? then i + 1 else i, available, candidate, digest, before,
                   Latest(storage.disk.part.value))
    ensures r.Ok? ==> Listed(target, i + 1, available, candidate, digest, r.value)
  {
    var found := Find(available, candidate, digest, target[i]);
    if found.Err? {
      return Err;
    }
    if found.value.None? {
      CopiedSkip(target, i, available, candidate, digest, before, Latest(storage.disk.part.value));
      ListedSkip(target, z.layout.size, i, available, candidate, digest, copied);
      return Ok(copied);
    }
    ListedNext(target, z.layout.size, i, available, candidate, digest, copied);
    CopyFound(storage, target, i, available, candidate, digest, start, live, z, bitmap, before);
    return Ok(copied + [(target[i].offset, End(target[i]))]);
  }

  lemma UnreadableNext(target: seq<Chunk>, n: nat, available: Index, candidate: Bytes, digest: Digest)
    requires n < |target|
    ensures Unreadable(target, n + 1, available, candidate, digest) <==>
            Unreadable(target, n, available, candidate, digest) || Find(available, candidate, digest, target[n]).Err?
    ensures Unreadable(target, n + 1, available, candidate, digest) ==>
            Unreadable(target, |target|, available, candidate, digest)
  {
  }

  /** Only bytes of verified chunks have changed. */
  ghost predicate OnlyVerifiedMoved(target: seq<Chunk>, available: Index, candidate: Bytes, digest: Digest,
                                    before: Bytes, content: Bytes)
  {
    && |content| == |before|
    && forall x: nat :: x < |before| && content[x] != before[x] ==>
         InMatched(target, |target|, available, candidate, digest, x)
  }

  lemma PartlyMoved(target: seq<Chunk>, n: nat, available: Index, candidate: Bytes, digest: Digest, before: Bytes,
                    content: Bytes)
    requires n <= |target| && Copied(target, n, available, candidate, digest, before, content)
    ensures OnlyVerifiedMoved(target, available, candidate, digest, before, content)
  {
    forall x: nat | x < |before| && content[x] != before[x]
      ensures InMatched(target, |target|, available, candidate, digest, x)
    {
      assert InMatched(target, n, available, candidate, digest, x);
    }
  }

  /** The copy loop. An unreadable candidate ends it with an error; what was copied stays. */
  method CopyMatching(storage: Storage, target: seq<Chunk>, available: Index, candidate: Bytes, digest: Digest,
                      ghost live: bool, ghost z: Offer, ghost bitmap: seq<Word>)
    returns (r: Result<seq<Span>>)
    requires CollisionFree(digest) && ValidOffer(digest, z)
    requires storage.disk.receipts.Some? ==> |storage.disk.receipts.value| == 1
    requires PartOk(z, storage.disk) && Tiles(target, 0, z.layout.size)
    requires live ==> Live(digest, storage.disk, z, bitmap) && Trusted(digest, target, available, candidate, z)
    modifies storage
    ensures storage.disk == old(storage.disk).(part := storage.disk.part) && PartOk(z, storage.disk)
    ensures Copying(storage, |old(storage.history)|, live, digest, z, bitmap) && old(storage.history) <= storage.history
    ensures r.Err? <==> Unreadable(target, |target|, available, candidate, digest)
    ensures r.Ok? ==> Listed(target, |target|, available, candidate, digest, r.value)
    ensures r.Ok? ==> Copied(target, |target|, available, candidate, digest, old(Latest(storage.disk.part.value)),
                             Latest(storage.disk.part.value))
    ensures OnlyVerifiedMoved(target, available, candidate, digest, old(Latest(storage.disk.part.value)),
                              Latest(storage.disk.part.value))
  {
    ghost var before, start := Latest(storage.disk.part.value), |storage.history|;
    var copied: seq<Span> := [];
    var i := 0;
    while i < |target|
      invariant 0 <= i <= |target|
      invariant storage.disk == old(storage.disk).(part := storage.disk.part) && PartOk(z, storage.disk)
      invariant Copied(target, i, available, candidate, digest, before, Latest(storage.disk.part.value))
      invariant Copying(storage, start, live, digest, z, bitmap) && old(storage.history) <= storage.history
      invariant Listed(target, i, available, candidate, digest, copied)
      invariant !Unreadable(target, i, available, candidate, digest)
    {
      var more := CopyOne(storage, target, i, available, candidate, digest, copied, start, live, z, bitmap, before);
      UnreadableNext(target, i, available, candidate, digest);
      if more.Err? {
        PartlyMoved(target, i, available, candidate, digest, before, Latest(storage.disk.part.value));
        return Err;
      }
      copied := more.value;
      i := i + 1;
    }
    PartlyMoved(target, i, available, candidate, digest, before, Latest(storage.disk.part.value));
    return Ok(copied);
  }

  lemma SpansNext(target: seq<Chunk>, n: nat, available: Index, candidate: Bytes, digest: Digest, spans: seq<Span>)
    requires n < |target| && Matches(available, candidate, digest, target[n])
    requires forall x: nat :: Covers(spans, x) <==> InMatched(target, n, available, candidate, digest, x)
    ensures var more := spans + [(target[n].offset, End(target[n]))];
            forall x: nat :: Covers(more, x) <==> InMatched(target, n + 1, available, candidate, digest, x)
  {
    var more := spans + [(target[n].offset, End(target[n]))];
    forall x: nat ensures Covers(more, x) <==> InMatched(target, n + 1, available, candidate, digest, x) {
      CoversSnoc(spans, (target[n].offset, End(target[n])), x);
      InMatchedNext(target, n, available, candidate, digest, x);
    }
  }

  lemma CopiedSkip(target: seq<Chunk>, n: nat, available: Index, candidate: Bytes, digest: Digest, before: Bytes,
                   content: Bytes)
    requires n < |target| && !Matches(available, candidate, digest, target[n])
    requires Copied(target, n, available, candidate, digest, before, content)
    ensures Copied(target, n + 1, available, candidate, digest, before, content)
  {
    forall x: nat | x < |before| && content[x] != before[x]
      ensures InMatched(target, n + 1, available, candidate, digest, x)
    {
      InMatchedNext(target, n, available, candidate, digest, x);
    }
  }

  // ----- the whole operation -----

  /** What `cdc::scan` of the candidate gave. */
  datatype Scan = Missing | Failed | Scanned(chunks: seq<Chunk>)

  /** Where the candidate's chunks are, if it could be scanned. */
  function Offered(scan: Scan): Index {
    if scan.Scanned? then IndexOf(scan.chunks) else map[]
  }

  /** Byte `x` was copied as part of a content chunk whose digest was checked. */
  ghost predicate Verified(target: seq<Chunk>, scan: Scan, candidate: Bytes, digest: Digest, x: nat) {
    scan.Scanned? && InMatched(target, |target|, IndexOf(scan.chunks), candidate, digest, x)
  }

  ghost predicate AllVerified(l: Layout, target: seq<Chunk>, scan: Scan, candidate: Bytes, digest: Digest, k: nat) {
    forall x: nat :: Edge(l, k) <= x < Edge(l, k + 1) ==> Verified(target, scan, candidate, digest, x)
  }

  /** The new receipts are exactly the chunks whose every byte was verified. */
  ghost predicate Gained(l: Layout, target: seq<Chunk>, scan: Scan, candidate: Bytes, digest: Digest,
                         before: seq<Word>, after: seq<Word>)
  {
    forall k: nat :: Contains(after, k) <==>
      Contains(before, k) || (k < l.chunks && AllVerified(l, target, scan, candidate, digest, k))
  }

  lemma SweptIsGained(l: Layout, target: seq<Chunk>, scan: Scan, candidate: Bytes, digest: Digest, spans: seq<Span>,
                      before: seq<Word>, after: seq<Word>)
    requires Swept(l, before, spans, l.chunks, after)
    requires forall x: nat :: Covers(spans, x) <==> Verified(target, scan, candidate, digest, x)
    ensures Gained(l, target, scan, candidate, digest, before, after)
  {
    forall k: nat | k < l.chunks ensures Covered(l, spans, k) <==> AllVerified(l, target, scan, candidate, digest, k) {
      if Covered(l, spans, k) {
        forall x: nat | Edge(l, k) <= x < Edge(l, k + 1) ensures Verified(target, scan, candidate, digest, x) {
          assert Covers(spans, x);
        }
      }
    }
  }

  lemma NothingVerified(l: Layout, target: seq<Chunk>, scan: Scan, candidate: Bytes, digest: Digest, bitmap: seq<Word>)
    requires ValidLayout(l) && forall x: nat :: !Verified(target, scan, candidate, digest, x)
    ensures Gained(l, target, scan, candidate, digest, bitmap, bitmap)
  {
    forall k: nat | k < l.chunks ensures !AllVerified(l, target, scan, candidate, digest, k) {
      ChunkShape(l, k);
      assert !Verified(target, scan, candidate, digest, Edge(l, k));
    }
  }

  /** The overlapping writes leave every receipt, old or new, naming correct bytes. */
  lemma GainedIsCorrect(z: Offer, target: seq<Chunk>, chunks: seq<Chunk>, candidate: Bytes, digest: Digest,
                        content: Bytes, was: Bytes, before: seq<Word>, after: seq<Word>)
    requires CollisionFree(digest) && ValidOffer(digest, z) && Trusted(digest, target, IndexOf(chunks), candidate, z)
    requires Tiles(target, 0, z.layout.size)
             && Copied(target, |target|, IndexOf(chunks), candidate, digest, was, content)
    requires Correct(z.layout, content, z.source, before)
    requires Gained(z.layout, target, Scanned(chunks), candidate, digest, before, after)
    ensures Correct(z.layout, content, z.source, after)
  {
    var l := z.layout;
    forall k: nat | k < l.chunks && Contains(after, k) ensures ChunkOf(l, content, k) == ChunkOf(l, z.source, k) {
      if !Contains(before, k) {
        VerifiedChunk(z, target, chunks, candidate, digest, content, was, k);
      }
    }
  }

  lemma VerifiedChunk(z: Offer, target: seq<Chunk>, chunks: seq<Chunk>, candidate: Bytes, digest: Digest,
                      content: Bytes, was: Bytes, k: nat)
    requires CollisionFree(digest) && Trusted(digest, target, IndexOf(chunks), candidate, z)
    requires |content| == |z.source| == z.layout.size
    requires Copied(target, |target|, IndexOf(chunks), candidate, digest, was, content)
    requires AllVerified(z.layout, target, Scanned(chunks), candidate, digest, k)
    ensures ChunkOf(z.layout, content, k) == ChunkOf(z.layout, z.source, k)
  {
    var l := z.layout;
    EdgeMonotone(l, k, k + 1);
    forall x | Edge(l, k) <= x < Edge(l, k + 1) ensures content[x] == z.source[x] {
      assert Verified(target, Scanned(chunks), candidate, digest, x);
      VerifiedByte(z, target, IndexOf(chunks), candidate, digest, was, content, x);
    }
  }

  lemma VerifiedByte(z: Offer, target: seq<Chunk>, available: Index, candidate: Bytes, digest: Digest, was: Bytes,
                     content: Bytes, x: nat)
    requires CollisionFree(digest) && Trusted(digest, target, available, candidate, z)
    requires Copied(target, |target|, available, candidate, digest, was, content)
    requires InMatched(target, |target|, available, candidate, digest, x)
    ensures x < |content| && x < |z.source| && content[x] == z.source[x]
  {
    var i :| 0 <= i < |target| && Matches(available, candidate, digest, target[i])
             && target[i].offset <= x < target[i].offset + target[i].length;
    FoundIsSource(digest, target, i, available, candidate, z);
    SameSliceSameByte(content, z.source, target[i].offset, End(target[i]), x);
  }

  lemma SameSliceSameByte(a: Bytes, b: Bytes, low: nat, high: nat, x: nat)
    requires low <= x < high <= |a| && high <= |b| && a[low..high] == b[low..high]
    ensures a[x] == b[x]
  {
    assert a[low..high][x - low] == a[x] && b[low..high][x - low] == b[x];
  }

  lemma {:induction false} NoNewBytes(l: Layout, before: seq<Word>, n: nat)
    requires ValidLayout(l) && n <= l.chunks
    ensures NewBytes(l, before, [], n) == 0
  {
    if n > 0 {
      NoNewBytes(l, before, n - 1);
      ChunkShape(l, n - 1);
      assert !Covers([], Edge(l, n - 1));
    }
  }

  /** Byte `x` lies in one of the first `n` chunks that one bitmap records and the other does not. */
  ghost predicate InNewChunk(l: Layout, before: seq<Word>, after: seq<Word>, n: nat, x: nat) {
    exists k: nat :: k < n && Contains(after, k) && !Contains(before, k) && Edge(l, k) <= x < Edge(l, k + 1)
  }

  ghost function BytesInNewChunks(l: Layout, before: seq<Word>, after: seq<Word>, n: nat): set<nat> {
    set x: nat | x < l.size && InNewChunk(l, before, after, n, x)
  }

  ghost function Interval(low: nat, high: nat): (s: set<nat>)
    ensures forall x: nat :: x in s <==> low <= x < high
    decreases high
  {
    if high <= low then {} else Interval(low, high - 1) + {high - 1}
  }

  lemma {:induction false} IntervalSize(low: nat, high: nat)
    requires low <= high
    ensures |Interval(low, high)| == high - low
    decreases high
  {
    if low < high { IntervalSize(low, high - 1); }
  }

  lemma InNewChunkNext(l: Layout, before: seq<Word>, after: seq<Word>, n: nat, x: nat)
    ensures InNewChunk(l, before, after, n + 1, x) <==>
            || InNewChunk(l, before, after, n, x)
            || (Contains(after, n) && !Contains(before, n) && Edge(l, n) <= x < Edge(l, n + 1))
  {
  }

  lemma UnionSize(a: set<nat>, b: set<nat>)
    requires a !! b
    ensures |a + b| == |a| + |b|
  {
  }

  lemma NoMoreBytes(l: Layout, before: seq<Word>, after: seq<Word>, n: nat)
    requires !(Contains(after, n) && !Contains(before, n))
    ensures BytesInNewChunks(l, before, after, n + 1) == BytesInNewChunks(l, before, after, n)
  {
    forall x: nat ensures InNewChunk(l, before, after, n + 1, x) <==> InNewChunk(l, before, after, n, x) {
      InNewChunkNext(l, before, after, n, x);
    }
  }

  lemma MoreBytes(l: Layout, before: seq<Word>, after: seq<Word>, n: nat)
    requires Contains(after, n) && !Contains(before, n)
    ensures BytesInNewChunks(l, before, after, n + 1)
         == BytesInNewChunks(l, before, after, n) + Interval(Edge(l, n), Edge(l, n + 1))
    ensures BytesInNewChunks(l, before, after, n) !! Interval(Edge(l, n), Edge(l, n + 1))
  {
    EarlierChunksEnd(l, before, after, n);
    forall x: nat
      ensures x in BytesInNewChunks(l, before, after, n + 1) <==>
              x in BytesInNewChunks(l, before, after, n) || x in Interval(Edge(l, n), Edge(l, n + 1))
    {
      InNewChunkNext(l, before, after, n, x);
    }
  }

  lemma OneMoreChunk(l: Layout, before: seq<Word>, after: seq<Word>, n: nat)
    ensures Edge(l, n) <= Edge(l, n + 1)
    ensures |BytesInNewChunks(l, before, after, n + 1)| == |BytesInNewChunks(l, before, after, n)|
         + if Contains(after, n) && !Contains(before, n) then Edge(l, n + 1) - Edge(l, n) else 0
  {
    EdgeMonotone(l, n, n + 1);
    if Contains(after, n) && !Contains(before, n) {
      MoreBytes(l, before, after, n);
      UnionSize(BytesInNewChunks(l, before, after, n), Interval(Edge(l, n), Edge(l, n + 1)));
      IntervalSize(Edge(l, n), Edge(l, n + 1));
    } else {
      NoMoreBytes(l, before, after, n);
    }
  }

  lemma EarlierChunksEnd(l: Layout, before: seq<Word>, after: seq<Word>, n: nat)
    ensures forall x: nat :: InNewChunk(l, before, after, n, x) ==> x < Edge(l, n)
  {
    forall x: nat | InNewChunk(l, before, after, n, x) ensures x < Edge(l, n) {
      var k: nat :| k < n && Contains(after, k) && !Contains(before, k) && Edge(l, k) <= x < Edge(l, k + 1);
      EdgeMonotone(l, k + 1, n);
    }
  }

  /** Chunk `k` is new in `after` just when the spans cover it and it was not there before. */
  ghost predicate GainedAt(l: Layout, before: seq<Word>, spans: seq<Span>, after: seq<Word>, k: nat) {
    Contains(after, k) && !Contains(before, k) <==> !Contains(before, k) && Covered(l, spans, k)
  }

  ghost predicate GainedBelow(l: Layout, before: seq<Word>, spans: seq<Span>, after: seq<Word>, n: nat) {
    forall k: nat :: k < n ==> GainedAt(l, before, spans, after, k)
  }

  lemma SweptGains(l: Layout, before: seq<Word>, spans: seq<Span>, after: seq<Word>)
    requires Swept(l, before, spans, l.chunks, after)
    ensures GainedBelow(l, before, spans, after, l.chunks)
  {
  }

  lemma NewBytesNext(l: Layout, before: seq<Word>, spans: seq<Span>, n: nat, gained: bool)
    requires gained <==> !Contains(before, n) && Covered(l, spans, n)
    ensures Edge(l, n) <= Edge(l, n + 1)
    ensures NewBytes(l, before, spans, n + 1)
         == NewBytes(l, before, spans, n) + if gained then Edge(l, n + 1) - Edge(l, n) else 0
  {
    EdgeMonotone(l, n, n + 1);
  }

  lemma NoneInNone(l: Layout, before: seq<Word>, spans: seq<Span>, after: seq<Word>)
    ensures NewBytes(l, before, spans, 0) == |BytesInNewChunks(l, before, after, 0)|
  {
    assert BytesInNewChunks(l, before, after, 0) == {};
  }

  ghost predicate CountedAlike(l: Layout, before: seq<Word>, spans: seq<Span>, after: seq<Word>, n: nat) {
    NewBytes(l, before, spans, n) == |BytesInNewChunks(l, before, after, n)|
  }

  lemma CountedNext(l: Layout, before: seq<Word>, spans: seq<Span>, after: seq<Word>, n: nat)
    requires CountedAlike(l, before, spans, after, n) && GainedAt(l, before, spans, after, n)
    ensures CountedAlike(l, before, spans, after, n + 1)
  {
    OneMoreChunk(l, before, after, n);
    NewBytesNext(l, before, spans, n, Contains(after, n) && !Contains(before, n));
  }

  lemma {:induction false} AllCountedAlike(l: Layout, before: seq<Word>, spans: seq<Span>, after: seq<Word>, n: nat)
    requires GainedBelow(l, before, spans, after, n)
    ensures CountedAlike(l, before, spans, after, n)
  {
    if n == 0 {
      NoneInNone(l, before, spans, after);
    } else {
      AllCountedAlike(l, before, spans, after, n - 1);
      assert GainedAt(l, before, spans, after, n - 1);
      CountedNext(l, before, spans, after, n - 1);
    }
  }

  /** The bytes counted as reused are as many as lie in the chunks gained. */
  lemma ReusedBytesAreGained(l: Layout, before: seq<Word>, spans: seq<Span>, after: seq<Word>)
    requires Swept(l, before, spans, l.chunks, after)
    ensures NewBytes(l, before, spans, l.chunks) == |BytesInNewChunks(l, before, after, l.chunks)|
  {
    SweptGains(l, before, spans, after);
    AllCountedAlike(l, before, spans, after, l.chunks);
  }

  /** Merge, sweep and, when something was gained, checkpoint. */
  method MarkCovered(storage: Storage, state: ResumeState, target: seq<Chunk>, ghost scan: Scan, ghost candidate: Bytes,
                     ghost digest: Digest, ghost z: Offer, l: Layout, copied: seq<Span>, ghost live: bool,
                     ghost was: Bytes, ghost start: nat)
    returns (reusedBytes: nat, reusedChunks: nat, ghost merged: seq<Span>)
    requires CollisionFree(digest) && ValidOffer(digest, z) && state.key == KeyOf(digest, z) && l == z.layout
    requires storage.disk.receipts == Some([EncodeMap(state.key, state.bitmap[..])])
    requires PartOk(z, storage.disk) && Tiles(target, 0, l.size) && scan.Scanned?
    requires Fits(state.bitmap[..], l.chunks) && state.receivedCount == |Members(state.bitmap[..])|
    requires Listed(target, |target|, IndexOf(scan.chunks), candidate, digest, copied)
    requires Copied(target, |target|, IndexOf(scan.chunks), candidate, digest, was, Latest(storage.disk.part.value))
    requires Copying(storage, start, live, digest, z, state.bitmap[..])
    requires live ==> Trusted(digest, target, IndexOf(scan.chunks), candidate, z)
    modifies storage, state, state.bitmap
    ensures PartOk(z, storage.disk) && storage.disk.dest == old(storage.disk.dest)
    ensures Latest(storage.disk.part.value) == old(Latest(storage.disk.part.value))
    ensures Fits(state.bitmap[..], l.chunks) && state.receivedCount == |Members(state.bitmap[..])|
    ensures Gained(l, target, scan, candidate, digest, old(state.bitmap[..]), state.bitmap[..])
    ensures forall x: nat :: Covers(merged, x) <==> Verified(target, scan, candidate, digest, x)
    ensures reusedBytes == NewBytes(l, old(state.bitmap[..]), merged, l.chunks)
    ensures reusedChunks == |Members(state.bitmap[..])| - |Members(old(state.bitmap[..]))|
    ensures storage.disk.receipts == Some([EncodeMap(state.key, state.bitmap[..])])
    ensures old(storage.history) <= storage.history
    ensures Copying(storage, start, live, digest, z, state.bitmap[..])
  {
    ghost var before := state.bitmap[..];
    var spans := Merge(copied);
    merged := spans;
    reusedBytes, reusedChunks := Sweep(state, spans, l);
    SweptIsGained(l, target, scan, candidate, digest, merged, before, state.bitmap[..]);
    if live {
      GainedIsCorrect(z, target, scan.chunks, candidate, digest, Latest(storage.disk.part.value), was, before,
        state.bitmap[..]);
      LargerBitmapStaysLive(digest, storage.disk, z, before, state.bitmap[..]);
    }
    if reusedChunks > 0 {
      SaveGained(storage, state, digest, z, live, start);
    } else {
      NothingGained(before, state.bitmap[..]);
    }
  }

  method SaveGained(storage: Storage, state: ResumeState, ghost digest: Digest, ghost z: Offer, ghost live: bool,
                    ghost start: nat)
    requires CollisionFree(digest) && ValidOffer(digest, z) && state.key == KeyOf(digest, z)
    requires PartOk(z, storage.disk) && Fits(state.bitmap[..], z.layout.chunks)
    requires storage.disk.receipts.Some? ==> |storage.disk.receipts.value| == 1
    requires Copying(storage, start, live, digest, z, state.bitmap[..])
    modifies storage
    ensures PartOk(z, storage.disk) && storage.disk.dest == old(storage.disk.dest)
    ensures Latest(storage.disk.part.value) == old(Latest(storage.disk.part.value))
    ensures storage.disk.receipts == Some([EncodeMap(state.key, state.bitmap[..])])
    ensures old(storage.history) <= storage.history && Copying(storage, start, live, digest, z, state.bitmap[..])
  {
    ghost var reached := storage.history;
    state.Checkpoint(storage, digest, z);
    if live {
      assert storage.history[start..|reached|] == reached[start..];
      JoinCrashSafe(digest, storage.history, start, |reached|, z);
    }
  }

  lemma NothingGained(before: seq<Word>, after: seq<Word>)
    requires |after| == |before| && |Members(after)| == |Members(before)|
    requires forall k: nat :: Contains(before, k) ==> Contains(after, k)
    ensures after == before
  {
    assert Members(before) <= Members(after);
    SameSize(Members(before), Members(after));
    EqualMembersEqualMaps(after, before);
  }

  lemma SameSize(a: set<nat>, b: set<nat>)
    requires a <= b && |a| == |b|
    ensures a == b
  {
    assert b == a + (b - a);
  }

  /**
    `apply_reusable_content`. The receipts gained are exactly the chunks all of whose bytes were verified;
    the two counters are the number and total length of those chunks, as the REUSED line must have it; what
    is announced is durable; and for a trusted manifest every receipt stays correct, in memory and on disk,
    with a crash allowed after every effect.
  */
  method ApplyReusable(storage: Storage, state: ResumeState, target: seq<Chunk>, scan: Scan, candidate: Bytes,
                       digest: Digest, ghost z: Offer, l: Layout)
    returns (r: Result<(nat, nat)>, ghost spans: seq<Span>)
    requires CollisionFree(digest) && ValidOffer(digest, z) && state.key == KeyOf(digest, z) && l == z.layout
    requires storage.disk.receipts == Some([EncodeMap(state.key, state.bitmap[..])])
    requires PartOk(z, storage.disk) && Tiles(target, 0, l.size)
    requires Fits(state.bitmap[..], l.chunks) && state.receivedCount == |Members(state.bitmap[..])|
    modifies storage, state, state.bitmap
    ensures PartOk(z, storage.disk) && storage.disk.dest == old(storage.disk.dest)
    ensures Fits(state.bitmap[..], l.chunks) && state.receivedCount == |Members(state.bitmap[..])|
    ensures r.Err? <==> scan.Failed?
                        || (scan.Scanned? && Unreadable(target, |target|, IndexOf(scan.chunks), candidate, digest))
    ensures r.Err? ==> state.bitmap[..] == old(state.bitmap[..]) && storage.disk.receipts == old(storage.disk.receipts)
    ensures !scan.Scanned? ==> storage.disk == old(storage.disk)
    ensures scan.Scanned? ==> OnlyVerifiedMoved(target, IndexOf(scan.chunks), candidate, digest,
                                old(Latest(storage.disk.part.value)), Latest(storage.disk.part.value))
    ensures scan.Scanned? && r.Ok? ==> Copied(target, |target|, IndexOf(scan.chunks), candidate, digest,
                                old(Latest(storage.disk.part.value)), Latest(storage.disk.part.value))
    ensures r.Ok? ==> Gained(l, target, scan, candidate, digest, old(state.bitmap[..]), state.bitmap[..])
    ensures r.Ok? ==> forall x: nat :: Covers(spans, x) <==> Verified(target, scan, candidate, digest, x)
    ensures r.Ok? ==> r.value.0 == NewBytes(l, old(state.bitmap[..]), spans, l.chunks) <= l.size
    ensures r.Ok? ==> r.value.1 == |Members(state.bitmap[..])| - |Members(old(state.bitmap[..]))|
    ensures r.Ok? ==> storage.disk.receipts == Some([EncodeMap(state.key, state.bitmap[..])])
    ensures old(storage.history) <= storage.history
    ensures old(Live(digest, storage.disk, z, state.bitmap[..]))
            && Trusted(digest, target, Offered(scan), candidate, z) ==>
              Live(digest, storage.disk, z, state.bitmap[..])
              && AllCrashSafe(digest, storage.history[|old(storage.history)|..], z)
  {
    spans := [];
    if scan.Missing? {
      NothingVerified(l, target, scan, candidate, digest, state.bitmap[..]);
      NoNewBytes(l, state.bitmap[..], l.chunks);
      return Ok((0, 0)), [];
    }
    if scan.Failed? {
      return Err, [];
    }
    ghost var was, before, start := Latest(storage.disk.part.value), state.bitmap[..], |storage.history|;
    ghost var live := Live(digest, storage.disk, z, before)
      && Trusted(digest, target, IndexOf(scan.chunks), candidate, z);
    var available := IndexCandidate(scan.chunks);
    var copied := CopyMatching(storage, target, available, candidate, digest, live, z, before);
    if copied.Err? {
      return Err, [];
    }
    if copied.value == [] {
      NothingVerified(l, target, scan, candidate, digest, state.bitmap[..]);
      NoNewBytes(l, state.bitmap[..], l.chunks);
      return Ok((0, 0)), [];
    }
    var reusedBytes, reusedChunks;
    reusedBytes, reusedChunks, spans :=
      MarkCovered(storage, state, target, scan, candidate, digest, z, l, copied.value, live, was, start);
    NewBytesFit(l, before, spans, l.chunks);
    r := Ok((reusedBytes, reusedChunks));
  }
}
