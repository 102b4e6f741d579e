/**
  What a crash can cost: when the receipts a later session would trust name only chunks whose
  correct bytes survived. Fixed here is one object; sessions for other objects may come between.
*/
module Durability {
  import opened Outcomes
  import opened Text
  import opened Bitmaps
  import opened Layouts
  import opened Disks
  import opened ResumeMaps
  import opened Packets
  import opened Receivers
  import opened Transfers

  /** Every recorded chunk holds the source's bytes. */
  ghost predicate Correct(l: Layout, content: Bytes, source: Bytes, bitmap: seq<Word>)
    requires |source| == l.size
  {
    && |content| == l.size
    && forall k: nat :: k < l.chunks && Contains(bitmap, k) ==> ChunkOf(l, content, k) == ChunkOf(l, source, k)
  }

  ghost predicate CorrectFile(l: Layout, f: File, source: Bytes, bitmap: seq<Word>)
    requires |source| == l.size
  {
    forall j :: 0 <= j < |f| ==> Correct(l, f[j], source, bitmap)
  }

  /** Whatever a crash leaves, the receipts `open` would trust name only correct chunks. */
  ghost predicate CrashSafe(digest: Digest, d: Disk, z: Offer)
    requires CollisionFree(digest) && ValidOffer(digest, z)
  {
    forall after :: Crash(d, after) ==>
      match Resumable(after, KeyOf(digest, z))
      case None => true
      case Some(bitmap) => Correct(z.layout, Latest(after.part.value), z.source, bitmap)
  }

  /** The map on disk holds no receipt that would be trusted for this object. */
  ghost predicate NoReceipts(digest: Digest, d: Disk, z: Offer)
    requires CollisionFree(digest) && ValidOffer(digest, z)
  {
    d.receipts.Some? ==>
      match LoadMap(Latest(d.receipts.value), KeyOf(digest, z))
      case None => true
      case Some(bitmap) => forall k: nat :: !Contains(bitmap, k)
  }

  lemma NoReceiptsIsCrashSafe(digest: Digest, d: Disk, z: Offer)
    requires CollisionFree(digest) && ValidOffer(digest, z) && NoReceipts(digest, d, z)
    requires d.receipts.Some? ==> |d.receipts.value| == 1
    ensures CrashSafe(digest, d, z)
  {
    forall after | Crash(d, after)
      ensures match Resumable(after, KeyOf(digest, z))
              case None => true
              case Some(bitmap) => Correct(z.layout, Latest(after.part.value), z.source, bitmap)
    {
      SyncedFileCrash(d.receipts, after.receipts);
    }
  }

  lemma CorrectByte(l: Layout, content: Bytes, source: Bytes, bitmap: seq<Word>, k: nat, i: nat)
    requires |source| == l.size && Correct(l, content, source, bitmap)
    requires k < l.chunks && Contains(bitmap, k) && Edge(l, k) <= i < Edge(l, k + 1)
    ensures content[i] == source[i]
  {
    EdgeMonotone(l, k, k + 1);
    assert ChunkOf(l, content, k)[i - Edge(l, k)] == content[i];
    assert ChunkOf(l, source, k)[i - Edge(l, k)] == source[i];
  }

  /** Chunks that are correct in every content since the last sync are correct after a crash. */
  lemma CorrectFileSurvives(l: Layout, f: File, source: Bytes, bitmap: seq<Word>, content: Bytes)
    requires |source| == l.size && CorrectFile(l, f, source, bitmap) && Survives(f, content)
    ensures Correct(l, content, source, bitmap)
  {
    assert AgreedLength(f, l.size);
    forall k: nat | k < l.chunks && Contains(bitmap, k) ensures ChunkOf(l, content, k) == ChunkOf(l, source, k) {
      EdgeMonotone(l, k, k + 1);
      var a, b := Edge(l, k), Edge(l, k + 1);
      forall i | a <= i < b ensures content[i] == source[i] {
        forall j | 0 <= j < |f| ensures |f[j]| == l.size && f[j][i] == source[i] {
          CorrectByte(l, f[j], source, bitmap, k, i);
        }
        assert Agreed(f, i, source[i]);
      }
    }
  }

  /** The durable map is this object's, and names only chunks that are correct whatever survives. */
  ghost predicate SoundMap(digest: Digest, d: Disk, z: Offer, bitmap: seq<Word>)
    requires CollisionFree(digest) && ValidOffer(digest, z)
  {
    && d.receipts == Some([EncodeMap(KeyOf(digest, z), bitmap)]) && Fits(bitmap, z.layout.chunks)
    && d.part.Some? && CorrectFile(z.layout, d.part.value, z.source, bitmap)
  }

  lemma SoundMapIsCrashSafe(digest: Digest, d: Disk, z: Offer, bitmap: seq<Word>)
    requires CollisionFree(digest) && ValidOffer(digest, z) && SoundMap(digest, d, z, bitmap)
    ensures CrashSafe(digest, d, z)
  {
    var k := KeyOf(digest, z);
    forall after | Crash(d, after)
      ensures match Resumable(after, k)
              case None => true
              case Some(b) => Correct(z.layout, Latest(after.part.value), z.source, b)
    {
      SyncedFileCrash(d.receipts, after.receipts);
      LoadMapExact(Latest(after.receipts.value), k, bitmap);
      CorrectFileSurvives(z.layout, d.part.value, z.source, bitmap, Latest(after.part.value));
    }
  }

  // ----- the run invariant -----

  /** The disk part of the invariant, in terms of the session's own state. */
  ghost predicate Sound(digest: Digest, d: Disk, z: Offer)
    requires CollisionFree(digest) && ValidOffer(digest, z)
  {
    NoReceipts(digest, d, z) || d.part.None? || exists bitmap :: SoundMap(digest, d, z, bitmap)
  }

  ghost predicate SameObject(o: Offer, z: Offer) {
    o.layout == z.layout && o.source == z.source
  }

  /** While a session for the object runs: its in-memory receipts are correct and cover the durable ones. */
  ghost predicate Live(digest: Digest, d: Disk, z: Offer, bitmap: seq<Word>)
    requires CollisionFree(digest) && ValidOffer(digest, z)
  {
    && d.part.Some? && Correct(z.layout, Latest(d.part.value), z.source, bitmap)
    && (NoReceipts(digest, d, z) || exists b :: SoundMap(digest, d, z, b) && Extends(b, bitmap))
  }

  ghost predicate PhaseSound(digest: Digest, s: System, z: Offer)
    requires CollisionFree(digest) && ValidOffer(digest, z) && s.phase != Down && s.offer.Some?
  {
    var mine := SameObject(s.offer.value, z);
    match s.phase
    case Started => true
    case Saving(stage, bitmap, next) =>
      if mine then
        Live(digest, s.disk, z, bitmap) && (stage != ToSync ==> |s.disk.part.value| == 1)
      else NoReceipts(digest, s.disk, z)
    case Reusing(bitmap, _) => if mine then Live(digest, s.disk, z, bitmap) else NoReceipts(digest, s.disk, z)
    case Serving(r) => if mine then Live(digest, s.disk, z, r.bitmap) else NoReceipts(digest, s.disk, z)
    case Truncated => NoReceipts(digest, s.disk, z)
    case Unlinked => s.disk.part.None?
    case Renamed => s.disk.part.None?
    case Rejected => !mine && NoReceipts(digest, s.disk, z)
    case _ => true
  }

  ghost predicate Kept(digest: Digest, s: System, z: Offer)
    requires CollisionFree(digest) && ValidOffer(digest, z)
  {
    && Safe(digest, s) && Sound(digest, s.disk, z)
    && (s.phase != Down ==> PhaseSound(digest, s, z))
  }

  /**
    Inside `open`, for a fresh object: the partial file has been truncated, and the map of an earlier
    session is still there until the first checkpoint renames the new one over it.
  */
  ghost predicate InWindow(s: System) {
    match s.phase
    case Truncated => true
    case Saving(_, bitmap, next) => next.Reusing? && Bitless(bitmap)
    case _ => false
  }

  ghost predicate Bitless(bitmap: seq<Word>) {
    forall k: nat :: !Contains(bitmap, k)
  }

  /** The run invariant: outside that window everything is kept. */
  ghost predicate Held(digest: Digest, s: System, z: Offer)
    requires CollisionFree(digest) && ValidOffer(digest, z)
  {
    Safe(digest, s) && (InWindow(s) || Kept(digest, s, z))
  }

  /**
    What is assumed of the environment: in sessions for this object tags are not forged, reused bytes
    are the source's, and reuse only records chunks whose bytes are in place. And a session may only end
    inside the window of `open` when no receipts for the object are on disk.
  */
  ghost predicate OpenHonest(digest: Digest, s: System, e: OpenEvent, z: Offer)
    requires CollisionFree(digest) && ValidOffer(digest, z)
  {
    match e
    case ReuseWrite(offset, bytes) => s.offer.Some? && (SameObject(s.offer.value, z) ==>
      offset + |bytes| <= |z.source| && bytes == z.source[offset..offset + |bytes|])
    case ReuseMark(bitmap) => s.offer.Some? && (SameObject(s.offer.value, z) ==>
      s.disk.part.Some? && Correct(z.layout, Latest(s.disk.part.value), z.source, bitmap))
    case _ => true
  }

  /** The session ends here, by a crash or an error, without leaving old receipts beside a truncated file. */
  ghost predicate EndsHonestly(digest: Digest, s: System, z: Offer)
    requires CollisionFree(digest) && ValidOffer(digest, z)
  {
    InWindow(s) ==> NoReceipts(digest, s.disk, z)
  }

  ghost predicate LoopHonest(digest: Digest, s: System, e: LoopEvent, z: Offer)
    requires CollisionFree(digest) && ValidOffer(digest, z)
  {
    match e
    case Arrive(wire) =>
      s.offer.Some? && (SameObject(s.offer.value, z) ==> Unforged(z.layout, z.source, s.offer.value.tag, wire))
    case _ => true
  }

  ghost predicate Honest(digest: Digest, s: System, e: Event, z: Offer)
    requires CollisionFree(digest) && ValidOffer(digest, z)
  {
    match e
    case Open(o) => OpenHonest(digest, s, o, z)
    case Loop(m) => LoopHonest(digest, s, m, z)
    case Abort => EndsHonestly(digest, s, z)
    case CrashTo(_) => EndsHonestly(digest, s, z)
    case _ => true
  }

  // ----- one step -----

  lemma SameObjectSameKey(digest: Digest, o: Offer, z: Offer)
    requires CollisionFree(digest) && ValidOffer(digest, o) && ValidOffer(digest, z)
    ensures KeyOf(digest, o) == KeyOf(digest, z) <==> SameObject(o, z)
  {
  }

  /** A map written for another object holds no receipts for this one. */
  lemma OtherMapHoldsNoReceipts(digest: Digest, d: Disk, o: Offer, z: Offer, bitmap: seq<Word>)
    requires CollisionFree(digest) && ValidOffer(digest, o) && ValidOffer(digest, z) && !SameObject(o, z)
    requires d.receipts.Some? && Latest(d.receipts.value) == EncodeMap(KeyOf(digest, o), bitmap)
    ensures NoReceipts(digest, d, z)
  {
    SameObjectSameKey(digest, o, z);
    if LoadMap(Latest(d.receipts.value), KeyOf(digest, z)).Some? {
      MapIdentifiesObject(KeyOf(digest, o), KeyOf(digest, z), bitmap);
    }
  }

  lemma LiveIsSound(digest: Digest, d: Disk, z: Offer, bitmap: seq<Word>)
    requires CollisionFree(digest) && ValidOffer(digest, z) && Live(digest, d, z, bitmap)
    ensures Sound(digest, d, z)
  {
  }

  lemma OverwriteKeepsCorrect(l: Layout, content: Bytes, source: Bytes, offset: nat, bytes: Bytes, bitmap: seq<Word>)
    requires ValidLayout(l) && |source| == l.size && Correct(l, content, source, bitmap)
    requires offset + |bytes| <= l.size && bytes == source[offset..offset + |bytes|]
    ensures Correct(l, Overwrite(content, offset, bytes), source, bitmap)
  {
    var content' := Overwrite(content, offset, bytes);
    forall k: nat | k < l.chunks && Contains(bitmap, k) ensures ChunkOf(l, content', k) == ChunkOf(l, source, k) {
      EdgeMonotone(l, k, k + 1);
      var a, b := Edge(l, k), Edge(l, k + 1);
      forall i | a <= i < b ensures content'[i] == source[i] {
        assert ChunkOf(l, content, k)[i - a] == ChunkOf(l, source, k)[i - a];
      }
    }
  }

  /** Writing source bytes anywhere keeps the session's receipts and the durable ones correct. */
  lemma SourceWriteKeepsLive(digest: Digest, d: Disk, z: Offer, bitmap: seq<Word>, offset: nat, bytes: Bytes)
    requires CollisionFree(digest) && ValidOffer(digest, z) && Live(digest, d, z, bitmap)
    requires offset + |bytes| <= z.layout.size && bytes == z.source[offset..offset + |bytes|]
    ensures Live(digest, WritePart(d, offset, bytes), z, bitmap)
  {
    var f := d.part.value;
    OverwriteKeepsCorrect(z.layout, Latest(f), z.source, offset, bytes, bitmap);
    if !NoReceipts(digest, d, z) {
      var b :| SoundMap(digest, d, z, b) && Extends(b, bitmap);
      assert Correct(z.layout, f[|f| - 1], z.source, b);
      OverwriteKeepsCorrect(z.layout, Latest(f), z.source, offset, bytes, b);
      assert SoundMap(digest, WritePart(d, offset, bytes), z, b);
    } else {
      assert NoReceipts(digest, WritePart(d, offset, bytes), z);
    }
  }

  lemma LargerBitmapStaysLive(digest: Digest, d: Disk, z: Offer, bitmap: seq<Word>, larger: seq<Word>)
    requires CollisionFree(digest) && ValidOffer(digest, z) && Live(digest, d, z, bitmap) && Extends(bitmap, larger)
    requires Correct(z.layout, Latest(d.part.value), z.source, larger)
    ensures Live(digest, d, z, larger)
  {
    if !NoReceipts(digest, d, z) {
      var b :| SoundMap(digest, d, z, b) && Extends(b, bitmap);
      assert Extends(b, larger);
    }
  }

  lemma SyncKeepsLive(digest: Digest, d: Disk, z: Offer, bitmap: seq<Word>)
    requires CollisionFree(digest) && ValidOffer(digest, z) && Live(digest, d, z, bitmap)
    ensures Live(digest, SyncPart(d), z, bitmap)
  {
    if !NoReceipts(digest, d, z) {
      var b :| SoundMap(digest, d, z, b) && Extends(b, bitmap);
      SyncKeepsSoundMap(digest, d, z, b);
    }
  }

  lemma SyncKeepsSoundMap(digest: Digest, d: Disk, z: Offer, bitmap: seq<Word>)
    requires CollisionFree(digest) && ValidOffer(digest, z) && SoundMap(digest, d, z, bitmap)
    ensures SoundMap(digest, SyncPart(d), z, bitmap)
  {
  }

  /** Changes to the temporary file do not matter. */
  lemma TempKeepsLive(digest: Digest, d: Disk, e: Disk, z: Offer, bitmap: seq<Word>)
    requires CollisionFree(digest) && ValidOffer(digest, z) && Live(digest, d, z, bitmap)
    requires e.part == d.part && e.receipts == d.receipts
    ensures Live(digest, e, z, bitmap)
  {
    if !NoReceipts(digest, d, z) {
      var b :| SoundMap(digest, d, z, b) && Extends(b, bitmap);
      assert SoundMap(digest, e, z, b);
    }
  }

  /** The rename publishes receipts only for synced, correct chunks. */
  lemma RenameMakesSoundMap(digest: Digest, d: Disk, z: Offer, bitmap: seq<Word>)
    requires CollisionFree(digest) && ValidOffer(digest, z) && Live(digest, d, z, bitmap) && |d.part.value| == 1
    requires Fits(bitmap, z.layout.chunks) && d.temp == Some([EncodeMap(KeyOf(digest, z), bitmap)])
    ensures Live(digest, RenameTempToMap(d), z, bitmap)
  {
    assert SoundMap(digest, RenameTempToMap(d), z, bitmap);
  }

  lemma CrashKeepsSound(digest: Digest, d: Disk, after: Disk, z: Offer)
    requires CollisionFree(digest) && ValidOffer(digest, z) && Sound(digest, d, z) && Crash(d, after)
    requires d.receipts.Some? ==> |d.receipts.value| == 1
    ensures Sound(digest, after, z)
  {
    SyncedFileCrash(d.receipts, after.receipts);
    if !NoReceipts(digest, d, z) && d.part.Some? {
      var b :| SoundMap(digest, d, z, b);
      CorrectFileSurvives(z.layout, d.part.value, z.source, b, Latest(after.part.value));
      assert SoundMap(digest, after, z, b);
    }
  }

  /** A session that resumes starts with receipts that are correct. */
  lemma ResumeIsLive(digest: Digest, s: System, z: Offer)
    requires CollisionFree(digest) && ValidOffer(digest, z) && Kept(digest, s, z) && OpenEnabled(digest, s, OpenResume)
    ensures Kept(digest, OpenStep(digest, s, OpenResume), z)
  {
    OpenResumeIsSafe(digest, s);
    var k := KeyOf(digest, s.offer.value);
    var bitmap := Resumable(s.disk, k).value;
    var content := Latest(s.disk.receipts.value);
    LoadMapExact(content, k, bitmap);
    if SameObject(s.offer.value, z) {
      SameObjectSameKey(digest, s.offer.value, z);
      if !NoReceipts(digest, s.disk, z) {
        var b :| SoundMap(digest, s.disk, z, b);
        LoadMapExact(content, k, b);
        assert b == bitmap && Extends(b, bitmap);
        assert Correct(z.layout, Latest(s.disk.part.value), z.source, b);
      }
      assert Live(digest, s.disk, z, bitmap);
    } else {
      OtherMapHoldsNoReceipts(digest, s.disk, s.offer.value, z, bitmap);
    }
  }

  /** Effects on the temporary file and control steps leave the partial file and the map alone. */
  lemma SaveStepIsKept(digest: Digest, s: System, e: SaveEvent, z: Offer)
    requires CollisionFree(digest) && ValidOffer(digest, z) && Kept(digest, s, z) && SaveEnabled(digest, s, e)
    requires e.SaveCreate? || e.SaveWrite? || e.SaveSyncTemp?
    ensures Kept(digest, SaveStep(digest, s, e), z)
  {
    SaveStepIsSafe(digest, s, e);
    var t := SaveStep(digest, s, e);
    if SameObject(s.offer.value, z) {
      TempKeepsLive(digest, s.disk, t.disk, z, s.phase.bitmap);
      LiveIsSound(digest, t.disk, z, s.phase.bitmap);
    } else {
      assert NoReceipts(digest, t.disk, z);
    }
  }

  lemma SaveSyncIsKept(digest: Digest, s: System, z: Offer)
    requires CollisionFree(digest) && ValidOffer(digest, z) && Kept(digest, s, z) && SaveEnabled(digest, s, SaveSync)
    ensures Kept(digest, SaveStep(digest, s, SaveSync), z)
  {
    SyncIsSafe(digest, s);
    var t := SaveStep(digest, s, SaveSync);
    if SameObject(s.offer.value, z) {
      SyncKeepsLive(digest, s.disk, z, s.phase.bitmap);
      LiveIsSound(digest, t.disk, z, s.phase.bitmap);
    } else {
      assert NoReceipts(digest, t.disk, z);
    }
  }

  lemma SaveRenameIsKept(digest: Digest, s: System, z: Offer)
    requires CollisionFree(digest) && ValidOffer(digest, z) && Kept(digest, s, z) && SaveEnabled(digest, s, SaveRename)
    ensures Kept(digest, SaveStep(digest, s, SaveRename), z)
  {
    RenameIsSafe(digest, s);
    var t := SaveStep(digest, s, SaveRename);
    if SameObject(s.offer.value, z) {
      SameObjectSameKey(digest, s.offer.value, z);
      RenameMakesSoundMap(digest, s.disk, z, s.phase.bitmap);
      LiveIsSound(digest, t.disk, z, s.phase.bitmap);
    } else {
      OtherMapHoldsNoReceipts(digest, t.disk, s.offer.value, z, s.phase.bitmap);
    }
  }

  lemma ReuseWriteIsKept(digest: Digest, s: System, offset: nat, bytes: Bytes, z: Offer)
    requires CollisionFree(digest) && ValidOffer(digest, z) && Kept(digest, s, z)
    requires OpenEnabled(digest, s, ReuseWrite(offset, bytes)) && OpenHonest(digest, s, ReuseWrite(offset, bytes), z)
    ensures Kept(digest, OpenStep(digest, s, ReuseWrite(offset, bytes)), z)
  {
    OpenStepIsSafe(digest, s, ReuseWrite(offset, bytes));
    var t := OpenStep(digest, s, ReuseWrite(offset, bytes));
    if SameObject(s.offer.value, z) {
      SourceWriteKeepsLive(digest, s.disk, z, s.phase.bitmap, offset, bytes);
      LiveIsSound(digest, t.disk, z, s.phase.bitmap);
    } else {
      assert NoReceipts(digest, t.disk, z);
    }
  }

  lemma ReuseMarkIsKept(digest: Digest, s: System, bitmap: seq<Word>, z: Offer)
    requires CollisionFree(digest) && ValidOffer(digest, z) && Kept(digest, s, z)
    requires OpenEnabled(digest, s, ReuseMark(bitmap)) && OpenHonest(digest, s, ReuseMark(bitmap), z)
    ensures Kept(digest, OpenStep(digest, s, ReuseMark(bitmap)), z)
  {
    OpenStepIsSafe(digest, s, ReuseMark(bitmap));
    if SameObject(s.offer.value, z) {
      LargerBitmapStaysLive(digest, s.disk, z, s.phase.bitmap, bitmap);
    }
  }

  lemma ArriveIsKept(digest: Digest, s: System, wire: Bytes, z: Offer)
    requires CollisionFree(digest) && ValidOffer(digest, z) && Kept(digest, s, z)
    requires LoopEnabled(digest, s, Arrive(wire)) && LoopHonest(digest, s, Arrive(wire), z)
    ensures Kept(digest, LoopStep(digest, s, Arrive(wire)), z)
  {
    ArriveIsSafe(digest, s, wire);
    var o, t := s.offer.value, LoopStep(digest, s, Arrive(wire));
    if SameObject(o, z) {
      DatagramKeepsLive(digest, s.disk, s.phase.r, wire, o.tag, z);
      LiveIsSound(digest, t.disk, z, t.phase.r.bitmap);
    } else {
      assert t.disk.receipts == s.disk.receipts;
      assert NoReceipts(digest, t.disk, z);
    }
  }

  /** A source chunk in its place is one more chunk on record that is correct. */
  lemma NewChunkIsCorrect(l: Layout, file: Bytes, source: Bytes, bitmap: seq<Word>, c: nat)
    requires ValidLayout(l) && |source| == l.size && Correct(l, file, source, bitmap)
    requires c < l.chunks && c / 64 < |bitmap|
    ensures Edge(l, c) + |ChunkOf(l, source, c)| <= |file|
    ensures Correct(l, Overwrite(file, Edge(l, c), ChunkOf(l, source, c)), source, Insert(bitmap, c))
  {
    EdgeMonotone(l, c, c + 1);
    var bytes := ChunkOf(l, source, c);
    WriteChunk(l, file, c, bytes, c);
    forall k: nat | k < l.chunks && Contains(Insert(bitmap, c), k)
      ensures ChunkOf(l, Overwrite(file, Edge(l, c), bytes), k) == ChunkOf(l, source, k)
    {
      WriteChunk(l, file, c, bytes, k);
    }
  }

  lemma NewChunkKeepsLive(digest: Digest, d: Disk, bitmap: seq<Word>, c: nat, z: Offer)
    requires CollisionFree(digest) && ValidOffer(digest, z) && Live(digest, d, z, bitmap)
    requires c < z.layout.chunks && c / 64 < |bitmap| && CanWrite(d, Edge(z.layout, c), ChunkOf(z.layout, z.source, c))
    ensures Live(digest, WritePart(d, Edge(z.layout, c), ChunkOf(z.layout, z.source, c)), z, Insert(bitmap, c))
  {
    var l, offset, bytes := z.layout, Edge(z.layout, c), ChunkOf(z.layout, z.source, c);
    EdgeMonotone(l, c, c + 1);
    SourceWriteKeepsLive(digest, d, z, bitmap, offset, bytes);
    NewChunkIsCorrect(l, Latest(d.part.value), z.source, bitmap, c);
    LargerBitmapStaysLive(digest, WritePart(d, offset, bytes), z, bitmap, Insert(bitmap, c));
  }

  lemma DatagramKeepsLive(digest: Digest, d: Disk, r: Receiver, wire: Bytes, tag: Tag, z: Offer)
    requires CollisionFree(digest) && ValidOffer(digest, z) && Ready(z.layout, d, r)
    requires Live(digest, d, z, r.bitmap) && Unforged(z.layout, z.source, tag, wire)
    ensures var (d', r') := OnDatagram(z.layout, tag, d, r, wire); Live(digest, d', z, r'.bitmap)
  {
    if Accept(z.layout, tag, wire).Some? {
      var g := Accept(z.layout, tag, wire).value;
      AcceptedShape(z.layout, tag, wire);
      AcceptedPayloadIsSource(z.layout, z.source, tag, wire);
      if !Contains(r.bitmap, g.sequence) {
        NewChunkKeepsLive(digest, d, r.bitmap, g.sequence, z);
      }
    }
  }

  /** With sound receipts the final comparison cannot fail: nothing correct is ever discarded. */
  lemma FinishIsKept(digest: Digest, s: System, z: Offer)
    requires CollisionFree(digest) && ValidOffer(digest, z) && Kept(digest, s, z) && LoopEnabled(digest, s, Finish)
    ensures Kept(digest, LoopStep(digest, s, Finish), z)
  {
    FinishIsSafe(digest, s);
    var o, t := s.offer.value, LoopStep(digest, s, Finish);
    if SameObject(o, z) {
      var file := Latest(s.disk.part.value);
      AdvanceKeepsHashedPrefix(o.layout, file, s.phase.r);
      EqualChunksEqualObjects(o.layout, file, z.source);
      LastEdge(o.layout);
      assert file[..o.layout.size] == file;
      SyncKeepsLive(digest, s.disk, z, s.phase.r.bitmap);
      LiveIsSound(digest, t.disk, z, s.phase.r.bitmap);
    } else {
      assert NoReceipts(digest, t.disk, z);
    }
  }

  lemma OpenStepIsKept(digest: Digest, s: System, e: OpenEvent, z: Offer)
    requires CollisionFree(digest) && ValidOffer(digest, z) && Kept(digest, s, z)
    requires OpenEnabled(digest, s, e) && OpenHonest(digest, s, e, z)
    ensures Held(digest, OpenStep(digest, s, e), z)
  {
    match e
    case OpenResume => ResumeIsLive(digest, s, z);
    case ReuseWrite(offset, bytes) => ReuseWriteIsKept(digest, s, offset, bytes, z);
    case ReuseMark(bitmap) => ReuseMarkIsKept(digest, s, bitmap, z);
    case _ => OpenStepIsSafe(digest, s, e);
  }

  lemma SaveAnyIsKept(digest: Digest, s: System, e: SaveEvent, z: Offer)
    requires CollisionFree(digest) && ValidOffer(digest, z) && Kept(digest, s, z) && SaveEnabled(digest, s, e)
    ensures Kept(digest, SaveStep(digest, s, e), z)
  {
    match e
    case SaveSync => SaveSyncIsKept(digest, s, z);
    case SaveRename => SaveRenameIsKept(digest, s, z);
    case _ => SaveStepIsKept(digest, s, e, z);
  }

  lemma LoopStepIsKept(digest: Digest, s: System, e: LoopEvent, z: Offer)
    requires CollisionFree(digest) && ValidOffer(digest, z) && Kept(digest, s, z)
    requires LoopEnabled(digest, s, e) && LoopHonest(digest, s, e, z)
    ensures Kept(digest, LoopStep(digest, s, e), z)
  {
    match e
    case Arrive(wire) => ArriveIsKept(digest, s, wire, z);
    case Finish => FinishIsKept(digest, s, z);
    case _ => LoopStepIsSafe(digest, s, e);
  }

  lemma CloseStepIsKept(digest: Digest, s: System, e: CloseEvent, z: Offer)
    requires CollisionFree(digest) && ValidOffer(digest, z) && Kept(digest, s, z) && CloseEnabled(digest, s, e)
    ensures Kept(digest, CloseStep(digest, s, e), z)
  {
    CloseStepIsSafe(digest, s, e);
    var t := CloseStep(digest, s, e);
    assert t.disk == s.disk || t.disk.part.None? || t.disk.receipts.None?;
  }

  lemma CrashIsKept(digest: Digest, s: System, outcome: Disk, z: Offer)
    requires CollisionFree(digest) && ValidOffer(digest, z) && Kept(digest, s, z)
             && Enabled(digest, s, CrashTo(outcome))
    ensures Kept(digest, Step(digest, s, CrashTo(outcome)), z)
  {
    CrashIsSafe(digest, s, outcome);
    CrashKeepsSound(digest, s.disk, outcome, z);
  }

  /** Out of the window: the new map, without a bit, has replaced the old one. */
  lemma FreshIsKept(digest: Digest, s: System, z: Offer)
    requires CollisionFree(digest) && ValidOffer(digest, z) && Safe(digest, s)
    requires s.phase.Reusing? && Bitless(s.phase.bitmap)
    ensures Kept(digest, s, z)
  {
    var o, bitmap := s.offer.value, s.phase.bitmap;
    if SameObject(o, z) {
      SameObjectSameKey(digest, o, z);
      LoadMapExact(EncodeMap(KeyOf(digest, z), bitmap), KeyOf(digest, z), bitmap);
    } else {
      OtherMapHoldsNoReceipts(digest, s.disk, o, z, bitmap);
    }
  }

  lemma WindowOpens(digest: Digest, s: System, e: OpenEvent, z: Offer)
    requires CollisionFree(digest) && ValidOffer(digest, z) && Safe(digest, s) && InWindow(s)
             && OpenEnabled(digest, s, e)
    ensures Held(digest, OpenStep(digest, s, e), z)
  {
    OpenStepIsSafe(digest, s, e);
  }

  lemma WindowSaves(digest: Digest, s: System, e: SaveEvent, z: Offer)
    requires CollisionFree(digest) && ValidOffer(digest, z) && Safe(digest, s) && InWindow(s)
             && SaveEnabled(digest, s, e)
    ensures Held(digest, SaveStep(digest, s, e), z)
  {
    SaveStepIsSafe(digest, s, e);
    if e.SaveRename? {
      FreshIsKept(digest, SaveStep(digest, s, e), z);
    }
  }

  lemma WindowEnds(digest: Digest, s: System, e: Event, z: Offer)
    requires CollisionFree(digest) && ValidOffer(digest, z) && Safe(digest, s) && NoReceipts(digest, s.disk, z)
    requires Enabled(digest, s, e) && (e.Abort? || e.CrashTo?)
    ensures Held(digest, Step(digest, s, e), z)
  {
    StepIsSafe(digest, s, e);
    if e.CrashTo? {
      SyncedFileCrash(s.disk.receipts, e.outcome.receipts);
    }
  }

  /** Inside the window a step stays in it, leaves it by the rename, or ends the session honestly. */
  lemma WindowStep(digest: Digest, s: System, e: Event, z: Offer)
    requires CollisionFree(digest) && ValidOffer(digest, z) && Safe(digest, s) && InWindow(s)
    requires Enabled(digest, s, e) && Honest(digest, s, e, z)
    ensures Held(digest, Step(digest, s, e), z)
  {
    match e
    case Open(o) => WindowOpens(digest, s, o, z);
    case Save(v) => WindowSaves(digest, s, v, z);
    case Abort => WindowEnds(digest, s, e, z);
    case CrashTo(_) => WindowEnds(digest, s, e, z);
    case _ => StepIsSafe(digest, s, e);
  }

  lemma EndIsKept(digest: Digest, s: System, e: Event, z: Offer)
    requires CollisionFree(digest) && ValidOffer(digest, z) && Kept(digest, s, z) && Enabled(digest, s, e)
    requires e.CrashTo? || e.Abort? || e.Begin? || e.DeliverComplete? || e.Speak?
    ensures Kept(digest, Step(digest, s, e), z)
  {
    match e
    case CrashTo(outcome) => CrashIsKept(digest, s, outcome, z);
    case _ => StepIsSafe(digest, s, e);
  }

  lemma StepIsHeld(digest: Digest, s: System, e: Event, z: Offer)
    requires CollisionFree(digest) && ValidOffer(digest, z) && Held(digest, s, z)
    requires Enabled(digest, s, e) && Honest(digest, s, e, z)
    ensures Held(digest, Step(digest, s, e), z)
  {
    if InWindow(s) {
      WindowStep(digest, s, e, z);
    } else {
      match e
      case Open(o) => OpenStepIsKept(digest, s, o, z);
      case Save(v) => SaveAnyIsKept(digest, s, v, z);
      case Loop(m) => LoopStepIsKept(digest, s, m, z);
      case Close(c) => CloseStepIsKept(digest, s, c, z);
      case _ => EndIsKept(digest, s, e, z);
    }
  }

  // ----- whole runs -----

  /** A run in which every event is honest with respect to one object. */
  ghost predicate HonestRun(digest: Digest, s: System, events: seq<Event>, t: System, z: Offer)
    requires CollisionFree(digest) && ValidOffer(digest, z)
    decreases |events|
  {
    if events == [] then s == t
    else Enabled(digest, s, events[0]) && Honest(digest, s, events[0], z)
         && HonestRun(digest, Step(digest, s, events[0]), events[1..], t, z)
  }

  lemma {:induction false} RunIsHeld(digest: Digest, s: System, events: seq<Event>, t: System, z: Offer)
    requires CollisionFree(digest) && ValidOffer(digest, z) && Held(digest, s, z) && HonestRun(digest, s, events, t, z)
    ensures Held(digest, t, z)
    decreases |events|
  {
    if events != [] {
      StepIsHeld(digest, s, events[0], z);
      RunIsHeld(digest, Step(digest, s, events[0]), events[1..], t, z);
    }
  }

  lemma SoundIsCrashSafe(digest: Digest, d: Disk, z: Offer)
    requires CollisionFree(digest) && ValidOffer(digest, z) && Sound(digest, d, z)
    requires d.receipts.Some? ==> |d.receipts.value| == 1
    ensures CrashSafe(digest, d, z)
  {
    if NoReceipts(digest, d, z) {
      NoReceiptsIsCrashSafe(digest, d, z);
    } else if d.part.Some? {
      var bitmap :| SoundMap(digest, d, z, bitmap);
      SoundMapIsCrashSafe(digest, d, z, bitmap);
    }
  }

  /**
    Crash consistency over whole runs, for this object and any others at the same destination, with
    crashes between any two effects: whenever the program is not between the truncation in `open` and the
    rename that ends it, and there too if no receipts for the object are on disk, whatever a crash leaves,
    the receipts a later session would trust name only chunks whose correct bytes survived. And a session
    for the object is never rejected by the final digest.
  */
  lemma CrashConsistency(digest: Digest, s: System, events: seq<Event>, t: System, z: Offer)
    requires CollisionFree(digest) && ValidOffer(digest, z)
    requires Initial(s) && s.offer.None? && Sound(digest, s.disk, z)
    requires HonestRun(digest, s, events, t, z)
    ensures !InWindow(t) || NoReceipts(digest, t.disk, z) ==> CrashSafe(digest, t.disk, z)
    ensures t.phase == Rejected ==> t.offer.Some? && !SameObject(t.offer.value, z)
  {
    RunIsHeld(digest, s, events, t, z);
    if NoReceipts(digest, t.disk, z) {
      NoReceiptsIsCrashSafe(digest, t.disk, z);
    } else if !InWindow(t) {
      SoundIsCrashSafe(digest, t.disk, z);
    }
  }

  // ----- the one window in which the claim fails -----

  /** Bytes that differ from the source everywhere. */
  function Spoiled(source: Bytes): (r: Bytes)
    ensures |r| == |source| && forall i :: 0 <= i < |r| ==> r[i] != source[i]
  {
    seq(|source|, i requires 0 <= i < |source| => Flipped(source[i]))
  }

  function Flipped(b: Byte): (c: Byte)
    ensures c != b
  {
    if b == 0 then 1 else 0
  }

  /**
    The exact condition. Inside `open`, once the partial file has been truncated and resized, the
    receipts on disk are safe from a crash if and only if there are none for this object. They can
    be there when the map survived and the partial file did not: a crash inside `install` or
    `discard`, or a partial file someone removed.
  */
  lemma OpenWindowIsSafeIffNoReceipts(digest: Digest, d: Disk, z: Offer)
    requires CollisionFree(digest) && ValidOffer(digest, z) && (d.receipts.Some? ==> |d.receipts.value| == 1)
    ensures CrashSafe(digest, SetPartLength(TruncatePart(d), z.layout.size), z) <==> NoReceipts(digest, d, z)
  {
    var window := SetPartLength(TruncatePart(d), z.layout.size);
    assert NoReceipts(digest, window, z) <==> NoReceipts(digest, d, z);
    if NoReceipts(digest, d, z) {
      NoReceiptsIsCrashSafe(digest, window, z);
    } else {
      var after := OpenWindowOutcome(digest, d, z);
    }
  }

  /** Receipts for the object name one of its chunks. */
  lemma ReceiptsNameAChunk(digest: Digest, d: Disk, z: Offer) returns (bitmap: seq<Word>, c: nat)
    requires CollisionFree(digest) && ValidOffer(digest, z) && !NoReceipts(digest, d, z)
    ensures d.receipts.Some? && LoadMap(Latest(d.receipts.value), KeyOf(digest, z)) == Some(bitmap)
    ensures c < z.layout.chunks && Contains(bitmap, c)
  {
    var content, k := Latest(d.receipts.value), KeyOf(digest, z);
    bitmap := LoadMap(content, k).value;
    LoadMapExact(content, k, bitmap);
    c :| Contains(bitmap, c);
  }

  /** A partial file that differs everywhere from the source, under receipts for it, is resumed wrongly. */
  lemma SpoiledIsWrong(digest: Digest, d: Disk, z: Offer, after: Disk)
    requires CollisionFree(digest) && ValidOffer(digest, z) && !NoReceipts(digest, d, z)
    requires after.part == Some([Spoiled(z.source)]) && after.receipts == Synced(d.receipts)
    ensures |z.source| > 0 && Resumable(after, KeyOf(digest, z)).Some?
    ensures !Correct(z.layout, Latest(after.part.value), z.source, Resumable(after, KeyOf(digest, z)).value)
  {
    var bitmap, c := ReceiptsNameAChunk(digest, d, z);
    SpoiledChunkDiffers(z.layout, z.source, c);
  }

  lemma SpoiledChunkDiffers(l: Layout, source: Bytes, c: nat)
    requires ValidLayout(l) && |source| == l.size && c < l.chunks
    ensures |source| > 0 && ChunkOf(l, Spoiled(source), c) != ChunkOf(l, source, c)
  {
    ChunkShape(l, c);
    assert ChunkOf(l, Spoiled(source), c)[0] != ChunkOf(l, source, c)[0];
  }

  lemma OpenWindowOutcome(digest: Digest, d: Disk, z: Offer) returns (after: Disk)
    requires CollisionFree(digest) && ValidOffer(digest, z) && !NoReceipts(digest, d, z)
    ensures Crash(SetPartLength(TruncatePart(d), z.layout.size), after)
    ensures Resumable(after, KeyOf(digest, z)).Some?
    ensures !Correct(z.layout, Latest(after.part.value), z.source, Resumable(after, KeyOf(digest, z)).value)
  {
    var window := SetPartLength(TruncatePart(d), z.layout.size);
    after := Settled(window).(part := Some([Spoiled(z.source)]));
    SpoiledIsWrong(digest, d, z, after);
    SettledIsCrash(window);
    SpoiledOutcome(d, z.layout.size, Spoiled(z.source));
  }

  lemma SpoiledOutcome(d: Disk, size: nat, content: Bytes)
    requires |content| == size > 0
    ensures Survives(SetPartLength(TruncatePart(d), size).part.value, content)
  {
    var f := SetPartLength(TruncatePart(d), size).part.value;
    assert |f[|f| - 2]| == 0 && |f[|f| - 1]| == size;
  }

  ghost predicate NeverWritten(part: Option<File>) {
    match part
    case None => true
    case Some(f) => forall j :: 0 <= j < |f| ==> f[j] == []
  }

  /** Before that, truncated but not yet sized, a partial file that never held a byte is harmless as well. */
  lemma TruncatedIsSafeIff(digest: Digest, d: Disk, z: Offer)
    requires CollisionFree(digest) && ValidOffer(digest, z) && (d.receipts.Some? ==> |d.receipts.value| == 1)
    ensures CrashSafe(digest, TruncatePart(d), z) <==> NoReceipts(digest, d, z) || NeverWritten(d.part)
  {
    assert NoReceipts(digest, TruncatePart(d), z) <==> NoReceipts(digest, d, z);
    if NoReceipts(digest, d, z) {
      NoReceiptsIsCrashSafe(digest, TruncatePart(d), z);
    } else if NeverWritten(d.part) {
      forall after | Crash(TruncatePart(d), after) ensures Resumable(after, KeyOf(digest, z)).None? {
        EmptyStaysEmpty(digest, d, z, after);
      }
    } else {
      var after := TruncatedOutcome(digest, d, z);
    }
  }

  lemma EmptyStaysEmpty(digest: Digest, d: Disk, z: Offer, after: Disk)
    requires CollisionFree(digest) && ValidOffer(digest, z) && (d.receipts.Some? ==> |d.receipts.value| == 1)
    requires !NoReceipts(digest, d, z) && NeverWritten(d.part) && Crash(TruncatePart(d), after)
    ensures Resumable(after, KeyOf(digest, z)).None?
  {
    var bitmap := LoadMap(Latest(d.receipts.value), KeyOf(digest, z)).value;
    LoadMapExact(Latest(d.receipts.value), KeyOf(digest, z), bitmap);
    var c: nat :| Contains(bitmap, c);
    ChunkShape(z.layout, c);
    assert AgreedLength(TruncatePart(d).part.value, 0);
  }

  lemma TruncatedOutcome(digest: Digest, d: Disk, z: Offer) returns (after: Disk)
    requires CollisionFree(digest) && ValidOffer(digest, z) && !NoReceipts(digest, d, z) && !NeverWritten(d.part)
    ensures Crash(TruncatePart(d), after) && Resumable(after, KeyOf(digest, z)).Some?
    ensures !Correct(z.layout, Latest(after.part.value), z.source, Resumable(after, KeyOf(digest, z)).value)
  {
    var window := TruncatePart(d);
    after := Settled(window).(part := Some([Spoiled(z.source)]));
    SpoiledIsWrong(digest, d, z, after);
    SettledIsCrash(window);
    AnythingSurvivesTruncation(d, Spoiled(z.source));
  }

  lemma AnythingSurvivesTruncation(d: Disk, content: Bytes)
    requires !NeverWritten(d.part)
    ensures Survives(TruncatePart(d).part.value, content)
  {
    var f := TruncatePart(d).part.value;
    var j :| 0 <= j < |d.part.value| && d.part.value[j] != [];
    assert f[j] == d.part.value[j] && f[|f| - 1] == [];
  }

  /** And once the zeros have been synced, old receipts are harmless exactly for chunks that are zeros. */
  lemma SyncedWindowIsSafeIff(digest: Digest, d: Disk, z: Offer)
    requires CollisionFree(digest) && ValidOffer(digest, z) && (d.receipts.Some? ==> |d.receipts.value| == 1)
    ensures var zeros := Resized([], z.layout.size);
            CrashSafe(digest, SyncPart(SetPartLength(TruncatePart(d), z.layout.size)), z) <==>
            d.receipts.None? || match LoadMap(Latest(d.receipts.value), KeyOf(digest, z))
                                case None => true
                                case Some(bitmap) => Correct(z.layout, zeros, z.source, bitmap)
  {
    var zeros, window := Resized([], z.layout.size), SyncPart(SetPartLength(TruncatePart(d), z.layout.size));
    assert window.part == Some([zeros]);
    SettledIsCrash(window);
    assert Settled(window).part == window.part;
    if d.receipts.Some? { assert d.receipts.value == [Latest(d.receipts.value)]; }
    forall after | Crash(window, after) ensures after.part == window.part && after.receipts == d.receipts {
      SyncedFileCrash(window.part, after.part);
      SyncedFileCrash(window.receipts, after.receipts);
    }
  }

  /** A concrete disk on which the claim fails: a one-byte object, its full map, and no partial file. */
  lemma OpenWindowExample(digest: Digest, tag: Tag)
    requires CollisionFree(digest) && digest.hashed([7])
    ensures var z := Offer(Layout(1, 1, 256), [7], tag);
            var d := Disk(None, None, Some([EncodeMap(KeyOf(digest, z), Insert(Zeros(1), 0))]), None);
            ValidOffer(digest, z) && CrashSafe(digest, d, z)
            && !CrashSafe(digest, SetPartLength(TruncatePart(d), 1), z)
  {
    var z := Offer(Layout(1, 1, 256), [7], tag);
    var bitmap := Insert(Zeros(1), 0);
    var d := Disk(None, None, Some([EncodeMap(KeyOf(digest, z), bitmap)]), None);
    LoadMapExact(EncodeMap(KeyOf(digest, z), bitmap), KeyOf(digest, z), bitmap);
    assert Contains(bitmap, 0);
    SoundIsCrashSafe(digest, d, z);
    OpenWindowIsSafeIffNoReceipts(digest, d, z);
  }
}
