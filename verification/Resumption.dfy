/**
  What an interrupted transfer keeps: in every state of the datagram loop with nothing waiting to be saved, the
  durable map is the receiver's own bitmap, and the next session for the object resumes with exactly that.
*/
module Resumption {
  import opened Outcomes
  import opened Text
  import opened Bitmaps
  import opened Layouts
  import opened Disks
  import opened ResumeMaps
  import opened Packets
  import opened Receivers
  import opened Transfers
  import opened Durability
  import opened Datagrams

  /**
    A session resumes from a bitmap if and only if the map file records it and the partial file is complete
    in size.
  */
  lemma ResumableIff(d: Disk, k: Key, bitmap: seq<Word>)
    requires |k.hash| == 32
    ensures Resumable(d, k) == Some(bitmap) <==>
            && d.part.Some? && |Latest(d.part.value)| == k.layout.size
            && d.receipts.Some? && Latest(d.receipts.value) == EncodeMap(k, bitmap) && Fits(bitmap, k.layout.chunks)
  {
    if d.receipts.Some? { LoadMapExact(Latest(d.receipts.value), k, bitmap); }
  }

  /** The durable map records this bitmap. */
  ghost predicate Saved(digest: Digest, s: System, bitmap: seq<Word>)
    requires CollisionFree(digest) && s.offer.Some?
  {
    s.disk.receipts == Some([EncodeMap(KeyOf(digest, s.offer.value), bitmap)])
  }

  /** Whatever is not waiting to be saved is saved. */
  ghost predicate NothingUnsaved(digest: Digest, s: System)
    requires CollisionFree(digest)
  {
    s.phase.Serving? && s.offer.Some? && !s.phase.r.dirty ==> Saved(digest, s, s.phase.r.bitmap)
  }

  lemma ArriveKeepsSaved(digest: Digest, s: System, wire: Bytes)
    requires CollisionFree(digest) && NothingUnsaved(digest, s) && LoopEnabled(digest, s, Arrive(wire))
    ensures NothingUnsaved(digest, LoopStep(digest, s, Arrive(wire)))
  {
    var o, r := s.offer.value, s.phase.r;
    OneDatagramIsDirty(o.layout, o.tag, s.disk, r, wire);
    DatagramLeavesMap(o.layout, o.tag, s.disk, r, wire);
  }

  lemma OneDatagramIsDirty(l: Layout, tag: Tag, d: Disk, r: Receiver, wire: Bytes)
    requires Ready(l, d, r)
    ensures var r' := OnDatagram(l, tag, d, r, wire).1; !r'.dirty ==> !r.dirty && r'.bitmap == r.bitmap
  {
    DatagramFlags(l, tag, d, r, wire);
    if !OnDatagram(l, tag, d, r, wire).1.dirty {
      NothingNewNoTurn(l, tag, d, r, wire);
    }
  }

  lemma DatagramLeavesMap(l: Layout, tag: Tag, d: Disk, r: Receiver, wire: Bytes)
    requires Ready(l, d, r)
    ensures OnDatagram(l, tag, d, r, wire).0.receipts == d.receipts
  {
  }

  lemma RenameSaves(digest: Digest, s: System)
    requires CollisionFree(digest) && Safe(digest, s) && SaveEnabled(digest, s, SaveRename)
    ensures NothingUnsaved(digest, SaveStep(digest, s, SaveRename))
  {
    var o := s.offer.value;
    assert PhaseOk(digest, o, s.disk, s.phase);
  }

  lemma OpenKeepsSaved(digest: Digest, s: System, e: OpenEvent)
    requires CollisionFree(digest) && Safe(digest, s) && OpenEnabled(digest, s, e)
    ensures NothingUnsaved(digest, OpenStep(digest, s, e))
  {
    if e == Go { assert PhaseOk(digest, s.offer.value, s.disk, s.phase); }
  }

  lemma LoopKeepsSaved(digest: Digest, s: System, e: LoopEvent)
    requires CollisionFree(digest) && NothingUnsaved(digest, s) && LoopEnabled(digest, s, e)
    ensures NothingUnsaved(digest, LoopStep(digest, s, e))
  {
    if e.Arrive? { ArriveKeepsSaved(digest, s, e.wire); }
  }

  lemma StepKeepsSaved(digest: Digest, s: System, e: Event)
    requires CollisionFree(digest) && Safe(digest, s) && NothingUnsaved(digest, s) && Enabled(digest, s, e)
    ensures NothingUnsaved(digest, Step(digest, s, e))
  {
    match e
    case Open(o) => OpenKeepsSaved(digest, s, o);
    case Save(v) =>
      if v == SaveRename { RenameSaves(digest, s); }
    case Loop(m) => LoopKeepsSaved(digest, s, m);
    case _ =>
  }

  lemma {:induction false} RunKeepsSaved(digest: Digest, s: System, events: seq<Event>, t: System)
    requires CollisionFree(digest) && Safe(digest, s) && NothingUnsaved(digest, s) && Reaches(digest, s, events, t)
    ensures Safe(digest, t) && NothingUnsaved(digest, t)
    decreases |events|
  {
    if events != [] {
      StepIsSafe(digest, s, events[0]);
      StepKeepsSaved(digest, s, events[0]);
      RunKeepsSaved(digest, Step(digest, s, events[0]), events[1..], t);
    }
  }

  /**
    In every state of the datagram loop that any run reaches, with nothing waiting to be saved the durable map is
    the receiver's bitmap: whatever chunk arrives is waiting from then on until a checkpoint has saved it.
  */
  lemma CleanStateIsSaved(digest: Digest, s: System, events: seq<Event>, t: System)
    requires CollisionFree(digest) && Initial(s) && s.offer.None?
    requires Reaches(digest, s, events, t) && t.phase.Serving? && !t.phase.r.dirty
    ensures t.offer.Some?
    ensures t.disk.receipts == Some([EncodeMap(KeyOf(digest, t.offer.value), t.phase.r.bitmap)])
  {
    RunKeepsSaved(digest, s, events, t);
  }

  lemma {:induction false} HonestRunReaches(digest: Digest, s: System, events: seq<Event>, t: System, z: Offer)
    requires CollisionFree(digest) && ValidOffer(digest, z) && HonestRun(digest, s, events, t, z)
    ensures Reaches(digest, s, events, t)
    decreases |events|
  {
    if events != [] {
      HonestRunReaches(digest, Step(digest, s, events[0]), events[1..], t, z);
    }
  }

  /** The system with that disk and the sender offering the object. */
  function Reopened(disk: Disk, z: Offer): System {
    System(disk, Some(z), Started, false, false, [])
  }

  lemma ReopenedAfterCrash(digest: Digest, t: System, after: Disk, z: Offer)
    requires CollisionFree(digest) && ValidOffer(digest, z) && Crash(t.disk, after)
    ensures Reaches(digest, t, [CrashTo(after), Begin(z)], Reopened(after, z))
  {
    var down := Step(digest, t, CrashTo(after));
    assert Reaches(digest, Step(digest, down, Begin(z)), [], Reopened(after, z));
    assert [CrashTo(after), Begin(z)][1..] == [Begin(z)];
    assert [Begin(z)][1..] == [];
  }

  lemma SavedIsResumable(digest: Digest, t: System, after: Disk, z: Offer)
    requires CollisionFree(digest) && ValidOffer(digest, z) && Kept(digest, t, z)
    requires t.phase.Serving? && t.offer.Some? && SameObject(t.offer.value, z) && Saved(digest, t, t.phase.r.bitmap)
    requires Members(t.phase.r.bitmap) != {} && Crash(t.disk, after)
    ensures Resumable(after, KeyOf(digest, z)) == Some(t.phase.r.bitmap)
  {
    var k, bitmap := KeyOf(digest, z), t.phase.r.bitmap;
    assert ReceiverOk(t.offer.value, t.disk, t.phase.r);
    SameObjectSameKey(digest, t.offer.value, z);
    LoadMapExact(Latest(t.disk.receipts.value), k, bitmap);
    var c :| c in Members(bitmap);
    assert Live(digest, t.disk, z, bitmap) && !NoReceipts(digest, t.disk, z);
    var b :| SoundMap(digest, t.disk, z, b);
    SyncedFileCrash(t.disk.receipts, after.receipts);
    CorrectFileSurvives(z.layout, t.disk.part.value, z.source, b, Latest(after.part.value));
    ResumableIff(after, k, bitmap);
  }

  lemma ResumesFrom(digest: Digest, u: System, z: Offer, bitmap: seq<Word>)
    requires CollisionFree(digest) && ValidOffer(digest, z) && u.phase == Started && u.offer == Some(z)
    requires Resumable(u.disk, KeyOf(digest, z)) == Some(bitmap) && !DestinationComplete(digest, u.disk, z)
    ensures OpenEnabled(digest, u, OpenResume)
    ensures OpenStep(digest, u, OpenResume).phase == Reusing(bitmap, |Members(bitmap)|)
  {
    PopulationIsCardinality(bitmap);
  }

  lemma CrashLeavesSaved(digest: Digest, s: System, events: seq<Event>, t: System, after: Disk, z: Offer)
    requires CollisionFree(digest) && ValidOffer(digest, z)
    requires Initial(s) && s.offer.None? && Sound(digest, s.disk, z) && HonestRun(digest, s, events, t, z)
    requires t.phase.Serving? && t.offer.Some? && SameObject(t.offer.value, z)
    requires !t.phase.r.dirty && Members(t.phase.r.bitmap) != {} && Crash(t.disk, after)
    ensures Resumable(after, KeyOf(digest, z)) == Some(t.phase.r.bitmap)
  {
    RunIsHeld(digest, s, events, t, z);
    HonestRunReaches(digest, s, events, t, z);
    CleanStateIsSaved(digest, s, events, t);
    SavedIsResumable(digest, t, after, z);
  }

  /**
    The use of all this: an honest transfer that crashes in the datagram loop with everything saved goes on where it
    was. Whatever the crash leaves, the next session for the object starts with the very chunks received so far.
  */
  lemma InterruptedTransferResumes(digest: Digest, s: System, events: seq<Event>, t: System, after: Disk, z: Offer)
    requires CollisionFree(digest) && ValidOffer(digest, z)
    requires Initial(s) && s.offer.None? && Sound(digest, s.disk, z) && HonestRun(digest, s, events, t, z)
    requires t.phase.Serving? && t.offer.Some? && SameObject(t.offer.value, z)
    requires !t.phase.r.dirty && Members(t.phase.r.bitmap) != {} && Crash(t.disk, after)
    requires !DestinationComplete(digest, after, z)
    ensures Reaches(digest, t, [CrashTo(after), Begin(z)], Reopened(after, z))
    ensures OpenEnabled(digest, Reopened(after, z), OpenResume)
    ensures OpenStep(digest, Reopened(after, z), OpenResume).phase
         == Reusing(t.phase.r.bitmap, |Members(t.phase.r.bitmap)|)
  {
    CrashLeavesSaved(digest, s, events, t, after, z);
    ReopenedAfterCrash(digest, t, after, z);
    ResumesFrom(digest, Reopened(after, z), z, t.phase.r.bitmap);
  }
}
