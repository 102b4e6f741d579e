/**
  A destination over its whole life: UDP sessions for arbitrary objects, one after another, each
  cut into the effects the program performs, with a crash possible between any two of them.
*/
module Transfers {
  import opened Outcomes
  import opened Bitmaps
  import opened Layouts
  import opened Disks
  import opened ResumeMaps
  import opened Packets
  import opened Receivers

  /**
    The object hash, and which byte strings a run hashes. Since 32 bytes cannot tell all byte strings
    apart, what is assumed is that no two strings hashed in the run collide.
  */
  datatype Digest = Digest(of: Bytes -> Bytes, hashed: Bytes -> bool)

  ghost predicate CollisionFree(digest: Digest) {
    && (forall a, b :: digest.hashed(a) && digest.hashed(b) && digest.of(a) == digest.of(b) ==> a == b)
    && (forall a :: |digest.of(a)| == 32)
  }

  /** What the sender offers and the authenticated greeting fixes for one session. */
  datatype Offer = Offer(layout: Layout, source: Bytes, tag: Tag)

  ghost predicate ValidOffer(digest: Digest, o: Offer) {
    ValidLayout(o.layout) && |o.source| == o.layout.size && digest.hashed(o.source)
  }

  function KeyOf(digest: Digest, o: Offer): Key {
    Key(o.layout, digest.of(o.source))
  }

  datatype Stage = ToSync | ToCreate | ToWrite | ToSyncTemp | ToRename

  /** Where the receiver process stands. */
  datatype Phase =
    | Down                                                        // no process
    | Started                                                     // greeting authenticated
    | Truncated | Sized                                           // inside `open`, fresh object
    | Saving(stage: Stage, bitmap: seq<Word>, next: Phase)        // inside `checkpoint`
    | Reusing(bitmap: seq<Word>, received: nat)                   // `open` has returned
    | Serving(r: Receiver)                                        // the datagram loop
    | Verified | Rejected | Unlinked                              // digest compared; inside `discard`
    | Renamed | Cleaned | Announced                               // inside `install`; COMPLETE sent

  /** `sent` is what the receiver has written to the control channel of the current session. */
  datatype System = System(
    disk: Disk, offer: Option<Offer>, phase: Phase, announced: bool, complete: bool, sent: seq<string>)

  /** Before the datagram loop. */
  datatype OpenEvent =
    | FindComplete
    | OpenResume | OpenTruncate | OpenSize
    | ReuseWrite(offset: nat, bytes: Bytes) | ReuseMark(bitmap: seq<Word>)
    | Go

  /** The effects of `checkpoint`. */
  datatype SaveEvent = SaveSync | SaveCreate | SaveWrite(count: nat) | SaveSyncTemp | SaveRename

  /** The datagram loop. */
  datatype LoopEvent = Arrive(wire: Bytes) | End | Checkpoint | Finish

  /** `discard`, `install` and the completion message. */
  datatype CloseEvent = RemovePartial | RemoveReceipts | InstallRename | InstallRemove | SendComplete

  datatype Event =
    | Begin(offer: Offer)
    | Open(o: OpenEvent) | Save(v: SaveEvent) | Loop(m: LoopEvent) | Close(c: CloseEvent)
    | Speak(line: string)
    | DeliverComplete
    | Abort
    | CrashTo(outcome: Disk)

  /** The bitmap `open` resumes from, when it trusts what it finds. */
  function Resumable(d: Disk, k: Key): Option<seq<Word>>
    requires |k.hash| == 32
  {
    if d.receipts.Some? && d.part.Some? && |Latest(d.part.value)| == k.layout.size
    then LoadMap(Latest(d.receipts.value), k) else None
  }

  predicate DestinationComplete(digest: Digest, d: Disk, o: Offer) {
    d.dest.Some? && |Latest(d.dest.value)| == o.layout.size && digest.of(Latest(d.dest.value)) == digest.of(o.source)
  }

  ghost predicate Extends(a: seq<Word>, b: seq<Word>) {
    forall k: nat :: Contains(a, k) ==> Contains(b, k)
  }

  ghost predicate OpenEnabled(digest: Digest, s: System, e: OpenEvent)
    requires CollisionFree(digest)
  {
    match e
    case FindComplete => s.phase == Started && s.offer.Some? && DestinationComplete(digest, s.disk, s.offer.value)
                         && digest.hashed(Latest(s.disk.dest.value))
    case OpenResume => s.phase == Started && s.offer.Some? && !DestinationComplete(digest, s.disk, s.offer.value)
                       && Resumable(s.disk, KeyOf(digest, s.offer.value)).Some?
    case OpenTruncate => s.phase == Started && s.offer.Some? && !DestinationComplete(digest, s.disk, s.offer.value)
                         && Resumable(s.disk, KeyOf(digest, s.offer.value)).None?
    case OpenSize => s.phase == Truncated && s.offer.Some? && s.disk.part.Some?
    case ReuseWrite(offset, bytes) => s.phase.Reusing? && CanWrite(s.disk, offset, bytes)
    case ReuseMark(bitmap) => s.phase.Reusing? && s.offer.Some? && Fits(bitmap, s.offer.value.layout.chunks)
                              && Extends(s.phase.bitmap, bitmap) && bitmap != s.phase.bitmap
    case Go => s.phase.Reusing? && s.offer.Some? && s.disk.part.Some?
               && |Latest(s.disk.part.value)| == s.offer.value.layout.size
  }

  ghost function OpenStep(digest: Digest, s: System, e: OpenEvent): System
    requires CollisionFree(digest) && OpenEnabled(digest, s, e)
  {
    match e
    case FindComplete => s.(phase := Announced, announced := true, sent := s.sent + ["COMPLETE"])
    case OpenResume =>
      var bitmap := Resumable(s.disk, KeyOf(digest, s.offer.value)).value;
      s.(phase := Reusing(bitmap, Population(bitmap)))
    case OpenTruncate => s.(disk := TruncatePart(s.disk), phase := Truncated)
    case OpenSize =>
      var zeros := Zeros(WordsFor(s.offer.value.layout.chunks));
      s.(disk := SetPartLength(s.disk, s.offer.value.layout.size), phase := Saving(ToSync, zeros, Reusing(zeros, 0)))
    case ReuseWrite(offset, bytes) => s.(disk := WritePart(s.disk, offset, bytes))
    case ReuseMark(bitmap) => s.(phase := Saving(ToSync, bitmap, Reusing(bitmap, Population(bitmap))))
    case Go =>
      var r := Start(s.offer.value.layout, Latest(s.disk.part.value), s.phase.bitmap, s.phase.received,
        Highest(s.phase.bitmap));
      s.(phase := Serving(r))
  }

  ghost predicate SaveEnabled(digest: Digest, s: System, e: SaveEvent)
    requires CollisionFree(digest)
  {
    match e
    case SaveSync => s.phase.Saving? && s.phase.stage == ToSync
    case SaveCreate => s.phase.Saving? && s.phase.stage == ToCreate
    case SaveWrite(count) => s.phase.Saving? && s.phase.stage == ToWrite && s.offer.Some? && s.disk.temp.Some?
      && |Latest(s.disk.temp.value)| + count <= |EncodeMap(KeyOf(digest, s.offer.value), s.phase.bitmap)|
    case SaveSyncTemp => s.phase.Saving? && s.phase.stage == ToWrite && s.offer.Some? && s.disk.temp.Some?
      && |Latest(s.disk.temp.value)| == |EncodeMap(KeyOf(digest, s.offer.value), s.phase.bitmap)|
    case SaveRename => s.phase.Saving? && s.phase.stage == ToRename
  }

  function AfterSave(stage: Stage, p: Phase): Phase
    requires p.Saving?
  {
    p.(stage := stage)
  }

  ghost function SaveStep(digest: Digest, s: System, e: SaveEvent): System
    requires CollisionFree(digest) && SaveEnabled(digest, s, e)
  {
    match e
    case SaveSync => s.(disk := SyncPart(s.disk), phase := AfterSave(ToCreate, s.phase))
    case SaveCreate => s.(disk := CreateTemp(s.disk), phase := AfterSave(ToWrite, s.phase))
    case SaveWrite(count) =>
      var content := EncodeMap(KeyOf(digest, s.offer.value), s.phase.bitmap);
      var done := |Latest(s.disk.temp.value)|;
      s.(disk := AppendTemp(s.disk, content[done..done + count]))
    case SaveSyncTemp => s.(disk := SyncTemp(s.disk), phase := AfterSave(ToRename, s.phase))
    case SaveRename => s.(disk := RenameTempToMap(s.disk), phase := s.phase.next)
  }

  ghost predicate LoopEnabled(digest: Digest, s: System, e: LoopEvent)
    requires CollisionFree(digest)
  {
    match e
    case Arrive(wire) => s.phase.Serving? && s.offer.Some? && Ready(s.offer.value.layout, s.disk, s.phase.r)
    case End => s.phase.Serving?
    case Checkpoint => s.phase.Serving? && s.phase.r.dirty
    case Finish =>
      && s.phase.Serving? && s.offer.Some? && Ready(s.offer.value.layout, s.disk, s.phase.r)
      && s.phase.r.ended && s.phase.r.received == s.offer.value.layout.chunks
      && Advance(s.offer.value.layout, Latest(s.disk.part.value), s.phase.r).frontier == s.offer.value.layout.chunks
      && digest.hashed(Advance(s.offer.value.layout, Latest(s.disk.part.value), s.phase.r).absorbed)
  }

  ghost function LoopStep(digest: Digest, s: System, e: LoopEvent): System
    requires CollisionFree(digest) && LoopEnabled(digest, s, e)
  {
    match e
    case Arrive(wire) =>
      var (disk, r) := OnDatagram(s.offer.value.layout, s.offer.value.tag, s.disk, s.phase.r, wire);
      s.(disk := disk, phase := Serving(r))
    case End => s.(phase := Serving(s.phase.r.(ended := true)))
    case Checkpoint => s.(phase := Saving(ToSync, s.phase.r.bitmap, Serving(s.phase.r.(dirty := false))))
    case Finish =>
      var r := Advance(s.offer.value.layout, Latest(s.disk.part.value), s.phase.r);
      s.(disk := SyncPart(s.disk),
         phase := if digest.of(r.absorbed) == digest.of(s.offer.value.source) then Verified else Rejected)
  }

  ghost predicate CloseEnabled(digest: Digest, s: System, e: CloseEvent)
    requires CollisionFree(digest)
  {
    match e
    case RemovePartial => s.phase == Rejected
    case RemoveReceipts => s.phase == Unlinked
    case InstallRename => s.phase == Verified
    case InstallRemove => s.phase == Renamed
    case SendComplete => s.phase == Cleaned
  }

  ghost function CloseStep(digest: Digest, s: System, e: CloseEvent): System
    requires CollisionFree(digest) && CloseEnabled(digest, s, e)
  {
    match e
    case RemovePartial => s.(disk := RemovePart(s.disk), phase := Unlinked)
    case RemoveReceipts => s.(disk := RemoveMap(s.disk), phase := Down)
    case InstallRename => s.(disk := RenamePartToDest(s.disk), phase := Renamed)
    case InstallRemove => s.(disk := RemoveMap(s.disk), phase := Cleaned)
    case SendComplete => s.(phase := Announced, announced := true, sent := s.sent + ["COMPLETE"])
  }

  /** Every other line a receiver writes: the dialogue, reports, answers and the cancellation. */
  predicate Spoken(line: string) {
    || line in ["GO", "PONG", "CANCEL hash-mismatch"]
    || "READY " <= line || "REUSED " <= line || "H " <= line || "M " <= line
  }

  ghost predicate Enabled(digest: Digest, s: System, e: Event)
    requires CollisionFree(digest)
  {
    match e
    case Open(o) => OpenEnabled(digest, s, o)
    case Save(v) => SaveEnabled(digest, s, v)
    case Loop(m) => LoopEnabled(digest, s, m)
    case Close(c) => CloseEnabled(digest, s, c)
    case Begin(o) => s.phase == Down && ValidOffer(digest, o)
    case Speak(line) => s.phase != Down && Spoken(line)
    case DeliverComplete => s.announced
    case Abort => true
    case CrashTo(outcome) => Crash(s.disk, outcome)
  }

  ghost function Step(digest: Digest, s: System, e: Event): System
    requires CollisionFree(digest) && Enabled(digest, s, e)
  {
    match e
    case Open(o) => OpenStep(digest, s, o)
    case Save(v) => SaveStep(digest, s, v)
    case Loop(m) => LoopStep(digest, s, m)
    case Close(c) => CloseStep(digest, s, c)
    case Begin(o) => System(s.disk, Some(o), Started, false, false, [])
    case Speak(line) => s.(sent := s.sent + [line])
    case DeliverComplete => s.(complete := true)
    case Abort => s.(phase := Down)
    case CrashTo(outcome) => s.(disk := outcome, phase := Down)
  }

  /** `t` is reached from `s` by performing `events` in order. */
  ghost predicate Reaches(digest: Digest, s: System, events: seq<Event>, t: System)
    requires CollisionFree(digest)
    decreases |events|
  {
    if events == [] then s == t
    else Enabled(digest, s, events[0]) && Reaches(digest, Step(digest, s, events[0]), events[1..], t)
  }

  /** Nothing running, nothing promised; leftovers of earlier transfers may be anything settled. */
  ghost predicate Initial(s: System) {
    s.phase == Down && !s.announced && !s.complete && s.sent == []
    && (s.disk.dest.Some? ==> |s.disk.dest.value| == 1)
    && (s.disk.receipts.Some? ==> |s.disk.receipts.value| == 1)
  }

  // ----- safety -----

  /** A promise of completion is backed by an installed, durable, byte-equal destination. */
  ghost predicate Promise(s: System) {
    s.announced || s.complete ==> s.offer.Some? && s.disk.dest == Some([s.offer.value.source])
  }

  ghost predicate ReceiverOk(o: Offer, d: Disk, r: Receiver) {
    && Ready(o.layout, d, r)
    && Fits(r.bitmap, o.layout.chunks)
    && HashedPrefix(o.layout, Latest(d.part.value), r)
  }

  ghost predicate NextOk(o: Offer, d: Disk, bitmap: seq<Word>, next: Phase) {
    match next
    case Reusing(b, received) => b == bitmap && received == |Members(b)|
    case Serving(r) => r.bitmap == bitmap && ReceiverOk(o, d, r)
    case _ => false
  }

  /** What the temporary map file holds at each stage of a checkpoint. */
  ghost predicate TempOk(content: Bytes, d: Disk, stage: Stage) {
    match stage
    case ToWrite => d.temp.Some? && Latest(d.temp.value) <= content
    case ToRename => d.temp == Some([content])
    case _ => true
  }

  ghost predicate PartOk(o: Offer, d: Disk) {
    d.part.Some? && |Latest(d.part.value)| == o.layout.size
  }

  ghost predicate PhaseOk(digest: Digest, o: Offer, d: Disk, phase: Phase)
    requires CollisionFree(digest)
  {
    match phase
    case Truncated => d.part.Some?
    case Saving(stage, bitmap, next) =>
      && PartOk(o, d) && Fits(bitmap, o.layout.chunks)
      && NextOk(o, d, bitmap, next) && TempOk(EncodeMap(KeyOf(digest, o), bitmap), d, stage)
    case Reusing(bitmap, received) =>
      && PartOk(o, d) && Fits(bitmap, o.layout.chunks)
      && received == |Members(bitmap)|
      && d.receipts == Some([EncodeMap(KeyOf(digest, o), bitmap)])
    case Serving(r) => ReceiverOk(o, d, r)
    case Verified => d.part == Some([o.source])
    case Renamed => d.dest == Some([o.source])
    case Cleaned => d.dest == Some([o.source])
    case Announced => d.dest == Some([o.source])
    case _ => true
  }

  ghost predicate Safe(digest: Digest, s: System)
    requires CollisionFree(digest)
  {
    && (s.disk.dest.Some? ==> |s.disk.dest.value| == 1)
    && (s.disk.receipts.Some? ==> |s.disk.receipts.value| == 1)
    && (s.offer.Some? ==> ValidOffer(digest, s.offer.value))
    && (s.phase != Down ==> s.offer.Some? && PhaseOk(digest, s.offer.value, s.disk, s.phase))
    && (s.phase == Down || s.phase == Announced || (!s.announced && !s.complete))
    && Promise(s)
  }

  lemma FinishIsSafe(digest: Digest, s: System)
    requires CollisionFree(digest) && Safe(digest, s) && LoopEnabled(digest, s, Finish)
    ensures Safe(digest, LoopStep(digest, s, Finish))
  {
    var o := s.offer.value;
    var file := Latest(s.disk.part.value);
    AdvanceKeepsHashedPrefix(o.layout, file, s.phase.r);
    LastEdge(o.layout);
    assert file[..o.layout.size] == file;
    assert Advance(o.layout, file, s.phase.r).absorbed == file;
  }

  lemma SyncIsSafe(digest: Digest, s: System)
    requires CollisionFree(digest) && Safe(digest, s) && SaveEnabled(digest, s, SaveSync)
    ensures Safe(digest, SaveStep(digest, s, SaveSync))
  {
    assert Latest(SyncPart(s.disk).part.value) == Latest(s.disk.part.value);
  }

  lemma WriteIsSafe(digest: Digest, s: System, count: nat)
    requires CollisionFree(digest) && Safe(digest, s) && SaveEnabled(digest, s, SaveWrite(count))
    ensures Safe(digest, SaveStep(digest, s, SaveWrite(count)))
  {
    var content := EncodeMap(KeyOf(digest, s.offer.value), s.phase.bitmap);
    var before := Latest(s.disk.temp.value);
    assert before + content[|before|..|before| + count] == content[..|before| + count];
  }

  lemma SyncTempIsSafe(digest: Digest, s: System)
    requires CollisionFree(digest) && Safe(digest, s) && SaveEnabled(digest, s, SaveSyncTemp)
    ensures Safe(digest, SaveStep(digest, s, SaveSyncTemp))
  {
    var content := EncodeMap(KeyOf(digest, s.offer.value), s.phase.bitmap);
    assert Latest(s.disk.temp.value) == content;
  }

  lemma RenameIsSafe(digest: Digest, s: System)
    requires CollisionFree(digest) && Safe(digest, s) && SaveEnabled(digest, s, SaveRename)
    ensures Safe(digest, SaveStep(digest, s, SaveRename))
  {
  }

  lemma FindCompleteIsSafe(digest: Digest, s: System)
    requires CollisionFree(digest) && Safe(digest, s) && OpenEnabled(digest, s, FindComplete)
    ensures Safe(digest, OpenStep(digest, s, FindComplete))
  {
    assert s.disk.dest.value == [Latest(s.disk.dest.value)];
  }

  lemma OpenResumeIsSafe(digest: Digest, s: System)
    requires CollisionFree(digest) && Safe(digest, s) && OpenEnabled(digest, s, OpenResume)
    ensures Safe(digest, OpenStep(digest, s, OpenResume))
  {
    var k := KeyOf(digest, s.offer.value);
    var bitmap := Resumable(s.disk, k).value;
    LoadMapExact(Latest(s.disk.receipts.value), k, bitmap);
    PopulationIsCardinality(bitmap);
    assert s.disk.receipts.value == [Latest(s.disk.receipts.value)];
  }

  lemma GoIsSafe(digest: Digest, s: System)
    requires CollisionFree(digest) && Safe(digest, s) && OpenEnabled(digest, s, Go)
    ensures Safe(digest, OpenStep(digest, s, Go))
  {
    StartIsHashedPrefix(s.offer.value.layout, Latest(s.disk.part.value), s.phase.bitmap, s.phase.received,
                        Highest(s.phase.bitmap));
  }

  lemma ArriveIsSafe(digest: Digest, s: System, wire: Bytes)
    requires CollisionFree(digest) && Safe(digest, s) && LoopEnabled(digest, s, Arrive(wire))
    ensures Safe(digest, LoopStep(digest, s, Arrive(wire)))
  {
    var o := s.offer.value;
    DatagramKeepsHashedPrefix(o.layout, o.tag, s.disk, s.phase.r, wire);
    DatagramKeepsFits(o.layout, o.tag, s.disk, s.phase.r, wire);
  }

  lemma OpenSizeIsSafe(digest: Digest, s: System)
    requires CollisionFree(digest) && Safe(digest, s) && OpenEnabled(digest, s, OpenSize)
    ensures Safe(digest, OpenStep(digest, s, OpenSize))
  {
    assert Members(Zeros(WordsFor(s.offer.value.layout.chunks))) == {};
  }

  lemma CrashIsSafe(digest: Digest, s: System, outcome: Disk)
    requires CollisionFree(digest) && Safe(digest, s) && Enabled(digest, s, CrashTo(outcome))
    ensures Safe(digest, Step(digest, s, CrashTo(outcome)))
  {
    SyncedFileCrash(s.disk.dest, outcome.dest);
    SyncedFileCrash(s.disk.receipts, outcome.receipts);
  }

  lemma OpenStepIsSafe(digest: Digest, s: System, e: OpenEvent)
    requires CollisionFree(digest) && Safe(digest, s) && OpenEnabled(digest, s, e)
    ensures Safe(digest, OpenStep(digest, s, e))
  {
    match e
    case FindComplete => FindCompleteIsSafe(digest, s);
    case OpenResume => OpenResumeIsSafe(digest, s);
    case OpenSize => OpenSizeIsSafe(digest, s);
    case ReuseMark(bitmap) => PopulationIsCardinality(bitmap);
    case Go => GoIsSafe(digest, s);
    case _ =>
  }

  lemma SaveStepIsSafe(digest: Digest, s: System, e: SaveEvent)
    requires CollisionFree(digest) && Safe(digest, s) && SaveEnabled(digest, s, e)
    ensures Safe(digest, SaveStep(digest, s, e))
  {
    match e
    case SaveSync => SyncIsSafe(digest, s);
    case SaveWrite(count) => WriteIsSafe(digest, s, count);
    case SaveSyncTemp => SyncTempIsSafe(digest, s);
    case SaveRename => RenameIsSafe(digest, s);
    case SaveCreate =>
  }

  lemma LoopStepIsSafe(digest: Digest, s: System, e: LoopEvent)
    requires CollisionFree(digest) && Safe(digest, s) && LoopEnabled(digest, s, e)
    ensures Safe(digest, LoopStep(digest, s, e))
  {
    match e
    case Arrive(wire) => ArriveIsSafe(digest, s, wire);
    case Finish => FinishIsSafe(digest, s);
    case _ =>
  }

  lemma CloseStepIsSafe(digest: Digest, s: System, e: CloseEvent)
    requires CollisionFree(digest) && Safe(digest, s) && CloseEnabled(digest, s, e)
    ensures Safe(digest, CloseStep(digest, s, e))
  {
  }

  lemma StepIsSafe(digest: Digest, s: System, e: Event)
    requires CollisionFree(digest) && Safe(digest, s) && Enabled(digest, s, e)
    ensures Safe(digest, Step(digest, s, e))
  {
    match e
    case Open(o) => OpenStepIsSafe(digest, s, o);
    case Save(v) => SaveStepIsSafe(digest, s, v);
    case Loop(m) => LoopStepIsSafe(digest, s, m);
    case Close(c) => CloseStepIsSafe(digest, s, c);
    case CrashTo(outcome) => CrashIsSafe(digest, s, outcome);
    case _ =>
  }

  /**
    Whole-system safety. In every run, with datagrams lost, duplicated, reordered or from other
    sessions, and with crashes between any two effects: once COMPLETE is in the control channel, or
    the sender has taken it, the destination is durably equal to the source. Nothing is assumed of
    the network, of the leftovers of earlier transfers or of the reuse candidate.
  */
  lemma {:induction false} CompletionImpliesInstalled(digest: Digest, s: System, events: seq<Event>, t: System)
    requires CollisionFree(digest) && Initial(s) && (s.offer.Some? ==> ValidOffer(digest, s.offer.value))
    requires Reaches(digest, s, events, t)
    ensures t.announced || t.complete ==> t.offer.Some? && t.disk.dest == Some([t.offer.value.source])
  {
    RunIsSafe(digest, s, events, t);
  }

  lemma {:induction false} RunIsSafe(digest: Digest, s: System, events: seq<Event>, t: System)
    requires CollisionFree(digest) && Safe(digest, s) && Reaches(digest, s, events, t)
    ensures Safe(digest, t)
    decreases |events|
  {
    if events != [] {
      StepIsSafe(digest, s, events[0]);
      RunIsSafe(digest, Step(digest, s, events[0]), events[1..], t);
    }
  }

  /** COMPLETE is in the channel exactly when completion has been announced. */
  ghost predicate SaysWhatItAnnounces(s: System) {
    s.announced <==> "COMPLETE" in s.sent
  }

  lemma SpokenIsNotComplete(line: string)
    requires Spoken(line)
    ensures line != "COMPLETE"
  {
    var c := "COMPLETE";
    assert c[0] == 'C' && c[1] == 'O' && |c| == 8;
  }

  lemma StepSaysWhatItAnnounces(digest: Digest, s: System, e: Event)
    requires CollisionFree(digest) && Enabled(digest, s, e) && SaysWhatItAnnounces(s)
    ensures SaysWhatItAnnounces(Step(digest, s, e))
  {
    match e
    case Speak(line) => SpokenIsNotComplete(line);
    case _ =>
  }

  lemma {:induction false} RunSaysWhatItAnnounces(digest: Digest, s: System, events: seq<Event>, t: System)
    requires CollisionFree(digest) && SaysWhatItAnnounces(s) && Reaches(digest, s, events, t)
    ensures SaysWhatItAnnounces(t)
    decreases |events|
  {
    if events != [] {
      StepSaysWhatItAnnounces(digest, s, events[0]);
      RunSaysWhatItAnnounces(digest, Step(digest, s, events[0]), events[1..], t);
    }
  }

  /** The bitmap the receiver is about to announce is the durable map, whatever happened before. */
  lemma AnnouncedBitmapIsDurable(digest: Digest, s: System, events: seq<Event>, t: System, after: Disk)
    requires CollisionFree(digest) && Initial(s) && (s.offer.Some? ==> ValidOffer(digest, s.offer.value))
    requires Reaches(digest, s, events, t) && t.phase.Reusing? && Crash(t.disk, after)
    ensures t.offer.Some? && after.receipts.Some?
    ensures LoadMap(Latest(after.receipts.value), KeyOf(digest, t.offer.value)) == Some(t.phase.bitmap)
    ensures t.phase.received == |Members(t.phase.bitmap)|
  {
    RunIsSafe(digest, s, events, t);
    SyncedFileCrash(t.disk.receipts, after.receipts);
    LoadMapExact(Latest(after.receipts.value), KeyOf(digest, t.offer.value), t.phase.bitmap);
  }
}
