/**
  The receiving side as the program runs it: storage effects, the resume state with its bitmap
  updated in place, and the datagram loop's body. Each method is proved against the value-level
  step it performs, and `checkpoint` against every disk state it passes through.
*/
module ReceiveUdp {
  import opened Outcomes
  import opened Text
  import opened Bitmaps
  import opened Layouts
  import opened Disks
  import opened ResumeMaps
  import opened Packets
  import opened Receivers
  import opened Transfers
  import opened Durability

  /** The files of one destination. `history` lists the state after every effect. */
  class Storage {
    var disk: Disk
    ghost var history: seq<Disk>

    constructor (d: Disk)
      ensures disk == d && history == []
    {
      disk := d;
      history := [];
    }

    method Perform(d: Disk)
      modifies this
      ensures disk == d && history == old(history) + [d]
    {
      disk := d;
      history := history + [d];
    }
  }

  ghost predicate AllCrashSafe(digest: Digest, states: seq<Disk>, z: Offer)
    requires CollisionFree(digest) && ValidOffer(digest, z)
  {
    forall i :: 0 <= i < |states| ==> CrashSafe(digest, states[i], z)
  }

  /** Writing the temporary map: nothing but `temp` moves, and no state on the way is unsafe to crash in. */
  ghost predicate WritesTemp(storage: Storage, synced: Disk, start: nat, live: bool, digest: Digest, z: Offer)
    requires CollisionFree(digest) && ValidOffer(digest, z)
    reads storage
  {
    && storage.disk == synced.(temp := storage.disk.temp)
    && start <= |storage.history|
    && (live ==> AllCrashSafe(digest, storage.history[start..], z))
  }

  class ResumeState {
    const bitmap: array<Word>
    var receivedCount: nat
    const key: Key

    constructor (bitmap: array<Word>, receivedCount: nat, key: Key)
      ensures this.bitmap == bitmap && this.receivedCount == receivedCount && this.key == key
    {
      this.bitmap := bitmap;
      this.receivedCount := receivedCount;
      this.key := key;
    }

    /** `bitmap_insert` followed by `received_count += 1` */
    method Insert(k: nat)
      requires k / 64 < bitmap.Length
      modifies this, bitmap
      ensures bitmap[..] == Bitmaps.Insert(old(bitmap[..]), k) && receivedCount == old(receivedCount) + 1
    {
      Pow2Of64();
      WordWithFits(bitmap[k / 64], k % 64, 64);
      bitmap[k / 64] := WordWith(bitmap[k / 64], k % 64);
      receivedCount := receivedCount + 1;
    }

    /**
      `checkpoint`: sync the data, write and sync a new map beside the old one, rename it over.
      When the session's receipts are correct, a crash after any of these effects is harmless.
    */
    method Checkpoint(storage: Storage, ghost digest: Digest, ghost z: Offer)
      requires CollisionFree(digest) && ValidOffer(digest, z) && key == KeyOf(digest, z)
      requires storage.disk.part.Some? && Fits(bitmap[..], key.layout.chunks)
      requires storage.disk.receipts.Some? ==> |storage.disk.receipts.value| == 1
      modifies storage
      ensures storage.disk == Disk(Synced(old(storage.disk.part)), None,
                                   Some([EncodeMap(key, bitmap[..])]), old(storage.disk.dest))
      ensures old(storage.history) <= storage.history
      ensures old(Live(digest, storage.disk, z, bitmap[..])) ==>
                Live(digest, storage.disk, z, bitmap[..])
                && AllCrashSafe(digest, storage.history[|old(storage.history)|..], z)
    {
      ghost var live := Live(digest, storage.disk, z, bitmap[..]);
      ghost var start := |storage.history|;
      if live { SyncKeepsLive(digest, storage.disk, z, bitmap[..]); }
      storage.Perform(SyncPart(storage.disk));
      ghost var synced := storage.disk;
      if live { LiveIsCrashSafe(digest, synced, z, bitmap[..]); }
      WriteTemp(storage, synced, start, live, digest, z);
      Rename(storage, synced, start, live, digest, z);
    }

    method Rename(storage: Storage, ghost synced: Disk, ghost start: nat, ghost live: bool, ghost digest: Digest,
                  ghost z: Offer)
      requires CollisionFree(digest) && ValidOffer(digest, z) && key == KeyOf(digest, z)
      requires WritesTemp(storage, synced, start, live, digest, z)
      requires live ==> Live(digest, synced, z, bitmap[..])
      requires synced.part.Some? && |synced.part.value| == 1 && Fits(bitmap[..], key.layout.chunks)
      requires storage.disk.temp == Some([EncodeMap(key, bitmap[..])])
      modifies storage
      ensures storage.disk == synced.(temp := None, receipts := Some([EncodeMap(key, bitmap[..])]))
      ensures start <= |storage.history| && old(storage.history) <= storage.history
      ensures live ==> Live(digest, storage.disk, z, bitmap[..]) && AllCrashSafe(digest, storage.history[start..], z)
    {
      if live {
        TempKeepsLive(digest, synced, storage.disk, z, bitmap[..]);
        RenameMakesSoundMap(digest, storage.disk, z, bitmap[..]);
      }
      storage.Perform(RenameTempToMap(storage.disk));
      if live { LiveIsCrashSafe(digest, storage.disk, z, bitmap[..]); }
    }

    /** One effect on the temporary map. */
    method Touch(storage: Storage, next: Disk, ghost synced: Disk, ghost start: nat, ghost live: bool,
                 ghost digest: Digest, ghost z: Offer)
      requires CollisionFree(digest) && ValidOffer(digest, z) && key == KeyOf(digest, z)
      requires WritesTemp(storage, synced, start, live, digest, z) && next == synced.(temp := next.temp)
      requires live ==> Live(digest, synced, z, bitmap[..])
      requires synced.receipts.Some? ==> |synced.receipts.value| == 1
      modifies storage
      ensures storage.disk == next && WritesTemp(storage, synced, start, live, digest, z)
      ensures old(storage.history) <= storage.history
    {
      storage.Perform(next);
      if live { TempIsCrashSafe(digest, synced, next, z, bitmap[..]); }
    }

    method WriteTemp(storage: Storage, ghost synced: Disk, ghost start: nat, ghost live: bool, ghost digest: Digest,
                     ghost z: Offer)
      requires CollisionFree(digest) && ValidOffer(digest, z) && key == KeyOf(digest, z)
      requires WritesTemp(storage, synced, start, live, digest, z)
      requires live ==> Live(digest, synced, z, bitmap[..])
      requires synced.receipts.Some? ==> |synced.receipts.value| == 1
      modifies storage
      ensures WritesTemp(storage, synced, start, live, digest, z) && old(storage.history) <= storage.history
      ensures storage.disk.temp == Some([EncodeMap(key, bitmap[..])])
    {
      Touch(storage, CreateTemp(storage.disk), synced, start, live, digest, z);
      WriteHeader(storage, synced, start, live, digest, z);
      WriteWords(storage, synced, start, live, digest, z);
      Touch(storage, SyncTemp(storage.disk), synced, start, live, digest, z);
    }

    method WriteWords(storage: Storage, ghost synced: Disk, ghost start: nat, ghost live: bool, ghost digest: Digest,
                      ghost z: Offer)
      requires CollisionFree(digest) && ValidOffer(digest, z) && key == KeyOf(digest, z)
      requires WritesTemp(storage, synced, start, live, digest, z)
      requires live ==> Live(digest, synced, z, bitmap[..])
      requires synced.receipts.Some? ==> |synced.receipts.value| == 1
      requires storage.disk.temp.Some? && Latest(storage.disk.temp.value) == Header(key)
      modifies storage
      ensures WritesTemp(storage, synced, start, live, digest, z) && old(storage.history) <= storage.history
      ensures storage.disk.temp.Some? && Latest(storage.disk.temp.value) == EncodeMap(key, bitmap[..])
    {
      var i := 0;
      while i < bitmap.Length
        invariant 0 <= i <= bitmap.Length
        invariant WritesTemp(storage, synced, start, live, digest, z) && old(storage.history) <= storage.history
        invariant storage.disk.temp.Some? && Latest(storage.disk.temp.value) == Header(key) + EncodeWords(bitmap[..i])
      {
        assert bitmap[..i + 1][..i] == bitmap[..i];
        Touch(storage, AppendTemp(storage.disk, WordBytes(bitmap[i])), synced, start, live, digest, z);
        i := i + 1;
      }
      assert bitmap[..bitmap.Length] == bitmap[..];
    }

    method WriteHeader(storage: Storage, ghost synced: Disk, ghost start: nat, ghost live: bool, ghost digest: Digest,
                       ghost z: Offer)
      requires CollisionFree(digest) && ValidOffer(digest, z) && key == KeyOf(digest, z)
      requires WritesTemp(storage, synced, start, live, digest, z)
      requires live ==> Live(digest, synced, z, bitmap[..])
      requires synced.receipts.Some? ==> |synced.receipts.value| == 1
      requires storage.disk.temp.Some? && Latest(storage.disk.temp.value) == []
      modifies storage
      ensures WritesTemp(storage, synced, start, live, digest, z) && old(storage.history) <= storage.history
      ensures storage.disk.temp.Some? && Latest(storage.disk.temp.value) == Header(key)
    {
      var fields := [MAGIC, BigEndian(key.layout.size, 8), BigEndian(key.layout.chunks, 8),
                     BigEndian(key.layout.payload, 8), key.hash];
      for i := 0 to |fields|
        invariant WritesTemp(storage, synced, start, live, digest, z) && old(storage.history) <= storage.history
        invariant storage.disk.temp.Some? && Latest(storage.disk.temp.value) == Joined(fields[..i])
      {
        JoinedNext(fields, i);
        Touch(storage, AppendTemp(storage.disk, fields[i]), synced, start, live, digest, z);
      }
      FiveFields(fields);
    }
  }

  lemma FiveFields(f: seq<Bytes>)
    requires |f| == 5
    ensures Joined(f[..5]) == f[0] + f[1] + f[2] + f[3] + f[4]
  {
    assert f[..0] == [];
    JoinedNext(f, 0);
    JoinedNext(f, 1);
    JoinedNext(f, 2);
    JoinedNext(f, 3);
    JoinedNext(f, 4);
  }

  lemma LiveIsCrashSafe(digest: Digest, d: Disk, z: Offer, bitmap: seq<Word>)
    requires CollisionFree(digest) && ValidOffer(digest, z) && Live(digest, d, z, bitmap)
    requires d.receipts.Some? ==> |d.receipts.value| == 1
    ensures CrashSafe(digest, d, z)
  {
    LiveIsSound(digest, d, z, bitmap);
    SoundIsCrashSafe(digest, d, z);
  }

  lemma TempIsCrashSafe(digest: Digest, d: Disk, e: Disk, z: Offer, bitmap: seq<Word>)
    requires CollisionFree(digest) && ValidOffer(digest, z) && Live(digest, d, z, bitmap)
    requires e == d.(temp := e.temp) && (d.receipts.Some? ==> |d.receipts.value| == 1)
    ensures CrashSafe(digest, e, z)
  {
    TempKeepsLive(digest, d, e, z, bitmap);
    LiveIsCrashSafe(digest, e, z, bitmap);
  }

  // ----- open, install, discard -----

  lemma FreshIsCrashSafe(digest: Digest, d: Disk, z: Offer)
    requires CollisionFree(digest) && ValidOffer(digest, z) && NoReceipts(digest, d, z)
    requires d.receipts.Some? ==> |d.receipts.value| == 1
    ensures CrashSafe(digest, TruncatePart(d), z)
    ensures CrashSafe(digest, SetPartLength(TruncatePart(d), z.layout.size), z)
  {
    assert NoReceipts(digest, TruncatePart(d), z)
      && NoReceipts(digest, SetPartLength(TruncatePart(d), z.layout.size), z);
    NoReceiptsIsCrashSafe(digest, TruncatePart(d), z);
    NoReceiptsIsCrashSafe(digest, SetPartLength(TruncatePart(d), z.layout.size), z);
  }

  lemma ResumedIsLive(digest: Digest, d: Disk, z: Offer, bitmap: seq<Word>)
    requires CollisionFree(digest) && ValidOffer(digest, z) && Sound(digest, d, z)
    requires Resumable(d, KeyOf(digest, z)) == Some(bitmap)
    ensures Live(digest, d, z, bitmap)
  {
    LoadMapExact(Latest(d.receipts.value), KeyOf(digest, z), bitmap);
    if !NoReceipts(digest, d, z) {
      var b :| SoundMap(digest, d, z, b);
      LoadMapExact(Latest(d.receipts.value), KeyOf(digest, z), b);
      assert Extends(b, bitmap);
      assert Correct(z.layout, Latest(d.part.value), z.source, b);
    }
  }

  /** `bitmap.iter().map(count_ones).sum()` */
  method SumOfOnes(bitmap: seq<Word>) returns (count: nat)
    ensures count == |Members(bitmap)|
  {
    count := 0;
    for i := 0 to |bitmap|
      invariant count == Population(bitmap[..i])
    {
      assert bitmap[..i + 1][..i] == bitmap[..i];
      count := count + CountOnes(bitmap[i]);
    }
    assert bitmap[..|bitmap|] == bitmap;
    PopulationIsCardinality(bitmap);
  }

  /**
    `ResumeState::open`: resume from a trusted map beside a partial file of the right size, else
    start a fresh object. Either way the receipts it returns are exactly the durable ones.
  */
  method Open(storage: Storage, key: Key, ghost digest: Digest, ghost z: Offer) returns (state: ResumeState)
    requires CollisionFree(digest) && ValidOffer(digest, z) && key == KeyOf(digest, z)
    requires storage.disk.receipts.Some? ==> |storage.disk.receipts.value| == 1
    modifies storage
    ensures fresh(state) && fresh(state.bitmap) && state.key == key
    ensures Fits(state.bitmap[..], key.layout.chunks) && state.receivedCount == |Members(state.bitmap[..])|
    ensures PartOk(z, storage.disk)
    ensures storage.disk.receipts == Some([EncodeMap(key, state.bitmap[..])])
    ensures old(storage.history) <= storage.history
    ensures match old(Resumable(storage.disk, key))
            case Some(b) => state.bitmap[..] == b && storage.disk == old(storage.disk)
            case None => state.receivedCount == 0 && storage.disk.dest == old(storage.disk.dest)
                         && storage.disk.part == Some([Resized([], key.layout.size)])
    ensures old(Sound(digest, storage.disk, z))
            && (old(Resumable(storage.disk, key)).None? ==> old(NoReceipts(digest, storage.disk, z))) ==>
              Live(digest, storage.disk, z, state.bitmap[..])
              && AllCrashSafe(digest, storage.history[|old(storage.history)|..], z)
  {
    var receipts := storage.disk.receipts;
    var found := LoadMapFile(if receipts.Some? then Some(Latest(receipts.value)) else None, key);
    if found.Some? && storage.disk.part.Some? && |Latest(storage.disk.part.value)| == key.layout.size {
      state := Recorded(found.value, key);
      TrustedIsRecorded(storage.disk, key, found.value);
      if Sound(digest, storage.disk, z) {
        ResumedIsLive(digest, storage.disk, z, found.value);
      }
      return;
    }
    state := OpenFresh(storage, key, digest, z);
  }

  /** The state for the words of a map. */
  method Recorded(words: seq<Word>, key: Key) returns (state: ResumeState)
    ensures fresh(state) && fresh(state.bitmap) && state.key == key
    ensures state.bitmap[..] == words && state.receivedCount == |Members(words)|
  {
    var bitmap := new Word[|words|](i requires 0 <= i < |words| => words[i]);
    assert bitmap[..] == words;
    var received := SumOfOnes(words);
    state := new ResumeState(bitmap, received, key);
  }

  lemma TrustedIsRecorded(d: Disk, key: Key, words: seq<Word>)
    requires |key.hash| == 32 && d.receipts.Some? && |d.receipts.value| == 1
    requires LoadMap(Latest(d.receipts.value), key) == Some(words)
    ensures Fits(words, key.layout.chunks) && d.receipts == Some([EncodeMap(key, words)])
  {
    LoadMapExact(Latest(d.receipts.value), key, words);
    assert d.receipts.value == [Latest(d.receipts.value)];
  }

  method OpenFresh(storage: Storage, key: Key, ghost digest: Digest, ghost z: Offer) returns (state: ResumeState)
    requires CollisionFree(digest) && ValidOffer(digest, z) && key == KeyOf(digest, z)
    requires storage.disk.receipts.Some? ==> |storage.disk.receipts.value| == 1
    modifies storage
    ensures fresh(state) && fresh(state.bitmap) && state.key == key
    ensures Fits(state.bitmap[..], key.layout.chunks)
    ensures (forall k: nat :: !Contains(state.bitmap[..], k)) && state.receivedCount == |Members(state.bitmap[..])| == 0
    ensures storage.disk == Disk(Some([Resized([], key.layout.size)]), None,
                                 Some([EncodeMap(key, state.bitmap[..])]), old(storage.disk.dest))
    ensures old(storage.history) <= storage.history
    ensures old(NoReceipts(digest, storage.disk, z)) ==>
              Live(digest, storage.disk, z, state.bitmap[..])
              && AllCrashSafe(digest, storage.history[|old(storage.history)|..], z)
  {
    ghost var clean := NoReceipts(digest, storage.disk, z);
    MakePartial(storage, key.layout.size, digest, z);
    ghost var resized := storage.history;
    state := Unreceived(key);
    if clean { FreshIsLive(digest, storage.disk, z, state.bitmap[..]); }
    state.Checkpoint(storage, digest, z);
    if clean {
      assert storage.history[|old(storage.history)|..|resized|] == resized[|old(storage.history)|..];
      JoinCrashSafe(digest, storage.history, |old(storage.history)|, |resized|, z);
    }
  }

  lemma SliceGrows(file: Bytes, start: nat, middle: nat, end: nat)
    requires start <= middle <= end <= |file|
    ensures file[start..middle] + file[middle..end] == file[start..end]
  {
  }

  method MakePartial(storage: Storage, size: nat, ghost digest: Digest, ghost z: Offer)
    requires CollisionFree(digest) && ValidOffer(digest, z) && size == z.layout.size
    requires storage.disk.receipts.Some? ==> |storage.disk.receipts.value| == 1
    modifies storage
    ensures storage.disk == SetPartLength(TruncatePart(old(storage.disk)), size)
    ensures Latest(storage.disk.part.value) == Resized([], size)
    ensures old(storage.history) <= storage.history
    ensures old(NoReceipts(digest, storage.disk, z)) ==>
              NoReceipts(digest, storage.disk, z) && AllCrashSafe(digest, storage.history[|old(storage.history)|..], z)
  {
    ghost var before, history := storage.disk, storage.history;
    storage.Perform(TruncatePart(storage.disk));
    storage.Perform(SetPartLength(storage.disk, size));
    if NoReceipts(digest, before, z) {
      FreshIsCrashSafe(digest, before, z);
      TwoMoreAreCrashSafe(digest, history, TruncatePart(before), storage.disk, z);
    }
  }

  lemma TwoMoreAreCrashSafe(digest: Digest, history: seq<Disk>, a: Disk, b: Disk, z: Offer)
    requires CollisionFree(digest) && ValidOffer(digest, z) && CrashSafe(digest, a, z) && CrashSafe(digest, b, z)
    ensures AllCrashSafe(digest, (history + [a] + [b])[|history|..], z)
  {
    assert (history + [a] + [b])[|history|..] == [a, b];
  }

  method Unreceived(key: Key) returns (state: ResumeState)
    ensures fresh(state) && fresh(state.bitmap) && state.key == key
    ensures Fits(state.bitmap[..], key.layout.chunks) && (forall k: nat :: !Contains(state.bitmap[..], k))
    ensures state.receivedCount == |Members(state.bitmap[..])| == 0
  {
    var zeros := Zeros(WordsFor(key.layout.chunks));
    var bitmap := new Word[|zeros|](i requires 0 <= i < |zeros| => zeros[i]);
    assert bitmap[..] == zeros;
    assert Members(zeros) == {};
    state := new ResumeState(bitmap, 0, key);
  }

  lemma FreshIsLive(digest: Digest, d: Disk, z: Offer, bitmap: seq<Word>)
    requires CollisionFree(digest) && ValidOffer(digest, z) && PartOk(z, d) && NoReceipts(digest, d, z)
    requires forall k: nat :: !Contains(bitmap, k)
    ensures Live(digest, d, z, bitmap)
  {
  }

  lemma JoinCrashSafe(digest: Digest, history: seq<Disk>, a: nat, b: nat, z: Offer)
    requires CollisionFree(digest) && ValidOffer(digest, z) && a <= b <= |history|
    requires AllCrashSafe(digest, history[a..b], z) && AllCrashSafe(digest, history[b..], z)
    ensures AllCrashSafe(digest, history[a..], z)
  {
    assert history[a..] == history[a..b] + history[b..];
  }

  /** `install`: the destination appears in one rename; the map goes after it. */
  method Install(storage: Storage, ghost digest: Digest, ghost z: Offer)
    requires CollisionFree(digest) && ValidOffer(digest, z)
    requires storage.disk.receipts.Some? ==> |storage.disk.receipts.value| == 1
    modifies storage
    ensures storage.disk == old(storage.disk).(dest := old(storage.disk.part), part := None, receipts := None)
    ensures old(storage.history) <= storage.history
    ensures AllCrashSafe(digest, storage.history[|old(storage.history)|..], z)
  {
    storage.Perform(RenamePartToDest(storage.disk));
    SoundIsCrashSafe(digest, storage.disk, z);
    storage.Perform(RemoveMap(storage.disk));
    SoundIsCrashSafe(digest, storage.disk, z);
  }

  /** `discard`: the partial file goes first, so its map is never trusted again. */
  method Discard(storage: Storage, ghost digest: Digest, ghost z: Offer)
    requires CollisionFree(digest) && ValidOffer(digest, z)
    requires storage.disk.receipts.Some? ==> |storage.disk.receipts.value| == 1
    modifies storage
    ensures storage.disk == old(storage.disk).(part := None, receipts := None)
    ensures old(storage.history) <= storage.history
    ensures AllCrashSafe(digest, storage.history[|old(storage.history)|..], z)
  {
    storage.Perform(RemovePart(storage.disk));
    SoundIsCrashSafe(digest, storage.disk, z);
    storage.Perform(RemoveMap(storage.disk));
    SoundIsCrashSafe(digest, storage.disk, z);
  }

  // ----- the datagram loop -----

  method FindGap(bitmap: seq<Word>, from: nat, chunks: nat) returns (end: nat)
    requires from <= chunks
    ensures end == FirstGap(bitmap, from, chunks)
  {
    end := from;
    while end < chunks && Contains(bitmap, end)
      invariant from <= end <= chunks
      invariant FirstGap(bitmap, from, chunks) == FirstGap(bitmap, end, chunks)
      decreases chunks - end
    {
      end := end + 1;
    }
  }

  class UdpReceiver {
    const layout: Layout
    const tag: Tag
    const storage: Storage
    const state: ResumeState
    var highest: Option<nat>
    var frontier: nat
    var absorbed: Bytes          // what the incremental SHA-256 has been fed
    var telemetry: Telemetry
    var dirty: bool
    var reordering: bool
    var ended: bool

    ghost predicate Valid()
      reads this, storage, state, state.bitmap
    {
      Ready(layout, storage.disk, Value())
    }

    ghost function Value(): Receiver
      reads this, state, state.bitmap
    {
      Receiver(state.bitmap[..], state.receivedCount, highest, frontier, absorbed, telemetry, dirty, reordering, ended)
    }

    /** After `open` and reuse: highest chunk, hash advance over what is already there. */
    constructor (layout: Layout, tag: Tag, storage: Storage, state: ResumeState)
      requires ValidLayout(layout) && storage.disk.part.Some? && |Latest(storage.disk.part.value)| == layout.size
      requires state.bitmap.Length == WordsFor(layout.chunks)
      ensures Valid() && this.storage == storage && this.state == state && this.layout == layout && this.tag == tag
      ensures Value() == Start(layout, Latest(storage.disk.part.value), state.bitmap[..], state.receivedCount,
                               Highest(state.bitmap[..]))
    {
      this.layout := layout;
      this.tag := tag;
      this.storage := storage;
      this.state := state;
      telemetry := Telemetry(state.receivedCount, 0, 0, 0, 0, 0, 0, None, 0);
      absorbed := [];
      frontier := 0;
      highest := None;
      dirty := false;
      reordering := false;
      ended := false;
      new;
      highest := HighestReceived(state.bitmap[..]);
      AdvanceHash();
    }

    /** `advance_hash_frontier`: bounded reads, each of any positive length, until the gap. */
    method AdvanceHash()
      requires Valid()
      modifies this`frontier, this`absorbed
      ensures Valid() && Value() == Advance(layout, Latest(storage.disk.part.value), old(Value()))
    {
      var end := FindGap(state.bitmap[..], frontier, layout.chunks);
      EdgeMonotone(layout, frontier, end);
      Absorb(Latest(storage.disk.part.value), Edge(layout, frontier), Edge(layout, end));
      frontier := end;
    }

    method Absorb(file: Bytes, start: nat, end: nat)
      requires start <= end <= |file|
      modifies this`absorbed
      ensures absorbed == old(absorbed) + file[start..end]
    {
      var offset := start;
      while offset < end
        invariant start <= offset <= end
        invariant absorbed == old(absorbed) + file[start..offset]
        decreases end - offset
      {
        var wanted := Min(end - offset, 0x10_0000);
        var count: nat :| 1 <= count <= wanted;
        SliceGrows(file, start, offset, offset + count);
        absorbed := absorbed + file[offset..offset + count];
        offset := offset + count;
      }
    }

    /** The body of the loop for one datagram, as delivered by the socket. */
    method HandleDatagram(wire: Bytes)
      requires Valid()
      modifies this, storage, state, state.bitmap
      ensures Valid()
      ensures (storage.disk, Value()) == OnDatagram(layout, tag, old(storage.disk), old(Value()), wire)
    {
      var accepted := Accept(layout, tag, wire);
      if accepted.None? {
        telemetry := telemetry.(invalid := Bump(telemetry.invalid));
        return;
      }
      var g := accepted.value;
      AcceptedShape(layout, tag, wire);
      telemetry := telemetry.(valid := Bump(telemetry.valid));
      if g.repair {
        telemetry := telemetry.(repair := Bump(telemetry.repair));
      }
      if Contains(state.bitmap[..], g.sequence) {
        telemetry := telemetry.(duplicate := Bump(telemetry.duplicate));
        highest := Larger(highest, g.sequence);
      } else {
        telemetry := telemetry.(accepted := Bump(telemetry.accepted));
        HandleNewChunk(g);
      }
    }

    method HandleNewChunk(g: Datagram)
      requires Valid()
      requires g.sequence < layout.chunks && |g.payload| == Edge(layout, g.sequence + 1) - Edge(layout, g.sequence)
      modifies this, storage, state, state.bitmap
      ensures Valid()
      ensures (storage.disk, Value()) == OnNewChunk(layout, old(storage.disk), old(Value()), g)
    {
      if !g.repair && highest.Some? && g.sequence < highest.value {
        reordering := true;
      }
      storage.Perform(WritePart(storage.disk, Edge(layout, g.sequence), g.payload));
      state.Insert(g.sequence);
      dirty := true;
      assert Value() == Inserted(old(Value()), g);
      if state.receivedCount % 64 == 0 || (g.repair && g.sequence == frontier) {
        AdvanceHash();
      }
      highest := Larger(highest, g.sequence);
    }

    /**
      The end of the transfer: every chunk is in and END has arrived. On a match the destination is
      installed and COMPLETE may be sent; on a mismatch everything is discarded.
    */
    method Finish(digest: Digest, hash: Bytes, ghost z: Offer) returns (complete: bool)
      requires Valid() && CollisionFree(digest) && ValidOffer(digest, z) && z.layout == layout
               && hash == digest.of(z.source)
      requires HashedPrefix(layout, Latest(storage.disk.part.value), Value())
      requires digest.hashed(Latest(storage.disk.part.value))
      requires Fits(state.bitmap[..], layout.chunks)
               && state.receivedCount == |Members(state.bitmap[..])| == layout.chunks
      requires storage.disk.receipts.Some? ==> |storage.disk.receipts.value| == 1
      modifies this, storage
      ensures complete <==> old(Latest(storage.disk.part.value)) == z.source
      ensures complete ==> storage.disk.dest == Some([z.source])
      ensures !complete ==> storage.disk.dest == old(storage.disk.dest)
      ensures storage.disk.part == None && storage.disk.receipts == None
    {
      FullReceiptHashesWholeFile(layout, Latest(storage.disk.part.value), Value());
      AdvanceHash();
      storage.Perform(SyncPart(storage.disk));
      if digest.of(absorbed) != hash {
        Discard(storage, digest, z);
        return false;
      }
      Install(storage, digest, z);
      return true;
    }
  }
}
