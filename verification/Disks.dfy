/**
  The files of one destination and what a crash may do to them.

  A file is the list of contents it has had since it last reached stable storage, newest last.
  After a crash a file keeps whatever all those contents agree on; everything else is arbitrary.
  Renames and removals take effect in program order.
*/
module Disks {
  import opened Outcomes
  import opened Text
  import opened Layouts

  type Bytes = seq<Byte>

  type File = f: seq<Bytes> | f != [] witness [[]]

  datatype Disk = Disk(part: Option<File>, temp: Option<File>, receipts: Option<File>, dest: Option<File>)

  function Latest(f: File): Bytes {
    f[|f| - 1]
  }

  function Changed(f: Option<File>, content: Bytes): File {
    match f
    case None => [content]
    case Some(g) => g + [content]
  }

  // ----- effects -----

  /** `open(create, truncate)` on the partial file */
  function TruncatePart(d: Disk): Disk {
    d.(part := Some(Changed(d.part, [])))
  }

  function Resized(content: Bytes, n: nat): (r: Bytes)
    ensures |r| == n
  {
    if n <= |content| then content[..n] else content + seq(n - |content|, i => 0 as Byte)
  }

  function SetPartLength(d: Disk, n: nat): Disk
    requires d.part.Some?
  {
    d.(part := Some(d.part.value + [Resized(Latest(d.part.value), n)]))
  }

  predicate CanWrite(d: Disk, offset: nat, bytes: Bytes) {
    d.part.Some? && offset + |bytes| <= |Latest(d.part.value)|
  }

  function WritePart(d: Disk, offset: nat, bytes: Bytes): Disk
    requires CanWrite(d, offset, bytes)
  {
    d.(part := Some(d.part.value + [Overwrite(Latest(d.part.value), offset, bytes)]))
  }

  function Synced(f: Option<File>): Option<File> {
    match f
    case None => None
    case Some(g) => Some([Latest(g)])
  }

  function SyncPart(d: Disk): Disk { d.(part := Synced(d.part)) }

  function CreateTemp(d: Disk): Disk { d.(temp := Some(Changed(d.temp, []))) }

  function AppendTemp(d: Disk, bytes: Bytes): Disk
    requires d.temp.Some?
  {
    d.(temp := Some(d.temp.value + [Latest(d.temp.value) + bytes]))
  }

  function SyncTemp(d: Disk): Disk { d.(temp := Synced(d.temp)) }

  function RenameTempToMap(d: Disk): Disk { d.(receipts := d.temp, temp := None) }

  function RenamePartToDest(d: Disk): Disk { d.(dest := d.part, part := None) }

  function RemovePart(d: Disk): Disk { d.(part := None) }

  function RemoveMap(d: Disk): Disk { d.(receipts := None) }

  // ----- crashes -----

  /** Position `i` holds `v` in every content since the last sync. */
  ghost predicate Agreed(f: File, i: nat, v: Byte) {
    forall j :: 0 <= j < |f| ==> i < |f[j]| && f[j][i] == v
  }

  ghost predicate AgreedLength(f: File, n: nat) {
    forall j :: 0 <= j < |f| ==> |f[j]| == n
  }

  ghost predicate Survives(f: File, content: Bytes) {
    && (forall n: nat :: AgreedLength(f, n) ==> |content| == n)
    && (forall i: nat, v: Byte :: Agreed(f, i, v) && i < |content| ==> content[i] == v)
  }

  ghost predicate FileCrash(before: Option<File>, after: Option<File>) {
    match before
    case None => after == None
    case Some(f) => after.Some? && |after.value| == 1 && Survives(f, Latest(after.value))
  }

  ghost predicate Crash(before: Disk, after: Disk) {
    FileCrash(before.part, after.part) && FileCrash(before.temp, after.temp)
    && FileCrash(before.receipts, after.receipts) && FileCrash(before.dest, after.dest)
  }

  /** A synced file survives every crash unchanged. */
  lemma SyncedSurvives(f: File, content: Bytes)
    requires |f| == 1 && Survives(f, content)
    ensures content == Latest(f)
  {
    assert AgreedLength(f, |f[0]|);
    forall i | 0 <= i < |content| ensures content[i] == f[0][i] {
      assert Agreed(f, i, f[0][i]);
    }
  }

  lemma SyncedFileCrash(before: Option<File>, after: Option<File>)
    requires FileCrash(before, after) && (before.Some? ==> |before.value| == 1)
    ensures after == before
  {
    if before.Some? {
      SyncedSurvives(before.value, Latest(after.value));
      assert after.value == [Latest(after.value)];
      assert before.value == [Latest(before.value)];
    }
  }

  /** One outcome of a crash: every file keeps its newest content. */
  ghost function Settled(d: Disk): Disk {
    Disk(Synced(d.part), Synced(d.temp), Synced(d.receipts), Synced(d.dest))
  }

  lemma SettledIsCrash(d: Disk)
    ensures Crash(d, Settled(d))
  {
  }
}
