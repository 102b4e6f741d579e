/** Directory manifests: their text form, which ones are accepted, and the orders installation relies on. */
module Directories {
  import opened Outcomes
  import opened Text
  import opened Disks

  const MAX_MANIFEST_ENTRIES: nat := 1_000_000
  const MAX_RELATIVE_PATH_BYTES: nat := 4_096
  const MAX_MANIFEST_BYTES: nat := 64 * 1024 * 1024
  const FOOTER: string := "HASH "
  const SLASH: Byte := 47
  const DOT: Byte := 46

  datatype Kind = Directory | File

  datatype Entry = Entry(path: Bytes, kind: Kind, mode: nat, seconds: int, nanoseconds: int, size: nat,
    hash: Option<Bytes>)

  datatype Root = Root(count: nat, mode: nat, seconds: int, nanoseconds: int)

  // ----- paths -----

  function Components(path: Bytes): (parts: seq<Bytes>)
    ensures parts != []
  {
    if SLASH !in path then [path]
    else
      var i := FirstSlash(path);
      [path[..i]] + Components(path[i + 1..])
  }

  function FirstSlash(path: Bytes): (i: nat)
    requires SLASH in path
    ensures i < |path| && path[i] == SLASH && SLASH !in path[..i]
  {
    if path[0] == SLASH then 0 else 1 + FirstSlash(path[1..])
  }

  /** `validate_relative_path` */
  predicate SafePath(path: Bytes) {
    && path != [] && |path| <= MAX_RELATIVE_PATH_BYTES
    && path[0] != SLASH && 0 !in path
    && forall i :: 0 <= i < |Components(path)| ==>
         Components(path)[i] != [] && Components(path)[i] != [DOT] && Components(path)[i] != [DOT, DOT]
  }

  /** `a` is a directory on the way to `b`. */
  predicate Ancestor(a: Bytes, b: Bytes) {
    |a| < |b| && b[..|a|] == a && b[|a|] == SLASH
  }

  /** Byte order. */
  predicate Less(a: Bytes, b: Bytes) {
    if b == [] then false
    else if a == [] then true
    else a[0] < b[0] || (a[0] == b[0] && Less(a[1..], b[1..]))
  }

  lemma {:induction false} LessIsTransitive(a: Bytes, b: Bytes, c: Bytes)
    requires Less(a, b) && Less(b, c)
    ensures Less(a, c)
  {
    if a != [] && a[0] == b[0] == c[0] {
      LessIsTransitive(a[1..], b[1..], c[1..]);
    }
  }

  lemma {:induction false} LessIsIrreflexive(a: Bytes)
    ensures !Less(a, a)
  {
    if a != [] {
      LessIsIrreflexive(a[1..]);
    }
  }

  // ----- which entries are accepted -----

  predicate PlausibleEntry(e: Entry) {
    && SafePath(e.path) && 0 <= e.nanoseconds < 1_000_000_000 && e.mode <= 511
    && (e.kind == Directory ==> e.size == 0 && e.hash == None)
    && (e.kind == File ==> e.hash.Some?)
  }

  /** Strictly ascending, so no path occurs twice. */
  predicate Sorted(entries: seq<Entry>) {
    forall i :: 1 <= i < |entries| ==> Less(entries[i - 1].path, entries[i].path)
  }

  predicate DirectoryBefore(entries: seq<Entry>, n: nat, path: Bytes)
    requires n <= |entries|
  {
    exists k :: 0 <= k < n && entries[k].path == path && entries[k].kind == Directory
  }

  /** Everything above entry `i` has been listed before it, as a directory. */
  predicate ParentsListed(entries: seq<Entry>, i: nat)
    requires i < |entries|
  {
    forall j :: 0 <= j < |entries[i].path| && entries[i].path[j] == SLASH ==>
      DirectoryBefore(entries, i, entries[i].path[..j])
  }

  /** `validate_entries` */
  predicate Closed(entries: seq<Entry>) {
    && |entries| <= MAX_MANIFEST_ENTRIES
    && (forall i :: 0 <= i < |entries| ==> PlausibleEntry(entries[i]))
    && Sorted(entries)
    && forall i :: 0 <= i < |entries| ==> ParentsListed(entries, i)
  }

  lemma {:induction false} SortedPaths(entries: seq<Entry>, i: nat, j: nat)
    requires Sorted(entries) && i < j < |entries|
    ensures Less(entries[i].path, entries[j].path)
  {
    if i < j - 1 {
      SortedPaths(entries, i, j - 1);
      LessIsTransitive(entries[i].path, entries[j - 1].path, entries[j].path);
    }
  }

  lemma PathsAreUnique(entries: seq<Entry>, i: nat, j: nat)
    requires Sorted(entries) && i < |entries| && j < |entries| && entries[i].path == entries[j].path
    ensures i == j
  {
    LessIsIrreflexive(entries[i].path);
    if i < j { SortedPaths(entries, i, j); }
    if j < i { SortedPaths(entries, j, i); }
  }

  /** The tree is closed: every proper ancestor of an accepted entry is a directory entry before it. */
  lemma AncestorsComeFirst(entries: seq<Entry>, i: nat, ancestor: Bytes)
    requires Closed(entries) && i < |entries| && Ancestor(ancestor, entries[i].path)
    ensures DirectoryBefore(entries, i, ancestor)
  {
    assert ParentsListed(entries, i);
    assert entries[i].path[|ancestor|] == SLASH;
  }

  /** An entry that is an ancestor of another is a directory and comes earlier; a file never is. */
  lemma AncestorEntry(entries: seq<Entry>, k: nat, i: nat)
    requires Closed(entries) && k < |entries| && i < |entries| && Ancestor(entries[k].path, entries[i].path)
    ensures k < i && entries[k].kind == Directory
  {
    AncestorsComeFirst(entries, i, entries[k].path);
    var d :| 0 <= d < i && entries[d].path == entries[k].path && entries[d].kind == Directory;
    PathsAreUnique(entries, d, k);
  }

  // ----- the same, byte by byte -----

  /** Where the two first differ, `a` has ended or has the smaller byte. */
  ghost predicate Precedes(a: Bytes, b: Bytes) {
    a != b && (a <= b || exists i :: SmallerAt(a, b, i))
  }

  ghost predicate SmallerAt(a: Bytes, b: Bytes, i: nat) {
    i < |a| && i < |b| && a[..i] == b[..i] && a[i] < b[i]
  }

  lemma SmallerAtNext(a: Bytes, b: Bytes, i: nat)
    requires a != [] && b != [] && a[0] == b[0]
    ensures SmallerAt(a, b, i + 1) <==> SmallerAt(a[1..], b[1..], i)
  {
    if i < |a| - 1 && i < |b| - 1 {
      assert a[..i + 1] == [a[0]] + a[1..][..i] && b[..i + 1] == [b[0]] + b[1..][..i];
      assert a[..i + 1][1..] == a[1..][..i] && b[..i + 1][1..] == b[1..][..i];
    }
  }

  lemma PrecedesNext(a: Bytes, b: Bytes)
    requires a != [] && b != [] && a[0] == b[0]
    ensures Precedes(a, b) <==> Precedes(a[1..], b[1..])
  {
    assert a == [a[0]] + a[1..] && b == [b[0]] + b[1..];
    assert a <= b <==> a[1..] <= b[1..];
    if i: nat :| SmallerAt(a[1..], b[1..], i) { SmallerAtNext(a, b, i); }
    if i: nat :| SmallerAt(a, b, i) {
      assert i > 0;
      SmallerAtNext(a, b, i - 1);
    }
  }

  lemma PrecedesByFirst(a: Bytes, b: Bytes)
    requires a != [] && b != [] && a[0] != b[0]
    ensures Precedes(a, b) <==> a[0] < b[0]
  {
    if a[0] < b[0] { assert SmallerAt(a, b, 0); }
    if i: nat :| SmallerAt(a, b, i) { SmallerFromFirst(a, b, i); }
  }

  lemma SmallerFromFirst(a: Bytes, b: Bytes, i: nat)
    requires SmallerAt(a, b, i)
    ensures if i == 0 then a[0] < b[0] else a[0] == b[0]
  {
    if i > 0 { assert a[..i][0] == b[..i][0]; }
  }

  lemma {:induction false} LessIff(a: Bytes, b: Bytes)
    ensures Less(a, b) <==> Precedes(a, b)
  {
    if a != [] && b != [] {
      if a[0] == b[0] {
        LessIff(a[1..], b[1..]);
        PrecedesNext(a, b);
      } else {
        PrecedesByFirst(a, b);
      }
    }
  }

  /** From `i` to `j` the path has a part: between slashes, or from the beginning, or up to the end. */
  predicate PartAt(path: Bytes, i: nat, j: nat) {
    i <= j <= |path| && (i == 0 || path[i - 1] == 47) && (j == |path| || path[j] == 47) && NoSlash(path, i, j)
  }

  /** Not empty, not "." and not "..". */
  predicate ProperName(part: Bytes) {
    part != [] && part != [46] && part != [46, 46]
  }

  ghost predicate AllPartsProper(path: Bytes) {
    forall i: nat, j: nat :: PartAt(path, i, j) ==> ProperName(path[i..j])
  }

  predicate AllProper(parts: seq<Bytes>) {
    forall i :: 0 <= i < |parts| ==> ProperName(parts[i])
  }

  lemma OnePart(path: Bytes)
    requires SLASH !in path
    ensures AllPartsProper(path) <==> ProperName(path)
  {
    assert path[0..|path|] == path;
    if AllPartsProper(path) { assert PartAt(path, 0, |path|); }
  }

  predicate NoSlash(path: Bytes, i: nat, j: nat)
    requires j <= |path|
  {
    forall k :: i <= k < j ==> path[k] != 47
  }

  lemma NoSlashLater(path: Bytes, n: nat, i: nat, j: nat)
    requires n + j <= |path|
    ensures NoSlash(path, n + i, n + j) <==> NoSlash(path[n..], i, j)
  {
    if NoSlash(path[n..], i, j) {
      forall k | n + i <= k < n + j ensures path[k] != 47 { assert path[n..][k - n] == path[k]; }
    }
  }

  lemma LaterPart(path: Bytes, first: nat, i: nat, j: nat)
    requires first < |path| && path[first] == SLASH
    ensures PartAt(path, first + 1 + i, first + 1 + j) <==> PartAt(path[first + 1..], i, j)
    ensures i <= j <= |path| - first - 1 ==> path[first + 1..][i..j] == path[first + 1 + i..first + 1 + j]
  {
    if i <= j <= |path| - first - 1 {
      NoSlashLater(path, first + 1, i, j);
    }
  }

  lemma FirstPart(path: Bytes)
    requires SLASH in path
    ensures PartAt(path, 0, FirstSlash(path)) && path[0..FirstSlash(path)] == path[..FirstSlash(path)]
  {
    var first := FirstSlash(path);
    assert forall k :: 0 <= k < first ==> path[..first][k] == path[k];
  }

  lemma WhichPart(path: Bytes, i: nat, j: nat)
    requires SLASH in path && PartAt(path, i, j)
    ensures if i == 0 then j == FirstSlash(path) else FirstSlash(path) < i
  {
    var first := FirstSlash(path);
    assert forall k :: 0 <= k < first ==> path[..first][k] == path[k];
    if i > 0 { assert path[i - 1] == SLASH; }
  }

  lemma PartsInRest(path: Bytes)
    requires SLASH in path && AllPartsProper(path)
    ensures ProperName(path[..FirstSlash(path)]) && AllPartsProper(path[FirstSlash(path) + 1..])
  {
    var first := FirstSlash(path);
    var rest := path[first + 1..];
    FirstPart(path);
    forall i: nat, j: nat | PartAt(rest, i, j) ensures ProperName(rest[i..j]) { LaterPart(path, first, i, j); }
  }

  lemma PartsFromRest(path: Bytes)
    requires SLASH in path && ProperName(path[..FirstSlash(path)]) && AllPartsProper(path[FirstSlash(path) + 1..])
    ensures AllPartsProper(path)
  {
    var first := FirstSlash(path);
    var rest := path[first + 1..];
    FirstPart(path);
    forall i: nat, j: nat | PartAt(path, i, j) ensures ProperName(path[i..j]) {
      WhichPart(path, i, j);
      if i > 0 {
        LaterPart(path, first, i - first - 1, j - first - 1);
        assert ProperName(rest[i - first - 1..j - first - 1]);
      }
    }
  }

  lemma {:induction false} ComponentsAreParts(path: Bytes)
    ensures AllProper(Components(path)) <==> AllPartsProper(path)
    decreases |path|
  {
    if SLASH in path {
      var head, rest := path[..FirstSlash(path)], path[FirstSlash(path) + 1..];
      ComponentsAreParts(rest);
      AllProperCons(head, Components(rest));
      assert Components(path) == [head] + Components(rest);
      if AllPartsProper(path) { PartsInRest(path); }
      if ProperName(head) && AllPartsProper(rest) { PartsFromRest(path); }
    } else {
      OnePart(path);
      assert Components(path)[0] == path;
    }
  }

  lemma AllProperCons(head: Bytes, rest: seq<Bytes>)
    ensures AllProper([head] + rest) <==> ProperName(head) && AllProper(rest)
  {
    var all := [head] + rest;
    if AllProper(all) {
      assert ProperName(all[0]);
      forall i | 0 <= i < |rest| ensures ProperName(rest[i]) { assert ProperName(all[i + 1]); }
    }
  }

  /**
    A path is safe if and only if it has at most 4,096 bytes, none of them zero, and every part of it is a
    proper name.
  */
  lemma SafePathIff(path: Bytes)
    ensures SafePath(path) <==> |path| <= 4_096 && 0 !in path && AllPartsProper(path)
  {
    ComponentsAreParts(path);
    if path == [] { assert PartAt(path, 0, 0) && path[0..0] == []; }
    if path != [] && path[0] == SLASH { assert PartAt(path, 0, 0) && path[0..0] == []; }
  }

  /** What an entry must say, with every number written out. */
  ghost predicate Acceptable(e: Entry) {
    && |e.path| <= 4_096 && 0 !in e.path && AllPartsProper(e.path)
    && 0 <= e.nanoseconds < 1_000_000_000 && e.mode < 512
    && match e.kind case Directory => e.size == 0 && e.hash == None case File => e.hash.Some?
  }

  ghost predicate Ascending(entries: seq<Entry>) {
    forall i, j :: 0 <= i < j < |entries| ==> Precedes(entries[i].path, entries[j].path)
  }

  lemma AscendingIff(entries: seq<Entry>)
    ensures Sorted(entries) <==> Ascending(entries)
  {
    if Sorted(entries) {
      forall i, j | 0 <= i < j < |entries| ensures Precedes(entries[i].path, entries[j].path) {
        SortedPaths(entries, i, j);
        LessIff(entries[i].path, entries[j].path);
      }
    }
    if Ascending(entries) {
      forall i | 1 <= i < |entries| ensures Less(entries[i - 1].path, entries[i].path) {
        LessIff(entries[i - 1].path, entries[i].path);
      }
    }
  }

  /** The path up to slash `j` of entry `i` is that of an earlier directory. */
  ghost predicate Covered(entries: seq<Entry>, i: nat, j: nat)
    requires i < |entries| && j <= |entries[i].path|
  {
    exists k :: 0 <= k < i && entries[k].kind == Directory && entries[k].path == entries[i].path[..j]
  }

  lemma ParentsListedIff(entries: seq<Entry>, i: nat)
    requires i < |entries|
    ensures ParentsListed(entries, i) <==>
            forall j :: 0 <= j < |entries[i].path| && entries[i].path[j] == 47 ==> Covered(entries, i, j)
  {
    forall j | 0 <= j < |entries[i].path| && entries[i].path[j] == 47
      ensures DirectoryBefore(entries, i, entries[i].path[..j]) <==> Covered(entries, i, j)
    {
    }
  }

  /**
    Which lists are accepted: at most a million acceptable entries, any two in byte order, each path up to each of its
    slashes the path of an earlier directory.
  */
  lemma ClosedIff(entries: seq<Entry>)
    ensures Closed(entries) <==>
            && |entries| <= 1_000_000 && Ascending(entries)
            && (forall i :: 0 <= i < |entries| ==> Acceptable(entries[i]))
            && forall i, j :: 0 <= i < |entries| && 0 <= j < |entries[i].path| && entries[i].path[j] == 47 ==>
                 Covered(entries, i, j)
  {
    AscendingIff(entries);
    forall i | 0 <= i < |entries| ensures PlausibleEntry(entries[i]) <==> Acceptable(entries[i]) {
      SafePathIff(entries[i].path);
    }
    forall i | 0 <= i < |entries|
      ensures ParentsListed(entries, i) <==>
              forall j :: 0 <= j < |entries[i].path| && entries[i].path[j] == 47 ==> Covered(entries, i, j)
    {
      ParentsListedIff(entries, i);
    }
  }

  /** So of two accepted paths that first differ at some byte, the one with the smaller byte is listed first. */
  lemma SmallerByteFirst(entries: seq<Entry>, i: nat, j: nat, k: nat)
    requires Closed(entries) && i < |entries| && j < |entries| && SmallerAt(entries[i].path, entries[j].path, k)
    ensures i < j
  {
    LessIff(entries[i].path, entries[j].path);
    if j < i {
      SortedPaths(entries, j, i);
      LessIsTransitive(entries[i].path, entries[j].path, entries[i].path);
    }
    LessIsIrreflexive(entries[i].path);
  }

  // ----- `validate_entries` as it runs -----

  /** The kinds seen so far, by path. */
  ghost predicate KindsOf(kinds: map<Bytes, Kind>, entries: seq<Entry>, n: nat)
    requires n <= |entries|
  {
    && (forall path :: path in kinds ==>
       exists k :: 0 <= k < n && entries[k].path == path && entries[k].kind == kinds[path])
    && (forall k :: 0 <= k < n ==> entries[k].path in kinds && kinds[entries[k].path] == entries[k].kind)
  }

  predicate AllDirectories(path: Bytes, kinds: map<Bytes, Kind>) {
    forall j :: 0 <= j < |path| && path[j] == SLASH ==> path[..j] in kinds && kinds[path[..j]] == Directory
  }

  method ParentsSeen(path: Bytes, kinds: map<Bytes, Kind>) returns (ok: bool)
    ensures ok <==> AllDirectories(path, kinds)
  {
    var j := 0;
    while j < |path|
      invariant 0 <= j <= |path|
      invariant forall h :: 0 <= h < j && path[h] == SLASH ==> path[..h] in kinds && kinds[path[..h]] == Directory
    {
      if path[j] == SLASH && !(path[..j] in kinds && kinds[path[..j]] == Directory) {
        return false;
      }
      j := j + 1;
    }
    return true;
  }

  lemma KindsDecide(kinds: map<Bytes, Kind>, entries: seq<Entry>, n: nat, path: Bytes)
    requires n <= |entries| && KindsOf(kinds, entries, n)
    ensures path in kinds && kinds[path] == Directory <==> DirectoryBefore(entries, n, path)
  {
  }

  lemma ParentsDecide(kinds: map<Bytes, Kind>, entries: seq<Entry>, i: nat)
    requires i < |entries| && KindsOf(kinds, entries, i)
    ensures AllDirectories(entries[i].path, kinds) <==> ParentsListed(entries, i)
  {
    var path := entries[i].path;
    forall j | 0 <= j < |path| && path[j] == SLASH
      ensures path[..j] in kinds && kinds[path[..j]] == Directory <==> DirectoryBefore(entries, i, path[..j])
    {
      KindsDecide(kinds, entries, i, path[..j]);
    }
  }

  lemma NextKinds(kinds: map<Bytes, Kind>, entries: seq<Entry>, n: nat)
    requires n < |entries| && Sorted(entries[..n + 1]) && KindsOf(kinds, entries, n)
    ensures KindsOf(kinds[entries[n].path := entries[n].kind], entries, n + 1)
  {
    var more := kinds[entries[n].path := entries[n].kind];
    forall k | 0 <= k < n + 1 ensures entries[k].path in more && more[entries[k].path] == entries[k].kind {
      if k < n && entries[k].path == entries[n].path {
        assert entries[..n + 1][k] == entries[k] && entries[..n + 1][n] == entries[n];
        PathsAreUnique(entries[..n + 1], k, n);
      }
    }
  }

  /** What the loop has checked of the first `n` entries. */
  ghost predicate Checked(entries: seq<Entry>, n: nat) {
    && n <= |entries| && Sorted(entries[..n])
    && forall k :: 0 <= k < n ==> PlausibleEntry(entries[k]) && ParentsListed(entries, k)
  }

  lemma CheckedNext(entries: seq<Entry>, n: nat)
    requires n < |entries| && Checked(entries, n) && PlausibleEntry(entries[n]) && ParentsListed(entries, n)
    requires n > 0 ==> Less(entries[n - 1].path, entries[n].path)
    ensures Checked(entries, n + 1)
  {
    var more := entries[..n + 1];
    forall i | 1 <= i < |more| ensures Less(more[i - 1].path, more[i].path) {
      if i < n {
        assert entries[..n][i - 1] == more[i - 1] && entries[..n][i] == more[i];
      }
    }
  }

  lemma AllCheckedIsClosed(entries: seq<Entry>)
    requires Checked(entries, |entries|) && |entries| <= MAX_MANIFEST_ENTRIES
    ensures Closed(entries)
  {
    assert entries[..|entries|] == entries;
  }

  method ValidateEntries(entries: seq<Entry>) returns (ok: bool)
    ensures ok <==> Closed(entries)
  {
    if |entries| > MAX_MANIFEST_ENTRIES {
      return false;
    }
    var kinds: map<Bytes, Kind> := map[];
    var i := 0;
    while i < |entries|
      invariant 0 <= i <= |entries| && KindsOf(kinds, entries, i) && Checked(entries, i)
    {
      var e := entries[i];
      if !PlausibleEntry(e) {
        return false;
      }
      if i > 0 && !Less(entries[i - 1].path, e.path) {
        return false;
      }
      ParentsDecide(kinds, entries, i);
      var seen := ParentsSeen(e.path, kinds);
      if !seen {
        return false;
      }
      CheckedNext(entries, i);
      NextKinds(kinds, entries, i);
      kinds := kinds[e.path := e.kind];
      i := i + 1;
    }
    AllCheckedIsClosed(entries);
    return true;
  }

  // ----- staging and installation order -----

  /** The directory that must exist for `path` to be created in the staging tree; none for a top-level path. */
  predicate ParentPresent(tree: set<Bytes>, path: Bytes) {
    forall j :: 0 <= j < |path| && path[j] == SLASH && SLASH !in path[j + 1..] ==> path[..j] in tree
  }

  /** The directories among the first `n` entries. */
  ghost predicate Holds(tree: set<Bytes>, entries: seq<Entry>, n: nat)
    requires n <= |entries|
  {
    forall k :: 0 <= k < n && entries[k].kind == Directory ==> entries[k].path in tree
  }

  /** `prepare_staging`: whatever directories an interrupted attempt left, each missing one finds its parent. */
  method PrepareStaging(entries: seq<Entry>, existing: set<Bytes>) returns (tree: Result<set<Bytes>>)
    requires Closed(entries)
    ensures tree.Ok? && Holds(tree.value, entries, |entries|)
    ensures forall path :: path in tree.value <==>
      path in existing || exists k :: 0 <= k < |entries| && entries[k].kind == Directory && entries[k].path == path
  {
    var made := existing;
    var i := 0;
    while i < |entries|
      invariant 0 <= i <= |entries| && Holds(made, entries, i)
      invariant forall path :: path in made <==>
        path in existing || exists k :: 0 <= k < i && entries[k].kind == Directory && entries[k].path == path
    {
      if entries[i].kind == Directory && entries[i].path !in made {
        ParentIsMade(made, entries, i);
        if !ParentPresent(made, entries[i].path) {
          return Err;
        }
        made := made + {entries[i].path};
      }
      i := i + 1;
    }
    return Ok(made);
  }

  lemma ParentIsMade(tree: set<Bytes>, entries: seq<Entry>, i: nat)
    requires Closed(entries) && i < |entries| && Holds(tree, entries, i)
    ensures ParentPresent(tree, entries[i].path)
  {
    var path := entries[i].path;
    forall j | 0 <= j < |path| && path[j] == SLASH ensures path[..j] in tree {
      assert ParentsListed(entries, i) && DirectoryBefore(entries, i, path[..j]);
    }
  }

  /** Each directory entry once, and no directory before one that lies below it. */
  ghost predicate BottomUp(entries: seq<Entry>, order: seq<nat>) {
    && (forall a :: 0 <= a < |order| ==> order[a] < |entries| && entries[order[a]].kind == Directory)
    && (forall a, b :: 0 <= a < b < |order| ==> order[a] != order[b])
    && (forall a, b :: 0 <= a < b < |order| ==> !Ancestor(entries[order[a]].path, entries[order[b]].path))
    && (forall k :: 0 <= k < |entries| && entries[k].kind == Directory ==> k in order)
  }

  /** The last loop of `install`: a directory gets its mode and time only after everything below it has. */
  method FinishDirectories(entries: seq<Entry>) returns (order: seq<nat>)
    requires Closed(entries)
    ensures BottomUp(entries, order)
  {
    order := [];
    var i := |entries|;
    while i > 0
      invariant 0 <= i <= |entries|
      invariant forall a :: 0 <= a < |order| ==> i <= order[a] < |entries| && entries[order[a]].kind == Directory
      invariant forall a, b :: 0 <= a < b < |order| ==> order[a] > order[b]
      invariant forall k :: i <= k < |entries| && entries[k].kind == Directory ==> k in order
    {
      i := i - 1;
      if entries[i].kind == Directory {
        order := order + [i];
      }
    }
    forall a, b | 0 <= a < b < |order| ensures !Ancestor(entries[order[a]].path, entries[order[b]].path) {
      if Ancestor(entries[order[a]].path, entries[order[b]].path) {
        AncestorEntry(entries, order[a], order[b]);
      }
    }
  }
}
