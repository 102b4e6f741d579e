/** The text form of a directory manifest: raw path bytes in hexadecimal, strict signed and unsigned numbers. */
module DirectoryManifests {
  import opened Outcomes
  import opened Text
  import opened Disks
  import opened Documents
  import opened Directories

  datatype TreeManifest = TreeManifest(entries: seq<Entry>, mode: nat, seconds: int, nanoseconds: int, hash: Bytes)

  // ----- fields -----

  function ParseMode(s: string): Option<nat> {
    match ParseCanonical(s)
    case None => None
    case Some(mode) => if mode <= 511 then Some(mode) else None
  }

  function ParseNanoseconds(s: string): Option<int> {
    match ParseSigned(s)
    case None => None
    case Some(n) => if 0 <= n < 1_000_000_000 then Some(n) else None
  }

  function DecodePath(s: string): Option<Bytes> {
    match DecodeHex(s)
    case None => None
    case Some(path) => if SafePath(path) then Some(path) else None
  }

  predicate ValidTimes(mode: nat, seconds: int, nanoseconds: int) {
    mode <= 511 && IsI64(seconds) && 0 <= nanoseconds < 1_000_000_000
  }

  /** Mode and modification time, as they end every line. */
  function ParseTimes(mode: string, seconds: string, nanoseconds: string): Option<(nat, int, int)> {
    match (ParseMode(mode), ParseSigned(seconds), ParseNanoseconds(nanoseconds))
    case (Some(m), Some(s), Some(n)) => Some((m, s, n))
    case _ => None
  }

  lemma ParseTimesExact(mode: string, seconds: string, nanoseconds: string, t: (nat, int, int))
    ensures ParseTimes(mode, seconds, nanoseconds) == Some(t) <==>
            ValidTimes(t.0, t.1, t.2)
            && mode == Decimal(t.0) && seconds == SignedDecimal(t.1) && nanoseconds == SignedDecimal(t.2)
  {
    ParseCanonicalExact(mode, t.0);
    ParseSignedExact(seconds, t.1);
    ParseSignedExact(nanoseconds, t.2);
  }

  lemma DecodePathExact(s: string, path: Bytes)
    ensures DecodePath(s) == Some(path) <==> SafePath(path) && s == Hex(path)
  {
    DecodeHexExact(s, path);
  }

  // ----- lines -----

  function DirectoryFields(e: Entry): seq<string> {
    ["D", Hex(e.path), Decimal(e.mode), SignedDecimal(e.seconds), SignedDecimal(e.nanoseconds)]
  }

  function FileFields(e: Entry): seq<string>
    requires e.hash.Some?
  {
    ["F", Hex(e.path), Decimal(e.size), Hex(e.hash.value), Decimal(e.mode), SignedDecimal(e.seconds),
      SignedDecimal(e.nanoseconds)]
  }

  function EntryFields(e: Entry): seq<string> {
    if e.kind == File && e.hash.Some? then FileFields(e) else DirectoryFields(e)
  }

  function EntryLine(e: Entry): string {
    Join(EntryFields(e), ' ')
  }

  predicate ValidEntry(e: Entry) {
    && SafePath(e.path) && ValidTimes(e.mode, e.seconds, e.nanoseconds)
    && (e.kind == Directory ==> e.size == 0 && e.hash == None)
    && (e.kind == File ==> e.size < U64_LIMIT && e.hash.Some? && |e.hash.value| == 32)
  }

  function ParseDirectory(f: seq<string>): Option<Entry>
    requires |f| == 5
  {
    match (DecodePath(f[1]), ParseTimes(f[2], f[3], f[4]))
    case (Some(path), Some(t)) => Some(Entry(path, Directory, t.0, t.1, t.2, 0, None))
    case _ => None
  }

  function ParseFile(f: seq<string>): Option<Entry>
    requires |f| == 7
  {
    match (DecodePath(f[1]), ParseCanonical(f[2]), DecodeHash(f[3]), ParseTimes(f[4], f[5], f[6]))
    case (Some(path), Some(size), Some(hash), Some(t)) => Some(Entry(path, File, t.0, t.1, t.2, size, Some(hash)))
    case _ => None
  }

  /** `parse_entry`, after the split */
  function ParseEntryFields(f: seq<string>): Option<Entry> {
    if |f| == 5 && f[0] == "D" then ParseDirectory(f)
    else if |f| == 7 && f[0] == "F" then ParseFile(f)
    else None
  }

  function ParseEntry(line: string): Option<Entry> {
    ParseEntryFields(Split(line, ' '))
  }

  lemma ParseDirectoryExact(f: seq<string>, e: Entry)
    requires |f| == 5 && f[0] == "D"
    ensures ParseDirectory(f) == Some(e) <==> e.kind == Directory && ValidEntry(e) && f == DirectoryFields(e)
  {
    DecodePathExact(f[1], e.path);
    ParseTimesExact(f[2], f[3], f[4], (e.mode, e.seconds, e.nanoseconds));
    FiveFields(f, Hex(e.path), Decimal(e.mode), SignedDecimal(e.seconds), SignedDecimal(e.nanoseconds));
  }

  lemma FiveFields(f: seq<string>, a: string, b: string, c: string, d: string)
    requires |f| == 5 && f[0] == "D"
    ensures f == ["D", a, b, c, d] <==> f[1] == a && f[2] == b && f[3] == c && f[4] == d
  {
  }

  lemma ParseFileExact(f: seq<string>, e: Entry)
    requires |f| == 7 && f[0] == "F"
    ensures ParseFile(f) == Some(e) <==> e.kind == File && ValidEntry(e) && f == FileFields(e)
  {
    DecodePathExact(f[1], e.path);
    ParseCanonicalExact(f[2], e.size);
    ParseTimesExact(f[4], f[5], f[6], (e.mode, e.seconds, e.nanoseconds));
    if e.hash.Some? {
      DecodeHexExact(f[3], e.hash.value);
      SevenFields(f, Hex(e.path), Decimal(e.size), Hex(e.hash.value), Decimal(e.mode), SignedDecimal(e.seconds),
        SignedDecimal(e.nanoseconds));
    }
  }

  lemma SevenFields(f: seq<string>, a: string, b: string, c: string, d: string, s: string, n: string)
    requires |f| == 7 && f[0] == "F"
    ensures f == ["F", a, b, c, d, s, n] <==> f[1] == a && f[2] == b && f[3] == c && f[4] == d && f[5] == s && f[6] == n
  {
  }

  lemma ParseEntryFieldsExact(f: seq<string>, e: Entry)
    ensures ParseEntryFields(f) == Some(e) <==> ValidEntry(e) && f == EntryFields(e)
  {
    if |f| == 5 && f[0] == "D" {
      ParseDirectoryExact(f, e);
    } else if |f| == 7 && f[0] == "F" {
      ParseFileExact(f, e);
    }
  }

  lemma SignedWithout(i: int, c: char)
    requires c == ' ' || c == '\n' || c == '\r'
    ensures Without(SignedDecimal(i), c)
  {
    DigitsAreSolid(Decimal(if i < 0 then -i else i));
  }

  lemma FieldsWithout(e: Entry, c: char)
    requires c == ' ' || c == '\n' || c == '\r'
    ensures AllWithout(EntryFields(e), c) && EntryFields(e) != []
  {
    HexIsSolid(Hex(e.path));
    DigitsAreSolid(Decimal(e.size));
    DigitsAreSolid(Decimal(e.mode));
    SignedWithout(e.seconds, c);
    SignedWithout(e.nanoseconds, c);
    if e.hash.Some? { HexIsSolid(Hex(e.hash.value)); }
  }

  lemma EntryLineExact(line: string, e: Entry)
    ensures ParseEntry(line) == Some(e) <==> ValidEntry(e) && line == EntryLine(e)
  {
    FieldsWithout(e, ' ');
    SplitIffJoin(line, ' ', EntryFields(e));
    ParseEntryFieldsExact(Split(line, ' '), e);
  }

  /** A directory line, letter by letter. */
  lemma DirectoryLineIff(line: string, e: Entry)
    requires e.kind == Directory
    ensures ParseEntry(line) == Some(e) <==>
            && ValidEntry(e)
            && line == "D" + [' '] + (Hex(e.path) + [' '] + (Decimal(e.mode) + [' ']
                         + (SignedDecimal(e.seconds) + [' '] + SignedDecimal(e.nanoseconds))))
  {
    EntryLineExact(line, e);
    JoinOfFive("D", Hex(e.path), Decimal(e.mode), SignedDecimal(e.seconds), SignedDecimal(e.nanoseconds), ' ');
  }

  /** A file line, letter by letter. */
  lemma FileLineIff(line: string, e: Entry)
    requires e.kind == File
    ensures ParseEntry(line) == Some(e) <==>
            && ValidEntry(e)
            && line == "F" + [' '] + (Hex(e.path) + [' '] + (Decimal(e.size) + [' '] + (Hex(e.hash.value) + [' ']
                         + (Decimal(e.mode) + [' '] + (SignedDecimal(e.seconds) + [' ']
                         + SignedDecimal(e.nanoseconds))))))
  {
    EntryLineExact(line, e);
    if e.hash.Some? {
      JoinOfSeven("F", Hex(e.path), Decimal(e.size), Hex(e.hash.value), Decimal(e.mode), SignedDecimal(e.seconds),
        SignedDecimal(e.nanoseconds), ' ');
    }
  }

  // ----- the header -----

  function RootFields(r: Root): seq<string> {
    ["PTM1", Decimal(r.count), Decimal(r.mode), SignedDecimal(r.seconds), SignedDecimal(r.nanoseconds)]
  }

  function RootLine(r: Root): string {
    Join(RootFields(r), ' ')
  }

  predicate ValidRoot(r: Root) {
    r.count < U64_LIMIT && ValidTimes(r.mode, r.seconds, r.nanoseconds)
  }

  function ParseRootFields(f: seq<string>): Option<Root> {
    if |f| != 5 || f[0] != "PTM1" then None else
      match (ParseCanonical(f[1]), ParseTimes(f[2], f[3], f[4]))
      case (Some(count), Some(t)) => Some(Root(count, t.0, t.1, t.2))
      case _ => None
  }

  function ParseRoot(line: string): Option<Root> {
    ParseRootFields(Split(line, ' '))
  }

  lemma ParseRootFieldsExact(f: seq<string>, r: Root)
    ensures ParseRootFields(f) == Some(r) <==> ValidRoot(r) && f == RootFields(r)
  {
    if |f| == 5 && f[0] == "PTM1" {
      ParseCanonicalExact(f[1], r.count);
      ParseTimesExact(f[2], f[3], f[4], (r.mode, r.seconds, r.nanoseconds));
      assert f == RootFields(r) <==>
        f[1] == Decimal(r.count) && f[2] == Decimal(r.mode) && f[3] == SignedDecimal(r.seconds)
          && f[4] == SignedDecimal(r.nanoseconds);
    }
  }

  lemma RootFieldsWithout(r: Root, c: char)
    requires c == ' ' || c == '\n' || c == '\r'
    ensures AllWithout(RootFields(r), c)
  {
    DigitsAreSolid(Decimal(r.count));
    DigitsAreSolid(Decimal(r.mode));
    SignedWithout(r.seconds, c);
    SignedWithout(r.nanoseconds, c);
  }

  lemma RootLineExact(line: string, r: Root)
    ensures ParseRoot(line) == Some(r) <==> ValidRoot(r) && line == RootLine(r)
  {
    RootFieldsWithout(r, ' ');
    SplitIffJoin(line, ' ', RootFields(r));
    ParseRootFieldsExact(Split(line, ' '), r);
  }

  /** The header line, letter by letter: number of entries, and mode and time of the directory itself. */
  lemma RootLineIff(line: string, r: Root)
    ensures ParseRoot(line) == Some(r) <==>
            && r.count < U64_LIMIT && r.mode < 512 && IsI64(r.seconds) && 0 <= r.nanoseconds < 1_000_000_000
            && line == "PTM1" + [' '] + (Decimal(r.count) + [' '] + (Decimal(r.mode) + [' ']
                         + (SignedDecimal(r.seconds) + [' '] + SignedDecimal(r.nanoseconds))))
  {
    RootLineExact(line, r);
    JoinOfFive("PTM1", Decimal(r.count), Decimal(r.mode), SignedDecimal(r.seconds), SignedDecimal(r.nanoseconds), ' ');
  }

  // ----- the format -----

  const ROOTS: Codec<Root> := Codec(RootLine, ParseRoot, ValidRoot)
  const ENTRIES: Codec<Entry> := Codec(EntryLine, ParseEntry, ValidEntry)

  function Ptm(digest: string -> Bytes): Format<Root, Entry> {
    Format(ROOTS, ENTRIES, (r: Root) => r.count, FOOTER, MAX_MANIFEST_ENTRIES, MAX_MANIFEST_BYTES, digest,
           (r: Root, entries: seq<Entry>) => Closed(entries))
  }

  lemma RootsAreExact()
    ensures Exact(ROOTS)
  {
    forall line: string, r: Root ensures ROOTS.parse(line) == Some(r) <==> ROOTS.valid(r) && line == ROOTS.show(r) {
      RootLineExact(line, r);
    }
    forall r: Root ensures Without(ROOTS.show(r), '\n') && Without(ROOTS.show(r), '\r') {
      RootFieldsWithout(r, '\n');
      RootFieldsWithout(r, '\r');
      JoinWithout(RootFields(r), '\n');
      JoinWithout(RootFields(r), '\r');
    }
  }

  lemma EntriesAreExact()
    ensures Exact(ENTRIES)
  {
    forall line: string, e: Entry
      ensures ENTRIES.parse(line) == Some(e) <==> ENTRIES.valid(e) && line == ENTRIES.show(e)
    {
      EntryLineExact(line, e);
    }
    forall e: Entry ensures Without(ENTRIES.show(e), '\n') && Without(ENTRIES.show(e), '\r') {
      FieldsWithout(e, '\n');
      FieldsWithout(e, '\r');
      JoinWithout(EntryFields(e), '\n');
      JoinWithout(EntryFields(e), '\r');
    }
  }

  lemma PtmIsSound(digest: string -> Bytes)
    ensures Sound(Ptm(digest))
  {
    RootsAreExact();
    EntriesAreExact();
  }

  function RootOf(m: TreeManifest): Root {
    Root(|m.entries|, m.mode, m.seconds, m.nanoseconds)
  }

  function EncodeTree(m: TreeManifest, digest: string -> Bytes): string {
    Encode(Ptm(digest), Document(RootOf(m), m.entries, m.hash))
  }

  predicate ValidTree(m: TreeManifest, digest: string -> Bytes) {
    && ValidTimes(m.mode, m.seconds, m.nanoseconds)
    && AllValid(ENTRIES, m.entries) && Closed(m.entries)
    && |m.hash| == 32 && m.hash == digest(Body(Ptm(digest), RootOf(m), m.entries))
  }

  function TreeOf(d: Document<Root, Entry>): TreeManifest {
    TreeManifest(d.items, d.header.mode, d.header.seconds, d.header.nanoseconds, d.hash)
  }

  function ParseTree(encoded: string, digest: string -> Bytes): Option<TreeManifest> {
    match Parse(Ptm(digest), encoded)
    case None => None
    case Some(d) => Some(TreeOf(d))
  }

  lemma ValidTreeIffDocument(m: TreeManifest, digest: string -> Bytes)
    ensures ValidTree(m, digest) <==> ValidDocument(Ptm(digest), Document(RootOf(m), m.entries, m.hash))
  {
  }

  /**
    The directory manifest codec is a bijection between valid manifests within the limit and accepted
    texts; path bytes, negative times and hashes included.
  */
  lemma TreeExact(encoded: string, digest: string -> Bytes, m: TreeManifest)
    ensures ParseTree(encoded, digest) == Some(m) <==>
            ValidTree(m, digest) && encoded == EncodeTree(m, digest) && |encoded| <= MAX_MANIFEST_BYTES
  {
    PtmIsSound(digest);
    ParseExact(Ptm(digest), encoded, Document(RootOf(m), m.entries, m.hash));
    ValidTreeIffDocument(m, digest);
    if Parse(Ptm(digest), encoded).Some? {
      var d := Parse(Ptm(digest), encoded).value;
      ParseExact(Ptm(digest), encoded, d);
      assert d.header == RootOf(TreeOf(d));
    }
  }

  /** The lines of a directory manifest. */
  ghost predicate TreeLines(encoded: string, digest: string -> Bytes, m: TreeManifest, lines: seq<string>) {
    var n := |m.entries|;
    && encoded == Unlines(lines) && |lines| == n + 2
    && ParseRoot(lines[0]) == Some(Root(n, m.mode, m.seconds, m.nanoseconds))
    && (forall i :: 0 <= i < n ==> ParseEntry(lines[i + 1]) == Some(m.entries[i]))
    && |m.hash| == 32 && lines[n + 1] == "HASH " + Hex(m.hash) && m.hash == digest(Unlines(lines[..n + 1]))
  }

  lemma TreeIsWritten(encoded: string, digest: string -> Bytes, m: TreeManifest, lines: seq<string>)
    ensures Written(Ptm(digest), encoded, Document(RootOf(m), m.entries, m.hash), lines) <==>
            TreeLines(encoded, digest, m, lines) && Closed(m.entries)
  {
  }

  /**
    A text is accepted as a directory manifest if and only if it is at most 64 MiB and consists of a header line, a line
    for each entry and a last line with the digest of all before it, and the entries are acceptable as a list.
  */
  lemma TreeIff(encoded: string, digest: string -> Bytes, m: TreeManifest)
    ensures ParseTree(encoded, digest) == Some(m) <==>
            |encoded| <= 67_108_864 && Closed(m.entries) && exists lines :: TreeLines(encoded, digest, m, lines)
  {
    var d := Document(RootOf(m), m.entries, m.hash);
    PtmIsSound(digest);
    ParseIff(Ptm(digest), encoded, d);
    forall lines ensures Written(Ptm(digest), encoded, d, lines) <==>
      TreeLines(encoded, digest, m, lines) && Closed(m.entries)
    {
      TreeIsWritten(encoded, digest, m, lines);
    }
    ParsesAsTree(encoded, digest, m);
  }

  lemma ParsesAsTree(encoded: string, digest: string -> Bytes, m: TreeManifest)
    ensures ParseTree(encoded, digest) == Some(m) <==>
            Parse(Ptm(digest), encoded) == Some(Document(RootOf(m), m.entries, m.hash))
  {
    if Parse(Ptm(digest), encoded).Some? {
      var d := Parse(Ptm(digest), encoded).value;
      PtmIsSound(digest);
      ParseExact(Ptm(digest), encoded, d);
      assert d.header == RootOf(TreeOf(d));
    }
  }

  /** `directory::parse`: header, entries one by one, footer, digest, validation, canonical form. */
  method ReadTree(encoded: string, digest: string -> Bytes) returns (r: Option<TreeManifest>)
    ensures r == ParseTree(encoded, digest)
  {
    if !WellTerminated(encoded, MAX_MANIFEST_BYTES) {
      return None;
    }
    var f := Ptm(digest);
    var d := ReadTreeLines(f, Lines(encoded));
    return match d case None => None case Some(t) => Some(TreeOf(t));
  }

  method ReadTreeLines(f: Format<Root, Entry>, lines: seq<string>) returns (r: Option<Document<Root, Entry>>)
    requires forall root: Root, entries: seq<Entry> :: f.check(root, entries) <==> Closed(entries)
    ensures r == ParseLines(f, lines)
  {
    if lines == [] {
      return None;
    }
    var header := f.header.parse(lines[0]);
    if header.None? || f.count(header.value) > f.maxItems || |lines| != f.count(header.value) + 2 {
      return None;
    }
    var count := f.count(header.value);
    var entries := ReadItems(f.item, lines[1..count + 1]);
    var hash := ParseFooter(f.footer, lines[count + 1]);
    var body := Unlines(lines[..count + 1]);
    if entries.None? || hash.None? || hash.value != f.digest(body) {
      return None;
    }
    var closed := ValidateEntries(entries.value);
    var canonical := PrintBody(f, header.value, entries.value);
    if !closed || canonical != body {
      return None;
    }
    return Some(Document(header.value, entries.value, hash.value));
  }

  /** Whatever is parsed can be staged and installed in the order the loops use. */
  lemma AcceptedTreeIsClosed(encoded: string, digest: string -> Bytes, m: TreeManifest, k: nat, i: nat)
    requires ParseTree(encoded, digest) == Some(m) && i < |m.entries|
    ensures Closed(m.entries)
    ensures k < |m.entries| && Ancestor(m.entries[k].path, m.entries[i].path) ==>
            k < i && m.entries[k].kind == Directory
  {
    TreeExact(encoded, digest, m);
    if k < |m.entries| && Ancestor(m.entries[k].path, m.entries[i].path) {
      AncestorEntry(m.entries, k, i);
    }
  }
}
