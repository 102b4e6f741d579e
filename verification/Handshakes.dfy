/**
  The resume handshake. The receiver announces its durable bitmap word by word on the control channel;
  the sender rebuilds it before the first datagram.
*/
module Handshakes {
  import opened Outcomes
  import opened Text
  import opened Bitmaps
  import opened Layouts
  import opened Receivers
  import opened Reports

  datatype Acceptance = Acceptance(
    bitmap: seq<Word>, complete: bool, telemetry: Option<Telemetry>, reusedBytes: nat, reusedChunks: nat)

  // ----- the receiver's side -----

  function ReadyLine(l: Layout, interval: nat): string {
    Join(["READY", Decimal(l.payload), Decimal(interval)], ' ')
  }

  function ReusedLine(bytes: nat, chunks: nat): string {
    Join(["REUSED", Decimal(bytes), Decimal(chunks)], ' ')
  }

  function WordLine(index: nat, word: Word): string {
    Join(["H", Decimal(index), FixedHex(word, 16)], ' ')
  }

  /** One line for each non-zero word, in ascending order. */
  function WordLines(bitmap: seq<Word>, from: nat): seq<string>
    requires from <= |bitmap|
    decreases |bitmap| - from
  {
    if from == |bitmap| then []
    else (if bitmap[from] != 0 then [WordLine(from, bitmap[from])] else []) + WordLines(bitmap, from + 1)
  }

  function Dialogue(l: Layout, interval: nat, bitmap: seq<Word>, reusedBytes: nat, reusedChunks: nat): seq<string> {
    [ReadyLine(l, interval), ReusedLine(reusedBytes, reusedChunks)] + WordLines(bitmap, 0) + ["GO"]
  }

  method Announce(l: Layout, interval: nat, bitmap: seq<Word>, reusedBytes: nat, reusedChunks: nat)
    returns (messages: seq<string>)
    ensures messages == Dialogue(l, interval, bitmap, reusedBytes, reusedChunks)
  {
    messages := [ReadyLine(l, interval), ReusedLine(reusedBytes, reusedChunks)];
    ghost var head := messages;
    var index := 0;
    while index < |bitmap|
      invariant 0 <= index <= |bitmap|
      invariant messages + WordLines(bitmap, index) == head + WordLines(bitmap, 0)
    {
      if bitmap[index] != 0 {
        AppendLine(messages, WordLine(index, bitmap[index]), WordLines(bitmap, index + 1));
        messages := messages + [WordLine(index, bitmap[index])];
      } else {
        assert WordLines(bitmap, index) == WordLines(bitmap, index + 1);
      }
      index := index + 1;
    }
    assert messages + [] == messages;
    messages := messages + ["GO"];
  }

  lemma AppendLine(lines: seq<string>, line: string, later: seq<string>)
    ensures lines + ([line] + later) == lines + [line] + later
  {
  }

  // ----- the sender's side -----

  /** The index and word of an `H` line: tokens, a plain integer, a hexadecimal word. */
  function ParseWordLine(line: string): Option<(nat, Word)> {
    var fields := Tokens(line);
    if |fields| != 3 || fields[0] != "H" then None else
      match (ParseUnsigned(fields[1]), ParseHexWord(fields[2]))
      case (Some(index), Some(word)) => if word < U64_LIMIT then Some((index, word as Word)) else None
      case _ => None
  }

  /** Sets one word: in range, still clear, not zero. */
  function PlaceWord(line: string, bitmap: seq<Word>): (r: Result<seq<Word>>)
    ensures r.Ok? ==> |r.value| == |bitmap|
  {
    match ParseWordLine(line)
    case None => Err
    case Some((index, word)) =>
      if index >= |bitmap| || bitmap[index] != 0 || word == 0 then Err else Ok(bitmap[index := word])
  }

  /** Reads `H` lines up to `GO`; what is left in the channel is returned too. */
  function Rebuild(messages: seq<string>, bitmap: seq<Word>): (r: Result<(seq<Word>, seq<string>)>)
    ensures r.Ok? ==> |r.value.0| == |bitmap|
    decreases |messages|
  {
    if messages == [] then Err
    else if messages[0] == "GO" then Ok((bitmap, messages[1..]))
    else
      match PlaceWord(messages[0], bitmap)
      case Err => Err
      case Ok(next) => Rebuild(messages[1..], next)
  }

  method ReadWords(messages: seq<string>, words: nat) returns (r: Result<(seq<Word>, seq<string>)>)
    ensures r == Rebuild(messages, Zeros(words))
  {
    var bitmap := Zeros(words);
    var i := 0;
    while i < |messages|
      invariant 0 <= i <= |messages|
      invariant Rebuild(messages, Zeros(words)) == Rebuild(messages[i..], bitmap)
    {
      assert messages[i..][1..] == messages[i + 1..];
      if messages[i] == "GO" {
        return Ok((bitmap, messages[i + 1..]));
      }
      var placed := PlaceWord(messages[i], bitmap);
      if placed.Err? {
        return Err;
      }
      bitmap := placed.value;
      i := i + 1;
    }
    return Err;
  }

  function ParseReused(line: string): Option<(nat, nat)> {
    var fields := Split(line, ' ');
    if |fields| != 3 || fields[0] != "REUSED" then None else
      match (ParseCanonical(fields[1]), ParseCanonical(fields[2]))
      case (Some(bytes), Some(chunks)) => Some((bytes, chunks))
      case _ => None
  }

  /** From the `REUSED` line on. */
  function ReadInventory(messages: seq<string>, l: Layout, telemetry: Option<Telemetry>)
    : Result<(Acceptance, seq<string>)>
  {
    if messages == [] then Err else
      match ParseReused(messages[0])
      case None => Err
      case Some((bytes, chunks)) =>
        if bytes > Min(l.chunks * l.payload, U64_LIMIT - 1) || chunks > l.chunks then Err else
          match Rebuild(messages[1..], Zeros(WordsFor(l.chunks)))
          case Err => Err
          case Ok((bitmap, rest)) =>
            if !TailClear(bitmap, l.chunks) || Population(bitmap) < chunks then Err
            else Ok((Acceptance(bitmap, false, telemetry, bytes, chunks), rest))
  }

  /** From `READY` or `COMPLETE` on. */
  function ReadReady(messages: seq<string>, l: Layout, interval: nat, telemetry: Option<Telemetry>)
    : Result<(Acceptance, seq<string>)>
  {
    if messages == [] then Err
    else if messages[0] == "COMPLETE" then Ok((Acceptance([], true, telemetry, 0, 0), messages[1..]))
    else if messages[0] != ReadyLine(l, interval) then Err
    else ReadInventory(messages[1..], l, telemetry)
  }

  /** `read_acceptance` for the UDP transport, over the messages the channel delivers. */
  function Accepted(messages: seq<string>, l: Layout, interval: nat): Result<(Acceptance, seq<string>)> {
    if messages == [] then Err
    else if "M " <= messages[0] then
      match ParseFeedbackReport(messages[0], l.chunks)
      case Err => Err
      case Ok((snapshot, ranges)) =>
        if ranges != "" then Err else ReadReady(messages[1..], l, interval, Some(snapshot.(reports := 1)))
    else ReadReady(messages, l, interval, None)
  }

  method ReadAcceptance(messages: seq<string>, l: Layout, interval: nat) returns (r: Result<(Acceptance, seq<string>)>)
    ensures r == Accepted(messages, l, interval)
  {
    if messages == [] {
      return Err;
    }
    var rest, telemetry := messages, None;
    if "M " <= messages[0] {
      var report := ParseFeedbackReport(messages[0], l.chunks);
      if report.Err? || report.value.1 != "" {
        return Err;
      }
      rest, telemetry := messages[1..], Some(report.value.0.(reports := 1));
      if rest == [] {
        return Err;
      }
    }
    if rest[0] == "COMPLETE" {
      return Ok((Acceptance([], true, telemetry, 0, 0), rest[1..]));
    }
    if rest[0] != ReadyLine(l, interval) || rest[1..] == [] {
      return Err;
    }
    var reused := ParseReused(rest[1]);
    if reused.None? || reused.value.0 > Min(l.chunks * l.payload, U64_LIMIT - 1) || reused.value.1 > l.chunks {
      return Err;
    }
    assert rest[1..][1..] == rest[2..];
    var words := ReadWords(rest[2..], WordsFor(l.chunks));
    if words.Err? || !TailClear(words.value.0, l.chunks) || Population(words.value.0) < reused.value.1 {
      return Err;
    }
    return Ok((Acceptance(words.value.0, false, telemetry, reused.value.0, reused.value.1), words.value.1));
  }

  // ----- what the sender accepts -----

  /** An accepted announcement never names a chunk beyond the object, and its inventory is possible. */
  lemma AcceptedAnnouncementFits(messages: seq<string>, l: Layout, interval: nat)
    requires Accepted(messages, l, interval).Ok? && !Accepted(messages, l, interval).value.0.complete
    ensures var a := Accepted(messages, l, interval).value.0;
            && Fits(a.bitmap, l.chunks)
            && a.reusedChunks <= |Members(a.bitmap)| <= l.chunks && a.reusedBytes <= l.chunks * l.payload
  {
    var bitmap := Accepted(messages, l, interval).value.0.bitmap;
    TailClearIffFits(bitmap, l.chunks);
    PopulationIsCardinality(bitmap);
    FullIffAllReceived(bitmap, l.chunks);
  }

  /** What a list of `H` lines says, read against a starting bitmap: each word placed once and nothing else. */
  ghost predicate Spells(lines: seq<string>, base: seq<Word>, bitmap: seq<Word>) {
    && |bitmap| == |base|
    && (forall i :: 0 <= i < |lines| ==> Names(lines[i], base, bitmap))
    && (forall i, j :: 0 <= i < j < |lines| ==> IndexOn(lines[i]) != IndexOn(lines[j]))
    && (forall n :: 0 <= n < |base| && bitmap[n] != base[n] ==> exists i :: 0 <= i < |lines| && IndexOn(lines[i]) == n)
  }

  function IndexOn(line: string): int {
    match ParseWordLine(line) case Some((index, _)) => index case None => -1
  }

  ghost predicate Names(line: string, base: seq<Word>, bitmap: seq<Word>)
    requires |bitmap| == |base|
  {
    match ParseWordLine(line)
    case None => false
    case Some((index, word)) => index < |base| && base[index] == 0 && word != 0 && bitmap[index] == word
  }

  /** The lines may come in any order; the reader accepts exactly the lists that describe one bitmap. */
  lemma {:induction false} RebuildExact(lines: seq<string>, rest: seq<string>, base: seq<Word>, bitmap: seq<Word>)
    requires "GO" !in lines
    ensures Rebuild(lines + ["GO"] + rest, base) == Ok((bitmap, rest)) <==> Spells(lines, base, bitmap)
    decreases |lines|
  {
    var messages := lines + ["GO"] + rest;
    if lines == [] {
      assert messages == ["GO"] + rest && messages[1..] == rest;
      assert Spells(lines, base, bitmap) <==> base == bitmap;
    } else {
      assert messages[0] == lines[0] && lines[0] in lines;
      assert messages[1..] == lines[1..] + ["GO"] + rest;
      match PlaceWord(lines[0], base)
      case Err =>
      case Ok(next) =>
        RebuildExact(lines[1..], rest, next, bitmap);
        SpellsCons(lines, base, next, bitmap);
    }
  }

  lemma SpellsCons(lines: seq<string>, base: seq<Word>, next: seq<Word>, bitmap: seq<Word>)
    requires lines != [] && PlaceWord(lines[0], base) == Ok(next)
    ensures Spells(lines, base, bitmap) <==> Spells(lines[1..], next, bitmap)
  {
    if Spells(lines, base, bitmap) {
      SpellsTail(lines, base, next, bitmap);
    }
    if Spells(lines[1..], next, bitmap) {
      SpellsBack(lines, base, next, bitmap);
    }
  }

  lemma SpellsTail(lines: seq<string>, base: seq<Word>, next: seq<Word>, bitmap: seq<Word>)
    requires lines != [] && PlaceWord(lines[0], base) == Ok(next) && Spells(lines, base, bitmap)
    ensures Spells(lines[1..], next, bitmap)
  {
    var tail := lines[1..];
    assert forall i :: 0 <= i < |tail| ==> tail[i] == lines[i + 1];
    forall i | 0 <= i < |tail| ensures Names(tail[i], next, bitmap) {
      assert Names(lines[i + 1], base, bitmap) && IndexOn(lines[0]) != IndexOn(lines[i + 1]);
    }
    forall n | 0 <= n < |next| && bitmap[n] != next[n] ensures exists i :: 0 <= i < |tail| && IndexOn(tail[i]) == n {
      TailFindsIndex(lines, base, next, bitmap, n);
    }
  }

  lemma TailFindsIndex(lines: seq<string>, base: seq<Word>, next: seq<Word>, bitmap: seq<Word>, n: nat)
    requires lines != [] && PlaceWord(lines[0], base) == Ok(next) && Spells(lines, base, bitmap)
    requires n < |next| && bitmap[n] != next[n]
    ensures exists i :: 0 <= i < |lines| - 1 && IndexOn(lines[1..][i]) == n
  {
    assert Names(lines[0], base, bitmap);
    var i :| 0 <= i < |lines| && IndexOn(lines[i]) == n;
    assert lines[1..][i - 1] == lines[i];
  }

  /** Placing one word elsewhere than the later lines do leaves them naming words of the bitmap. */
  lemma LaterLinesName(lines: seq<string>, base: seq<Word>, next: seq<Word>, bitmap: seq<Word>, j: nat)
    requires lines != [] && PlaceWord(lines[0], base) == Ok(next) && Spells(lines[1..], next, bitmap)
    requires 0 < j < |lines|
    ensures IndexOn(lines[j]) != IndexOn(lines[0]) && Names(lines[j], base, bitmap)
  {
    assert lines[j] == lines[1..][j - 1] && Names(lines[1..][j - 1], next, bitmap);
  }

  lemma FirstLineNames(lines: seq<string>, base: seq<Word>, next: seq<Word>, bitmap: seq<Word>)
    requires lines != [] && PlaceWord(lines[0], base) == Ok(next) && Spells(lines[1..], next, bitmap)
    ensures Names(lines[0], base, bitmap)
  {
    var tail, index := lines[1..], IndexOn(lines[0]);
    forall i | 0 <= i < |tail| ensures IndexOn(tail[i]) != index {
      LaterLinesName(lines, base, next, bitmap, i + 1);
    }
    assert bitmap[index] == next[index];
  }

  lemma LineFindsIndex(lines: seq<string>, base: seq<Word>, next: seq<Word>, bitmap: seq<Word>, n: nat)
    requires lines != [] && PlaceWord(lines[0], base) == Ok(next) && Spells(lines[1..], next, bitmap)
    requires n < |base| && bitmap[n] != base[n]
    ensures exists i :: 0 <= i < |lines| && IndexOn(lines[i]) == n
  {
    if n == IndexOn(lines[0]) {
      assert IndexOn(lines[0]) == n;
    } else {
      var i :| 0 <= i < |lines[1..]| && IndexOn(lines[1..][i]) == n;
      assert lines[i + 1] == lines[1..][i];
    }
  }

  lemma SpellsBack(lines: seq<string>, base: seq<Word>, next: seq<Word>, bitmap: seq<Word>)
    requires lines != [] && PlaceWord(lines[0], base) == Ok(next) && Spells(lines[1..], next, bitmap)
    ensures Spells(lines, base, bitmap)
  {
    var tail := lines[1..];
    forall i | 0 <= i < |lines| ensures Names(lines[i], base, bitmap) {
      if i > 0 { LaterLinesName(lines, base, next, bitmap, i); } else { FirstLineNames(lines, base, next, bitmap); }
    }
    forall i, j | 0 <= i < j < |lines| ensures IndexOn(lines[i]) != IndexOn(lines[j]) {
      if i > 0 {
        assert lines[i] == tail[i - 1] && lines[j] == tail[j - 1];
      } else {
        LaterLinesName(lines, base, next, bitmap, j);
      }
    }
    forall n | 0 <= n < |base| && bitmap[n] != base[n] ensures exists i :: 0 <= i < |lines| && IndexOn(lines[i]) == n {
      LineFindsIndex(lines, base, next, bitmap, n);
    }
  }

  // ----- exactly what is accepted -----

  /** An `H` line: the letter, an index in decimal and a word in hexadecimal, between white space. */
  ghost predicate SaysWord(line: string, index: nat, word: nat, number: string, digits: string) {
    && Woven(line, ["H", number, digits]) && Numeral(number, index) && index < U64_LIMIT && word < U64_LIMIT
    && ((digits != [] && HexPlaces(digits, word))
        || (|digits| > 1 && digits[0] == '+' && HexPlaces(digits[1..], word)))
  }

  lemma ParseWordLineIff(line: string, index: nat, word: Word)
    ensures ParseWordLine(line) == Some((index, word)) <==>
            exists number, digits :: SaysWord(line, index, word, number, digits)
  {
    if ParseWordLine(line) == Some((index, word)) {
      var fields := Tokens(line);
      TokensIff(line, fields);
      assert fields == ["H", fields[1], fields[2]];
      ParseUnsignedIff(fields[1], index);
      ParseHexWordIff(fields[2], word);
      assert SaysWord(line, index, word, fields[1], fields[2]);
    }
    forall number, digits | SaysWord(line, index, word, number, digits)
      ensures ParseWordLine(line) == Some((index, word))
    {
      TokensIff(line, ["H", number, digits]);
      ParseUnsignedIff(number, index);
      ParseHexWordIff(digits, word);
    }
  }

  lemma ParsedReused(line: string, bytes: nat, chunks: nat)
    requires ParseReused(line) == Some((bytes, chunks))
    ensures bytes < U64_LIMIT && chunks < U64_LIMIT && line == ReusedLine(bytes, chunks)
  {
    var fields := Split(line, ' ');
    ParseCanonicalExact(fields[1], bytes);
    ParseCanonicalExact(fields[2], chunks);
    assert fields == ["REUSED", Decimal(bytes), Decimal(chunks)];
    JoinOfSplit(line, ' ');
  }

  lemma ParseReusedIff(line: string, bytes: nat, chunks: nat)
    ensures ParseReused(line) == Some((bytes, chunks)) <==>
            bytes < U64_LIMIT && chunks < U64_LIMIT
            && line == "REUSED" + [' '] + (Decimal(bytes) + [' '] + Decimal(chunks))
  {
    JoinOfThree("REUSED", Decimal(bytes), Decimal(chunks), ' ');
    if ParseReused(line) == Some((bytes, chunks)) { ParsedReused(line, bytes, chunks); }
    if bytes < U64_LIMIT && chunks < U64_LIMIT { ParseOwnReused(bytes, chunks); }
  }

  /** The channel holds some lines without GO, GO, and the rest. */
  ghost predicate UpToGo(messages: seq<string>, lines: seq<string>, rest: seq<string>) {
    messages == lines + ["GO"] + rest && "GO" !in lines
  }

  lemma GoNow(messages: seq<string>)
    requires messages != [] && messages[0] == "GO"
    ensures UpToGo(messages, [], messages[1..])
  {
    assert messages == [messages[0]] + messages[1..];
  }

  lemma GoLater(messages: seq<string>, lines: seq<string>, rest: seq<string>)
    requires messages != [] && messages[0] != "GO" && UpToGo(messages[1..], lines, rest)
    ensures UpToGo(messages, [messages[0]] + lines, rest)
  {
    assert messages == [messages[0]] + messages[1..];
  }

  lemma {:induction false} RebuildReadsToGo(messages: seq<string>, base: seq<Word>) returns (lines: seq<string>)
    requires Rebuild(messages, base).Ok?
    ensures UpToGo(messages, lines, Rebuild(messages, base).value.1)
    decreases |messages|
  {
    if messages[0] == "GO" {
      lines := [];
      GoNow(messages);
    } else {
      var later := RebuildReadsToGo(messages[1..], PlaceWord(messages[0], base).value);
      lines := [messages[0]] + later;
      GoLater(messages, later, Rebuild(messages, base).value.1);
    }
  }

  lemma RebuildIff(messages: seq<string>, base: seq<Word>, bitmap: seq<Word>, rest: seq<string>)
    ensures Rebuild(messages, base) == Ok((bitmap, rest)) <==>
            exists lines :: UpToGo(messages, lines, rest) && Spells(lines, base, bitmap)
  {
    if Rebuild(messages, base) == Ok((bitmap, rest)) {
      var lines := RebuildReadsToGo(messages, base);
      RebuildExact(lines, rest, base, bitmap);
    }
    forall lines | UpToGo(messages, lines, rest) && Spells(lines, base, bitmap)
      ensures Rebuild(messages, base) == Ok((bitmap, rest))
    {
      RebuildExact(lines, rest, base, bitmap);
    }
  }

  /** An inventory that is possible, then lines that spell a bitmap of the object, from a cleared one. */
  ghost predicate Inventory(messages: seq<string>, l: Layout, a: Acceptance, rest: seq<string>, lines: seq<string>) {
    && !a.complete && messages != []
    && messages[0] == "REUSED" + [' '] + (Decimal(a.reusedBytes) + [' '] + Decimal(a.reusedChunks))
    && a.reusedBytes <= l.chunks * l.payload && a.reusedBytes < U64_LIMIT && a.reusedChunks < U64_LIMIT
    && UpToGo(messages[1..], lines, rest) && Spells(lines, Zeros(WordsFor(l.chunks)), a.bitmap)
    && Fits(a.bitmap, l.chunks) && a.reusedChunks <= |Members(a.bitmap)|
  }

  lemma PossibleIff(bitmap: seq<Word>, chunks: nat, reused: nat)
    requires |bitmap| == WordsFor(chunks)
    ensures TailClear(bitmap, chunks) && Population(bitmap) >= reused && reused <= chunks <==>
            Fits(bitmap, chunks) && reused <= |Members(bitmap)|
  {
    TailClearIffFits(bitmap, chunks);
    PopulationIsCardinality(bitmap);
    if Fits(bitmap, chunks) { FullIffAllReceived(bitmap, chunks); }
  }

  lemma ReadInventoryIff(messages: seq<string>, l: Layout, a: Acceptance, rest: seq<string>)
    ensures ReadInventory(messages, l, a.telemetry) == Ok((a, rest)) <==>
            exists lines :: Inventory(messages, l, a, rest, lines)
  {
    if messages != [] {
      var base := Zeros(WordsFor(l.chunks));
      InventoryReads(messages, l, a, rest);
      ParseReusedIff(messages[0], a.reusedBytes, a.reusedChunks);
      RebuildIff(messages[1..], base, a.bitmap, rest);
      if |a.bitmap| == WordsFor(l.chunks) { PossibleIff(a.bitmap, l.chunks, a.reusedChunks); }
      if lines :| UpToGo(messages[1..], lines, rest) && Spells(lines, base, a.bitmap) {
        assert Inventory(messages, l, a, rest, lines) <==>
          && !a.complete && ParseReused(messages[0]) == Some((a.reusedBytes, a.reusedChunks))
          && a.reusedBytes <= l.chunks * l.payload && Fits(a.bitmap, l.chunks)
          && a.reusedChunks <= |Members(a.bitmap)|;
      }
    }
  }

  /** What is checked of an inventory, word for word as the reader does it. */
  lemma InventoryReads(messages: seq<string>, l: Layout, a: Acceptance, rest: seq<string>)
    requires messages != []
    ensures ReadInventory(messages, l, a.telemetry) == Ok((a, rest)) <==>
            && !a.complete && ParseReused(messages[0]) == Some((a.reusedBytes, a.reusedChunks))
            && a.reusedBytes <= Min(l.chunks * l.payload, U64_LIMIT - 1) && a.reusedChunks <= l.chunks
            && Rebuild(messages[1..], Zeros(WordsFor(l.chunks))) == Ok((a.bitmap, rest))
            && TailClear(a.bitmap, l.chunks) && Population(a.bitmap) >= a.reusedChunks
  {
  }

  /** COMPLETE, or READY with exactly this payload and interval and then an inventory. */
  ghost predicate Answer(messages: seq<string>, l: Layout, interval: nat, a: Acceptance, rest: seq<string>) {
    && messages != []
    && ((messages == ["COMPLETE"] + rest && a == Acceptance([], true, a.telemetry, 0, 0))
        || (messages[0] == "READY" + [' '] + (Decimal(l.payload) + [' '] + Decimal(interval))
            && exists lines :: Inventory(messages[1..], l, a, rest, lines)))
  }

  lemma ReadReadyIff(messages: seq<string>, l: Layout, interval: nat, a: Acceptance, rest: seq<string>)
    ensures ReadReady(messages, l, interval, a.telemetry) == Ok((a, rest)) <==> Answer(messages, l, interval, a, rest)
  {
    if messages != [] {
      JoinOfThree("READY", Decimal(l.payload), Decimal(interval), ' ');
      ReadyIsNoReport(l, interval);
      ReadInventoryIff(messages[1..], l, a, rest);
      assert messages == [messages[0]] + messages[1..];
    }
  }

  /**
    Exactly what the sender accepts, with what it makes of it and what it leaves in the channel: perhaps a report
    without missing chunks, then COMPLETE, or READY with the payload and interval of this transfer, an inventory and
    the words of a bitmap up to GO.
  */
  lemma AcceptedIff(messages: seq<string>, l: Layout, interval: nat, a: Acceptance, rest: seq<string>)
    ensures Accepted(messages, l, interval) == Ok((a, rest)) <==>
            && messages != []
            && if "M " <= messages[0] then
                 && ParseFeedbackReport(messages[0], l.chunks).Ok?
                 && ParseFeedbackReport(messages[0], l.chunks).value.1 == ""
                 && a.telemetry == Some(ParseFeedbackReport(messages[0], l.chunks).value.0.(reports := 1))
                 && Answer(messages[1..], l, interval, a, rest)
               else a.telemetry == None && Answer(messages, l, interval, a, rest)
  {
    if messages != [] {
      if "M " <= messages[0] {
        ReadReadyIff(messages[1..], l, interval, a, rest);
        if ParseFeedbackReport(messages[0], l.chunks).Ok? {
          TelemetryIsKept(messages[1..], l, interval,
                          Some(ParseFeedbackReport(messages[0], l.chunks).value.0.(reports := 1)));
        }
      } else {
        ReadReadyIff(messages, l, interval, a, rest);
        TelemetryIsKept(messages, l, interval, None);
      }
    }
  }

  lemma TelemetryIsKept(messages: seq<string>, l: Layout, interval: nat, telemetry: Option<Telemetry>)
    ensures var r := ReadReady(messages, l, interval, telemetry); r.Ok? ==> r.value.0.telemetry == telemetry
  {
  }

  // ----- agreement -----

  lemma ParseOwnWordLine(index: nat, word: Word)
    requires index < U64_LIMIT
    ensures ParseWordLine(WordLine(index, word)) == Some((index, word)) && WordLine(index, word) != "GO"
  {
    var fields := ["H", Decimal(index), FixedHex(word, 16)];
    DigitsAreSolid(Decimal(index));
    HexIsSolid(FixedHex(word, 16));
    TokensOfJoin(fields);
    ParseUnsignedOfDecimal(index);
    ParseHexWordOfFixedHex(word);
    assert WordLine(index, word)[0] == 'H';
  }

  lemma RebuildStep(index: nat, word: Word, tail: seq<string>, partial: seq<Word>)
    requires index < |partial| < U64_LIMIT && partial[index] == 0 && word != 0
    ensures Rebuild([WordLine(index, word)] + tail, partial) == Rebuild(tail, partial[index := word])
  {
    ParseOwnWordLine(index, word);
    var messages := [WordLine(index, word)] + tail;
    assert messages[0] == WordLine(index, word) && messages[1..] == tail;
    assert PlaceWord(messages[0], partial) == Ok(partial[index := word]);
  }

  lemma FirstLine(line: string, later: seq<string>, rest: seq<string>)
    ensures [line] + later + rest == [line] + (later + rest)
  {
  }

  lemma GoIsNext(lines: seq<string>, rest: seq<string>)
    requires lines == []
    ensures lines + (["GO"] + rest) == ["GO"] + rest && (["GO"] + rest)[1..] == rest
  {
  }

  /** Reading the announced lines one by one turns a cleared map into the announced one. */
  lemma {:induction false} RebuildAnnounced(bitmap: seq<Word>, from: nat, partial: seq<Word>, rest: seq<string>)
    requires from <= |bitmap| == |partial| && |bitmap| < U64_LIMIT
    requires forall i :: 0 <= i < |bitmap| ==> partial[i] == if i < from then bitmap[i] else 0
    ensures Rebuild(WordLines(bitmap, from) + (["GO"] + rest), partial) == Ok((bitmap, rest))
    decreases |bitmap| - from
  {
    if from == |bitmap| {
      assert partial == bitmap;
      GoIsNext(WordLines(bitmap, from), rest);
    } else {
      var later := WordLines(bitmap, from + 1);
      RebuildAnnounced(bitmap, from + 1, partial[from := bitmap[from]], rest);
      if bitmap[from] == 0 {
        assert partial[from := bitmap[from]] == partial && WordLines(bitmap, from) == later;
      } else {
        RebuildStep(from, bitmap[from], later + (["GO"] + rest), partial);
        FirstLine(WordLine(from, bitmap[from]), later, ["GO"] + rest);
      }
    }
  }

  function Indices(lines: seq<string>): (indices: seq<int>)
    ensures |indices| == |lines| && forall i :: 0 <= i < |lines| ==> indices[i] == IndexOn(lines[i])
  {
    seq(|lines|, i requires 0 <= i < |lines| => IndexOn(lines[i]))
  }

  ghost predicate AscendingFrom(indices: seq<int>, from: nat) {
    && (forall i :: 0 <= i < |indices| ==> from <= indices[i])
    && (forall i, j :: 0 <= i < j < |indices| ==> indices[i] < indices[j])
  }

  lemma AscendingCons(later: seq<int>, from: nat)
    requires AscendingFrom(later, from + 1)
    ensures AscendingFrom([from as int] + later, from)
  {
  }

  lemma IndicesCons(line: string, later: seq<string>)
    ensures Indices([line] + later) == [IndexOn(line)] + Indices(later)
  {
  }

  /** The announced words come in ascending order. */
  lemma {:induction false} WordLinesAscend(bitmap: seq<Word>, from: nat)
    requires from <= |bitmap| < U64_LIMIT
    ensures AscendingFrom(Indices(WordLines(bitmap, from)), from)
    decreases |bitmap| - from
  {
    if from < |bitmap| {
      var later := WordLines(bitmap, from + 1);
      WordLinesAscend(bitmap, from + 1);
      if bitmap[from] != 0 {
        ParseOwnWordLine(from, bitmap[from]);
        AscendingCons(Indices(later), from);
        IndicesCons(WordLine(from, bitmap[from]), later);
      }
    }
  }

  lemma {:induction false} WordLinesAreNotGo(bitmap: seq<Word>, from: nat)
    requires from <= |bitmap| < U64_LIMIT
    ensures "GO" !in WordLines(bitmap, from)
    decreases |bitmap| - from
  {
    if from < |bitmap| {
      WordLinesAreNotGo(bitmap, from + 1);
      if bitmap[from] != 0 { ParseOwnWordLine(from, bitmap[from]); }
    }
  }

  /**
    The dialogue line by line: READY with payload and interval, REUSED with the two counters, lines that spell the
    bitmap with their indices ascending, and GO.
  */
  lemma DialogueIs(l: Layout, interval: nat, bitmap: seq<Word>, reusedBytes: nat, reusedChunks: nat)
    requires |bitmap| < U64_LIMIT
    ensures var lines := WordLines(bitmap, 0);
            && Dialogue(l, interval, bitmap, reusedBytes, reusedChunks)
               == ["READY" + [' '] + (Decimal(l.payload) + [' '] + Decimal(interval)),
                   "REUSED" + [' '] + (Decimal(reusedBytes) + [' '] + Decimal(reusedChunks))] + lines + ["GO"]
            && Spells(lines, Zeros(|bitmap|), bitmap) && AscendingFrom(Indices(lines), 0)
  {
    JoinOfThree("READY", Decimal(l.payload), Decimal(interval), ' ');
    JoinOfThree("REUSED", Decimal(reusedBytes), Decimal(reusedChunks), ' ');
    WordLinesAscend(bitmap, 0);
    WordLinesAreNotGo(bitmap, 0);
    RebuildAnnounced(bitmap, 0, Zeros(|bitmap|), []);
    RebuildExact(WordLines(bitmap, 0), [], Zeros(|bitmap|), bitmap);
    assert WordLines(bitmap, 0) + (["GO"] + []) == WordLines(bitmap, 0) + ["GO"] + [];
  }

  lemma ParseOwnReused(bytes: nat, chunks: nat)
    requires bytes < U64_LIMIT && chunks < U64_LIMIT
    ensures ParseReused(ReusedLine(bytes, chunks)) == Some((bytes, chunks))
  {
    var fields := ["REUSED", Decimal(bytes), Decimal(chunks)];
    DigitsAreSolid(Decimal(bytes));
    DigitsAreSolid(Decimal(chunks));
    SplitOfJoin(fields, ' ');
    ParseDecimal(bytes);
    ParseDecimal(chunks);
  }

  lemma ReadyIsNoReport(l: Layout, interval: nat)
    ensures !("M " <= ReadyLine(l, interval)) && ReadyLine(l, interval) != "COMPLETE"
  {
    assert ReadyLine(l, interval)[0] == 'R';
    assert "M "[0] == 'M' && "COMPLETE"[0] == 'C';
  }

  lemma SizeWithinChunks(l: Layout)
    requires ValidLayout(l)
    ensures l.size <= l.chunks * l.payload < U64_LIMIT - 1
  {
    var n := l.size + l.payload - 1;
    assert n / l.payload * l.payload + n % l.payload == n;
    Product(l.chunks, l.payload, MAX_CHUNKS, 1424);
  }

  lemma Regroup(ready: string, reused: string, words: seq<string>, rest: seq<string>)
    ensures [ready, reused] + words + ["GO"] + rest == [ready] + ([reused] + (words + (["GO"] + rest)))
  {
  }

  /** The inventory, the words and GO. */
  lemma InventoryAgreement(l: Layout, bitmap: seq<Word>, reusedBytes: nat, reusedChunks: nat, rest: seq<string>)
    requires ValidLayout(l) && Fits(bitmap, l.chunks)
    requires reusedBytes <= l.size && reusedChunks <= |Members(bitmap)|
    ensures ReadInventory([ReusedLine(reusedBytes, reusedChunks)] + (WordLines(bitmap, 0) + (["GO"] + rest)), l, None)
         == Ok((Acceptance(bitmap, false, None, reusedBytes, reusedChunks), rest))
  {
    FullIffAllReceived(bitmap, l.chunks);
    SizeWithinChunks(l);
    ParseOwnReused(reusedBytes, reusedChunks);
    RebuildAnnounced(bitmap, 0, Zeros(WordsFor(l.chunks)), rest);
    TailClearIffFits(bitmap, l.chunks);
    PopulationIsCardinality(bitmap);
    var words := WordLines(bitmap, 0) + (["GO"] + rest);
    assert ([ReusedLine(reusedBytes, reusedChunks)] + words)[1..] == words;
  }

  /**
    The sender rebuilds exactly the receiver's bitmap and never rejects an honest announcement. What
    follows GO stays in the channel.
  */
  lemma HandshakeAgreement(l: Layout, interval: nat, bitmap: seq<Word>, reusedBytes: nat, reusedChunks: nat,
                           rest: seq<string>)
    requires ValidLayout(l) && Fits(bitmap, l.chunks)
    requires reusedBytes <= l.size && reusedChunks <= |Members(bitmap)|
    ensures Accepted(Dialogue(l, interval, bitmap, reusedBytes, reusedChunks) + rest, l, interval)
         == Ok((Acceptance(bitmap, false, None, reusedBytes, reusedChunks), rest))
  {
    var messages := Dialogue(l, interval, bitmap, reusedBytes, reusedChunks) + rest;
    var inventory := [ReusedLine(reusedBytes, reusedChunks)] + (WordLines(bitmap, 0) + (["GO"] + rest));
    InventoryAgreement(l, bitmap, reusedBytes, reusedChunks, rest);
    ReadyIsNoReport(l, interval);
    Regroup(ReadyLine(l, interval), ReusedLine(reusedBytes, reusedChunks), WordLines(bitmap, 0), rest);
    assert messages[0] == ReadyLine(l, interval) && messages[1..] == inventory;
  }

  /** What the receiver reports when the destination is already there. */
  function AlreadyThere(l: Layout, drops: Option<nat>): Telemetry {
    Telemetry(l.chunks, l.chunks, 0, 0, 0, 0, 0, drops, 1)
  }

  lemma CompletedReportReadsBack(l: Layout, drops: Option<nat>)
    requires ValidLayout(l) && (drops.Some? ==> drops.value < U64_LIMIT)
    ensures ParseFeedbackReport(ReportText(AlreadyThere(l, drops), []), l.chunks)
         == Ok((AlreadyThere(l, drops).(reports := 0), ""))
  {
    var t := AlreadyThere(l, drops);
    FieldsAreSolid(t, []);
    TokensOfJoin(ReportFields(t, []));
    FieldsReadBack(t, [], l.chunks);
  }

  /** A receiver that already holds the object is understood: no datagram is sent at all. */
  lemma CompletedReceiverIsUnderstood(l: Layout, interval: nat, drops: Option<nat>, rest: seq<string>)
    requires ValidLayout(l) && (drops.Some? ==> drops.value < U64_LIMIT)
    ensures Accepted([ReportText(AlreadyThere(l, drops), [])] + (["COMPLETE"] + rest), l, interval)
         == Ok((Acceptance([], true, Some(AlreadyThere(l, drops)), 0, 0), rest))
  {
    var report := ReportText(AlreadyThere(l, drops), []);
    var messages := [report] + (["COMPLETE"] + rest);
    CompletedReportReadsBack(l, drops);
    ReportBegins(AlreadyThere(l, drops), []);
    assert messages[0] == report && messages[1..] == ["COMPLETE"] + rest && messages[1..][1..] == rest;
  }
}
