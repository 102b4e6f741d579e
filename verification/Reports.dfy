/** The receiver's missing-range reports: which ranges they name, how they are printed and read. */
module Reports {
  import opened Outcomes
  import opened Text
  import opened Bitmaps
  import opened Layouts
  import opened Receivers

  const MAX_RANGES_PER_REPORT: nat := 512
  const MAX_FEEDBACK_REPORT_SIZE: nat := 24 * 1024
  const MAX_CONTROL_PAYLOAD: nat := 32 * 1024

  type Range = (nat, nat)

  // ----- missing ranges -----

  /** The last chunk of the run of clear bits that starts at `from`. */
  function RunEnd(bitmap: seq<Word>, from: nat, end: nat): (last: nat)
    requires from < end && !Contains(bitmap, from)
    ensures from <= last < end
    ensures forall k: nat :: from <= k <= last ==> !Contains(bitmap, k)
    ensures last + 1 < end ==> Contains(bitmap, last + 1)
    decreases end - from
  {
    if from + 1 < end && !Contains(bitmap, from + 1) then RunEnd(bitmap, from + 1, end) else from
  }

  /** The first `max` runs of clear bits in [from, end). */
  function Runs(bitmap: seq<Word>, from: nat, end: nat, max: nat): seq<Range>
    decreases end - from, max
  {
    if from >= end || max == 0 then []
    else if Contains(bitmap, from) then Runs(bitmap, from + 1, end, max)
    else
      var last := RunEnd(bitmap, from, end);
      [(from, last)] + Runs(bitmap, last + 1, end, max - 1)
  }

  ghost predicate InRanges(ranges: seq<Range>, k: nat) {
    exists i :: 0 <= i < |ranges| && ranges[i].0 <= k <= ranges[i].1
  }

  /** A maximal run of missing chunks below `end`. */
  ghost predicate MaximalRun(bitmap: seq<Word>, end: nat, r: Range) {
    && r.0 <= r.1 < end
    && (forall k: nat :: r.0 <= k <= r.1 ==> !Contains(bitmap, k))
    && (r.0 > 0 ==> Contains(bitmap, r.0 - 1))
    && (r.1 + 1 < end ==> Contains(bitmap, r.1 + 1))
  }

  /** Ascending with at least one received chunk between neighbours. */
  ghost predicate Apart(ranges: seq<Range>) {
    forall i, j :: 0 <= i < j < |ranges| ==> ranges[i].1 + 1 < ranges[j].0
  }

  ghost predicate AllBelow(ranges: seq<Range>, k: nat) {
    forall i :: 0 <= i < |ranges| ==> ranges[i].1 < k
  }

  /** The chunk is in a range, or `max` ranges had been found before it. */
  ghost predicate Named(ranges: seq<Range>, max: nat, k: nat) {
    InRanges(ranges, k) || (|ranges| == max && AllBelow(ranges, k))
  }

  /** What a list of ranges says about the missing chunks: exactly the first `max` maximal runs. */
  ghost predicate ExactRuns(bitmap: seq<Word>, end: nat, max: nat, ranges: seq<Range>) {
    && |ranges| <= max
    && (forall i :: 0 <= i < |ranges| ==> MaximalRun(bitmap, end, ranges[i]))
    && Apart(ranges)
    && (forall k: nat :: k < end && !Contains(bitmap, k) ==> Named(ranges, max, k))
  }

  /** The same, seen from a chunk that starts a search: `from` is 0 or follows a received chunk. */
  ghost predicate RunsFrom(bitmap: seq<Word>, from: nat, end: nat, max: nat, ranges: seq<Range>) {
    && |ranges| <= max
    && (forall i :: 0 <= i < |ranges| ==> from <= ranges[i].0 && MaximalRun(bitmap, end, ranges[i]))
    && Apart(ranges)
    && (forall k: nat :: from <= k < end && !Contains(bitmap, k) ==> Named(ranges, max, k))
  }

  lemma {:induction false} RunsAreExact(bitmap: seq<Word>, from: nat, end: nat, max: nat)
    requires from > 0 && from < end ==> Contains(bitmap, from - 1) || Contains(bitmap, from)
    ensures RunsFrom(bitmap, from, end, max, Runs(bitmap, from, end, max))
    decreases end - from, max
  {
    if from >= end || max == 0 {
      NoRuns(bitmap, from, end, max);
    } else if Contains(bitmap, from) {
      RunsAreExact(bitmap, from + 1, end, max);
      RunsPastReceived(bitmap, from, end, max);
    } else {
      RunsAreExact(bitmap, RunEnd(bitmap, from, end) + 1, end, max - 1);
      RunsPastGap(bitmap, from, end, max);
    }
  }

  lemma RunsPastReceived(bitmap: seq<Word>, from: nat, end: nat, max: nat)
    requires from < end && max > 0 && Contains(bitmap, from)
    requires RunsFrom(bitmap, from + 1, end, max, Runs(bitmap, from + 1, end, max))
    ensures RunsFrom(bitmap, from, end, max, Runs(bitmap, from, end, max))
  {
    RunsUnfold(bitmap, from, end, max);
    SkipReceived(bitmap, from, end, max, Runs(bitmap, from + 1, end, max));
  }

  lemma RunsPastGap(bitmap: seq<Word>, from: nat, end: nat, max: nat)
    requires from < end && max > 0 && !Contains(bitmap, from) && (from > 0 ==> Contains(bitmap, from - 1))
    requires var next := RunEnd(bitmap, from, end) + 1;
             RunsFrom(bitmap, next, end, max - 1, Runs(bitmap, next, end, max - 1))
    ensures RunsFrom(bitmap, from, end, max, Runs(bitmap, from, end, max))
  {
    var last := RunEnd(bitmap, from, end);
    RunsUnfold(bitmap, from, end, max);
    RunsAtGap(bitmap, from, end, max, last, Runs(bitmap, last + 1, end, max - 1));
  }

  lemma RunsUnfold(bitmap: seq<Word>, from: nat, end: nat, max: nat)
    requires from < end && max > 0
    ensures Contains(bitmap, from) ==> Runs(bitmap, from, end, max) == Runs(bitmap, from + 1, end, max)
    ensures !Contains(bitmap, from) ==>
              var last := RunEnd(bitmap, from, end);
              Runs(bitmap, from, end, max) == [(from, last)] + Runs(bitmap, last + 1, end, max - 1)
  {
  }

  lemma RunsAtGap(bitmap: seq<Word>, from: nat, end: nat, max: nat, last: nat, rest: seq<Range>)
    requires max > 0 && from < end && !Contains(bitmap, from) && (from > 0 ==> Contains(bitmap, from - 1))
    requires last == RunEnd(bitmap, from, end) && RunsFrom(bitmap, last + 1, end, max - 1, rest)
    ensures RunsFrom(bitmap, from, end, max, [(from, last)] + rest)
  {
    FirstRunIsMaximal(bitmap, from, end);
    PrependRun(bitmap, from, end, max, (from, last), rest);
  }

  lemma FirstRunIsMaximal(bitmap: seq<Word>, from: nat, end: nat)
    requires from < end && !Contains(bitmap, from) && (from > 0 ==> Contains(bitmap, from - 1))
    ensures MaximalRun(bitmap, end, (from, RunEnd(bitmap, from, end)))
  {
  }

  lemma NoRuns(bitmap: seq<Word>, from: nat, end: nat, max: nat)
    requires from >= end || max == 0
    ensures RunsFrom(bitmap, from, end, max, [])
  {
  }

  lemma SkipReceived(bitmap: seq<Word>, from: nat, end: nat, max: nat, ranges: seq<Range>)
    requires Contains(bitmap, from) && RunsFrom(bitmap, from + 1, end, max, ranges)
    ensures RunsFrom(bitmap, from, end, max, ranges)
  {
  }

  lemma PrependRun(bitmap: seq<Word>, from: nat, end: nat, max: nat, run: Range, rest: seq<Range>)
    requires max > 0 && run.0 == from && MaximalRun(bitmap, end, run)
    requires RunsFrom(bitmap, run.1 + 1, end, max - 1, rest)
    ensures RunsFrom(bitmap, from, end, max, [run] + rest)
  {
    PrependApart(bitmap, end, run, rest);
    forall k: nat | from <= k < end && !Contains(bitmap, k)
      ensures Named([run] + rest, max, k)
    {
      PrependNamed(run, rest, max, k);
    }
  }

  lemma PrependNamed(run: Range, rest: seq<Range>, max: nat, k: nat)
    requires max > 0 && run.0 <= k && (run.1 < k ==> Named(rest, max - 1, k))
    ensures Named([run] + rest, max, k)
  {
    PrependCovers(run, rest, k);
    if run.1 < k && AllBelow(rest, k) {
      assert AllBelow([run] + rest, k);
    }
  }

  lemma PrependApart(bitmap: seq<Word>, end: nat, run: Range, rest: seq<Range>)
    requires MaximalRun(bitmap, end, run) && Apart(rest)
    requires forall i :: 0 <= i < |rest| ==> run.1 + 1 <= rest[i].0 && MaximalRun(bitmap, end, rest[i])
    ensures Apart([run] + rest)
  {
    forall j | 0 <= j < |rest| ensures run.1 + 1 < rest[j].0 {
      assert !Contains(bitmap, rest[j].0);
    }
  }

  lemma PrependCovers(run: Range, rest: seq<Range>, k: nat)
    requires run.0 <= k
    ensures InRanges([run] + rest, k) <==> k <= run.1 || InRanges(rest, k)
  {
    var all := [run] + rest;
    if k <= run.1 {
      assert all[0].0 <= k <= all[0].1;
    }
    if InRanges(rest, k) {
      var i :| 0 <= i < |rest| && rest[i].0 <= k <= rest[i].1;
      assert all[i + 1] == rest[i];
    }
    if InRanges(all, k) && k > run.1 {
      var i :| 0 <= i < |all| && all[i].0 <= k <= all[i].1;
      assert rest[i - 1] == all[i];
    }
  }

  /** What has been found and what is still to be found are all there is. */
  ghost predicate Ahead(bitmap: seq<Word>, all: seq<Range>, ranges: seq<Range>, sequence: nat, end: nat, max: nat) {
    |ranges| <= max && all == ranges + Runs(bitmap, sequence, end, max - |ranges|)
  }

  lemma AheadSkip(bitmap: seq<Word>, all: seq<Range>, ranges: seq<Range>, sequence: nat, end: nat, max: nat)
    requires Ahead(bitmap, all, ranges, sequence, end, max) && sequence < end && Contains(bitmap, sequence)
    ensures Ahead(bitmap, all, ranges, sequence + 1, end, max)
  {
  }

  lemma AheadTake(bitmap: seq<Word>, all: seq<Range>, ranges: seq<Range>, sequence: nat, end: nat, max: nat)
    requires Ahead(bitmap, all, ranges, sequence, end, max) && |ranges| < max
    requires sequence < end && !Contains(bitmap, sequence)
    ensures var last := RunEnd(bitmap, sequence, end);
            Ahead(bitmap, all, ranges + [(sequence, last)], last + 1, end, max)
  {
    RunRegroups(ranges, (sequence, RunEnd(bitmap, sequence, end)),
                Runs(bitmap, RunEnd(bitmap, sequence, end) + 1, end, max - |ranges| - 1));
  }

  lemma RunRegroups(ranges: seq<Range>, run: Range, rest: seq<Range>)
    ensures ranges + ([run] + rest) == ranges + [run] + rest
  {
  }

  lemma NothingAhead(bitmap: seq<Word>, all: seq<Range>, ranges: seq<Range>, sequence: nat, end: nat, max: nat)
    requires Ahead(bitmap, all, ranges, sequence, end, max) && (sequence >= end || |ranges| == max)
    ensures ranges == all
  {
  }

  method FindRunEnd(bitmap: seq<Word>, start: nat, end: nat) returns (sequence: nat)
    requires start < end && !Contains(bitmap, start)
    ensures sequence == RunEnd(bitmap, start, end)
  {
    sequence := start;
    while sequence + 1 < end && !Contains(bitmap, sequence + 1)
      invariant start <= sequence < end && !Contains(bitmap, sequence)
      invariant RunEnd(bitmap, start, end) == RunEnd(bitmap, sequence, end)
      decreases end - sequence
    {
      sequence := sequence + 1;
    }
  }

  /** `missing_ranges` */
  method MissingRanges(bitmap: seq<Word>, end: nat, max: nat) returns (ranges: seq<Range>)
    ensures ExactRuns(bitmap, end, max, ranges)
    ensures ranges == Runs(bitmap, 0, end, max)
  {
    ranges := [];
    var sequence := 0;
    ghost var all := Runs(bitmap, 0, end, max);
    while sequence < end && |ranges| < max
      invariant Ahead(bitmap, all, ranges, sequence, end, max)
      decreases end - sequence
    {
      if Contains(bitmap, sequence) {
        AheadSkip(bitmap, all, ranges, sequence, end, max);
        sequence := sequence + 1;
        continue;
      }
      var last := FindRunEnd(bitmap, sequence, end);
      AheadTake(bitmap, all, ranges, sequence, end, max);
      ranges := ranges + [(sequence, last)];
      sequence := last + 1;
    }
    NothingAhead(bitmap, all, ranges, sequence, end, max);
    FirstRunsAreExact(bitmap, end, max);
  }

  lemma FirstRunsAreExact(bitmap: seq<Word>, end: nat, max: nat)
    ensures ExactRuns(bitmap, end, max, Runs(bitmap, 0, end, max))
  {
    RunsAreExact(bitmap, 0, end, max);
  }

  // ----- the report line -----

  function RangeText(r: Range): string {
    if r.0 == r.1 then Decimal(r.0) else Decimal(r.0) + "-" + Decimal(r.1)
  }

  function RangeTexts(ranges: seq<Range>): (texts: seq<string>)
    ensures |texts| == |ranges| && forall i :: 0 <= i < |texts| ==> texts[i] == RangeText(ranges[i])
  {
    seq(|ranges|, i requires 0 <= i < |ranges| => RangeText(ranges[i]))
  }

  function RangesText(ranges: seq<Range>): string {
    if ranges == [] then "-" else Join(RangeTexts(ranges), ',')
  }

  function DropsText(drops: Option<nat>): string {
    match drops case None => "-" case Some(n) => Decimal(n)
  }

  function ReportFields(t: Telemetry, ranges: seq<Range>): seq<string> {
    ["M", Decimal(t.received), Decimal(t.frontier), Decimal(t.accepted), Decimal(t.valid), Decimal(t.duplicate),
     Decimal(t.invalid), Decimal(t.repair), DropsText(t.drops), RangesText(ranges)]
  }

  function ReportText(t: Telemetry, ranges: seq<Range>): string {
    Join(ReportFields(t, ranges), ' ')
  }

  lemma ReportBegins(t: Telemetry, ranges: seq<Range>)
    ensures "M " <= ReportText(t, ranges)
  {
    var fields := ReportFields(t, ranges);
    assert Join(fields, ' ') == "M" + [' '] + Join(fields[1..], ' ');
  }

  method EncodeRanges(ranges: seq<Range>) returns (encoded: string)
    ensures encoded == RangesText(ranges)
  {
    encoded := "";
    ghost var texts := RangeTexts(ranges);
    for index := 0 to |ranges|
      invariant encoded == Join(texts[..index], ',')
    {
      NextJoin(texts, index, ',');
      if index > 0 {
        encoded := encoded + [','];
      }
      encoded := encoded + RangeText(ranges[index]);
    }
    assert texts[..|ranges|] == texts;
    EmptyJoin(ranges);
    if encoded == [] {
      encoded := "-";
    }
  }

  /** `format_feedback_report` */
  method FormatFeedbackReport(t: Telemetry, ranges: seq<Range>) returns (report: string)
    ensures report == ReportText(t, ranges)
  {
    var encoded := EncodeRanges(ranges);
    report := Join(["M", Decimal(t.received), Decimal(t.frontier), Decimal(t.accepted), Decimal(t.valid),
                    Decimal(t.duplicate), Decimal(t.invalid), Decimal(t.repair), DropsText(t.drops), encoded], ' ');
  }

  lemma {:induction false} JoinSnoc(parts: seq<string>, last: string, c: char)
    ensures Join(parts + [last], c) == if parts == [] then last else Join(parts, c) + [c] + last
  {
    if |parts| == 1 {
      assert (parts + [last])[1..] == [last];
    } else if |parts| > 1 {
      JoinSnoc(parts[1..], last, c);
      assert (parts + [last])[1..] == parts[1..] + [last];
    }
  }

  lemma NextJoin(parts: seq<string>, i: nat, c: char)
    requires i < |parts|
    ensures Join(parts[..i + 1], c) == if i == 0 then parts[i] else Join(parts[..i], c) + [c] + parts[i]
    ensures i == 0 ==> Join(parts[..i], c) == []
  {
    assert parts[..i + 1] == parts[..i] + [parts[i]];
    JoinSnoc(parts[..i], parts[i], c);
  }

  lemma EmptyJoin(ranges: seq<Range>)
    ensures Join(RangeTexts(ranges), ',') == [] <==> ranges == []
  {
    if ranges != [] {
      assert RangeTexts(ranges)[0] == RangeText(ranges[0]) && |RangeText(ranges[0])| > 0;
    }
  }

  // ----- reading it back -----

  ghost predicate Small(t: Telemetry) {
    t.received < U64_LIMIT && t.frontier < U64_LIMIT && t.accepted < U64_LIMIT && t.valid < U64_LIMIT
    && t.duplicate < U64_LIMIT && t.invalid < U64_LIMIT && t.repair < U64_LIMIT
    && (t.drops.Some? ==> t.drops.value < U64_LIMIT)
  }

  /** The sender's plausibility test on a report's counters. */
  predicate Plausible(t: Telemetry, chunks: nat) {
    t.received <= chunks && t.frontier <= chunks && t.accepted <= t.received && t.accepted <= t.valid
    && t.duplicate <= t.valid && t.repair <= t.valid
    && t.accepted + t.duplicate == t.valid
  }

  function ParseDrops(s: string): Result<Option<nat>> {
    if s == "-" then Ok(None) else
      match ParseCanonical(s)
      case Some(n) => Ok(Some(n))
      case None => Err
  }

  /** The nine counters and the ranges field of a report line. */
  function ParseFields(f: seq<string>, chunks: nat): Result<(Telemetry, string)>
    requires |f| == 10
  {
    match (ParseDrops(f[8]), ParseCanonical(f[1]), ParseCanonical(f[2]), ParseCanonical(f[3]), ParseCanonical(f[4]),
           ParseCanonical(f[5]), ParseCanonical(f[6]), ParseCanonical(f[7]))
    case (Ok(drops), Some(received), Some(frontier), Some(accepted), Some(valid), Some(duplicate), Some(invalid),
      Some(repair)) =>
      var t := Telemetry(received, frontier, accepted, valid, duplicate, invalid, repair, drops, 0);
      if Plausible(t, chunks) then Ok((t, if f[9] == "-" then "" else f[9])) else Err
    case _ => Err
  }

  /** `parse_feedback_report`: the telemetry and the text of the ranges */
  function ParseFeedbackReport(line: string, chunks: nat): Result<(Telemetry, string)> {
    var f := Tokens(line);
    if |f| != 10 || f[0] != "M" then Err else ParseFields(f, chunks)
  }

  /** `parse_range` */
  function ParseRange(s: string): Result<Range> {
    match SplitOnce(s, '-')
    case Some((a, b)) =>
      (match (ParseUnsigned(a), ParseUnsigned(b))
       case (Some(start), Some(end)) => if end < start then Err else Ok((start, end))
       case _ => Err)
    case None =>
      match ParseUnsigned(s)
      case Some(k) => Ok((k, k))
      case None => Err
  }

  /** The ranges `enqueue_repairs` reads: empty parts are skipped, the first bad one is an error. */
  function ParseRanges(parts: seq<string>): Result<seq<Range>> {
    if parts == [] then Ok([])
    else if parts[0] == "" then ParseRanges(parts[1..])
    else
      match (ParseRange(parts[0]), ParseRanges(parts[1..]))
      case (Ok(r), Ok(rest)) => Ok([r] + rest)
      case _ => Err
  }

  lemma RangeTextIsSolid(r: Range)
    ensures Solid(RangeText(r)) && Without(RangeText(r), ',') && IsDigit(RangeText(r)[0])
  {
    DigitsAreSolid(Decimal(r.0));
    DigitsAreSolid(Decimal(r.1));
  }

  lemma ParseRangeOfText(r: Range)
    requires r.0 <= r.1 < U64_LIMIT
    ensures ParseRange(RangeText(r)) == Ok(r)
  {
    DigitsAreSolid(Decimal(r.0));
    ParseUnsignedOfDecimal(r.0);
    ParseUnsignedOfDecimal(r.1);
    if r.0 < r.1 {
      SplitOnceExact(Decimal(r.0), '-', Decimal(r.1));
      assert RangeText(r) == Decimal(r.0) + ['-'] + Decimal(r.1);
    } else {
      assert '-' !in Decimal(r.0);
    }
  }

  lemma {:induction false} ParseRangesOfTexts(ranges: seq<Range>)
    requires forall i :: 0 <= i < |ranges| ==> ranges[i].0 <= ranges[i].1 < U64_LIMIT
    ensures ParseRanges(RangeTexts(ranges)) == Ok(ranges)
  {
    if ranges != [] {
      ParseRangeOfText(ranges[0]);
      RangeTextIsSolid(ranges[0]);
      ParseRangesOfTexts(ranges[1..]);
      assert RangeTexts(ranges)[1..] == RangeTexts(ranges[1..]);
      assert ranges == [ranges[0]] + ranges[1..];
    }
  }

  lemma RangeTextsAreSolid(ranges: seq<Range>)
    ensures AllSolid(RangeTexts(ranges)) && AllWithout(RangeTexts(ranges), ',')
  {
    forall i | 0 <= i < |ranges| ensures Solid(RangeTexts(ranges)[i]) && Without(RangeTexts(ranges)[i], ',') {
      RangeTextIsSolid(ranges[i]);
    }
  }

  lemma {:induction false} SolidJoin(parts: seq<string>)
    requires parts != [] && AllSolid(parts)
    ensures Solid(parts[0]) && Solid(Join(parts, ',')) && Join(parts, ',')[0] == parts[0][0]
  {
    if |parts| > 1 {
      SolidJoin(parts[1..]);
    }
  }

  lemma RangesTextIsSolid(ranges: seq<Range>)
    ensures Solid(RangesText(ranges)) && (RangesText(ranges) == "-" <==> ranges == [])
  {
    if ranges != [] {
      RangeTextsAreSolid(ranges);
      SolidJoin(RangeTexts(ranges));
      RangeTextIsSolid(ranges[0]);
    }
  }

  /** The ranges text reads back as the ranges. */
  lemma RangesTextReadsBack(ranges: seq<Range>)
    requires forall i :: 0 <= i < |ranges| ==> ranges[i].0 <= ranges[i].1 < U64_LIMIT
    ensures ParseRanges(Split(if RangesText(ranges) == "-" then "" else RangesText(ranges), ',')) == Ok(ranges)
  {
    RangesTextIsSolid(ranges);
    if ranges == [] {
      assert Split("", ',') == [""];
      assert ParseRanges([""]) == ParseRanges([""][1..]);
    } else {
      ParseRangesOfTexts(ranges);
      RangeTextsAreSolid(ranges);
      SplitOfJoin(RangeTexts(ranges), ',');
    }
  }

  lemma FieldsAreSolid(t: Telemetry, ranges: seq<Range>)
    ensures AllSolid(ReportFields(t, ranges))
  {
    var f := ReportFields(t, ranges);
    forall i | 0 <= i < 10 ensures Solid(f[i]) {
      RangesTextIsSolid(ranges);
      if 1 <= i < 8 || (i == 8 && t.drops.Some?) {
        DigitsAreSolid(f[i]);
      }
    }
  }

  lemma ParseDropsOfText(drops: Option<nat>)
    requires drops.Some? ==> drops.value < U64_LIMIT
    ensures ParseDrops(DropsText(drops)) == Ok(drops)
  {
    if drops.Some? {
      ParseCanonicalExact(Decimal(drops.value), drops.value);
      assert IsDigit(Decimal(drops.value)[0]);
    }
  }

  /** Ten fields that hold the numbers of `t`. */
  predicate FieldsHold(f: seq<string>, t: Telemetry) {
    && |f| == 10 && ParseDrops(f[8]) == Ok(t.drops)
    && ParseCanonical(f[1]) == Some(t.received) && ParseCanonical(f[2]) == Some(t.frontier)
    && ParseCanonical(f[3]) == Some(t.accepted) && ParseCanonical(f[4]) == Some(t.valid)
    && ParseCanonical(f[5]) == Some(t.duplicate) && ParseCanonical(f[6]) == Some(t.invalid)
    && ParseCanonical(f[7]) == Some(t.repair)
  }

  lemma FieldsHeldAreRead(f: seq<string>, t: Telemetry, chunks: nat)
    requires FieldsHold(f, t) && Plausible(t, chunks)
    ensures ParseFields(f, chunks) == Ok((t.(reports := 0), if f[9] == "-" then "" else f[9]))
  {
  }

  lemma FieldsReadBack(t: Telemetry, ranges: seq<Range>, chunks: nat)
    requires Small(t) && Plausible(t, chunks)
    ensures ParseFields(ReportFields(t, ranges), chunks)
         == Ok((t.(reports := 0), if RangesText(ranges) == "-" then "" else RangesText(ranges)))
  {
    ParseDecimal(t.received);
    ParseDecimal(t.frontier);
    ParseDecimal(t.accepted);
    ParseDecimal(t.valid);
    ParseDecimal(t.duplicate);
    ParseDecimal(t.invalid);
    ParseDecimal(t.repair);
    ParseDropsOfText(t.drops);
    FieldsHeldAreRead(ReportFields(t, ranges), t, chunks);
  }

  /** A report reads back as what was reported, except the report counter, which travels as zero. */
  lemma ReportRoundTrip(t: Telemetry, ranges: seq<Range>, chunks: nat)
    requires Small(t) && Plausible(t, chunks)
    requires forall i :: 0 <= i < |ranges| ==> ranges[i].0 <= ranges[i].1 < U64_LIMIT
    ensures ParseFeedbackReport(ReportText(t, ranges), chunks).Ok?
    ensures var (u, text) := ParseFeedbackReport(ReportText(t, ranges), chunks).value;
            u == t.(reports := 0) && ParseRanges(Split(text, ',')) == Ok(ranges)
  {
    FieldsAreSolid(t, ranges);
    TokensOfJoin(ReportFields(t, ranges));
    FieldsReadBack(t, ranges, chunks);
    RangesTextReadsBack(ranges);
  }

  // ----- sizes -----

  lemma {:induction false} JoinLength(parts: seq<string>, c: char, limit: nat)
    requires parts != [] && forall i :: 0 <= i < |parts| ==> |parts[i]| <= limit
    ensures |Join(parts, c)| <= |parts| * (limit + 1) - 1
  {
    if |parts| > 1 {
      JoinLength(parts[1..], c, limit);
      assert |parts| * (limit + 1) == (|parts| - 1) * (limit + 1) + (limit + 1);
    }
  }

  lemma ChunkNumberLength(n: nat)
    requires n <= MAX_CHUNKS
    ensures |Decimal(n)| <= 9
  {
    Pow10Plus5(0);
    assert Pow10(9) == 10_000 * Pow10(5) by {
      assert Pow10(7) == 100 * Pow10(5);
      assert Pow10(9) == 100 * Pow10(7);
    }
    DecimalLength(n, MAX_CHUNKS + 1, 9);
  }

  lemma RangesLength(ranges: seq<Range>)
    requires |ranges| <= MAX_RANGES_PER_REPORT
    requires forall i :: 0 <= i < |ranges| ==> ranges[i].0 <= ranges[i].1 < MAX_CHUNKS
    ensures |RangesText(ranges)| <= 10_239
  {
    if ranges != [] {
      forall i | 0 <= i < |ranges| ensures |RangeTexts(ranges)[i]| <= 19 {
        ChunkNumberLength(ranges[i].0);
        ChunkNumberLength(ranges[i].1);
      }
      JoinLength(RangeTexts(ranges), ',', 19);
    }
  }

  lemma {:induction false} JoinTotal(parts: seq<string>, c: char)
    requires parts != []
    ensures |Join(parts, c)| == Total(parts) + |parts| - 1
  {
    if |parts| > 1 {
      JoinTotal(parts[1..], c);
    }
  }

  function Total(parts: seq<string>): nat {
    if parts == [] then 0 else |parts[0]| + Total(parts[1..])
  }

  /** Every report fits the report limit and one control payload. */
  lemma ReportsFit(t: Telemetry, ranges: seq<Range>, chunks: nat)
    requires Small(t) && Plausible(t, chunks) && chunks <= MAX_CHUNKS
    requires |ranges| <= MAX_RANGES_PER_REPORT
    requires forall i :: 0 <= i < |ranges| ==> ranges[i].0 <= ranges[i].1 < chunks
    ensures |ReportText(t, ranges)| <= 10_376 < MAX_FEEDBACK_REPORT_SIZE < MAX_CONTROL_PAYLOAD
  {
    var f := ReportFields(t, ranges);
    JoinTotal(f, ' ');
    ChunkNumberLength(t.received);
    ChunkNumberLength(t.frontier);
    ChunkNumberLength(t.accepted);
    DecimalLengthU64(t.valid);
    DecimalLengthU64(t.duplicate);
    DecimalLengthU64(t.invalid);
    DecimalLengthU64(t.repair);
    if t.drops.Some? { DecimalLengthU64(t.drops.value); }
    RangesLength(ranges);
    TotalOfTen(f);
  }

  lemma TotalOfTen(f: seq<string>)
    requires |f| == 10
    ensures Total(f) == |f[0]| + |f[1]| + |f[2]| + |f[3]| + |f[4]| + |f[5]| + |f[6]| + |f[7]| + |f[8]| + |f[9]|
  {
    assert Total(f[5..]) == |f[5]| + |f[6]| + |f[7]| + |f[8]| + |f[9]| by {
      assert f[5..][1..] == f[6..] && f[6..][1..] == f[7..] && f[7..][1..] == f[8..] && f[8..][1..] == f[9..];
      assert Total(f[9..]) == |f[9]|;
      assert Total(f[8..]) == |f[8]| + |f[9]|;
      assert Total(f[7..]) == |f[7]| + |f[8]| + |f[9]|;
    }
    assert f[1..][1..] == f[2..] && f[2..][1..] == f[3..] && f[3..][1..] == f[4..] && f[4..][1..] == f[5..];
    assert Total(f[4..]) == |f[4]| + Total(f[5..]);
    assert Total(f[3..]) == |f[3]| + Total(f[4..]);
    assert Total(f[2..]) == |f[2]| + Total(f[3..]);
    assert Total(f[1..]) == |f[1]| + Total(f[2..]);
  }

  // ----- what the receiver reports is always accepted -----

  /** `update_receiver_telemetry` and the report counter */
  function Snapshot(r: Receiver, drops: Option<nat>): Telemetry {
    r.telemetry.(received := r.received, frontier := match r.highest case None => 0 case Some(h) => h + 1,
                 drops := drops, reports := Bump(r.telemetry.reports))
  }

  /** In every consistent state the report passes the sender's test and its ranges name real, missing chunks. */
  lemma ReceiverReportsAreAccepted(l: Layout, r: Receiver, base: nat, datagrams: nat, drops: Option<nat>, end: nat)
    requires ValidLayout(l) && Consistent(l, r, base) && Counted(r.telemetry, datagrams)
    requires datagrams < U64_LIMIT && (drops.Some? ==> drops.value < U64_LIMIT) && end <= l.chunks
    ensures var t, ranges := Snapshot(r, drops), Runs(r.bitmap, 0, end, MAX_RANGES_PER_REPORT);
            && ParseFeedbackReport(ReportText(t, ranges), l.chunks).Ok?
            && ParseFeedbackReport(ReportText(t, ranges), l.chunks).value.0 == t.(reports := 0)
            && ParseRanges(Split(ParseFeedbackReport(ReportText(t, ranges), l.chunks).value.1, ',')) == Ok(ranges)
            && (forall i :: 0 <= i < |ranges| ==> ranges[i].1 < l.chunks)
            && |ReportText(t, ranges)| <= 10_376
  {
    var t, ranges := Snapshot(r, drops), Runs(r.bitmap, 0, end, MAX_RANGES_PER_REPORT);
    FullIffAllReceived(r.bitmap, l.chunks);
    FirstRunsAreExact(r.bitmap, end, MAX_RANGES_PER_REPORT);
    ReportRoundTrip(t, ranges, l.chunks);
    ReportsFit(t, ranges, l.chunks);
  }

  // ----- exactly what is read -----

  /** One number, or two with a hyphen between them, in order. */
  ghost predicate SaysRange(s: string, start: nat, end: nat) {
    || (start == end && Numeral(s, start) && start < U64_LIMIT)
    || exists first, last ::
         s == first + ['-'] + last && Numeral(first, start) && Numeral(last, end) && start <= end < U64_LIMIT
  }

  lemma NumeralHasNoHyphen(s: string, n: nat)
    requires Numeral(s, n)
    ensures Without(s, '-')
  {
    var zeros: nat :| s == ZeroDigits(zeros) + Decimal(n) || s == ['+'] + (ZeroDigits(zeros) + Decimal(n));
    assert AllDigits(ZeroDigits(zeros) + Decimal(n));
  }

  lemma ParsedRange(s: string, r: Range)
    requires ParseRange(s) == Ok(r)
    ensures SaysRange(s, r.0, r.1)
  {
    match SplitOnce(s, '-')
    case Some((first, last)) =>
      SplitOnceIff(s, '-', first, last);
      ParseUnsignedIff(first, r.0);
      ParseUnsignedIff(last, r.1);
    case None => ParseUnsignedIff(s, r.0);
  }

  lemma SingleIsParsed(s: string, k: nat)
    requires Numeral(s, k) && k < U64_LIMIT
    ensures ParseRange(s) == Ok((k, k))
  {
    NumeralHasNoHyphen(s, k);
    ParseUnsignedIff(s, k);
  }

  lemma PairIsParsed(first: string, last: string, r: Range)
    requires Numeral(first, r.0) && Numeral(last, r.1) && r.0 <= r.1 < U64_LIMIT
    ensures ParseRange(first + ['-'] + last) == Ok(r)
  {
    NumeralHasNoHyphen(first, r.0);
    SplitOnceIff(first + ['-'] + last, '-', first, last);
    ParseUnsignedIff(first, r.0);
    ParseUnsignedIff(last, r.1);
  }

  /**
    A range is read if and only if it is one number, or two with a hyphen between them of which the second is
    not less.
  */
  lemma ParseRangeIff(s: string, r: Range)
    ensures ParseRange(s) == Ok(r) <==> SaysRange(s, r.0, r.1)
  {
    if ParseRange(s) == Ok(r) { ParsedRange(s, r); }
    if r.0 == r.1 && Numeral(s, r.0) && r.0 < U64_LIMIT { SingleIsParsed(s, r.0); }
    forall first, last | s == first + ['-'] + last && Numeral(first, r.0) && Numeral(last, r.1)
                         && r.0 <= r.1 < U64_LIMIT
      ensures ParseRange(s) == Ok(r)
    {
      PairIsParsed(first, last, r);
    }
  }

  /** The ten fields of a report, in the order in which the receiver writes them. */
  function TenFields(t: Telemetry, ranges: string): (f: seq<string>)
    ensures |f| == 10
  {
    ["M", Decimal(t.received), Decimal(t.frontier), Decimal(t.accepted), Decimal(t.valid), Decimal(t.duplicate),
     Decimal(t.invalid), Decimal(t.repair), (match t.drops case None => "-" case Some(n) => Decimal(n)), ranges]
  }

  /** The counters are possible for an object of so many chunks. */
  ghost predicate Possible(t: Telemetry, chunks: nat) {
    && t.accepted <= t.received <= chunks && t.frontier <= chunks
    && t.accepted + t.duplicate == t.valid && t.repair <= t.valid && t.reports == 0
  }

  lemma ParseDropsIff(s: string, drops: Option<nat>)
    ensures ParseDrops(s) == Ok(drops) <==>
            match drops case None => s == "-" case Some(n) => n < U64_LIMIT && s == Decimal(n)
  {
    if drops.Some? {
      ParseCanonicalExact(s, drops.value);
      assert IsDigit(Decimal(drops.value)[0]);
    }
  }

  predicate FirstCountersAre(f: seq<string>, t: Telemetry)
    requires |f| == 10
  {
    && ParseCanonical(f[1]) == Some(t.received) && ParseCanonical(f[2]) == Some(t.frontier)
    && ParseCanonical(f[3]) == Some(t.accepted) && ParseCanonical(f[4]) == Some(t.valid)
  }

  predicate OtherCountersAre(f: seq<string>, t: Telemetry)
    requires |f| == 10
  {
    && ParseCanonical(f[5]) == Some(t.duplicate) && ParseCanonical(f[6]) == Some(t.invalid)
    && ParseCanonical(f[7]) == Some(t.repair) && ParseDrops(f[8]) == Ok(t.drops)
  }

  lemma ParseFieldsIs(f: seq<string>, chunks: nat, t: Telemetry, ranges: string)
    requires |f| == 10
    ensures ParseFields(f, chunks) == Ok((t, ranges)) <==>
            && FirstCountersAre(f, t) && OtherCountersAre(f, t) && Plausible(t, chunks) && t.reports == 0
            && ranges == (if f[9] == "-" then "" else f[9])
  {
  }

  lemma FirstCountersIff(f: seq<string>, t: Telemetry)
    requires |f| == 10
    ensures FirstCountersAre(f, t) <==>
            && t.received < U64_LIMIT && t.frontier < U64_LIMIT && t.accepted < U64_LIMIT && t.valid < U64_LIMIT
            && f[1] == Decimal(t.received) && f[2] == Decimal(t.frontier) && f[3] == Decimal(t.accepted)
            && f[4] == Decimal(t.valid)
  {
    ParseCanonicalExact(f[1], t.received);
    ParseCanonicalExact(f[2], t.frontier);
    ParseCanonicalExact(f[3], t.accepted);
    ParseCanonicalExact(f[4], t.valid);
  }

  lemma OtherCountersIff(f: seq<string>, t: Telemetry)
    requires |f| == 10
    ensures OtherCountersAre(f, t) <==>
            && t.duplicate < U64_LIMIT && t.invalid < U64_LIMIT && t.repair < U64_LIMIT
            && (t.drops.Some? ==> t.drops.value < U64_LIMIT)
            && f[5] == Decimal(t.duplicate) && f[6] == Decimal(t.invalid) && f[7] == Decimal(t.repair)
            && f[8] == (match t.drops case None => "-" case Some(n) => Decimal(n))
  {
    ParseCanonicalExact(f[5], t.duplicate);
    ParseCanonicalExact(f[6], t.invalid);
    ParseCanonicalExact(f[7], t.repair);
    ParseDropsIff(f[8], t.drops);
  }

  lemma CountersMakeFields(f: seq<string>, t: Telemetry)
    requires |f| == 10 && f[0] == "M" && FirstCountersAre(f, t) && OtherCountersAre(f, t)
    ensures Small(t) && f == TenFields(t, f[9])
  {
    FirstCountersIff(f, t);
    OtherCountersIff(f, t);
    TenEqual(f, TenFields(t, f[9]));
  }

  lemma FieldsMakeCounters(t: Telemetry, text: string)
    requires Small(t)
    ensures FirstCountersAre(TenFields(t, text), t) && OtherCountersAre(TenFields(t, text), t)
  {
    FirstCountersIff(TenFields(t, text), t);
    OtherCountersIff(TenFields(t, text), t);
  }

  lemma TenEqual(f: seq<string>, g: seq<string>)
    requires |f| == |g| == 10
    ensures f == g <==> f[0] == g[0] && f[1] == g[1] && f[2] == g[2] && f[3] == g[3] && f[4] == g[4] && f[5] == g[5]
                        && f[6] == g[6] && f[7] == g[7] && f[8] == g[8] && f[9] == g[9]
  {
  }

  /** The line has these fields between white space; a lone hyphen stands for no ranges. */
  ghost predicate SaysReport(line: string, t: Telemetry, ranges: string) {
    exists text :: Woven(line, TenFields(t, text)) && ranges == if text == "-" then "" else text
  }

  lemma ParsedReport(line: string, chunks: nat, t: Telemetry, ranges: string)
    requires ParseFeedbackReport(line, chunks) == Ok((t, ranges))
    ensures Small(t) && Possible(t, chunks) && SaysReport(line, t, ranges)
  {
    var f := Tokens(line);
    ParseFieldsIs(f, chunks, t, ranges);
    CountersMakeFields(f, t);
    TokensIff(line, f);
    assert Woven(line, TenFields(t, f[9]));
  }

  lemma ReportIsParsed(line: string, chunks: nat, t: Telemetry, text: string)
    requires Small(t) && Possible(t, chunks) && Woven(line, TenFields(t, text))
    ensures ParseFeedbackReport(line, chunks) == Ok((t, if text == "-" then "" else text))
  {
    var f := TenFields(t, text);
    TokensIff(line, f);
    FieldsMakeCounters(t, text);
    ParseFieldsIs(f, chunks, t, if text == "-" then "" else text);
  }

  /**
    A report is read if and only if it has the ten fields in this order between white space, with every number as it
    is printed, and the counters are possible; the text of the ranges is the last field, or empty for a hyphen.
  */
  lemma ParseFeedbackReportIff(line: string, chunks: nat, t: Telemetry, ranges: string)
    ensures ParseFeedbackReport(line, chunks) == Ok((t, ranges)) <==>
            Small(t) && Possible(t, chunks) && SaysReport(line, t, ranges)
  {
    if ParseFeedbackReport(line, chunks) == Ok((t, ranges)) { ParsedReport(line, chunks, t, ranges); }
    if Small(t) && Possible(t, chunks) && SaysReport(line, t, ranges) {
      var text :| Woven(line, TenFields(t, text)) && ranges == if text == "-" then "" else text;
      ReportIsParsed(line, chunks, t, text);
    }
  }

  /** The ranges between commas, each as its first and last chunk with a hyphen, or as one number. */
  ghost predicate SpellsRanges(text: string, ranges: seq<Range>) {
    var parts := Split(text, ',');
    && |parts| == |ranges|
    && forall i :: 0 <= i < |ranges| ==>
         parts[i] == if ranges[i].0 == ranges[i].1 then Decimal(ranges[i].0)
                     else Decimal(ranges[i].0) + ['-'] + Decimal(ranges[i].1)
  }

  lemma RangesTextSpells(ranges: seq<Range>)
    requires ranges != []
    ensures SpellsRanges(RangesText(ranges), ranges)
  {
    RangeTextsAreSolid(ranges);
    SplitOfJoin(RangeTexts(ranges), ',');
  }

  /** The report line the receiver writes: ten fields with one space between them, the last a hyphen or the ranges. */
  lemma ReportTextIs(t: Telemetry, ranges: seq<Range>)
    ensures exists text ::
      && ReportText(t, ranges) == Join(TenFields(t, text), ' ')
      && if ranges == [] then text == "-" else SpellsRanges(text, ranges)
  {
    var text := RangesText(ranges);
    if ranges != [] { RangesTextSpells(ranges); }
    assert ReportFields(t, ranges) == TenFields(t, text);
  }

  /** A snapshot says how many chunks are recorded and up to where any are. */
  lemma SnapshotSays(r: Receiver, drops: Option<nat>)
    requires IsHighest(r.bitmap, r.highest) && r.received == |Members(r.bitmap)|
    ensures var t := Snapshot(r, drops);
            && t.received == |Members(r.bitmap)| && t.drops == drops
            && (forall k: nat :: Contains(r.bitmap, k) ==> k < t.frontier)
            && (t.frontier > 0 ==> Contains(r.bitmap, t.frontier - 1))
  {
  }
}
