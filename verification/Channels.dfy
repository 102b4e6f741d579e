/**
  The authenticated control channel: numbered frames with a MAC over session, direction, number and
  payload. A text is a sequence of bytes written as characters below 256.
*/
module Channels {
  import opened Outcomes
  import opened Text
  import opened Disks

  const MAX_CONTROL_LINE: nat := 64 * 1024
  const LABEL: Bytes := [116, 115, 117, 52, 32, 99, 111, 110, 116, 114, 111, 108, 0]  // "tsu4 control\0"

  datatype Direction = ClientToServer | ServerToClient

  /** The MAC under one direction's control key. */
  type Mac = Bytes -> Bytes

  ghost predicate ValidMac(mac: Mac) {
    forall b :: |mac(b)| == 32
  }

  predicate Narrow(s: string) {
    forall i :: 0 <= i < |s| ==> s[i] < 256 as char
  }

  /** The bytes a text stands for. */
  function BytesOf(s: string): (b: Bytes)
    ensures |b| == |s|
    ensures Narrow(s) ==> forall i :: 0 <= i < |s| ==> b[i] == s[i] as int
  {
    seq(|s|, i requires 0 <= i < |s| => s[i] as int % 256)
  }

  // ----- what the MAC covers -----

  function DirectionByte(d: Direction): Byte {
    match d case ClientToServer => 99 case ServerToClient => 115
  }

  /** `control_mac_input` */
  function MacInput(session: Bytes, d: Direction, sequence: nat, payload: string): Bytes
  {
    LABEL + session + [DirectionByte(d)] + BigEndian(sequence, 8) + BytesOf(payload)
  }

  lemma MacInputParts(session: Bytes, d: Direction, sequence: nat, payload: string)
    requires |session| == 16
    ensures var input := MacInput(session, d, sequence, payload);
            && |input| == 38 + |payload| && input[..13] == BytesOf("tsu4 control\0") && input[13..29] == session
            && input[29] == (match d case ClientToServer => 'c' as int case ServerToClient => 's' as int)
            && input[30..38] == BigEndian(sequence, 8) && input[38..] == BytesOf(payload)
  {
  }

  lemma BytesOfIsInjective(a: string, b: string)
    requires Narrow(a) && Narrow(b) && BytesOf(a) == BytesOf(b)
    ensures a == b
  {
    forall i | 0 <= i < |a| ensures a[i] == b[i] {
      assert BytesOf(a)[i] == BytesOf(b)[i];
    }
  }

  /** Two frames with the same MAC input are the same frame: session, direction, number and payload. */
  lemma MacInputIsInjective(s: Bytes, d: Direction, m: nat, p: string, t: Bytes, e: Direction, n: nat, q: string)
    requires |s| == |t| == 16 && m < U64_LIMIT && n < U64_LIMIT && Narrow(p) && Narrow(q)
    ensures MacInput(s, d, m, p) == MacInput(t, e, n, q) <==> s == t && d == e && m == n && p == q
  {
    MacInputParts(s, d, m, p);
    MacInputParts(t, e, n, q);
    Pow256Of8();
    FromBigEndianOf(m, 8);
    FromBigEndianOf(n, 8);
    if BytesOf(p) == BytesOf(q) { BytesOfIsInjective(p, q); }
  }

  // ----- frames -----

  datatype Link = Link(session: Bytes, direction: Direction, mac: Mac)

  ghost predicate ValidLink(k: Link) {
    |k.session| == 16 && ValidMac(k.mac)
  }

  function MacText(k: Link, sequence: nat, payload: string): string
  {
    Hex(k.mac(MacInput(k.session, k.direction, sequence, payload)))
  }

  /** A frame without its newline. */
  function Frame(k: Link, sequence: nat, payload: string): string
  {
    "A" + [' '] + (Decimal(sequence) + [' '] + (payload + [' '] + MacText(k, sequence, payload)))
  }

  /** `recv`, after the line has been read */
  function ReadFrame(k: Link, line: string, expected: nat): Result<string>
  {
    match SplitOnce(line, ' ')
    case None => Err
    case Some((letter, rest)) =>
      if letter != "A" then Err else
        match SplitOnce(rest, ' ')
        case None => Err
        case Some((number, tail)) =>
          if ParseUnsigned(number) != Some(expected) then Err else
            match RSplitOnce(tail, ' ')
            case None => Err
            case Some((payload, macText)) =>
              match DecodeLoose(macText, 32)
              case None => Err
              case Some(supplied) =>
                if supplied == k.mac(MacInput(k.session, k.direction, expected, payload)) then Ok(payload) else Err
  }

  lemma OwnFrameReadsBack(k: Link, sequence: nat, payload: string)
    requires ValidLink(k) && sequence < U64_LIMIT
    ensures ReadFrame(k, Frame(k, sequence, payload), sequence) == Ok(payload)
  {
    var macText := MacText(k, sequence, payload);
    var tail := payload + [' '] + macText;
    DigitsAreSolid(Decimal(sequence));
    HexIsSolid(macText);
    DecodeLooseOfHex(k.mac(MacInput(k.session, k.direction, sequence, payload)));
    ParseUnsignedOfDecimal(sequence);
    SplitOnceExact("A", ' ', Decimal(sequence) + [' '] + tail);
    SplitOnceExact(Decimal(sequence), ' ', tail);
    RSplitOnceExact(payload, ' ', macText);
  }

  /** The fields of a frame between single spaces; only the payload may hold further ones. */
  ghost predicate Carries(line: string, number: string, payload: string, macText: string) {
    && line == "A" + [' '] + (number + [' '] + (payload + [' '] + macText))
    && Without(number, ' ') && Without(macText, ' ')
  }

  /** The text spells, in digits of either case, the MAC of this payload under this number. */
  ghost predicate MacHolds(k: Link, sequence: nat, payload: string, macText: string) {
    PairsSpell(macText, k.mac(MacInput(k.session, k.direction, sequence, payload)))
  }

  /** The number, the payload and its MAC are all in the line. */
  ghost predicate Proven(k: Link, line: string, n: nat, payload: string, number: string, macText: string) {
    Carries(line, number, payload, macText) && Numeral(number, n) && MacHolds(k, n, payload, macText)
  }

  lemma ReadFields(k: Link, line: string, expected: nat, rest: string, number: string, tail: string,
                   payload: string, macText: string, mac: Bytes)
    requires SplitOnce(line, ' ') == Some(("A", rest)) && SplitOnce(rest, ' ') == Some((number, tail))
    requires RSplitOnce(tail, ' ') == Some((payload, macText))
    requires ParseUnsigned(number) == Some(expected) && DecodeLoose(macText, 32) == Some(mac)
    ensures ReadFrame(k, line, expected)
         == if mac == k.mac(MacInput(k.session, k.direction, expected, payload)) then Ok(payload) else Err
  {
  }

  lemma ReadFrameOf(k: Link, line: string, expected: nat, payload: string, number: string, macText: string)
    requires ValidLink(k) && expected < U64_LIMIT && Proven(k, line, expected, payload, number, macText)
    ensures ReadFrame(k, line, expected) == Ok(payload)
  {
    var tail := payload + [' '] + macText;
    var rest := number + [' '] + tail;
    var mac := k.mac(MacInput(k.session, k.direction, expected, payload));
    assert SplitOnce(line, ' ') == Some(("A", rest)) by { SplitOnceIff(line, ' ', "A", rest); }
    assert SplitOnce(rest, ' ') == Some((number, tail)) by { SplitOnceIff(rest, ' ', number, tail); }
    assert RSplitOnce(tail, ' ') == Some((payload, macText)) by { RSplitOnceIff(tail, ' ', payload, macText); }
    assert ParseUnsigned(number) == Some(expected) by { ParseUnsignedIff(number, expected); }
    assert DecodeLoose(macText, 32) == Some(mac) by { DecodeLooseIff(macText, 32, mac); }
    ReadFields(k, line, expected, rest, number, tail, payload, macText, mac);
  }

  lemma FieldsOfFrame(k: Link, line: string, expected: nat) returns (number: string, macText: string)
    requires ReadFrame(k, line, expected).Ok?
    ensures var payload := ReadFrame(k, line, expected).value;
            && expected < U64_LIMIT && Carries(line, number, payload, macText)
               && ParseUnsigned(number) == Some(expected)
            && DecodeLoose(macText, 32) == Some(k.mac(MacInput(k.session, k.direction, expected, payload)))
  {
    var (letter, rest) := SplitOnce(line, ' ').value;
    SplitOnceIff(line, ' ', letter, rest);
    var (digits, tail) := SplitOnce(rest, ' ').value;
    SplitOnceIff(rest, ' ', digits, tail);
    var (payload, mac) := RSplitOnce(tail, ' ').value;
    RSplitOnceIff(tail, ' ', payload, mac);
    ParseUnsignedIff(digits, expected);
    number, macText := digits, mac;
  }

  /**
    A line is accepted as frame `expected` with this payload if and only if it is "A", that number, the payload and a
    text that spells the MAC of exactly this payload, number, direction and session.
  */
  lemma ReadFrameIff(k: Link, line: string, expected: nat, payload: string)
    requires ValidLink(k)
    ensures ReadFrame(k, line, expected) == Ok(payload) <==>
            expected < U64_LIMIT && exists number, macText :: Proven(k, line, expected, payload, number, macText)
  {
    if ReadFrame(k, line, expected) == Ok(payload) {
      var number, macText := FieldsOfFrame(k, line, expected);
      ParseUnsignedIff(number, expected);
      DecodeLooseIff(macText, 32, k.mac(MacInput(k.session, k.direction, expected, payload)));
      assert Proven(k, line, expected, payload, number, macText);
    }
    if expected < U64_LIMIT && exists number, macText :: Proven(k, line, expected, payload, number, macText) {
      var number, macText :| Proven(k, line, expected, payload, number, macText);
      ReadFrameOf(k, line, expected, payload, number, macText);
    }
  }

  lemma MacFieldIff(k: Link, sequence: nat, payload: string, macText: string)
    requires ValidLink(k)
    ensures macText == MacText(k, sequence, payload) <==> AllHex(macText) && MacHolds(k, sequence, payload, macText)
  {
    var mac := k.mac(MacInput(k.session, k.direction, sequence, payload));
    DecodeHexExact(macText, mac);
    DecodeLooseIff(macText, 32, mac);
    DecodeLooseOfHex(mac);
    if AllHex(macText) && MacHolds(k, sequence, payload, macText) {
      DecodeLooseOfHex(UnHex(macText));
      HexOfUnHex(macText);
    }
  }

  lemma StrictFieldsMakeFrame(k: Link, line: string, sequence: nat, payload: string, number: string, macText: string)
    requires ValidLink(k) && sequence < U64_LIMIT && Proven(k, line, sequence, payload, number, macText)
    requires Canonical(number) && AllHex(macText)
    ensures line == Frame(k, sequence, payload)
  {
    ParseUnsignedIff(number, sequence);
    CanonicalIsDecimal(number);
    MacFieldIff(k, sequence, payload, macText);
  }

  /** The writer's frame is the one accepted line whose number is canonical and whose MAC is in lower case. */
  lemma FrameIff(k: Link, line: string, sequence: nat, payload: string)
    requires ValidLink(k) && sequence < U64_LIMIT
    ensures line == Frame(k, sequence, payload) <==>
            exists number, macText :: Proven(k, line, sequence, payload, number, macText)
              && Canonical(number) && AllHex(macText)
  {
    var number, macText := Decimal(sequence), MacText(k, sequence, payload);
    ParseUnsignedOfDecimal(sequence);
    ParseUnsignedIff(number, sequence);
    DigitsAreSolid(number);
    HexIsSolid(macText);
    MacFieldIff(k, sequence, payload, macText);
    DecimalIsCanonical(sequence);
    if line == Frame(k, sequence, payload) {
      assert Proven(k, line, sequence, payload, number, macText);
    }
    forall n, m | Proven(k, line, sequence, payload, n, m) && Canonical(n) && AllHex(m)
      ensures line == Frame(k, sequence, payload)
    {
      StrictFieldsMakeFrame(k, line, sequence, payload, n, m);
    }
  }

  // ----- reading lines -----

  /** Where reading stops: at a line break, at the limit or at the end of the stream. */
  function LineEnd(stream: string, from: nat, limit: nat): (i: nat)
    requires from <= |stream| && from <= limit
    ensures from <= i <= |stream| && i <= limit
    ensures i < |stream| && i < limit ==> stream[i] == '\n' || stream[i] == '\r'
    ensures forall j :: from <= j < i ==> stream[j] != '\n' && stream[j] != '\r'
    decreases limit - from
  {
    if from == limit || from == |stream| || stream[from] == '\n' || stream[from] == '\r' then from
    else LineEnd(stream, from + 1, limit)
  }

  /** `read_line_limited`: the line, and what is left in the stream. */
  function ReadLine(stream: string, limit: nat): (Result<string>, string) {
    var i := LineEnd(stream, 0, limit);
    if i == limit || i == |stream| then (Err, stream[i..])
    else if stream[i] == '\n' then (Ok(stream[..i]), stream[i + 1..])
    else (Err, stream[i + 1..])
  }

  lemma LineEndIs(stream: string, from: nat, limit: nat, i: nat)
    requires from <= i <= |stream| && i <= limit
    requires i < |stream| && i < limit ==> stream[i] == '\n' || stream[i] == '\r'
    requires forall j :: from <= j < i ==> stream[j] != '\n' && stream[j] != '\r'
    ensures LineEnd(stream, from, limit) == i
  {
  }

  lemma CleanLineIsRead(line: string, rest: string, limit: nat)
    requires |line| < limit && Without(line, '\n') && Without(line, '\r')
    ensures ReadLine(line + ['\n'] + rest, limit) == (Ok(line), rest)
  {
    var stream := line + ['\n'] + rest;
    LineEndIs(stream, 0, limit, |line|);
    assert stream[..|line|] == line && stream[|line| + 1..] == rest;
  }

  /** A line is read if and only if it is shorter than the limit, ends in a newline and has no other line break. */
  lemma ReadLineIff(stream: string, limit: nat, line: string, rest: string)
    ensures ReadLine(stream, limit) == (Ok(line), rest) <==>
            |line| < limit && Without(line, '\n') && Without(line, '\r') && stream == line + ['\n'] + rest
  {
    if ReadLine(stream, limit) == (Ok(line), rest) {
      assert stream == stream[..|line|] + [stream[|line|]] + stream[|line| + 1..];
    }
    if |line| < limit && Without(line, '\n') && Without(line, '\r') && stream == line + ['\n'] + rest {
      CleanLineIsRead(line, rest, limit);
    }
  }

  lemma CarriageReturnIsRefused(line: string, rest: string, limit: nat)
    requires |line| < limit && Without(line, '\n') && !Without(line, '\r')
    ensures ReadLine(line + ['\n'] + rest, limit).0 == Err
  {
    var stream := line + ['\n'] + rest;
    var i := LineEnd(stream, 0, limit);
    var r :| 0 <= r < |line| && line[r] == '\r';
    assert stream[r] == '\r';
    assert stream[i] == line[i];
  }

  // ----- whole conversations -----

  /** One call of `recv`: the payload, and what it leaves in the stream. */
  function Recv(k: Link, stream: string, sequence: nat): (r: Option<(string, string)>)
    ensures r.Some? ==> |r.value.1| < |stream|
  {
    var (line, rest) := ReadLine(stream, MAX_CONTROL_LINE);
    if line.Err? || sequence + 1 >= U64_LIMIT then None
    else
      match ReadFrame(k, line.value, sequence)
      case Err => None
      case Ok(payload) => Some((payload, rest))
  }

  /** The payloads successive calls return, up to the first error. */
  function Received(k: Link, stream: string, sequence: nat): seq<string>
    decreases |stream|
  {
    match Recv(k, stream, sequence)
    case None => []
    case Some((payload, rest)) => [payload] + Received(k, rest, sequence + 1)
  }

  /** What the honest peers authenticated in this session, in each direction. */
  type Sent = Direction -> seq<string>

  ghost predicate Authenticated(k: Link, sent: Sent, input: Bytes) {
    exists d: Direction, i: nat :: i < |sent(d)| && i < U64_LIMIT && Narrow(sent(d)[i])
      && input == MacInput(k.session, d, i, sent(d)[i])
  }

  /** Whatever MAC the line holds for frame `n`, one of the peers authenticated what it says. */
  ghost predicate Genuine(k: Link, sent: Sent, line: string, n: nat) {
    forall payload, number, macText :: Proven(k, line, n, payload, number, macText) ==>
      Authenticated(k, sent, MacInput(k.session, k.direction, n, payload))
  }

  /** The stream is one of bytes, and no part of it carries a forged MAC. */
  ghost predicate NoForgery(k: Link, sent: Sent, stream: string) {
    Narrow(stream) && forall a, b, n: nat :: 0 <= a <= b <= |stream| ==> Genuine(k, sent, stream[a..b], n)
  }

  lemma NoForgeryInRest(k: Link, sent: Sent, stream: string, i: nat)
    requires NoForgery(k, sent, stream) && i <= |stream|
    ensures NoForgery(k, sent, stream[i..])
  {
    var rest := stream[i..];
    forall a, b, n: nat | 0 <= a <= b <= |rest| ensures Genuine(k, sent, rest[a..b], n) {
      assert rest[a..b] == stream[i + a..i + b];
      assert Genuine(k, sent, stream[i + a..i + b], n);
    }
  }

  lemma NarrowPart(line: string, number: string, payload: string, macText: string)
    requires Narrow(line) && Carries(line, number, payload, macText)
    ensures Narrow(payload)
  {
    forall i | 0 <= i < |payload| ensures payload[i] < 256 as char {
      assert line[3 + |number| + i] == payload[i];
    }
  }

  lemma AcceptedFrameWasSent(k: Link, sent: Sent, line: string, sequence: nat)
    requires ValidLink(k) && Narrow(line) && Genuine(k, sent, line, sequence)
    requires ReadFrame(k, line, sequence).Ok?
    ensures sequence < |sent(k.direction)| && ReadFrame(k, line, sequence).value == sent(k.direction)[sequence]
  {
    var payload := ReadFrame(k, line, sequence).value;
    ReadFrameIff(k, line, sequence, payload);
    var number, macText :| Proven(k, line, sequence, payload, number, macText);
    NarrowPart(line, number, payload, macText);
    var d: Direction, i: nat :| i < |sent(d)| && i < U64_LIMIT && Narrow(sent(d)[i])
      && MacInput(k.session, k.direction, sequence, payload) == MacInput(k.session, d, i, sent(d)[i]);
    MacInputIsInjective(k.session, k.direction, sequence, payload, k.session, d, i, sent(d)[i]);
  }

  /**
    The channel is a prefix-preserving FIFO: whatever bytes reach the stream, replayed, reordered, cut or
    invented, the payloads received are a prefix of those sent in that direction.
  */
  lemma {:induction false} ReceivedIsPrefix(k: Link, sent: Sent, stream: string, sequence: nat)
    requires ValidLink(k) && NoForgery(k, sent, stream) && sequence <= |sent(k.direction)|
    ensures Received(k, stream, sequence) <= sent(k.direction)[sequence..]
    decreases |stream|
  {
    match Recv(k, stream, sequence)
    case None =>
    case Some((payload, rest)) =>
      RecvWasSent(k, sent, stream, sequence);
      ReceivedIsPrefix(k, sent, rest, sequence + 1);
      PrefixCons(sent(k.direction), sequence, Received(k, rest, sequence + 1));
  }

  lemma RecvWasSent(k: Link, sent: Sent, stream: string, sequence: nat)
    requires ValidLink(k) && NoForgery(k, sent, stream) && Recv(k, stream, sequence).Some?
    ensures var (payload, rest) := Recv(k, stream, sequence).value;
            sequence < |sent(k.direction)| && payload == sent(k.direction)[sequence] && NoForgery(k, sent, rest)
  {
    ReceivedLine(stream);
    var n := |ReadLine(stream, MAX_CONTROL_LINE).0.value|;
    assert stream[0..n] == stream[..n];
    assert Genuine(k, sent, stream[0..n], sequence);
    AcceptedFrameWasSent(k, sent, stream[..n], sequence);
    NoForgeryInRest(k, sent, stream, n + 1);
  }

  lemma ReceivedLine(stream: string)
    requires ReadLine(stream, MAX_CONTROL_LINE).0.Ok?
    ensures var (line, rest) := ReadLine(stream, MAX_CONTROL_LINE);
            |line.value| < |stream| && line.value == stream[..|line.value|] && rest == stream[|line.value| + 1..]
  {
  }

  lemma PrefixCons(all: seq<string>, i: nat, later: seq<string>)
    requires i < |all| && later <= all[i + 1..]
    ensures [all[i]] + later <= all[i..]
  {
    assert all[i..] == [all[i]] + all[i + 1..];
  }

  /** One call returns exactly the payload of the first line, when that line is the expected frame. */
  lemma RecvIff(k: Link, stream: string, sequence: nat, payload: string, rest: string)
    requires ValidLink(k)
    ensures Recv(k, stream, sequence) == Some((payload, rest)) <==>
            && sequence + 1 < U64_LIMIT
            && exists line, number, macText ::
                 && Proven(k, line, sequence, payload, number, macText)
                 && |line| < 65_536 && Without(line, '\n') && Without(line, '\r') && stream == line + ['\n'] + rest
  {
    if Recv(k, stream, sequence) == Some((payload, rest)) {
      var line := ReadLine(stream, MAX_CONTROL_LINE).0.value;
      ReadLineIff(stream, MAX_CONTROL_LINE, line, rest);
      ReadFrameIff(k, line, sequence, payload);
    }
    forall line, number, macText | Proven(k, line, sequence, payload, number, macText)
      && |line| < 65_536 && Without(line, '\n') && Without(line, '\r') && stream == line + ['\n'] + rest
      ensures sequence + 1 < U64_LIMIT ==> Recv(k, stream, sequence) == Some((payload, rest))
    {
      ReadLineIff(stream, MAX_CONTROL_LINE, line, rest);
      ReadFrameIff(k, line, sequence, payload);
    }
  }

  // ----- delivery -----

  /** `send` accepts a payload without newline that fits half a line. */
  predicate Sendable(payload: string) {
    Without(payload, '\n') && |payload| <= MAX_CONTROL_LINE / 2 && Narrow(payload)
  }

  predicate AllSendable(payloads: seq<string>) {
    forall i :: 0 <= i < |payloads| ==> Sendable(payloads[i])
  }

  /** One line for each payload, numbered from `from` on. */
  function Numbered(line: (nat, string) -> string, payloads: seq<string>, from: nat): string {
    if payloads == [] then []
    else line(from, payloads[0]) + ['\n'] + Numbered(line, payloads[1..], from + 1)
  }

  lemma {:induction false} NumberedSnoc(line: (nat, string) -> string, payloads: seq<string>, payload: string,
                                        from: nat)
    ensures Numbered(line, payloads + [payload], from)
         == Numbered(line, payloads, from) + (line(from + |payloads|, payload) + ['\n'])
    decreases |payloads|
  {
    var all := payloads + [payload];
    if payloads == [] {
      assert all == [payload] && all[1..] == [];
    } else {
      NumberedSnoc(line, payloads[1..], payload, from + 1);
      assert all[0] == payloads[0] && all[1..] == payloads[1..] + [payload];
    }
  }

  function FrameLine(k: Link): (nat, string) -> string {
    (sequence: nat, payload: string) => Frame(k, sequence, payload)
  }

  function Frames(k: Link, payloads: seq<string>, from: nat): string
    requires AllSendable(payloads)
  {
    Numbered(FrameLine(k), payloads, from)
  }

  lemma FrameShape(k: Link, sequence: nat, payload: string)
    requires ValidLink(k) && Sendable(payload) && sequence < U64_LIMIT
    ensures |Frame(k, sequence, payload)| < MAX_CONTROL_LINE
    ensures Without(Frame(k, sequence, payload), '\n')
    ensures Without(Frame(k, sequence, payload), '\r') <==> Without(payload, '\r')
  {
    DecimalLengthU64(sequence);
    DigitsAreSolid(Decimal(sequence));
    HexIsSolid(MacText(k, sequence, payload));
    WithoutConcat(payload + [' '], MacText(k, sequence, payload), '\n');
    WithoutConcat(payload + [' '], MacText(k, sequence, payload), '\r');
    WithoutConcat(payload, [' '], '\r');
    WithoutConcat(payload, [' '], '\n');
    var tail := payload + [' '] + MacText(k, sequence, payload);
    WithoutConcat(Decimal(sequence) + [' '], tail, '\n');
    WithoutConcat(Decimal(sequence) + [' '], tail, '\r');
    WithoutConcat("A" + [' '], Decimal(sequence) + [' '] + tail, '\n');
    WithoutConcat("A" + [' '], Decimal(sequence) + [' '] + tail, '\r');
  }

  lemma WithoutConcat(a: string, b: string, c: char)
    ensures Without(a + b, c) <==> Without(a, c) && Without(b, c)
  {
    if Without(a + b, c) {
      assert forall i :: 0 <= i < |a| ==> a[i] == (a + b)[i];
      assert forall i :: 0 <= i < |b| ==> b[i] == (a + b)[|a| + i];
    }
  }

  /** How many payloads come before the first with a carriage return. */
  function Clean(payloads: seq<string>): (n: nat)
    ensures n <= |payloads|
  {
    if payloads == [] || !Without(payloads[0], '\r') then 0 else 1 + Clean(payloads[1..])
  }

  lemma {:induction false} AllCleanIff(payloads: seq<string>)
    ensures Clean(payloads) == |payloads| <==> forall i :: 0 <= i < |payloads| ==> Without(payloads[i], '\r')
    decreases |payloads|
  {
    if payloads != [] && Without(payloads[0], '\r') {
      AllCleanIff(payloads[1..]);
      assert forall i :: 1 <= i < |payloads| ==> payloads[i] == payloads[1..][i - 1];
      assert forall i :: 0 <= i < |payloads[1..]| ==> payloads[1..][i] == payloads[i + 1];
    }
  }

  /** Without interference every payload up to the first with a carriage return arrives, spaces included. */
  lemma {:induction false} DeliveredUpToCarriageReturn(k: Link, payloads: seq<string>, from: nat)
    requires ValidLink(k) && from + |payloads| < U64_LIMIT
    requires AllSendable(payloads)
    ensures Received(k, Frames(k, payloads, from), from) == payloads[..Clean(payloads)]
    decreases |payloads|
  {
    FramesStep(k, payloads, from);
    if payloads != [] && Without(payloads[0], '\r') {
      SendableRest(payloads);
      DeliveredUpToCarriageReturn(k, payloads[1..], from + 1);
      CleanStep(payloads);
    }
  }

  lemma SendableRest(payloads: seq<string>)
    requires payloads != [] && AllSendable(payloads)
    ensures Sendable(payloads[0]) && AllSendable(payloads[1..])
  {
  }

  lemma CleanStep(payloads: seq<string>)
    requires payloads != [] && Without(payloads[0], '\r')
    ensures payloads[..Clean(payloads)] == [payloads[0]] + payloads[1..][..Clean(payloads[1..])]
  {
  }

  lemma FramesStep(k: Link, payloads: seq<string>, from: nat)
    requires ValidLink(k) && AllSendable(payloads) && from + |payloads| < U64_LIMIT
    ensures Received(k, Numbered(FrameLine(k), payloads, from), from)
         == if payloads == [] || !Without(payloads[0], '\r') then []
            else [payloads[0]] + Received(k, Numbered(FrameLine(k), payloads[1..], from + 1), from + 1)
  {
    if payloads != [] {
      FirstFrameIsReceived(k, payloads[0], Numbered(FrameLine(k), payloads[1..], from + 1), from);
    }
  }

  lemma FirstFrameIsReceived(k: Link, payload: string, rest: string, sequence: nat)
    requires ValidLink(k) && Sendable(payload) && sequence + 1 < U64_LIMIT
    ensures Received(k, Frame(k, sequence, payload) + ['\n'] + rest, sequence)
         == if Without(payload, '\r') then [payload] + Received(k, rest, sequence + 1) else []
  {
    FrameShape(k, sequence, payload);
    if Without(payload, '\r') {
      CleanLineIsRead(Frame(k, sequence, payload), rest, MAX_CONTROL_LINE);
      OwnFrameReadsBack(k, sequence, payload);
    } else {
      CarriageReturnIsRefused(Frame(k, sequence, payload), rest, MAX_CONTROL_LINE);
    }
  }

  /** The exact condition: the writer lets carriage returns through and the reader does not. */
  lemma DeliveryIff(k: Link, payloads: seq<string>)
    requires ValidLink(k) && |payloads| < U64_LIMIT
    requires AllSendable(payloads)
    ensures Received(k, Frames(k, payloads, 0), 0) == payloads <==>
            forall i :: 0 <= i < |payloads| ==> Without(payloads[i], '\r')
  {
    DeliveredUpToCarriageReturn(k, payloads, 0);
    AllCleanIff(payloads);
    assert payloads[..|payloads|] == payloads;
  }

  /** A payload that is sent and never received. */
  lemma CarriageReturnExample(k: Link)
    requires ValidLink(k)
    ensures Sendable("PONG\r") && Received(k, Frames(k, ["PONG\r"], 0), 0) == []
  {
    assert "PONG\r"[4] == '\r';
    DeliveredUpToCarriageReturn(k, ["PONG\r"], 0);
  }

  lemma FramesSnoc(k: Link, payloads: seq<string>, payload: string, from: nat)
    requires AllSendable(payloads) && Sendable(payload)
    ensures AllSendable(payloads + [payload])
    ensures Frames(k, payloads + [payload], from)
         == Frames(k, payloads, from) + (Frame(k, from + |payloads|, payload) + ['\n'])
  {
    SendableSnoc(payloads, payload);
    NumberedSnoc(FrameLine(k), payloads, payload, from);
  }

  lemma SendableSnoc(payloads: seq<string>, payload: string)
    requires AllSendable(payloads) && Sendable(payload)
    ensures AllSendable(payloads + [payload])
  {
  }

  // ----- the two ends -----

  lemma NextCharacter(bytes: string, stream: string)
    requires stream != []
    ensures bytes + stream == bytes + [stream[0]] + stream[1..]
  {
  }

  /** Where the byte loop stops is where `ReadLine` does. */
  lemma StoppedLine(bytes: string, stream: string, limit: nat)
    requires Without(bytes, '\n') && Without(bytes, '\r') && |bytes| <= limit
    requires |bytes| == limit || stream == [] || stream[0] == '\n' || stream[0] == '\r'
    ensures ReadLine(bytes + stream, limit)
         == if |bytes| == limit || stream == [] then (Err, stream)
            else if stream[0] == '\n' then (Ok(bytes), stream[1..]) else (Err, stream[1..])
  {
    var all, n := bytes + stream, |bytes|;
    assert forall j :: 0 <= j < n ==> all[j] == bytes[j];
    LineEndIs(all, 0, limit, n);
    assert all[..n] == bytes && all[n..] == stream;
    if stream != [] { assert all[n] == stream[0] && all[n + 1..] == stream[1..]; }
  }

  class ControlWriter {
    var stream: string
    var sequence: nat
    const link: Link
    ghost var sent: seq<string>

    ghost predicate Valid()
      reads this
    {
      AllSendable(sent) && sequence == |sent| < U64_LIMIT && stream == Frames(link, sent, 0)
    }

    constructor (link: Link)
      ensures Valid() && sent == [] && this.link == link
    {
      this.link := link;
      stream, sequence, sent := [], 0, [];
    }

    /** Writes one frame, or refuses a payload with a newline or longer than half a line. */
    method Send(payload: string) returns (ok: bool)
      requires Valid() && Narrow(payload)
      modifies this
      ensures ok <==>
        Without(payload, '\n') && |payload| <= 32_768 && old(sequence) + 1 < 0x1_0000_0000_0000_0000
      ensures ok ==> Valid() && sent == old(sent) + [payload]
      ensures !Sendable(payload) ==> Valid() && sent == old(sent)
      ensures Sendable(payload) ==> stream == old(stream) + (Frame(link, old(sequence), payload) + ['\n'])
    {
      if '\n' in payload || |payload| > MAX_CONTROL_LINE / 2 {
        return false;
      }
      var frame := Frame(link, sequence, payload);
      FramesSnoc(link, sent, payload, 0);
      stream := stream + (frame + ['\n']);
      if sequence + 1 >= U64_LIMIT {
        return false;
      }
      sequence := sequence + 1;
      sent := sent + [payload];
      return true;
    }
  }

  class ControlReader {
    var stream: string
    var sequence: nat
    const link: Link

    constructor (link: Link, stream: string)
      ensures this.link == link && this.stream == stream && sequence == 0
    {
      this.link := link;
      this.stream := stream;
      sequence := 0;
    }

    /** `read_line_limited`: byte by byte, up to the line break, the limit or the end of the stream. */
    method ReadLineLimited(limit: nat) returns (r: Result<string>)
      modifies this`stream
      ensures (r, stream) == ReadLine(old(stream), limit)
    {
      ghost var all := stream;
      var bytes: string := [];
      while |bytes| < limit
        invariant |bytes| <= limit && all == bytes + stream
        invariant Without(bytes, '\n') && Without(bytes, '\r')
      {
        if stream == [] {
          StoppedLine(bytes, stream, limit);
          return Err;
        }
        var c := stream[0];
        if c == '\n' || c == '\r' {
          StoppedLine(bytes, stream, limit);
          stream := stream[1..];
          return if c == '\n' then Ok(bytes) else Err;
        }
        NextCharacter(bytes, stream);
        stream := stream[1..];
        bytes := bytes + [c];
      }
      StoppedLine(bytes, stream, limit);
      return Err;
    }

    /** The next payload; the number it must carry advances only when it is accepted. */
    method Receive() returns (r: Result<string>)
      modifies this
      ensures match Recv(link, old(stream), old(sequence))
              case None => r == Err && sequence == old(sequence)
              case Some((payload, rest)) => r == Ok(payload) && stream == rest && sequence == old(sequence) + 1
    {
      var line := ReadLineLimited(MAX_CONTROL_LINE);
      if line.Err? {
        return Err;
      }
      var payload := ReadFrame(link, line.value, sequence);
      if payload.Err? || sequence + 1 >= U64_LIMIT {
        return Err;
      }
      sequence := sequence + 1;
      return payload;
    }
  }
}
