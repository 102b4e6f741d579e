/**
  The text primitives every wire format of the program is built from: splitting and joining,
  decimal and hexadecimal numbers. Each strict decoder is shown to accept exactly the canonical text.
*/
module Text {
  import opened Outcomes

  const U64_LIMIT: nat := 0x1_0000_0000_0000_0000

  type Byte = b: nat | b < 256

  predicate Without(s: string, c: char) {
    forall i :: 0 <= i < |s| ==> s[i] != c
  }

  // ----- splitting -----

  function IndexOf(s: string, c: char): (i: nat)
    requires c in s
    ensures i < |s| && s[i] == c && Without(s[..i], c)
  {
    if s[0] == c then 0 else
      var i := 1 + IndexOf(s[1..], c);
      assert forall j :: 1 <= j < i ==> s[j] == s[1..][j - 1] && s[1..][j - 1] == s[1..][..i - 1][j - 1];
      i
  }

  /** `s.split(c)` */
  function Split(s: string, c: char): (parts: seq<string>)
    ensures parts != []
    decreases |s|
  {
    if c !in s then [s] else
      var i := IndexOf(s, c);
      [s[..i]] + Split(s[i + 1..], c)
  }

  function Join(parts: seq<string>, c: char): string {
    if parts == [] then ""
    else if |parts| == 1 then parts[0]
    else parts[0] + [c] + Join(parts[1..], c)
  }

  lemma JoinCons(first: string, rest: seq<string>, c: char)
    requires rest != []
    ensures Join([first] + rest, c) == first + [c] + Join(rest, c)
  {
    assert ([first] + rest)[1..] == rest;
  }

  /** Three fields. */
  lemma JoinOfThree(x: string, y: string, z: string, c: char)
    ensures Join([x, y, z], c) == x + [c] + (y + [c] + z)
  {
    assert [x, y, z] == [x] + [y, z] && [y, z] == [y] + [z];
    JoinCons(x, [y, z], c);
    JoinCons(y, [z], c);
  }

  /** Four fields. */
  lemma JoinOfFour(w: string, x: string, y: string, z: string, c: char)
    ensures Join([w, x, y, z], c) == w + [c] + (x + [c] + (y + [c] + z))
  {
    assert [w, x, y, z] == [w] + [x, y, z];
    JoinCons(w, [x, y, z], c);
    JoinOfThree(x, y, z, c);
  }

  /** Five fields. */
  lemma JoinOfFive(v: string, w: string, x: string, y: string, z: string, c: char)
    ensures Join([v, w, x, y, z], c) == v + [c] + (w + [c] + (x + [c] + (y + [c] + z)))
  {
    assert [v, w, x, y, z] == [v] + [w, x, y, z];
    JoinCons(v, [w, x, y, z], c);
    JoinOfFour(w, x, y, z, c);
  }

  /** Seven fields. */
  lemma JoinOfSeven(t: string, u: string, v: string, w: string, x: string, y: string, z: string, c: char)
    ensures Join([t, u, v, w, x, y, z], c)
         == t + [c] + (u + [c] + (v + [c] + (w + [c] + (x + [c] + (y + [c] + z)))))
  {
    assert [t, u, v, w, x, y, z] == [t] + [u, v, w, x, y, z] && [u, v, w, x, y, z] == [u] + [v, w, x, y, z];
    JoinCons(t, [u, v, w, x, y, z], c);
    JoinCons(u, [v, w, x, y, z], c);
    JoinOfFive(v, w, x, y, z, c);
  }

  ghost predicate AllWithout(parts: seq<string>, c: char) {
    forall i :: 0 <= i < |parts| ==> Without(parts[i], c)
  }

  lemma IndexOfFirst(head: string, c: char, tail: string)
    requires Without(head, c)
    ensures c in head + [c] + tail && IndexOf(head + [c] + tail, c) == |head|
  {
    var s := head + [c] + tail;
    assert s[|head|] == c;
    var i := IndexOf(s, c);
    assert forall j :: 0 <= j < i ==> s[..i][j] == s[j];
  }

  lemma {:induction false} SplitOfJoin(parts: seq<string>, c: char)
    requires parts != [] && AllWithout(parts, c)
    ensures Split(Join(parts, c), c) == parts
  {
    if |parts| == 1 {
      assert c !in parts[0];
    } else {
      var rest := Join(parts[1..], c);
      IndexOfFirst(parts[0], c, rest);
      var s := parts[0] + [c] + rest;
      assert s[..|parts[0]|] == parts[0] && s[|parts[0]| + 1..] == rest;
      SplitOfJoin(parts[1..], c);
    }
  }

  lemma {:induction false} JoinOfSplit(s: string, c: char)
    ensures Join(Split(s, c), c) == s && AllWithout(Split(s, c), c)
    decreases |s|
  {
    if c in s {
      var i := IndexOf(s, c);
      JoinOfSplit(s[i + 1..], c);
      assert s == s[..i] + [c] + s[i + 1..];
    }
  }

  /** Splitting at a separator and joining with it undo each other. */
  lemma SplitIffJoin(s: string, c: char, parts: seq<string>)
    ensures Split(s, c) == parts <==> parts != [] && AllWithout(parts, c) && s == Join(parts, c)
  {
    JoinOfSplit(s, c);
    if parts != [] && AllWithout(parts, c) {
      SplitOfJoin(parts, c);
    }
  }

  /** `s.split_once(c)` */
  function SplitOnce(s: string, c: char): Option<(string, string)> {
    if c !in s then None else
      var i := IndexOf(s, c);
      Some((s[..i], s[i + 1..]))
  }

  lemma SplitOnceExact(head: string, c: char, tail: string)
    requires Without(head, c)
    ensures SplitOnce(head + [c] + tail, c) == Some((head, tail))
  {
    IndexOfFirst(head, c, tail);
    var s := head + [c] + tail;
    assert s[..|head|] == head && s[|head| + 1..] == tail;
  }

  /** The cut is at the first separator. */
  lemma SplitOnceIff(s: string, c: char, head: string, tail: string)
    ensures SplitOnce(s, c) == Some((head, tail)) <==> Without(head, c) && s == head + [c] + tail
  {
    if c in s {
      var i := IndexOf(s, c);
      assert s == s[..i] + [c] + s[i + 1..];
    }
    if Without(head, c) && s == head + [c] + tail {
      SplitOnceExact(head, c, tail);
    }
  }

  function LastIndexOf(s: string, c: char): (i: nat)
    requires c in s
    ensures i < |s| && s[i] == c && Without(s[i + 1..], c)
  {
    if s[|s| - 1] == c then |s| - 1 else
      var front := s[..|s| - 1];
      assert s == front + [s[|s| - 1]];
      var i := LastIndexOf(front, c);
      assert s[i + 1..] == front[i + 1..] + [s[|s| - 1]];
      i
  }

  /** `s.rsplit_once(c)` */
  function RSplitOnce(s: string, c: char): Option<(string, string)> {
    if c !in s then None else
      var i := LastIndexOf(s, c);
      Some((s[..i], s[i + 1..]))
  }

  lemma RSplitOnceExact(head: string, c: char, tail: string)
    requires Without(tail, c)
    ensures RSplitOnce(head + [c] + tail, c) == Some((head, tail))
  {
    var s := head + [c] + tail;
    assert s[|head|] == c;
    var i := LastIndexOf(s, c);
    assert forall j :: i < j < |s| ==> s[i + 1..][j - i - 1] == s[j];
    assert s[..|head|] == head && s[|head| + 1..] == tail;
  }

  /** The cut is at the last separator. */
  lemma RSplitOnceIff(s: string, c: char, head: string, tail: string)
    ensures RSplitOnce(s, c) == Some((head, tail)) <==> Without(tail, c) && s == head + [c] + tail
  {
    if c in s {
      var i := LastIndexOf(s, c);
      assert s == s[..i] + [c] + s[i + 1..];
    }
    if Without(tail, c) && s == head + [c] + tail {
      RSplitOnceExact(head, c, tail);
    }
  }

  /** `char::is_whitespace` (the Unicode White_Space property) */
  predicate IsWhitespace(c: char) {
    var v := c as int;
    9 <= v <= 13 || v == 32 || v == 0x85 || v == 0xA0 || v == 0x1680 || 0x2000 <= v <= 0x200A
    || v == 0x2028 || v == 0x2029 || v == 0x202F || v == 0x205F || v == 0x3000
  }

  predicate Solid(s: string) {
    |s| > 0 && forall i :: 0 <= i < |s| ==> !IsWhitespace(s[i])
  }

  ghost predicate AllSolid(parts: seq<string>) {
    forall i :: 0 <= i < |parts| ==> Solid(parts[i])
  }

  function TokenLength(s: string): (n: nat)
    ensures n <= |s| && (forall i :: 0 <= i < n ==> !IsWhitespace(s[i])) && (n < |s| ==> IsWhitespace(s[n]))
  {
    if s == [] || IsWhitespace(s[0]) then 0 else 1 + TokenLength(s[1..])
  }

  /** `s.split_whitespace()` */
  function Tokens(s: string): seq<string>
    decreases |s|
  {
    if s == [] then []
    else if IsWhitespace(s[0]) then Tokens(s[1..])
    else [s[..TokenLength(s)]] + Tokens(s[TokenLength(s)..])
  }

  lemma TokenLengthOf(token: string, rest: string)
    requires Solid(token) && (rest != [] ==> IsWhitespace(rest[0]))
    ensures TokenLength(token + rest) == |token|
  {
    var n := TokenLength(token + rest);
    assert rest != [] ==> (token + rest)[|token|] == rest[0];
  }

  /** Solid fields joined by single spaces are recovered exactly. */
  lemma {:induction false} TokensOfJoin(parts: seq<string>)
    requires AllSolid(parts)
    ensures Tokens(Join(parts, ' ')) == parts
  {
    if |parts| == 1 {
      TokenLengthOf(parts[0], []);
      assert parts[0] + [] == parts[0];
    } else if |parts| > 1 {
      var rest := Join(parts[1..], ' ');
      var s := parts[0] + ([' '] + rest);
      assert Join(parts, ' ') == s;
      TokenLengthOf(parts[0], [' '] + rest);
      assert s[|parts[0]|..] == [' '] + rest && s[..|parts[0]|] == parts[0];
      assert ([' '] + rest)[1..] == rest;
      TokensOfJoin(parts[1..]);
    }
  }

  predicate AllSpace(s: string) {
    forall i :: 0 <= i < |s| ==> IsWhitespace(s[i])
  }

  /** The text is those fields with white space between them, and perhaps before the first and after the last. */
  ghost predicate Woven(s: string, parts: seq<string>)
    decreases |parts|
  {
    if parts == [] then AllSpace(s)
    else exists gap, rest :: Leads(s, gap, parts[0], rest) && Woven(rest, parts[1..])
  }

  ghost predicate Leads(s: string, gap: string, part: string, rest: string) {
    s == gap + part + rest && AllSpace(gap) && Solid(part) && (rest != [] ==> IsWhitespace(rest[0]))
  }

  lemma TokensSkip(c: char, s: string)
    requires IsWhitespace(c)
    ensures Tokens([c] + s) == Tokens(s)
  {
    assert ([c] + s)[1..] == s;
  }

  lemma {:induction false} TokensSkipGap(gap: string, s: string)
    requires AllSpace(gap)
    ensures Tokens(gap + s) == Tokens(s)
  {
    if gap == [] {
      assert gap + s == s;
    } else {
      TokensSkipGap(gap[1..], s);
      TokensSkip(gap[0], gap[1..] + s);
      assert gap + s == [gap[0]] + (gap[1..] + s);
    }
  }

  lemma TokensTake(part: string, rest: string)
    requires Solid(part) && (rest != [] ==> IsWhitespace(rest[0]))
    ensures Tokens(part + rest) == [part] + Tokens(rest)
  {
    TokenLengthOf(part, rest);
    assert (part + rest)[..|part|] == part && (part + rest)[|part|..] == rest;
  }

  lemma {:induction false} TokensOfWoven(s: string, parts: seq<string>)
    requires Woven(s, parts)
    ensures Tokens(s) == parts
    decreases |parts|
  {
    if parts == [] {
      TokensSkipGap(s, []);
      assert s + [] == s;
    } else {
      var gap, rest :| Leads(s, gap, parts[0], rest) && Woven(rest, parts[1..]);
      TokensOfWoven(rest, parts[1..]);
      assert s == gap + (parts[0] + rest);
      TokensSkipGap(gap, parts[0] + rest);
      TokensTake(parts[0], rest);
      assert parts == [parts[0]] + parts[1..];
    }
  }

  lemma WovenAfterSpace(c: char, s: string, parts: seq<string>)
    requires IsWhitespace(c) && Woven(s, parts)
    ensures Woven([c] + s, parts)
  {
    if parts != [] {
      var gap, rest :| Leads(s, gap, parts[0], rest) && Woven(rest, parts[1..]);
      assert [c] + s == ([c] + gap) + parts[0] + rest;
      assert Leads([c] + s, [c] + gap, parts[0], rest);
    }
  }

  lemma WovenCons(s: string, gap: string, part: string, rest: string, parts: seq<string>)
    requires Leads(s, gap, part, rest) && Woven(rest, parts)
    ensures Woven(s, [part] + parts)
  {
    var all := [part] + parts;
    assert all[0] == part && all[1..] == parts;
    assert Leads(s, gap, all[0], rest) && Woven(rest, all[1..]);
  }

  lemma {:induction false} TokensAreWoven(s: string)
    ensures Woven(s, Tokens(s))
    decreases |s|
  {
    if s != [] {
      if IsWhitespace(s[0]) {
        TokensAreWoven(s[1..]);
        WovenAfterSpace(s[0], s[1..], Tokens(s[1..]));
        assert s == [s[0]] + s[1..];
      } else {
        var n := TokenLength(s);
        TokensAreWoven(s[n..]);
        assert s == [] + s[..n] + s[n..];
        WovenCons(s, [], s[..n], s[n..], Tokens(s[n..]));
      }
    }
  }

  /** Splitting at white space finds exactly the fields that are woven into the text. */
  lemma TokensIff(s: string, parts: seq<string>)
    ensures Tokens(s) == parts <==> Woven(s, parts)
  {
    TokensAreWoven(s);
    if Woven(s, parts) { TokensOfWoven(s, parts); }
  }

  /** `text.lines()`, for texts without carriage returns */
  function Lines(text: string): seq<string> {
    var parts := Split(text, '\n');
    if parts[|parts| - 1] == [] then parts[..|parts| - 1] else parts
  }

  /** Every line followed by a newline. */
  function Unlines(lines: seq<string>): string {
    if lines == [] then [] else lines[0] + ['\n'] + Unlines(lines[1..])
  }

  lemma {:induction false} UnlinesIsJoin(lines: seq<string>)
    ensures Unlines(lines) == Join(lines + [[]], '\n')
  {
    if lines != [] {
      UnlinesIsJoin(lines[1..]);
      assert (lines + [[]])[1..] == lines[1..] + [[]];
    }
  }

  lemma {:induction false} UnlinesConcat(a: seq<string>, b: seq<string>)
    ensures Unlines(a + b) == Unlines(a) + Unlines(b)
  {
    if a == [] {
      assert a + b == b;
    } else {
      UnlinesConcat(a[1..], b);
      assert (a + b)[1..] == a[1..] + b;
    }
  }

  /** A newline-terminated text has exactly one decomposition into newline-free lines. */
  lemma LinesIffUnlines(text: string, lines: seq<string>)
    requires text != [] && text[|text| - 1] == '\n'
    ensures Lines(text) == lines <==> AllWithout(lines, '\n') && text == Unlines(lines)
  {
    UnlinesOfLines(text);
    if AllWithout(lines, '\n') && text == Unlines(lines) {
      LinesOfUnlines(lines);
    }
  }

  lemma UnlinesOfLines(text: string)
    requires text != [] && text[|text| - 1] == '\n'
    ensures AllWithout(Lines(text), '\n') && text == Unlines(Lines(text))
  {
    var parts := Split(text, '\n');
    JoinOfSplit(text, '\n');
    LastPartEmpty(parts, text);
    AllWithoutFront(parts, '\n');
    UnlinesOfFront(parts);
  }

  lemma UnlinesOfFront(parts: seq<string>)
    requires parts != [] && parts[|parts| - 1] == []
    ensures Unlines(parts[..|parts| - 1]) == Join(parts, '\n')
  {
    FrontAndLast(parts);
    UnlinesIsJoin(parts[..|parts| - 1]);
  }

  lemma FrontAndLast<T>(s: seq<T>)
    requires s != []
    ensures s == s[..|s| - 1] + [s[|s| - 1]]
  {
  }

  lemma AllWithoutFront(parts: seq<string>, c: char)
    requires parts != [] && AllWithout(parts, c)
    ensures AllWithout(parts[..|parts| - 1], c)
  {
  }

  lemma LinesOfUnlines(lines: seq<string>)
    requires AllWithout(lines, '\n')
    ensures Lines(Unlines(lines)) == lines
  {
    UnlinesIsJoin(lines);
    SplitOfJoin(lines + [[]], '\n');
  }

  lemma {:induction false} LastPartEmpty(parts: seq<string>, text: string)
    requires parts != [] && AllWithout(parts, '\n') && text == Join(parts, '\n')
    requires text != [] && text[|text| - 1] == '\n'
    ensures parts[|parts| - 1] == []
  {
    if |parts| > 1 {
      var rest := Join(parts[1..], '\n');
      if rest == [] {
        assert |parts| == 2;
      } else {
        assert text[|text| - 1] == rest[|rest| - 1];
        LastPartEmpty(parts[1..], rest);
      }
    }
  }

  // ----- decimal numbers -----

  predicate IsDigit(c: char) { '0' <= c <= '9' }

  predicate AllDigits(s: string) { forall i :: 0 <= i < |s| ==> IsDigit(s[i]) }

  function DigitChar(d: nat): (c: char)
    requires d < 10
    ensures IsDigit(c) && DigitValue(c) == d
  {
    "0123456789"[d]
  }

  function DigitValue(c: char): (d: nat)
    requires IsDigit(c)
    ensures d < 10 && c == "0123456789"[d]
  {
    c as int - '0' as int
  }

  /** `n.to_string()` for an unsigned integer */
  function Decimal(n: nat): (s: string)
    ensures s != [] && AllDigits(s)
  {
    if n < 10 then [DigitChar(n)] else Decimal(n / 10) + [DigitChar(n % 10)]
  }

  function DecimalValue(s: string): nat
    requires AllDigits(s)
  {
    if s == [] then 0 else 10 * DecimalValue(s[..|s| - 1]) + DigitValue(s[|s| - 1])
  }

  predicate Canonical(s: string) {
    s != [] && AllDigits(s) && (|s| > 1 ==> s[0] != '0')
  }

  lemma {:induction false} DecimalIsCanonical(n: nat)
    ensures Canonical(Decimal(n)) && DecimalValue(Decimal(n)) == n && (Decimal(n)[0] == '0' <==> n == 0)
  {
    if n >= 10 {
      DecimalIsCanonical(n / 10);
      assert Decimal(n)[..|Decimal(n)| - 1] == Decimal(n / 10);
    } else {
      assert Decimal(n)[..0] == [];
    }
  }

  lemma {:induction false} CanonicalIsDecimal(s: string)
    requires Canonical(s)
    ensures Decimal(DecimalValue(s)) == s
  {
    if |s| == 1 {
      assert s[..0] == [];
      assert DecimalValue(s) == DigitValue(s[0]);
    } else {
      var front := s[..|s| - 1];
      CanonicalIsDecimal(front);
      DecimalIsCanonical(DecimalValue(front));
      assert DecimalValue(s) / 10 == DecimalValue(front) && DecimalValue(s) % 10 == DigitValue(s[|s| - 1]);
      assert s == front + [s[|s| - 1]];
    }
  }

  /** The decimal digit of `n` with `k` digits after it. */
  function DecimalPlace(n: nat, k: nat): (d: nat)
    ensures d < 10
  {
    n / Pow10(k) % 10
  }

  lemma DecimalPlaceStep(n: nat, k: nat)
    ensures DecimalPlace(n, k + 1) == DecimalPlace(n / 10, k) && DecimalPlace(n, 0) == n % 10
  {
    assert Pow10(0) == 1;
    QuotientOfQuotient(n, 10, Pow10(k));
  }

  /** From the left, the printed digits are those of the number in base ten. */
  lemma {:induction false} DecimalPlaces(n: nat)
    ensures n < Pow10(|Decimal(n)|)
    ensures forall i :: 0 <= i < |Decimal(n)| ==>
              Decimal(n)[i] == "0123456789"[DecimalPlace(n, |Decimal(n)| - 1 - i)]
  {
    var s := Decimal(n);
    DecimalPlaceStep(n, 0);
    if n >= 10 {
      var front := Decimal(n / 10);
      DecimalPlaces(n / 10);
      assert Pow10(|s|) == 10 * Pow10(|front|);
      forall i | 0 <= i < |s| ensures s[i] == "0123456789"[DecimalPlace(n, |s| - 1 - i)] {
        if i < |front| {
          DecimalPlaceStep(n, |front| - 1 - i);
          assert s[i] == front[i];
        }
      }
    }
  }

  /** `parse_canonical_u64` and the manifests' `parse_u64` */
  function ParseCanonical(s: string): Option<nat> {
    if !Canonical(s) then None
    else if DecimalValue(s) < U64_LIMIT then Some(DecimalValue(s))
    else None
  }

  /** The strict decimal decoder accepts exactly the printed form of a 64-bit number. */
  lemma ParseCanonicalExact(s: string, n: nat)
    ensures ParseCanonical(s) == Some(n) <==> n < U64_LIMIT && s == Decimal(n)
  {
    DecimalIsCanonical(n);
    if Canonical(s) {
      CanonicalIsDecimal(s);
    }
  }

  lemma ParseDecimal(n: nat)
    requires n < U64_LIMIT
    ensures ParseCanonical(Decimal(n)) == Some(n)
  {
    DecimalIsCanonical(n);
  }

  lemma {:induction false} DecimalLength(n: nat, limit: nat, digits: nat)
    requires digits > 0 && n < limit && limit <= Pow10(digits)
    ensures |Decimal(n)| <= digits
  {
    if n >= 10 {
      assert digits > 1;
      DecimalLength(n / 10, Pow10(digits - 1), digits - 1);
    }
  }

  function Pow10(n: nat): (p: nat)
    ensures p > 0
  {
    if n == 0 then 1 else 10 * Pow10(n - 1)
  }

  lemma Pow10Plus5(n: nat)
    ensures Pow10(n + 5) == 100_000 * Pow10(n)
  {
    assert Pow10(n + 2) == 100 * Pow10(n);
    assert Pow10(n + 4) == 100 * Pow10(n + 2);
  }

  /** A 64-bit number prints in at most twenty digits. */
  lemma DecimalLengthU64(n: nat)
    requires n < U64_LIMIT
    ensures |Decimal(n)| <= 20
  {
    Pow10Plus5(0);
    Pow10Plus5(5);
    Pow10Plus5(10);
    Pow10Plus5(15);
    DecimalLength(n, U64_LIMIT, 20);
  }

  /** Without one leading plus sign. */
  function Unsigned(s: string): (digits: string)
    ensures s == digits || s == ['+'] + digits
  {
    if s != [] && s[0] == '+' then s[1..] else s
  }

  /** `str::parse::<u64>()`: an optional plus sign, then digits, leading zeros allowed */
  function ParseUnsigned(s: string): Option<nat> {
    var digits := Unsigned(s);
    if digits == [] || !AllDigits(digits) then None
    else if DecimalValue(digits) < U64_LIMIT then Some(DecimalValue(digits))
    else None
  }

  lemma ParseUnsignedOfDecimal(n: nat)
    requires n < U64_LIMIT
    ensures ParseUnsigned(Decimal(n)) == Some(n)
  {
    DecimalIsCanonical(n);
    assert IsDigit(Decimal(n)[0]);
  }

  lemma {:induction false} LeadingZero(s: string)
    requires AllDigits(s)
    ensures AllDigits(['0'] + s) && DecimalValue(['0'] + s) == DecimalValue(s)
  {
    if s == [] {
      assert ['0'] + s == ['0'] && ['0'][..0] == [];
    } else {
      LeadingZero(s[..|s| - 1]);
      assert (['0'] + s)[..|s|] == ['0'] + s[..|s| - 1];
    }
  }

  function ZeroDigits(n: nat): (s: string)
    ensures |s| == n
  {
    seq(n, _ => '0')
  }

  lemma ZeroDigitsStep(n: nat, s: string)
    requires n > 0
    ensures ZeroDigits(n) + s == ['0'] + (ZeroDigits(n - 1) + s)
  {
  }

  lemma {:induction false} LeadingZeroDigits(n: nat, s: string)
    requires AllDigits(s)
    ensures AllDigits(ZeroDigits(n) + s) && DecimalValue(ZeroDigits(n) + s) == DecimalValue(s)
  {
    if n == 0 {
      assert ZeroDigits(0) + s == s;
    } else {
      LeadingZeroDigits(n - 1, s);
      LeadingZero(ZeroDigits(n - 1) + s);
      ZeroDigitsStep(n, s);
    }
  }

  /** Digits are the printed number after some zeros. */
  lemma {:induction false} DigitsArePadded(s: string) returns (zeros: nat)
    requires s != [] && AllDigits(s)
    ensures s == ZeroDigits(zeros) + Decimal(DecimalValue(s))
  {
    if Canonical(s) {
      CanonicalIsDecimal(s);
      zeros := 0;
    } else {
      var fewer := DigitsArePadded(s[1..]);
      assert s == ['0'] + s[1..];
      LeadingZero(s[1..]);
      zeros := fewer + 1;
      ZeroDigitsStep(zeros, Decimal(DecimalValue(s)));
    }
  }

  /** The printed number after some zeros and perhaps a plus sign. */
  ghost predicate Numeral(s: string, n: nat) {
    exists zeros: nat :: s == ZeroDigits(zeros) + Decimal(n) || s == ['+'] + (ZeroDigits(zeros) + Decimal(n))
  }

  lemma PaddedIsNumeral(s: string, n: nat, zeros: nat)
    requires s == ZeroDigits(zeros) + Decimal(n) || s == ['+'] + (ZeroDigits(zeros) + Decimal(n))
    ensures Numeral(s, n)
  {
  }

  lemma DigitsAreParsed(digits: string)
    requires digits != [] && AllDigits(digits) && DecimalValue(digits) < U64_LIMIT
    ensures ParseUnsigned(digits) == Some(DecimalValue(digits))
    ensures ParseUnsigned(['+'] + digits) == Some(DecimalValue(digits))
  {
    assert IsDigit(digits[0]);
    assert (['+'] + digits)[1..] == digits;
  }

  lemma PaddedIsParsed(zeros: nat, n: nat)
    requires n < U64_LIMIT
    ensures ParseUnsigned(ZeroDigits(zeros) + Decimal(n)) == Some(n)
    ensures ParseUnsigned(['+'] + (ZeroDigits(zeros) + Decimal(n))) == Some(n)
  {
    LeadingZeroDigits(zeros, Decimal(n));
    DecimalIsCanonical(n);
    DigitsAreParsed(ZeroDigits(zeros) + Decimal(n));
  }

  lemma PlusIsNumeral(digits: string, n: nat)
    requires digits != [] && AllDigits(digits) && DecimalValue(digits) == n
    ensures Numeral(digits, n) && Numeral(['+'] + digits, n)
  {
    var zeros := DigitsArePadded(digits);
    PaddedIsNumeral(digits, n, zeros);
    PaddedIsNumeral(['+'] + digits, n, zeros);
  }

  lemma ParsedIsNumeral(s: string, n: nat)
    requires ParseUnsigned(s) == Some(n)
    ensures n < U64_LIMIT && Numeral(s, n)
  {
    PlusIsNumeral(Unsigned(s), n);
  }

  /** The lenient decimal decoder takes the printed number with leading zeros and a plus sign, and nothing else. */
  lemma ParseUnsignedIff(s: string, n: nat)
    ensures ParseUnsigned(s) == Some(n) <==> n < U64_LIMIT && Numeral(s, n)
  {
    if ParseUnsigned(s) == Some(n) {
      ParsedIsNumeral(s, n);
    }
    if n < U64_LIMIT && Numeral(s, n) {
      NumeralIsParsed(s, n);
    }
  }

  lemma NumeralIsParsed(s: string, n: nat)
    requires n < U64_LIMIT && Numeral(s, n)
    ensures ParseUnsigned(s) == Some(n)
  {
    var zeros: nat :| s == ZeroDigits(zeros) + Decimal(n) || s == ['+'] + (ZeroDigits(zeros) + Decimal(n));
    PaddedIsParsed(zeros, n);
  }

  lemma DigitsAreSolid(s: string)
    requires s != [] && AllDigits(s)
    ensures Solid(s) && Without(s, ' ') && Without(s, ',') && Without(s, '-') && Without(s, '\n') && Without(s, '\r')
  {
  }

  /** The printed form of a signed integer */
  function SignedDecimal(i: int): string {
    if i < 0 then ['-'] + Decimal(-i) else Decimal(i)
  }

  /** `parse_i64` of the directory manifest: canonical digits after an optional minus, but not "-0" */
  function ParseSigned(s: string): Option<int> {
    if s != [] && s[0] == '-' then ParseNegative(s[1..]) else ParseNonNegative(s)
  }

  function ParseNegative(body: string): Option<int> {
    if body == ['0'] || !Canonical(body) then None
    else if DecimalValue(body) <= 0x8000_0000_0000_0000 then Some(-(DecimalValue(body) as int))
    else None
  }

  function ParseNonNegative(body: string): Option<int> {
    if !Canonical(body) then None
    else if DecimalValue(body) < 0x8000_0000_0000_0000 then Some(DecimalValue(body))
    else None
  }

  predicate IsI64(i: int) { -0x8000_0000_0000_0000 <= i < 0x8000_0000_0000_0000 }

  lemma NegativeIsDecimal(body: string, i: int)
    requires ParseNegative(body) == Some(i)
    ensures IsI64(i) && i < 0 && body == Decimal(-i)
  {
    CanonicalIsDecimal(body);
    if DecimalValue(body) == 0 {
      ZeroText(body);
    }
  }

  lemma DecimalIsNegative(i: int)
    requires IsI64(i) && i < 0
    ensures ParseNegative(Decimal(-i)) == Some(i)
  {
    NonZeroDecimal(-i);
  }

  lemma ParseNegativeExact(body: string, i: int)
    ensures ParseNegative(body) == Some(i) <==> IsI64(i) && i < 0 && body == Decimal(-i)
  {
    if ParseNegative(body) == Some(i) {
      NegativeIsDecimal(body, i);
    }
    if IsI64(i) && i < 0 {
      DecimalIsNegative(i);
    }
  }

  lemma NonZeroDecimal(n: nat)
    requires n > 0
    ensures Canonical(Decimal(n)) && DecimalValue(Decimal(n)) == n && Decimal(n) != ['0']
  {
    DecimalIsCanonical(n);
  }

  lemma ZeroText(body: string)
    requires body == Decimal(0)
    ensures body == ['0']
  {
  }

  lemma ParseNonNegativeExact(body: string, i: int)
    ensures ParseNonNegative(body) == Some(i) <==> IsI64(i) && i >= 0 && body == Decimal(i)
  {
    if i >= 0 { DecimalIsCanonical(i); }
    if Canonical(body) {
      CanonicalIsDecimal(body);
    }
  }

  /** The strict signed decoder accepts exactly the printed form of a 64-bit signed number. */
  lemma ParseSignedExact(s: string, i: int)
    ensures ParseSigned(s) == Some(i) <==> IsI64(i) && s == SignedDecimal(i)
  {
    if s != [] && s[0] == '-' {
      ParseNegativeExact(s[1..], i);
      assert s == ['-'] + s[1..];
      assert i < 0 ==> SignedDecimal(i)[1..] == Decimal(-i);
      assert i >= 0 ==> IsDigit(SignedDecimal(i)[0]);
    } else {
      ParseNonNegativeExact(s, i);
      assert i < 0 ==> SignedDecimal(i)[0] == '-';
    }
  }

  // ----- hexadecimal -----

  predicate IsHexDigit(c: char) { IsDigit(c) || 'a' <= c <= 'f' }

  function HexChar(d: nat): (c: char)
    requires d < 16
    ensures IsHexDigit(c) && HexValue(c) == d
  {
    "0123456789abcdef"[d]
  }

  function HexValue(c: char): (d: nat)
    requires IsHexDigit(c)
    ensures d < 16 && c == "0123456789abcdef"[d]
  {
    if IsDigit(c) then c as int - '0' as int else c as int - 'a' as int + 10
  }

  predicate AllHex(s: string) { forall i :: 0 <= i < |s| ==> IsHexDigit(s[i]) }

  /** `hex(bytes)`: two lower-case digits per byte */
  function Hex(bytes: seq<Byte>): (s: string)
    ensures |s| == 2 * |bytes| && AllHex(s)
  {
    if bytes == [] then [] else [HexChar(bytes[0] / 16), HexChar(bytes[0] % 16)] + Hex(bytes[1..])
  }

  lemma TwoDigits(high: nat, low: nat)
    requires high < 16 && low < 16
    ensures 16 * high + low < 256 && (16 * high + low) / 16 == high && (16 * high + low) % 16 == low
  {
  }

  function PairValue(high: char, low: char): (b: Byte)
    requires IsHexDigit(high) && IsHexDigit(low)
    ensures HexChar(b / 16) == high && HexChar(b % 16) == low
  {
    TwoDigits(HexValue(high), HexValue(low));
    16 * HexValue(high) + HexValue(low)
  }

  function UnHex(s: string): (bytes: seq<Byte>)
    requires |s| % 2 == 0 && AllHex(s)
    ensures |bytes| == |s| / 2
  {
    if s == [] then [] else [PairValue(s[0], s[1])] + UnHex(s[2..])
  }

  lemma HexHead(bytes: seq<Byte>)
    requires bytes != []
    ensures PairValue(Hex(bytes)[0], Hex(bytes)[1]) == bytes[0]
    ensures Hex(bytes)[2..] == Hex(bytes[1..])
  {
  }

  lemma {:induction false} UnHexOfHex(bytes: seq<Byte>)
    ensures UnHex(Hex(bytes)) == bytes
  {
    if bytes != [] {
      HexHead(bytes);
      UnHexOfHex(bytes[1..]);
      assert bytes == [bytes[0]] + bytes[1..];
    }
  }

  lemma HexCons(b: Byte, rest: seq<Byte>)
    ensures Hex([b] + rest) == [HexChar(b / 16), HexChar(b % 16)] + Hex(rest)
  {
    assert ([b] + rest)[1..] == rest;
  }

  lemma {:induction false} HexOfUnHex(s: string)
    requires |s| % 2 == 0 && AllHex(s)
    ensures Hex(UnHex(s)) == s
    decreases |s|
  {
    if s != [] {
      var tail := s[2..];
      HexOfUnHex(tail);
      HexCons(PairValue(s[0], s[1]), UnHex(tail));
      assert s == [s[0], s[1]] + tail;
    }
  }

  /** The strict `decode_hex`: non-empty, even, lower case only */
  function DecodeHex(s: string): Option<seq<Byte>> {
    if s == [] || |s| % 2 != 0 || !AllHex(s) then None else Some(UnHex(s))
  }

  /** The strict `decode_hash`: 32 bytes */
  function DecodeHash(s: string): Option<seq<Byte>> {
    if |s| != 64 || !AllHex(s) then None else Some(UnHex(s))
  }

  /** Each strict hexadecimal decoder accepts exactly the printed form. */
  lemma DecodeHexExact(s: string, bytes: seq<Byte>)
    ensures DecodeHex(s) == Some(bytes) <==> bytes != [] && s == Hex(bytes)
    ensures DecodeHash(s) == Some(bytes) <==> |bytes| == 32 && s == Hex(bytes)
  {
    UnHexOfHex(bytes);
    if |s| % 2 == 0 && AllHex(s) {
      HexOfUnHex(s);
    }
  }

  lemma {:induction false} HexDigits(bytes: seq<Byte>)
    ensures forall i :: 0 <= i < |bytes| ==>
              Hex(bytes)[2 * i] == "0123456789abcdef"[bytes[i] / 16]
              && Hex(bytes)[2 * i + 1] == "0123456789abcdef"[bytes[i] % 16]
  {
    if bytes != [] {
      var rest := bytes[1..];
      HexDigits(rest);
      HexHead(bytes);
      forall i | 1 <= i < |bytes|
        ensures Hex(bytes)[2 * i] == "0123456789abcdef"[bytes[i] / 16]
                && Hex(bytes)[2 * i + 1] == "0123456789abcdef"[bytes[i] % 16]
      {
        assert Hex(bytes)[2 * i] == Hex(rest)[2 * (i - 1)] && Hex(bytes)[2 * i + 1] == Hex(rest)[2 * (i - 1) + 1];
        assert bytes[i] == rest[i - 1];
      }
    }
  }

  lemma HexIsSolid(s: string)
    requires AllHex(s)
    ensures s != [] ==> Solid(s)
    ensures Without(s, ' ') && Without(s, '\n') && Without(s, '\r') && Without(s, ',')
  {
  }

  /** The digits `u8::from_str_radix(_, 16)` takes: both letter cases */
  function AnyHexValue(c: char): (v: Option<nat>)
    ensures v.Some? ==> v.value < 16
  {
    if IsHexDigit(c) then Some(HexValue(c))
    else if 'A' <= c <= 'F' then Some(c as int - 'A' as int + 10)
    else None
  }

  function WithDigit(high: Option<nat>, low: Option<nat>): Option<nat> {
    if high.Some? && low.Some? then Some(16 * high.value + low.value) else None
  }

  /** `from_str_radix(s, 16)`: an optional plus sign, then digits of either case */
  function ParseHexDigits(s: string): Option<nat> {
    if s == [] then Some(0) else
      WithDigit(ParseHexDigits(s[..|s| - 1]), AnyHexValue(s[|s| - 1]))
  }

  function ParseHexWord(s: string): Option<nat> {
    var digits := Unsigned(s);
    if digits == [] then None else
      match ParseHexDigits(digits)
      case Some(v) => if v < U64_LIMIT then Some(v) else None
      case None => None
  }

  /** `decode_array`: fixed length, two characters a byte, each pair through `from_str_radix` */
  function DecodeLoose(s: string, bytes: nat): Option<seq<Byte>> {
    if |s| != 2 * bytes then None else DecodePairs(s)
  }

  function DecodePairs(s: string): Option<seq<Byte>>
    requires |s| % 2 == 0
  {
    if s == [] then Some([]) else
      match (ParseHexWord(s[..2]), DecodePairs(s[2..]))
      case (Some(b), Some(rest)) => if b < 256 then Some([b as Byte] + rest) else None
      case _ => None
  }

  lemma ParseHexPair(a: char, b: char)
    requires AnyHexValue(a).Some? && AnyHexValue(b).Some?
    ensures ParseHexWord([a, b]) == Some(16 * AnyHexValue(a).value + AnyHexValue(b).value)
  {
    assert [a, b][..1] == [a] && [a][..0] == [];
    assert ParseHexDigits([a]) == Some(AnyHexValue(a).value);
  }

  lemma {:induction false} DecodePairsOfHex(bytes: seq<Byte>)
    ensures DecodePairs(Hex(bytes)) == Some(bytes)
  {
    if bytes != [] {
      var s := Hex(bytes);
      HexHead(bytes);
      DecodePairsOfHex(bytes[1..]);
      assert s[..2] == [s[0], s[1]];
      ParseHexPair(s[0], s[1]);
      assert bytes == [bytes[0]] + bytes[1..];
    }
  }

  /** `decode_array` undoes `hex`. It also takes upper-case digits, so it is not the inverse. */
  lemma DecodeLooseOfHex(bytes: seq<Byte>)
    ensures DecodeLoose(Hex(bytes), |bytes|) == Some(bytes)
  {
    DecodePairsOfHex(bytes);
  }

  /** A digit of either case. */
  predicate DigitOf(c: char, v: nat) {
    v < 16 && (c == "0123456789abcdef"[v] || c == "0123456789ABCDEF"[v])
  }

  lemma AnyHexValueIff(c: char, v: nat)
    ensures AnyHexValue(c) == Some(v) <==> DigitOf(c, v)
  {
    if DigitOf(c, v) && !IsHexDigit(c) {
      assert c == "0123456789ABCDEF"[v];
    }
  }

  /** Two digits, or a plus sign and a digit. */
  predicate PairSpells(a: char, b: char, v: nat) {
    v < 256 && DigitOf(b, v % 16) && (DigitOf(a, v / 16) || (a == '+' && v < 16))
  }

  lemma ParseHexOne(a: char)
    ensures ParseHexDigits([a]) == AnyHexValue(a)
  {
    assert [a][..0] == [];
  }

  lemma ParseHexTwo(a: char, b: char)
    ensures ParseHexDigits([a, b]) == WithDigit(AnyHexValue(a), AnyHexValue(b))
  {
    ParseHexOne(a);
    assert [a, b][..1] == [a];
  }

  lemma WordOfTwo(a: char, b: char)
    ensures ParseHexWord([a, b]) == if a == '+' then AnyHexValue(b) else WithDigit(AnyHexValue(a), AnyHexValue(b))
  {
    if a == '+' {
      assert [a, b][1..] == [b];
      ParseHexOne(b);
    } else {
      ParseHexTwo(a, b);
    }
  }

  lemma PlusIsNoDigit(v: nat)
    ensures !DigitOf('+', v)
  {
    AnyHexValueIff('+', v);
  }

  lemma PlusPairIff(b: char, v: nat)
    ensures ParseHexWord(['+', b]) == Some(v) <==> PairSpells('+', b, v)
  {
    WordOfTwo('+', b);
    PlusIsNoDigit(v / 16);
    AnyHexValueIff(b, v);
  }

  lemma TwoDigitsIff(a: char, b: char, v: nat)
    requires a != '+'
    ensures ParseHexWord([a, b]) == Some(v) <==> PairSpells(a, b, v)
  {
    WordOfTwo(a, b);
    AnyHexValueIff(a, v / 16);
    AnyHexValueIff(b, v % 16);
    WithDigitIff(AnyHexValue(a), AnyHexValue(b), v);
  }

  lemma PairSpellsIff(a: char, b: char, v: nat)
    ensures ParseHexWord([a, b]) == Some(v) <==> PairSpells(a, b, v)
  {
    if a == '+' {
      PlusPairIff(b, v);
    } else {
      TwoDigitsIff(a, b, v);
    }
  }

  ghost predicate PairsSpell(s: string, bytes: seq<Byte>) {
    |s| == 2 * |bytes| && forall i :: 0 <= i < |bytes| ==> PairSpells(s[2 * i], s[2 * i + 1], bytes[i])
  }

  lemma PairsSpellCons(s: string, bytes: seq<Byte>)
    requires |s| >= 2 && bytes != []
    ensures PairsSpell(s, bytes) <==> PairSpells(s[0], s[1], bytes[0]) && PairsSpell(s[2..], bytes[1..])
  {
    if PairsSpell(s, bytes) {
      forall i | 0 <= i < |bytes| - 1 ensures PairSpells(s[2..][2 * i], s[2..][2 * i + 1], bytes[1..][i]) {
        assert PairSpells(s[2 * (i + 1)], s[2 * (i + 1) + 1], bytes[i + 1]);
      }
    }
    if PairSpells(s[0], s[1], bytes[0]) && PairsSpell(s[2..], bytes[1..]) {
      forall i | 1 <= i < |bytes| ensures PairSpells(s[2 * i], s[2 * i + 1], bytes[i]) {
        assert PairSpells(s[2..][2 * (i - 1)], s[2..][2 * (i - 1) + 1], bytes[1..][i - 1]);
      }
    }
  }

  lemma {:induction false} DecodePairsIff(s: string, bytes: seq<Byte>)
    requires |s| % 2 == 0
    ensures DecodePairs(s) == Some(bytes) <==> PairsSpell(s, bytes)
    decreases |s|
  {
    if s != [] && bytes != [] {
      assert s[..2] == [s[0], s[1]];
      PairSpellsIff(s[0], s[1], bytes[0]);
      DecodePairsIff(s[2..], bytes[1..]);
      PairsSpellCons(s, bytes);
      assert bytes == [bytes[0]] + bytes[1..];
    }
  }

  /** The loose decoder takes exactly the right number of pairs, each two digits or a plus sign and a digit. */
  lemma DecodeLooseIff(s: string, n: nat, bytes: seq<Byte>)
    ensures DecodeLoose(s, n) == Some(bytes) <==> |bytes| == n && PairsSpell(s, bytes)
  {
    if |s| == 2 * n {
      DecodePairsIff(s, bytes);
    }
  }

  /** `{w:0digits$x}` */
  function FixedHex(w: nat, digits: nat): (s: string)
    ensures |s| == digits && AllHex(s)
  {
    if digits == 0 then [] else FixedHex(w / 16, digits - 1) + [HexChar(w % 16)]
  }

  function Pow16(n: nat): (p: nat)
    ensures p > 0
  {
    if n == 0 then 1 else 16 * Pow16(n - 1)
  }

  lemma {:induction false} ParseFixedHex(w: nat, digits: nat)
    requires w < Pow16(digits)
    ensures ParseHexDigits(FixedHex(w, digits)) == Some(w)
  {
    if digits > 0 {
      var front := FixedHex(w / 16, digits - 1);
      ParseFixedHex(w / 16, digits - 1);
      assert FixedHex(w, digits) == front + [HexChar(w % 16)];
      assert FixedHex(w, digits)[..digits - 1] == front;
    }
  }

  /** The digit of `w` in base 16 with `k` digits after it. */
  function Place(w: nat, k: nat): (d: nat)
    ensures d < 16
  {
    w / Pow16(k) % 16
  }

  lemma PlaceStep(w: nat, k: nat)
    ensures Place(w, k + 1) == Place(w / 16, k) && Place(w, 0) == w % 16
  {
    assert Pow16(0) == 1;
    QuotientOfQuotient(w, 16, Pow16(k));
  }

  /** From the left, the digits of `w` in base 16. */
  ghost predicate HexPlaces(s: string, w: nat) {
    w < Pow16(|s|) && forall i :: 0 <= i < |s| ==> DigitOf(s[i], Place(w, |s| - 1 - i))
  }

  lemma HexPlacesToFront(s: string, w: nat)
    requires s != [] && HexPlaces(s, w)
    ensures HexPlaces(s[..|s| - 1], w / 16) && DigitOf(s[|s| - 1], w % 16)
  {
    var front := s[..|s| - 1];
    forall i | 0 <= i < |front| ensures DigitOf(front[i], Place(w / 16, |front| - 1 - i)) {
      PlaceStep(w, |front| - 1 - i);
      assert DigitOf(s[i], Place(w, |s| - 1 - i));
    }
    assert DigitOf(s[|front|], Place(w, 0));
    PlaceStep(w, 0);
  }

  lemma HexPlacesFromFront(s: string, w: nat)
    requires s != [] && HexPlaces(s[..|s| - 1], w / 16) && DigitOf(s[|s| - 1], w % 16)
    ensures HexPlaces(s, w)
  {
    var front := s[..|s| - 1];
    forall i | 0 <= i < |s| ensures DigitOf(s[i], Place(w, |s| - 1 - i)) {
      if i < |front| {
        PlaceStep(w, |front| - 1 - i);
        assert DigitOf(front[i], Place(w / 16, |front| - 1 - i));
      } else {
        PlaceStep(w, 0);
      }
    }
  }

  lemma SixteenTimes(high: nat, low: nat, w: nat)
    requires low < 16
    ensures 16 * high + low == w <==> high == w / 16 && low == w % 16
  {
  }

  lemma WithDigitIff(high: Option<nat>, low: Option<nat>, w: nat)
    requires low.Some? ==> low.value < 16
    ensures WithDigit(high, low) == Some(w) <==> high == Some(w / 16) && low == Some(w % 16)
  {
    if high.Some? && low.Some? { SixteenTimes(high.value, low.value, w); }
  }

  lemma ParseHexDigitsStep(s: string, w: nat)
    requires s != []
    ensures ParseHexDigits(s) == Some(w) <==>
            ParseHexDigits(s[..|s| - 1]) == Some(w / 16) && AnyHexValue(s[|s| - 1]) == Some(w % 16)
  {
    WithDigitIff(ParseHexDigits(s[..|s| - 1]), AnyHexValue(s[|s| - 1]), w);
  }

  lemma {:induction false} ParseHexDigitsIff(s: string, w: nat)
    ensures ParseHexDigits(s) == Some(w) <==> HexPlaces(s, w)
  {
    if s != [] {
      ParseHexDigitsIff(s[..|s| - 1], w / 16);
      ParseHexDigitsStep(s, w);
      AnyHexValueIff(s[|s| - 1], w % 16);
      if HexPlaces(s, w) { HexPlacesToFront(s, w); }
      if HexPlaces(s[..|s| - 1], w / 16) && DigitOf(s[|s| - 1], w % 16) { HexPlacesFromFront(s, w); }
    }
  }

  /** The lenient hexadecimal decoder takes the digits of a word in either case, after a plus sign or none. */
  lemma ParseHexWordIff(s: string, w: nat)
    ensures ParseHexWord(s) == Some(w) <==>
            w < U64_LIMIT && ((s != [] && HexPlaces(s, w)) || (|s| > 1 && s[0] == '+' && HexPlaces(s[1..], w)))
  {
    if s != [] && s[0] == '+' {
      ParseHexDigitsIff(s[1..], w);
      PlusIsNoDigit(Place(w, |s| - 1));
    } else {
      ParseHexDigitsIff(s, w);
    }
  }

  /** A bitmap word printed as sixteen digits is read back. */
  lemma ParseHexWordOfFixedHex(w: nat)
    requires w < U64_LIMIT
    ensures ParseHexWord(FixedHex(w, 16)) == Some(w)
  {
    assert Pow16(16) == U64_LIMIT by {
      assert Pow16(4) == 0x1_0000;
      assert Pow16(8) == 0x1_0000 * Pow16(4);
      assert Pow16(12) == 0x1_0000 * Pow16(8);
      assert Pow16(16) == 0x1_0000 * Pow16(12);
    }
    ParseFixedHex(w, 16);
    assert IsHexDigit(FixedHex(w, 16)[0]);
  }

  // ----- big-endian integers -----

  /** `to_be_bytes` of a `count`-byte unsigned integer */
  function BigEndian(n: nat, count: nat): (bytes: seq<Byte>)
    ensures |bytes| == count
  {
    if count == 0 then [] else BigEndian(n / 256, count - 1) + [n % 256]
  }

  /** `from_be_bytes` */
  function FromBigEndian(bytes: seq<Byte>): nat {
    if bytes == [] then 0 else 256 * FromBigEndian(bytes[..|bytes| - 1]) + bytes[|bytes| - 1]
  }

  function Pow256(n: nat): nat {
    if n == 0 then 1 else 256 * Pow256(n - 1)
  }

  lemma {:induction false} FromBigEndianOf(n: nat, count: nat)
    requires n < Pow256(count)
    ensures FromBigEndian(BigEndian(n, count)) == n
  {
    if count > 0 {
      FromBigEndianOf(n / 256, count - 1);
      assert BigEndian(n, count)[..count - 1] == BigEndian(n / 256, count - 1);
    }
  }

  lemma {:induction false} BigEndianOf(bytes: seq<Byte>)
    ensures BigEndian(FromBigEndian(bytes), |bytes|) == bytes && FromBigEndian(bytes) < Pow256(|bytes|)
  {
    if bytes != [] {
      BigEndianOf(bytes[..|bytes| - 1]);
      assert bytes == bytes[..|bytes| - 1] + [bytes[|bytes| - 1]];
    }
  }

  lemma Pow256Of8()
    ensures Pow256(8) == U64_LIMIT && Pow256(2) == 0x1_0000
  {
    assert Pow256(4) == 0x1_0000 * Pow256(2);
    assert Pow256(6) == 0x1_0000 * Pow256(4);
    assert Pow256(8) == 0x1_0000 * Pow256(6);
  }
}
