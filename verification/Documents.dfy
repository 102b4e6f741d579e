/**
  The shape both manifest formats share: a header line with a count, that many item lines, and a footer
  line with the digest of everything before it. Given exact codecs for single lines, reading and printing
  whole documents undo each other.
*/
module Documents {
  import opened Outcomes
  import opened Text
  import opened Disks

  /** How one line is printed and read. */
  datatype Codec<!T> = Codec(show: T -> string, parse: string -> Option<T>, valid: T -> bool)

  /** The reader accepts exactly the printed forms of valid values, and those contain no line break. */
  ghost predicate Exact<T(!new)>(c: Codec<T>) {
    && (forall line: string, x: T :: c.parse(line) == Some(x) <==> c.valid(x) && line == c.show(x))
    && (forall x: T :: c.valid(x) ==> Without(c.show(x), '\n') && Without(c.show(x), '\r'))
  }

  function PrintAll<T>(c: Codec<T>, items: seq<T>): (lines: seq<string>)
    ensures |lines| == |items| && forall i :: 0 <= i < |items| ==> lines[i] == c.show(items[i])
  {
    seq(|items|, i requires 0 <= i < |items| => c.show(items[i]))
  }

  function ParseAll<T>(c: Codec<T>, lines: seq<string>): Option<seq<T>> {
    if lines == [] then Some([]) else
      match (c.parse(lines[0]), ParseAll(c, lines[1..]))
      case (Some(x), Some(rest)) => Some([x] + rest)
      case _ => None
  }

  predicate AllValid<T>(c: Codec<T>, items: seq<T>) {
    forall i :: 0 <= i < |items| ==> c.valid(items[i])
  }

  lemma {:induction false} ParsedPrint<T(!new)>(c: Codec<T>, lines: seq<string>)
    requires Exact(c) && ParseAll(c, lines).Some?
    ensures lines == PrintAll(c, ParseAll(c, lines).value) && AllValid(c, ParseAll(c, lines).value)
  {
    if lines != [] {
      ParsedPrint(c, lines[1..]);
      var x, rest := c.parse(lines[0]).value, ParseAll(c, lines[1..]).value;
      assert c.parse(lines[0]) == Some(x);
      assert PrintAll(c, [x] + rest) == [c.show(x)] + PrintAll(c, rest);
      assert lines == [lines[0]] + lines[1..];
    }
  }

  lemma {:induction false} PrintedParse<T(!new)>(c: Codec<T>, items: seq<T>)
    requires Exact(c) && AllValid(c, items)
    ensures ParseAll(c, PrintAll(c, items)) == Some(items)
  {
    if items == [] {
      assert PrintAll(c, items) == [];
    } else {
      PrintedParse(c, items[1..]);
      var lines := PrintAll(c, items);
      assert lines[1..] == PrintAll(c, items[1..]);
      assert c.parse(c.show(items[0])) == Some(items[0]);
      assert items == [items[0]] + items[1..];
    }
  }

  /** Reading a list of lines stops at the first that is not accepted. */
  lemma {:induction false} ParseAllFails<T>(c: Codec<T>, lines: seq<string>, i: nat)
    requires i < |lines| && c.parse(lines[i]).None?
    ensures ParseAll(c, lines).None?
  {
    if i > 0 {
      ParseAllFails(c, lines[1..], i - 1);
    }
  }

  lemma {:induction false} ParseAllSnoc<T>(c: Codec<T>, lines: seq<string>, line: string)
    ensures ParseAll(c, lines + [line]) ==
            match (ParseAll(c, lines), c.parse(line))
            case (Some(items), Some(x)) => Some(items + [x])
            case _ => None
  {
    if lines == [] {
      assert lines + [line] == [line] && [line][1..] == [];
      match c.parse(line)
      case Some(x) => assert [x] + [] == [x] && [] + [x] == [x];
      case None =>
    } else {
      ParseAllSnoc(c, lines[1..], line);
      assert (lines + [line])[1..] == lines[1..] + [line];
      match (c.parse(lines[0]), ParseAll(c, lines[1..]), c.parse(line))
      case (Some(x), Some(items), Some(y)) => assert [x] + (items + [y]) == [x] + items + [y];
      case _ =>
    }
  }

  lemma {:induction false} JoinWithout(fields: seq<string>, c: char)
    requires AllWithout(fields, c) && c != ' '
    ensures Without(Join(fields, ' '), c)
  {
    if |fields| > 1 {
      JoinWithout(fields[1..], c);
    }
  }

  lemma {:induction false} ParseAllPrefix<T>(c: Codec<T>, lines: seq<string>, i: nat)
    requires i <= |lines| && ParseAll(c, lines).Some?
    ensures |ParseAll(c, lines).value| == |lines|
    ensures ParseAll(c, lines[..i]) == Some(ParseAll(c, lines).value[..i])
  {
    if lines != [] {
      var items := ParseAll(c, lines).value;
      ParseAllPrefix(c, lines[1..], if i == 0 then 0 else i - 1);
      if i > 0 {
        assert lines[..i][1..] == lines[1..][..i - 1] && lines[..i][0] == lines[0];
        assert items[..i] == [items[0]] + items[1..][..i - 1];
      }
    }
  }

  // ----- documents -----

  datatype Document<H, T> = Document(header: H, items: seq<T>, hash: Bytes)

  datatype Format<!H, !T> = Format(
    header: Codec<H>, item: Codec<T>, count: H -> nat, footer: string, maxItems: nat, maxBytes: nat,
    digest: string -> Bytes, check: (H, seq<T>) -> bool)

  ghost predicate Sound<H(!new), T(!new)>(f: Format<H, T>) {
    && Exact(f.header) && Exact(f.item)
    && Without(f.footer, '\n') && Without(f.footer, '\r')
  }

  function BodyLines<H, T>(f: Format<H, T>, header: H, items: seq<T>): (lines: seq<string>)
    ensures |lines| == |items| + 1
  {
    [f.header.show(header)] + PrintAll(f.item, items)
  }

  /** Everything the digest covers. */
  function Body<H, T>(f: Format<H, T>, header: H, items: seq<T>): string {
    Unlines(BodyLines(f, header, items))
  }

  function Encode<H, T>(f: Format<H, T>, d: Document<H, T>): string {
    Body(f, d.header, d.items) + (f.footer + Hex(d.hash) + "\n")
  }

  predicate ValidDocument<H, T>(f: Format<H, T>, d: Document<H, T>) {
    && f.header.valid(d.header) && f.count(d.header) == |d.items| <= f.maxItems
    && AllValid(f.item, d.items)
    && |d.hash| == 32 && d.hash == f.digest(Body(f, d.header, d.items))
    && f.check(d.header, d.items)
  }

  function ParseFooter(tag: string, line: string): Option<Bytes> {
    if tag <= line then DecodeHash(line[|tag|..]) else None
  }

  predicate WellTerminated(text: string, maxBytes: nat) {
    |text| <= maxBytes && text != [] && text[|text| - 1] == '\n' && Without(text, '\r')
  }

  function ParseLines<H, T(==)>(f: Format<H, T>, lines: seq<string>): Option<Document<H, T>> {
    if lines == [] then None else
      match f.header.parse(lines[0])
      case None => None
      case Some(header) =>
        var count := f.count(header);
        if count > f.maxItems || |lines| != count + 2 then None else
          match (ParseAll(f.item, lines[1..count + 1]), ParseFooter(f.footer, lines[count + 1]))
          case (Some(items), Some(hash)) =>
            var body := Unlines(lines[..count + 1]);
            if hash != f.digest(body) || !f.check(header, items) || Body(f, header, items) != body then None
            else Some(Document(header, items, hash))
          case _ => None
  }

  function Parse<H, T(==)>(f: Format<H, T>, text: string): Option<Document<H, T>> {
    if WellTerminated(text, f.maxBytes) then ParseLines(f, Lines(text)) else None
  }

  // ----- exactness -----

  lemma ParseFooterExact(tag: string, line: string, hash: Bytes)
    ensures ParseFooter(tag, line) == Some(hash) <==> |hash| == 32 && line == tag + Hex(hash)
  {
    if tag <= line {
      DecodeHexExact(line[|tag|..], hash);
      assert line == tag + line[|tag|..];
    }
  }

  function AllLines<H, T>(f: Format<H, T>, d: Document<H, T>): (lines: seq<string>)
    ensures |lines| == |d.items| + 2
  {
    BodyLines(f, d.header, d.items) + [f.footer + Hex(d.hash)]
  }

  lemma EncodeIsLines<H, T>(f: Format<H, T>, d: Document<H, T>)
    ensures Encode(f, d) == Unlines(AllLines(f, d))
    ensures Encode(f, d) != [] && Encode(f, d)[|Encode(f, d)| - 1] == '\n'
  {
    var footer := f.footer + Hex(d.hash);
    UnlinesConcat(BodyLines(f, d.header, d.items), [footer]);
    assert [footer][1..] == [];
    assert Unlines([footer]) == footer + "\n";
  }

  lemma LinesWithoutBreaks<H(!new), T(!new)>(f: Format<H, T>, d: Document<H, T>, c: char)
    requires Sound(f) && f.header.valid(d.header) && AllValid(f.item, d.items) && (c == '\n' || c == '\r')
    ensures AllWithout(AllLines(f, d), c)
  {
    HexIsSolid(Hex(d.hash));
    var lines := AllLines(f, d);
    forall i | 0 <= i < |lines| ensures Without(lines[i], c) {
      if i == 0 {
      } else if i <= |d.items| {
        assert lines[i] == f.item.show(d.items[i - 1]) && f.item.valid(d.items[i - 1]);
      } else {
        assert lines[i] == f.footer + Hex(d.hash);
      }
    }
  }

  lemma {:induction false} UnlinesWithout(lines: seq<string>, c: char)
    requires AllWithout(lines, c) && c != '\n'
    ensures Without(Unlines(lines), c)
  {
    if lines != [] {
      UnlinesWithout(lines[1..], c);
    }
  }

  lemma ParsedLinesPrint<H(!new), T(!new)>(f: Format<H, T>, lines: seq<string>)
    requires Sound(f) && ParseLines(f, lines).Some?
    ensures var d := ParseLines(f, lines).value; lines == AllLines(f, d) && ValidDocument(f, d)
  {
    var header := f.header.parse(lines[0]).value;
    var count := f.count(header);
    assert f.header.parse(lines[0]) == Some(header);
    ParsedPrint(f.item, lines[1..count + 1]);
    var d := ParseLines(f, lines).value;
    ParseFooterExact(f.footer, lines[count + 1], d.hash);
    ThreeParts(lines, count);
    assert lines[..count + 1] == BodyLines(f, header, d.items);
  }

  lemma ThreeParts(lines: seq<string>, count: nat)
    requires |lines| == count + 2
    ensures lines[..count + 1] == [lines[0]] + lines[1..count + 1]
    ensures lines == lines[..count + 1] + [lines[count + 1]]
  {
  }

  lemma PrintedLinesParse<H(!new), T(!new)>(f: Format<H, T>, d: Document<H, T>)
    requires Sound(f) && ValidDocument(f, d)
    ensures ParseLines(f, AllLines(f, d)) == Some(d)
  {
    var lines, count := AllLines(f, d), |d.items|;
    assert f.header.parse(lines[0]) == Some(d.header);
    assert lines[1..count + 1] == PrintAll(f.item, d.items);
    PrintedParse(f.item, d.items);
    ParseFooterExact(f.footer, lines[count + 1], d.hash);
    assert lines[..count + 1] == BodyLines(f, d.header, d.items);
  }

  /** The codec is a bijection between the valid documents within the byte limit and the accepted texts. */
  lemma ParseExact<H(!new), T(!new)>(f: Format<H, T>, text: string, d: Document<H, T>)
    requires Sound(f)
    ensures Parse(f, text) == Some(d) <==> ValidDocument(f, d) && text == Encode(f, d) && |text| <= f.maxBytes
  {
    EncodeIsLines(f, d);
    if Parse(f, text) == Some(d) {
      ParsedLinesPrint(f, Lines(text));
      LinesIffUnlines(text, Lines(text));
    }
    if ValidDocument(f, d) && text == Encode(f, d) && |text| <= f.maxBytes {
      LinesWithoutBreaks(f, d, '\n');
      LinesWithoutBreaks(f, d, '\r');
      UnlinesWithout(AllLines(f, d), '\r');
      LinesIffUnlines(text, AllLines(f, d));
      PrintedLinesParse(f, d);
    }
  }

  /**
    These are the lines of the text: the header, one for each item, and the footer with the digest of what
    precedes.
  */
  ghost predicate Written<H(!new), T(!new)>(f: Format<H, T>, text: string, d: Document<H, T>, lines: seq<string>) {
    var n := |d.items|;
    && text == Unlines(lines) && |lines| == n + 2
    && f.header.parse(lines[0]) == Some(d.header) && f.count(d.header) == n <= f.maxItems
    && (forall i :: 0 <= i < n ==> f.item.parse(lines[i + 1]) == Some(d.items[i]))
    && |d.hash| == 32 && lines[n + 1] == f.footer + Hex(d.hash) && d.hash == f.digest(Unlines(lines[..n + 1]))
    && f.check(d.header, d.items)
  }

  lemma WrittenIsAllLines<H(!new), T(!new)>(f: Format<H, T>, text: string, d: Document<H, T>, lines: seq<string>)
    requires Sound(f) && Written(f, text, d, lines)
    ensures lines == AllLines(f, d) && ValidDocument(f, d) && text == Encode(f, d)
  {
    var n := |d.items|;
    EncodeIsLines(f, d);
    forall i | 0 <= i < n ensures lines[i + 1] == f.item.show(d.items[i]) && f.item.valid(d.items[i]) {
      assert f.item.parse(lines[i + 1]) == Some(d.items[i]);
    }
    assert lines == AllLines(f, d);
    assert lines[..n + 1] == BodyLines(f, d.header, d.items);
  }

  lemma AllLinesAreWritten<H(!new), T(!new)>(f: Format<H, T>, d: Document<H, T>)
    requires Sound(f) && ValidDocument(f, d)
    ensures Written(f, Encode(f, d), d, AllLines(f, d))
  {
    var lines, n := AllLines(f, d), |d.items|;
    EncodeIsLines(f, d);
    assert f.header.parse(lines[0]) == Some(d.header);
    forall i | 0 <= i < n ensures f.item.parse(lines[i + 1]) == Some(d.items[i]) {
      assert lines[i + 1] == f.item.show(d.items[i]);
    }
    assert lines[..n + 1] == BodyLines(f, d.header, d.items);
  }

  /**
    A text is accepted if and only if it fits and is such lines, one after another: the digest covers all lines but the
    last, and the last holds it.
  */
  lemma ParseIff<H(!new), T(!new)>(f: Format<H, T>, text: string, d: Document<H, T>)
    requires Sound(f)
    ensures Parse(f, text) == Some(d) <==> |text| <= f.maxBytes && exists lines :: Written(f, text, d, lines)
  {
    ParseExact(f, text, d);
    if Parse(f, text) == Some(d) { AllLinesAreWritten(f, d); }
    forall lines | Written(f, text, d, lines) ensures ValidDocument(f, d) && text == Encode(f, d) {
      WrittenIsAllLines(f, text, d, lines);
    }
  }

  // ----- printing and reading, line by line -----

  /** `canonical_body`: the header, then one line after another. */
  method PrintBody<H, T>(f: Format<H, T>, header: H, items: seq<T>) returns (body: string)
    ensures body == Body(f, header, items)
  {
    body := f.header.show(header) + "\n";
    var i := 0;
    UnlinesSnoc([], f.header.show(header));
    while i < |items|
      invariant 0 <= i <= |items| && body == Unlines([f.header.show(header)] + PrintAll(f.item, items)[..i])
    {
      var line := f.item.show(items[i]);
      NextItemLine(f.header.show(header), PrintAll(f.item, items), i);
      body := body + (line + "\n");
      i := i + 1;
    }
    assert PrintAll(f.item, items)[..i] == PrintAll(f.item, items);
  }

  lemma UnlinesSnoc(lines: seq<string>, line: string)
    ensures Unlines(lines + [line]) == Unlines(lines) + (line + "\n")
  {
    UnlinesConcat(lines, [line]);
    assert [line][1..] == [];
    assert Unlines([line]) == line + "\n";
  }

  lemma NextItemLine(head: string, lines: seq<string>, i: nat)
    requires i < |lines|
    ensures Unlines([head] + lines[..i + 1]) == Unlines([head] + lines[..i]) + (lines[i] + "\n")
  {
    assert [head] + lines[..i + 1] == [head] + lines[..i] + [lines[i]];
    UnlinesSnoc([head] + lines[..i], lines[i]);
  }

  lemma NextParsed<T>(c: Codec<T>, lines: seq<string>, i: nat)
    requires i < |lines|
    ensures ParseAll(c, lines[..i + 1]) ==
            match (ParseAll(c, lines[..i]), c.parse(lines[i]))
            case (Some(items), Some(x)) => Some(items + [x])
            case _ => None
  {
    assert lines[..i + 1] == lines[..i] + [lines[i]];
    ParseAllSnoc(c, lines[..i], lines[i]);
  }

  /** The item lines, collected with the text they make up; `None` at the first that is not accepted. */
  method ReadItems<T>(c: Codec<T>, lines: seq<string>) returns (items: Option<seq<T>>)
    ensures items == ParseAll(c, lines)
  {
    var read: seq<T> := [];
    var i := 0;
    while i < |lines|
      invariant 0 <= i <= |lines| && ParseAll(c, lines[..i]) == Some(read)
    {
      NextParsed(c, lines, i);
      var x := c.parse(lines[i]);
      if x.None? {
        ParseAllFails(c, lines, i);
        return None;
      }
      read := read + [x.value];
      i := i + 1;
    }
    assert lines[..i] == lines;
    return Some(read);
  }
}
