/** A reader of PDF files, and that it gets back from a written file the lines that went in. */
module PdfReader {
  import opened Prelude
  import opened PdfText
  import opened Pdf

  // ---- the reader

  function From(s: string, i: nat): string {
    if i <= |s| then s[i..] else ""
  }

  // How many characters at the end are digits.
  function TrailingDigits(s: string): (k: nat)
    ensures k <= |s| && forall i | |s| - k <= i < |s| :: IsDigit(s[i])
  {
    if s != "" && IsDigit(s[|s| - 1]) then 1 + TrailingDigits(s[..|s| - 1]) else 0
  }

  predicate EndsWith(s: string, text: string) {
    |text| <= |s| && s[|s| - |text|..] == text
  }

  const END_OF_FILE := "\n%%EOF\n"

  /** The offset after startxref, looked up from the end of the file. */
  function ReadStart(s: string): Option<nat> {
    if !("%PDF-1." <= s) || !EndsWith(s, END_OF_FILE) then None
    else
      var body := s[..|s| - |END_OF_FILE|];
      var k := TrailingDigits(body);
      if k == 0 || !EndsWith(body[..|body| - k], "startxref\n") then None else Some(Value(body[|body| - k..]))
  }

  /** The entries of the cross-reference table and their number. */
  function ReadTable(s: string): Option<(nat, string)> {
    var start := ReadStart(s);
    var head := if start.None? then None else Expect(From(s, start.value), "xref\n0 ");
    var count := if head.None? then None else ReadNumber(head.value);
    var entries := if count.None? then None else Expect(count.value.1, "\n");
    if entries.None? then None else Some((count.value.0, entries.value))
  }

  /** The number of the root object, from the trailer behind the table's entries. */
  function ReadTrailer(entries: string, count: nat): Option<nat> {
    var head := Expect(From(entries, 20 * count), "trailer\n<< /Size ");
    var size := if head.None? then None else ReadNumber(head.value);
    var next := if size.None? || size.value.0 != count then None else Expect(size.value.1, " /Root ");
    var root := if next.None? then None else ReadNumber(next.value);
    if root.None? || !(" 0 R >>\nstartxref\n" <= root.value.1) then None else Some(root.value.0)
  }

  function ReadOffset(entries: string, id: nat): Option<nat> {
    if 20 * id + 20 > |entries| then None
    else
      var entry := entries[20 * id..20 * id + 20];
      if DigitRun(entry) != 10 || entry[10..] != " 00000 n \n" then None else Some(Value(entry[..10]))
  }

  /** The text that begins inside the numbered object. */
  function ReadObject(s: string, entries: string, id: nat): Option<string> {
    var offset := ReadOffset(entries, id);
    var number := if offset.None? then None else ReadNumber(From(s, offset.value));
    if number.None? || number.value.0 != id then None else Expect(number.value.1, " 0 obj\n")
  }

  function ReadReferences(s: string): Option<(seq<nat>, string)>
    decreases |s|
  {
    var number := ReadNumber(s);
    var rest := if number.None? then None else Expect(number.value.1, " 0 R");
    if rest.None? then None
    else if rest.value != "" && rest.value[0] == ' ' then
      assert |number.value.1| <= |s|;
      var more := ReadReferences(rest.value[1..]);
      if more.None? then None else Some(([number.value.0] + more.value.0, more.value.1))
    else Some(([number.value.0], rest.value))
  }

  function ReadTextLines(s: string): Option<seq<string>>
    decreases |s|
  {
    if s == "ET\n" then Some([])
    else if s == "" || s[0] != '<' then None
    else
      var hex := ReadHex(s[1..]);
      var rest := if hex.None? then None else Expect(hex.value.1, " Tj\nT*\n");
      if rest.None? || |rest.value| >= |s| then None
      else
        var more := ReadTextLines(rest.value);
        if more.None? then None else Some([hex.value.0] + more.value)
  }

  /** A page's content stream, cut out by its Length. */
  function ReadStream(s: string, entries: string, id: nat): Option<string> {
    var content := ReadObject(s, entries, id);
    var head := if content.None? then None else Expect(content.value, "<< /Length ");
    var length := if head.None? then None else ReadNumber(head.value);
    var stream := if length.None? then None else Expect(length.value.1, " >>\nstream\n");
    if stream.None? || length.value.0 > |stream.value| || !("\nendstream" <= stream.value[length.value.0..]) then None
    else Some(stream.value[..length.value.0])
  }

  /** A page's size, the object of its font, and its content stream. */
  datatype Frame = Frame(width: nat, height: nat, font: nat, contents: nat)

  const FRAME_START := "<< /Type /Page /Parent 2 0 R /MediaBox [0 0 "

  function ReadFrame(text: string): Option<Frame> {
    var start := Expect(text, FRAME_START);
    var width := if start.None? then None else ReadNumber(start.value);
    var between := if width.None? then None else Expect(width.value.1, " ");
    var height := if between.None? then None else ReadNumber(between.value);
    var fonts := if height.None? then None else Expect(height.value.1, "] /Resources << /Font << /F1 ");
    var font := if fonts.None? then None else ReadNumber(fonts.value);
    var last := if font.None? then None else Expect(font.value.1, " 0 R >> >> /Contents ");
    var contents := if last.None? then None else ReadNumber(last.value);
    if contents.None? || !(" 0 R >>" <= contents.value.1) then None
    else Some(Frame(width.value.0, height.value.0, font.value.0, contents.value.0))
  }

  /** Where the first line stands, how large it is, and how far apart lines are. */
  datatype Setup = Setup(size: nat, left: nat, top: nat, leading: nat)

  function ReadSetup(text: string): Option<(Setup, string)> {
    var start := Expect(text, "BT\n/F1 ");
    var size := if start.None? then None else ReadNumber(start.value);
    var position := if size.None? then None else Expect(size.value.1, " Tf\n");
    var left := if position.None? then None else ReadNumber(position.value);
    var between := if left.None? then None else Expect(left.value.1, " ");
    var top := if between.None? then None else ReadNumber(between.value);
    var spacing := if top.None? then None else Expect(top.value.1, " Td\n");
    var leading := if spacing.None? then None else ReadNumber(spacing.value);
    var rest := if leading.None? then None else Expect(leading.value.1, " TL\n");
    if rest.None? then None
    else Some((Setup(size.value.0, left.value.0, top.value.0, leading.value.0), rest.value))
  }

  datatype Page = Page(width: nat, height: nat, setup: Setup, lines: seq<string>)

  /** Each line begins left of the right edge, and from its base line its height is on the page. */
  predicate OnPage(page: Page) {
    && page.setup.left < page.width
    && forall k | 0 <= k < |page.lines| ::
         0 < page.setup.top - k * page.setup.leading <= page.height - page.setup.size
  }

  function ReadPage(s: string, entries: string, id: nat): Option<Page> {
    var page := ReadObject(s, entries, id);
    var frame := if page.None? then None else ReadFrame(page.value);
    var font := if frame.None? then None else ReadObject(s, entries, frame.value.font);
    if font.None? || !("<< /Type /Font /Subtype /Type0 " <= font.value) then None
    else
      var stream := ReadStream(s, entries, frame.value.contents);
      var setup := if stream.None? then None else ReadSetup(stream.value);
      var lines := if setup.None? then None else ReadTextLines(setup.value.1);
      if lines.None? then None
      else Some(Page(frame.value.width, frame.value.height, setup.value.0, lines.value))
  }

  function ReadPages(s: string, entries: string, ids: seq<nat>): Option<seq<Page>> {
    if ids == [] then Some([])
    else
      var first := ReadPage(s, entries, ids[0]);
      var rest := ReadPages(s, entries, ids[1..]);
      if first.None? || rest.None? then None else Some([first.value] + rest.value)
  }

  function ReadRoot(text: string): Option<nat> {
    var root := Expect(text, "<< /Type /Catalog /Pages ");
    var pages := if root.None? then None else ReadNumber(root.value);
    if pages.None? || !(" 0 R" <= pages.value.1) then None else Some(pages.value.0)
  }

  function ReadTree(text: string): Option<seq<nat>> {
    var head := Expect(text, "<< /Type /Pages /Kids [");
    var kids := if head.None? then None else ReadReferences(head.value);
    var count := if kids.None? then None else Expect(kids.value.1, "] /Count ");
    var number := if count.None? then None else ReadNumber(count.value);
    if number.None? || number.value.0 != |kids.value.0| then None else Some(kids.value.0)
  }

  function ReadKids(s: string, entries: string, catalogID: nat): Option<seq<nat>> {
    var catalog := ReadObject(s, entries, catalogID);
    var root := if catalog.None? then None else ReadRoot(catalog.value);
    var tree := if root.None? then None else ReadObject(s, entries, root.value);
    if tree.None? then None else ReadTree(tree.value)
  }

  /** Every page, in the order of the page tree. */
  function Read(s: string): Option<seq<Page>> {
    var table := ReadTable(s);
    var root := if table.None? then None else ReadTrailer(table.value.1, table.value.0);
    var kids := if root.None? then None else ReadKids(s, table.value.1, root.value);
    if kids.None? then None else ReadPages(s, table.value.1, kids.value)
  }

  // ---- the table

  lemma {:induction false} TrailingRun(s: string, k: nat)
    requires k <= |s| && forall i | |s| - k <= i < |s| :: IsDigit(s[i])
    requires k < |s| ==> !IsDigit(s[|s| - k - 1])
    ensures TrailingDigits(s) == k
    decreases k
  {
    if k > 0 {
      TrailingRun(s[..|s| - 1], k - 1);
    }
  }

  lemma StartReadBack(before: string, xref: nat)
    requires "%PDF-1." <= before
    ensures ReadStart(before + ("startxref\n" + (Decimal(xref) + TAIL))) == Some(xref)
  {
    hide Decimal, Value, TrailingDigits;
    var s := before + ("startxref\n" + (Decimal(xref) + TAIL));
    var body := before + "startxref\n" + Decimal(xref);
    var k := |Decimal(xref)|;
    assert s == body + TAIL;
    assert s[..|s| - |TAIL|] == body && s[|s| - |TAIL|..] == TAIL && TAIL == END_OF_FILE;
    assert body[|body| - k..] == Decimal(xref) && body[..|body| - k] == before + "startxref\n";
    assert (before + "startxref\n")[|before + "startxref\n"| - |"startxref\n"|..] == "startxref\n";
    forall i | |body| - k <= i < |body| ensures IsDigit(body[i]) {
      assert body[i] == Decimal(xref)[i - (|body| - k)];
    }
    assert body[|body| - k - 1] == '\n';
    TrailingRun(body, k);
    DecimalValue(xref);
  }

  lemma AtMeans(s: string, i: nat, text: string)
    requires At(s, i, text)
    ensures From(s, i) == text + s[i + |text|..]
  {
  }

  lemma TrailerReadBack(s: string, bodies: seq<string>, offsets: seq<nat>, xref: nat)
    requires LaidOut(s, bodies, offsets, xref)
    ensures ReadStart(s) == Some(xref)
  {
    hide EntriesAt, ReadStart, TableHead, Decimal, TAIL, ObjectText;
    var count := |bodies|;
    var cut := |s| - |Trailer(count, xref)|;
    var head := "trailer\n<< /Size " + (Decimal(count) + " /Root 1 0 R >>\n");
    var last := "startxref\n" + (Decimal(xref) + TAIL);
    assert Trailer(count, xref) == head + last;
    assert s == s[..cut] + Trailer(count, xref) by { EndIsAt(s, cut, Trailer(count, xref)); }
    assert s == (s[..cut] + head) + last;
    HeaderComesFirst(s, bodies, offsets, xref, cut);
    StartReadBack(s[..cut] + head, xref);
  }

  lemma HeaderComesFirst(s: string, bodies: seq<string>, offsets: seq<nat>, xref: nat, cut: nat)
    requires LaidOut(s, bodies, offsets, xref) && cut == |s| - |Trailer(|bodies|, xref)|
    ensures "%PDF-1." <= s[..cut]
  {
    hide EntriesAt, Trailer, ObjectText, TableHead;
    assert |HEADER| <= xref by { HeaderBefore(s, bodies, offsets, xref); }
    assert s[..|HEADER|] == HEADER;
  }

  lemma HeaderBefore(s: string, bodies: seq<string>, offsets: seq<nat>, end: nat)
    requires ObjectsAt(s, bodies, offsets, end)
    ensures |HEADER| <= end
  {
    hide ObjectText, HEADER;
    if |bodies| > 1 {
      OffsetsClimb(s, bodies, offsets, end, |bodies| - 1);
    }
  }

  lemma NextObject(s: string, bodies: seq<string>, offsets: seq<nat>, end: nat, id: nat)
    requires ObjectsAt(s, bodies, offsets, end) && 0 < id < |bodies|
    ensures offsets[id] <= if id + 1 < |bodies| then offsets[id + 1] else end
  {
    assert offsets[id] + |ObjectText(id, bodies[id])| >= offsets[id];
  }

  lemma {:induction false} OffsetsClimb(s: string, bodies: seq<string>, offsets: seq<nat>, end: nat, id: nat)
    requires ObjectsAt(s, bodies, offsets, end) && 0 < id < |bodies|
    ensures |HEADER| <= offsets[id] && (id + 1 == |bodies| ==> offsets[id] <= end)
    decreases id
  {
    hide ObjectText, HEADER;
    if id > 1 {
      OffsetsClimb(s, bodies, offsets, end, id - 1);
      NextObject(s, bodies, offsets, end, id - 1);
    }
    NextObject(s, bodies, offsets, end, id);
  }

  lemma RootIsRead(s: string, bodies: seq<string>, offsets: seq<nat>, xref: nat)
    requires LaidOut(s, bodies, offsets, xref)
    ensures ReadTrailer(s[xref + |TableHead(|bodies|)|..], |bodies|) == Some(1)
  {
    hide ObjectsAt, EntriesAt, TableHead, ReadNumber, Expect;
    var count := |bodies|;
    var table := xref + |TableHead(count)|;
    AtMeans(s, table + 20 * count, Trailer(count, xref));
    assert From(s[table..], 20 * count) == From(s, table + 20 * count);
    assert From(s, table + 20 * count) == Trailer(count, xref);
    TrailerIsRead(count, xref);
  }

  lemma TrailerParts(count: nat, xref: nat)
    ensures Trailer(count, xref) == "trailer\n<< /Size " + (Decimal(count) +
      (" /Root " + ("1" + (" 0 R >>\nstartxref\n" + (Decimal(xref) + TAIL)))))
  {
    hide TAIL, Decimal;
    var end := Decimal(xref) + TAIL;
    assert " /Root 1 0 R >>\n" + ("startxref\n" + end) == " /Root " + ("1" + (" 0 R >>\nstartxref\n" + end));
  }

  lemma TrailerIsRead(count: nat, xref: nat)
    ensures var head := Expect(Trailer(count, xref), "trailer\n<< /Size ");
      && head.Some? && ReadNumber(head.value).Some? && ReadNumber(head.value).value.0 == count
      && var next := Expect(ReadNumber(head.value).value.1, " /Root ");
      && next.Some? && ReadNumber(next.value).Some? && ReadNumber(next.value).value.0 == 1
      && " 0 R >>\nstartxref\n" <= ReadNumber(next.value).value.1
  {
    hide TAIL, ReadNumber, Decimal, Trailer, Expect;
    var last := " 0 R >>\nstartxref\n" + (Decimal(xref) + TAIL);
    SmallNumbers();
    TrailerParts(count, xref);
    var rooted := " /Root " + (Decimal(1) + last);
    Expected("trailer\n<< /Size ", Decimal(count) + rooted);
    NumberReadBack(count, rooted);
    Expected(" /Root ", Decimal(1) + last);
    NumberReadBack(1, last);
  }

  lemma EndIsAt(s: string, cut: nat, text: string)
    requires At(s, cut, text) && |s| == cut + |text|
    ensures s == s[..cut] + text
  {
  }

  lemma TableReadBack(s: string, bodies: seq<string>, offsets: seq<nat>, xref: nat)
    requires LaidOut(s, bodies, offsets, xref)
    ensures ReadTable(s) == Some((|bodies|, s[xref + |TableHead(|bodies|)|..]))
  {
    hide ObjectsAt, EntriesAt, ReadStart, ReadNumber, Decimal, Expect, Trailer;
    var count := |bodies|;
    var entries := s[xref + |TableHead(count)|..];
    TrailerReadBack(s, bodies, offsets, xref);
    AtMeans(s, xref, TableHead(count));
    var tail := Decimal(count) + ("\n" + entries);
    assert From(s, xref) == "xref\n0 " + tail;
    Expected("xref\n0 ", tail);
    NumberReadBack(count, "\n" + entries);
    Expected("\n", entries);
  }

  lemma OffsetReadBack(s: string, offsets: seq<nat>, count: nat, table: nat, id: nat)
    requires count <= |offsets| && EntriesAt(s, offsets, count, table) && 0 < id < count
    ensures ReadOffset(s[table..], id) == Some(offsets[id])
  {
    var entry := Entry(offsets[id]);
    assert At(s, table + 20 * id, entry) && |entry| == 20;
    var entries := s[table..];
    assert entries[20 * id..20 * id + 20] == entry;
    TenDigitsReadBack(offsets[id]);
    assert entry[..10] == TenDigits(offsets[id]) && entry[10..] == IN_USE == " 00000 n \n";
    assert entry[10] == ' ';
    RunStops(entry, 10);
  }

  /** Each object is found where the table says, and its text begins there. */
  lemma ObjectReadBack(s: string, bodies: seq<string>, offsets: seq<nat>, xref: nat, id: nat) returns (rest: string)
    requires LaidOut(s, bodies, offsets, xref) && 0 < id < |bodies|
    ensures ReadObject(s, s[xref + |TableHead(|bodies|)|..], id) == Some(bodies[id] + rest)
    ensures rest != "" && rest[0] == '\n'
  {
    hide EntriesAt, TableHead, Trailer;
    var entries := s[xref + |TableHead(|bodies|)|..];
    OffsetReadBack(s, offsets, |bodies|, xref + |TableHead(|bodies|)|, id);
    var text := ObjectText(id, bodies[id]);
    AtMeans(s, offsets[id], text);
    rest := "\nendobj\n" + s[offsets[id] + |text|..];
    var inner := " 0 obj\n" + (bodies[id] + rest);
    assert text + s[offsets[id] + |text|..] == Decimal(id) + inner;
    NumberReadBack(id, inner);
    Expected(" 0 obj\n", bodies[id] + rest);
  }

  // ---- pages

  lemma ReferenceRead(id: nat, rest: string)
    requires rest == "" || rest[0] != ' '
    ensures ReadReferences(Decimal(id) + (" 0 R" + rest)) == Some(([id], rest))
  {
    hide ReadNumber, Decimal, Expect;
    NumberReadBack(id, " 0 R" + rest);
    Expected(" 0 R", rest);
  }

  lemma ReferenceReadBefore(id: nat, next: string)
    requires ReadReferences(next).Some?
    ensures var more := ReadReferences(next).value;
      ReadReferences(Decimal(id) + (" 0 R" + (" " + next))) == Some(([id] + more.0, more.1))
  {
    hide ReadNumber, Decimal, Expect;
    NumberReadBack(id, " 0 R" + (" " + next));
    Expected(" 0 R", " " + next);
    assert (" " + next)[1..] == next;
  }

  lemma {:induction false} ReferencesReadBack(ids: seq<nat>, rest: string)
    requires ids != [] && rest != "" && rest[0] == ']'
    ensures ReadReferences(Kids(ids) + rest) == Some((ids, rest))
    decreases |ids|
  {
    hide ReadReferences, Decimal;
    if |ids| == 1 {
      assert Kids(ids) + rest == Decimal(ids[0]) + (" 0 R" + rest);
      ReferenceRead(ids[0], rest);
      assert ids == [ids[0]];
    } else {
      var next := Kids(ids[1..]) + rest;
      assert Kids(ids) + rest == Decimal(ids[0]) + (" 0 R" + (" " + next));
      ReferencesReadBack(ids[1..], rest);
      ReferenceReadBefore(ids[0], next);
      assert ids == [ids[0]] + ids[1..];
    }
  }

  function PrintableLines(lines: seq<string>): (r: seq<string>)
    ensures |r| == |lines| && forall i | 0 <= i < |lines| :: r[i] == PrintableLine(lines[i])
  {
    if lines == [] then [] else [PrintableLine(lines[0])] + PrintableLines(lines[1..])
  }

  lemma {:induction false} TextReadBack(lines: seq<string>)
    ensures ReadTextLines(TextLines(lines)) == Some(PrintableLines(lines))
    decreases |lines|
  {
    var s := TextLines(lines);
    if lines != [] {
      var next := TextLines(lines[1..]);
      var tail := " Tj\nT*\n" + next;
      assert s[0] == '<' && s[1..] == UCS2Hex(lines[0]) + (">" + tail);
      HexReadBack(lines[0], tail);
      Expected(" Tj\nT*\n", next);
      TextReadBack(lines[1..]);
    }
  }

  lemma StreamReadBack(s: string, bodies: seq<string>, offsets: seq<nat>, xref: nat, id: nat, stream: string)
    requires LaidOut(s, bodies, offsets, xref) && 0 < id < |bodies| && bodies[id] == ContentObject(stream)
    ensures ReadStream(s, s[xref + |TableHead(|bodies|)|..], id) == Some(stream)
  {
    hide LaidOut, ReadObject;
    var rest := ObjectReadBack(s, bodies, offsets, xref, id);
    var after := stream + ("\nendstream" + rest);
    var sized := " >>\nstream\n" + after;
    assert bodies[id] + rest == "<< /Length " + (Decimal(|stream|) + sized);
    Expected("<< /Length ", Decimal(|stream|) + sized);
    NumberReadBack(|stream|, sized);
    Expected(" >>\nstream\n", after);
    assert after[..|stream|] == stream && after[|stream|..] == "\nendstream" + rest;
  }

  lemma SmallNumbers()
    ensures Decimal(1) == "1" && Decimal(3) == "3" && Decimal(10) == "10" && Decimal(14) == "14" && Decimal(50) == "50"
    ensures Decimal(595) == "595" && Decimal(800) == "800" && Decimal(842) == "842"
  {
  }

  lemma FrameIs()
    ensures PAGE_HEAD == FRAME_START + ("595" + (" " + ("842" + ("] /Resources << /Font << /F1 " + ("3" +
      " 0 R >> >> /Contents ")))))
  {
  }

  lemma FrameReadBack(contents: nat, rest: string)
    ensures ReadFrame(PageObject(contents) + rest) == Some(Frame(595, 842, 3, contents))
  {
    hide ReadNumber, Expect, Decimal, PAGE_HEAD, FRAME_START;
    var last := " 0 R >>" + rest;
    var fonts := " 0 R >> >> /Contents " + (Decimal(contents) + last);
    var height := "] /Resources << /Font << /F1 " + (Decimal(3) + fonts);
    var width := " " + (Decimal(842) + height);
    SmallNumbers();
    FrameIs();
    assert PageObject(contents) + rest == FRAME_START + (Decimal(595) + width);
    Expected(FRAME_START, Decimal(595) + width);
    NumberReadBack(595, width);
    Expected(" ", Decimal(842) + height);
    NumberReadBack(842, height);
    Expected("] /Resources << /Font << /F1 ", Decimal(3) + fonts);
    NumberReadBack(3, fonts);
    Expected(" 0 R >> >> /Contents ", Decimal(contents) + last);
    NumberReadBack(contents, last);
  }

  lemma SetupIs()
    ensures TEXT_HEAD == "BT\n/F1 " + ("10" + (" Tf\n" + ("50" + (" " + ("800" + (" Td\n" + ("14" + " TL\n")))))))
  {
  }

  lemma SetupReadBack(rest: string)
    ensures ReadSetup(TEXT_HEAD + rest) == Some((Setup(10, 50, 800, 14), rest))
  {
    hide ReadNumber, Expect, Decimal, TEXT_HEAD;
    var leading := " TL\n" + rest;
    var top := " Td\n" + (Decimal(14) + leading);
    var left := " " + (Decimal(800) + top);
    var size := " Tf\n" + (Decimal(50) + left);
    SmallNumbers();
    SetupIs();
    assert TEXT_HEAD + rest == "BT\n/F1 " + (Decimal(10) + size);
    Expected("BT\n/F1 ", Decimal(10) + size);
    NumberReadBack(10, size);
    Expected(" Tf\n", Decimal(50) + left);
    NumberReadBack(50, left);
    Expected(" ", Decimal(800) + top);
    NumberReadBack(800, top);
    Expected(" Td\n", Decimal(14) + leading);
    NumberReadBack(14, leading);
    Expected(" TL\n", rest);
  }

  function PageOf(lines: seq<string>): Page {
    Page(595, 842, Setup(10, 50, 800, 14), PrintableLines(lines))
  }

  lemma FontIsFont(rest: string)
    ensures "<< /Type /Font /Subtype /Type0 " <= FONT + rest
  {
    var head := "<< /Type /Font /Subtype /Type0 ";
    assert (FONT + rest)[..|head|] == FONT[..|head|] == head;
  }

  lemma PageReadBack(s: string, lines: seq<string>, offsets: seq<nat>, xref: nat, page: nat)
    requires LaidOut(s, Bodies(lines), offsets, xref) && page < PageCount(lines)
    ensures ReadPage(s, s[xref + |TableHead(|Bodies(lines)|)|..], 5 + 2 * page) ==
      Some(PageOf(PageLines(lines, page)))
  {
    hide LaidOut, ReadObject, ReadStream, ReadFrame, ReadSetup, ReadTextLines, PageObject, ContentObject, PageCount,
      PageLines, Body, FONT, TEXT_HEAD, TableHead, TextLines;
    var bodies := Bodies(lines);
    PageBodies(lines, page);
    FixedBodies(lines);
    var rest := ObjectReadBack(s, bodies, offsets, xref, 5 + 2 * page);
    FrameReadBack(6 + 2 * page, rest);
    var fontRest := ObjectReadBack(s, bodies, offsets, xref, 3);
    FontIsFont(fontRest);
    StreamReadBack(s, bodies, offsets, xref, 6 + 2 * page, Stream(PageLines(lines, page)));
    SetupReadBack(TextLines(PageLines(lines, page)));
    TextReadBack(PageLines(lines, page));
  }

  /** What is read for the pages from `page` on. */
  function PagesFrom(lines: seq<string>, page: nat): seq<Page>
    requires page <= PageCount(lines)
    decreases PageCount(lines) - page
  {
    if page == PageCount(lines) then [] else [PageOf(PageLines(lines, page))] + PagesFrom(lines, page + 1)
  }

  lemma {:induction false} PagesReadBack(s: string, lines: seq<string>, offsets: seq<nat>, xref: nat, page: nat)
    requires LaidOut(s, Bodies(lines), offsets, xref) && page <= PageCount(lines)
    ensures ReadPages(s, s[xref + |TableHead(|Bodies(lines)|)|..], KidIDs(page, PageCount(lines))) ==
      Some(PagesFrom(lines, page))
    decreases PageCount(lines) - page
  {
    hide LaidOut, ReadPage, PageLines, TableHead;
    if page < PageCount(lines) {
      PageReadBack(s, lines, offsets, xref, page);
      PagesReadBack(s, lines, offsets, xref, page + 1);
      assert KidIDs(page, PageCount(lines))[1..] == KidIDs(page + 1, PageCount(lines));
    }
  }

  lemma RootReadBack(rest: string)
    ensures ReadRoot(CATALOG + rest) == Some(2)
  {
    var tail := " 0 R >>" + rest;
    assert Decimal(2) == "2";
    assert CATALOG + rest == "<< /Type /Catalog /Pages " + (Decimal(2) + tail);
    Expected("<< /Type /Catalog /Pages ", Decimal(2) + tail);
    NumberReadBack(2, tail);
  }

  lemma TreeReadBack(count: nat, rest: string)
    requires count > 0
    ensures ReadTree(PagesObject(count) + rest) == Some(KidIDs(0, count))
  {
    hide Kids, ReadReferences, ReadNumber;
    var ids := KidIDs(0, count);
    var last := Decimal(count) + (" >>" + rest);
    var tail := "] /Count " + last;
    assert PagesObject(count) + rest == PAGES_HEAD + (Kids(ids) + tail);
    Expected(PAGES_HEAD, Kids(ids) + tail);
    ReferencesReadBack(ids, tail);
    Expected("] /Count ", last);
    NumberReadBack(count, " >>" + rest);
  }

  lemma KidsReadBack(s: string, lines: seq<string>, offsets: seq<nat>, xref: nat)
    requires LaidOut(s, Bodies(lines), offsets, xref) && PageCount(lines) > 0
    ensures ReadKids(s, s[xref + |TableHead(|Bodies(lines)|)|..], 1) == Some(KidIDs(0, PageCount(lines)))
  {
    hide LaidOut, ReadObject, PageCount, TableHead, PagesObject, CATALOG, ReadRoot, ReadTree;
    var bodies := Bodies(lines);
    var catalogRest := ObjectReadBack(s, bodies, offsets, xref, 1);
    RootReadBack(catalogRest);
    var treeRest := ObjectReadBack(s, bodies, offsets, xref, 2);
    TreeReadBack(PageCount(lines), treeRest);
  }

  /** Reading a written file gives the lines back, page by page. */
  lemma WrittenFileReadsBack(s: string, lines: seq<string>, offsets: seq<nat>, xref: nat)
    requires lines != [] && Written(s, Bodies(lines), offsets, xref) && xref < OFFSET_LIMIT
    ensures Read(s) == Some(PagesFrom(lines, 0))
  {
    hide Written, LaidOut, ReadTable, ReadTrailer, ReadKids, ReadPages, PagesFrom, Bodies;
    WrittenIsLaidOut(s, Bodies(lines), offsets, xref);
    TableReadBack(s, Bodies(lines), offsets, xref);
    RootIsRead(s, Bodies(lines), offsets, xref);
    KidsReadBack(s, lines, offsets, xref);
    PagesReadBack(s, lines, offsets, xref, 0);
  }

  /** The lines of all pages, in order. */
  function Flatten(pages: seq<Page>): seq<string> {
    if pages == [] then [] else pages[0].lines + Flatten(pages[1..])
  }

  predicate AllButLastFull(pages: seq<Page>) {
    forall i | 0 <= i < |pages| - 1 :: |pages[i].lines| == 50
  }

  lemma PageBounds(size: nat, page: nat)
    requires page < (size + 49) / 50
    ensures page * 50 < size
    ensures if page + 1 < (size + 49) / 50 then (page + 1) * 50 < size else (page + 1) * 50 >= size
  {
  }

  lemma {:induction false} PrintableSlice(lines: seq<string>, start: nat, end: nat)
    requires start <= end <= |lines|
    ensures PrintableLines(lines[start..end]) == PrintableLines(lines)[start..end]
  {
    hide PrintableLine;
    var part := lines[start..end];
    assert forall i | 0 <= i < |part| :: PrintableLines(part)[i] == PrintableLine(lines[start + i]);
  }

  lemma PageSlice(lines: seq<string>, page: nat)
    requires page < PageCount(lines)
    ensures var start, next := page * LINES_PER_PAGE, (page + 1) * LINES_PER_PAGE;
      var end := if page + 1 < PageCount(lines) then next else |lines|;
      start < end <= |lines| && PrintableLines(PageLines(lines, page)) == PrintableLines(lines)[start..end]
  {
    hide PrintableLines;
    PageBounds(|lines|, page);
    var start, next := page * LINES_PER_PAGE, (page + 1) * LINES_PER_PAGE;
    var end := if page + 1 < PageCount(lines) then next else |lines|;
    assert PageLines(lines, page) == lines[start..end];
    PrintableSlice(lines, start, end);
  }

  /** The printable lines from a page on. */
  function LinesFrom(lines: seq<string>, page: nat): seq<string>
    requires page <= PageCount(lines)
  {
    if page < PageCount(lines) then
      PageSlice(lines, page);
      PrintableLines(lines)[page * LINES_PER_PAGE..]
    else []
  }

  lemma LinesFromSplits(lines: seq<string>, page: nat)
    requires page < PageCount(lines)
    ensures LinesFrom(lines, page) == PrintableLines(PageLines(lines, page)) + LinesFrom(lines, page + 1)
  {
    hide PageLines, PrintableLines, PageCount;
    PageSlice(lines, page);
  }

  lemma {:induction false} PagesHoldRest(lines: seq<string>, page: nat)
    requires page <= PageCount(lines)
    ensures Flatten(PagesFrom(lines, page)) == LinesFrom(lines, page)
    ensures forall p | p in PagesFrom(lines, page) :: 0 < |p.lines| <= 50 && OnPage(p)
    decreases PageCount(lines) - page
  {
    hide PageCount, PageLines, LinesFrom, PrintableLines;
    if page < PageCount(lines) {
      PagesHoldRest(lines, page + 1);
      LinesFromSplits(lines, page);
      var rest := PagesFrom(lines, page + 1);
      assert ([PageOf(PageLines(lines, page))] + rest)[1..] == rest;
    } else {
      assert LinesFrom(lines, page) == [] by { NoLinesLeft(lines, page); }
    }
  }

  lemma {:induction false} PagesAreFull(lines: seq<string>, page: nat)
    requires page <= PageCount(lines)
    ensures AllButLastFull(PagesFrom(lines, page))
    decreases PageCount(lines) - page
  {
    hide PageCount, PageLines, PrintableLines, AllButLastFull;
    if page < PageCount(lines) {
      PagesAreFull(lines, page + 1);
      PageSlice(lines, page);
      FullBefore(PageOf(PageLines(lines, page)), PagesFrom(lines, page + 1));
    } else {
      assert AllButLastFull([]) by { NoPages(); }
    }
  }

  lemma NoPages()
    ensures AllButLastFull([])
  {
  }

  lemma FullBefore(first: Page, rest: seq<Page>)
    requires AllButLastFull(rest) && (rest != [] ==> |first.lines| == 50)
    ensures AllButLastFull([first] + rest)
  {
  }

  lemma NoLinesLeft(lines: seq<string>, page: nat)
    requires page == PageCount(lines)
    ensures LinesFrom(lines, page) == []
  {
  }

  /** No page is empty or holds more than fifty lines, all of them on the page, and together they hold every line. */
  lemma PagesHoldEveryLine(lines: seq<string>)
    requires lines != []
    ensures Flatten(PagesFrom(lines, 0)) == PrintableLines(lines)
    ensures forall p | p in PagesFrom(lines, 0) :: 0 < |p.lines| <= 50 && OnPage(p)
    ensures AllButLastFull(PagesFrom(lines, 0))
  {
    PagesHoldRest(lines, 0);
    PagesAreFull(lines, 0);
    assert PrintableLines(lines)[0..] == PrintableLines(lines);
  }

  /**
   A written file below 10^10 bytes reads back to pages of at most fifty lines,
   all of them on the page and together the printable lines.
   */
  lemma FileReadsBack(s: string, lines: seq<string>)
    requires lines != [] && IsFileOf(s, lines) && |s| <= OFFSET_LIMIT
    ensures Read(s).Some? && Flatten(Read(s).value) == PrintableLines(lines)
    ensures forall p | p in Read(s).value :: 0 < |p.lines| <= 50 && OnPage(p)
    ensures AllButLastFull(Read(s).value)
  {
    hide Read, Written, Flatten, PrintableLines, PagesFrom;
    var offsets: seq<nat>, xref: nat :| Written(s, Bodies(lines), offsets, xref);
    assert xref < |s| by { TableFollows(s, Bodies(lines), offsets, xref); }
    WrittenFileReadsBack(s, lines, offsets, xref);
    PagesHoldEveryLine(lines);
  }

  lemma TableFollows(s: string, bodies: seq<string>, offsets: seq<nat>, xref: nat)
    requires Written(s, bodies, offsets, xref)
    ensures xref < |s|
  {
    hide Trailer, Entries, Decimal, ObjectsAt;
  }
}
