/**
 The PDF writer (`backend/handlers/article_exports.go`) and a reader that
 follows the file as section 7.5 of ISO 32000-1 lays it out: from startxref to
 the cross-reference table, to the page tree, to each page's content stream.
 A byte is a character below 256.
 */
module Pdf {
  import opened PdfText

  const LINES_PER_PAGE := 50
  const OFFSET_LIMIT := 10000000000

  // ---- what is written

  const HEADER := "%PDF-1.4\n%\U{E2}\U{E3}\U{CF}\U{D3}\n"
  const CATALOG := "<< /Type /Catalog /Pages 2 0 R >>"
  const FONT := "<< /Type /Font /Subtype /Type0 "
    + "/BaseFont /STSong-Light /Encoding /UniGB-UCS2-H /DescendantFonts [4 0 R] >>"
  const CID_FONT := "<< /Type /Font /Subtype /CIDFontType0 /BaseFont /STSong-Light "
    + "/CIDSystemInfo << /Registry (Adobe) /Ordering (GB1) /Supplement 4 >> /DW 1000 >>"
  const PAGES_HEAD := "<< /Type /Pages /Kids ["
  const PAGE_HEAD := "<< /Type /Page /Parent 2 0 R /MediaBox [0 0 595 842"
    + "] /Resources << /Font << /F1 3 0 R >> >> /Contents "
  const TEXT_HEAD := "BT\n/F1 10 Tf\n50 800 Td\n14 TL\n"
  const FREE_ENTRY := "0000000000 65535 f \n"
  const IN_USE := " 00000 n \n"
  const TAIL := "\n%%EOF\n"

  function Kids(ids: seq<nat>): string {
    if ids == [] then ""
    else if |ids| == 1 then Decimal(ids[0]) + " 0 R"
    else Decimal(ids[0]) + (" 0 R" + (" " + Kids(ids[1..])))
  }

  function KidIDs(from: nat, count: nat): (ids: seq<nat>)
    requires from <= count
    ensures |ids| == count - from && forall i | 0 <= i < |ids| :: ids[i] == 5 + 2 * (from + i)
    decreases count - from
  {
    if from == count then [] else [5 + 2 * from] + KidIDs(from + 1, count)
  }

  function PagesObject(count: nat): string {
    PAGES_HEAD + (Kids(KidIDs(0, count)) + ("] /Count " + (Decimal(count) + " >>")))
  }

  function PageObject(contentID: nat): string {
    PAGE_HEAD + (Decimal(contentID) + " 0 R >>")
  }

  function TextLines(lines: seq<string>): string {
    if lines == [] then "ET\n" else "<" + (UCS2Hex(lines[0]) + (">" + (" Tj\nT*\n" + TextLines(lines[1..]))))
  }

  function Stream(lines: seq<string>): string {
    TEXT_HEAD + TextLines(lines)
  }

  function ContentObject(stream: string): string {
    "<< /Length " + (Decimal(|stream|) + (" >>\nstream\n" + (stream + "\nendstream")))
  }

  function PageCount(lines: seq<string>): nat {
    (|lines| + LINES_PER_PAGE - 1) / LINES_PER_PAGE
  }

  function PageLines(lines: seq<string>, page: nat): (r: seq<string>)
    requires page < PageCount(lines)
    ensures 0 < |r| <= LINES_PER_PAGE
  {
    var start := page * LINES_PER_PAGE;
    lines[start..if start + LINES_PER_PAGE > |lines| then |lines| else start + LINES_PER_PAGE]
  }

  function ObjectCount(lines: seq<string>): nat {
    5 + 2 * PageCount(lines)
  }

  function Body(lines: seq<string>, id: nat): string
    requires 0 < id < ObjectCount(lines)
  {
    if id == 1 then CATALOG
    else if id == 2 then PagesObject(PageCount(lines))
    else if id == 3 then FONT
    else if id == 4 then CID_FONT
    else if (id - 5) % 2 == 0 then PageObject(id + 1)
    else ContentObject(Stream(PageLines(lines, (id - 6) / 2)))
  }

  /** The objects by number; number 0 is not an object. */
  function Bodies(lines: seq<string>): (r: seq<string>)
    ensures |r| == ObjectCount(lines)
  {
    seq(ObjectCount(lines), id requires 0 <= id < ObjectCount(lines) => if id == 0 then "" else Body(lines, id))
  }

  function ObjectText(id: nat, body: string): string {
    Decimal(id) + (" 0 obj\n" + (body + "\nendobj\n"))
  }

  function TableHead(count: nat): string {
    "xref\n0 " + (Decimal(count) + "\n")
  }

  function Entry(offset: nat): string {
    TenDigits(offset) + IN_USE
  }

  /** The table's entries; number 0 heads the list of free objects. */
  function Entries(offsets: seq<nat>): string {
    if |offsets| <= 1 then FREE_ENTRY else Entries(offsets[..|offsets| - 1]) + Entry(offsets[|offsets| - 1])
  }

  function Trailer(count: nat, xref: nat): string {
    "trailer\n<< /Size " + (Decimal(count) + (" /Root 1 0 R >>\n" + ("startxref\n" + (Decimal(xref) + TAIL))))
  }

  // ---- the layout of the file

  predicate At(s: string, i: nat, text: string) {
    i + |text| <= |s| && s[i..i + |text|] == text
  }

  /** Objects follow the header one after the other, each at its recorded offset. */
  ghost predicate ObjectsAt(s: string, bodies: seq<string>, offsets: seq<nat>, end: nat) {
    && |offsets| == |bodies|
    && At(s, 0, HEADER) && (if |bodies| > 1 then offsets[1] else end) == |HEADER|
    && (forall id | 0 < id < |bodies| :: At(s, offsets[id], ObjectText(id, bodies[id])))
    && (forall id | 0 < id < |bodies| ::
          offsets[id] + |ObjectText(id, bodies[id])| == if id + 1 < |bodies| then offsets[id + 1] else end)
  }

  /** Each object's table entry takes 20 bytes and holds its offset. */
  ghost predicate EntriesAt(s: string, offsets: seq<nat>, count: nat, table: nat)
    requires count <= |offsets|
  {
    && At(s, table, FREE_ENTRY) && |FREE_ENTRY| == 20
    && forall id | 0 < id < count :: At(s, table + 20 * id, Entry(offsets[id])) && |Entry(offsets[id])| == 20
  }

  ghost predicate LaidOut(s: string, bodies: seq<string>, offsets: seq<nat>, xref: nat) {
    var count := |bodies|;
    var table := xref + |TableHead(count)|;
    && ObjectsAt(s, bodies, offsets, xref)
    && At(s, xref, TableHead(count)) && EntriesAt(s, offsets, count, table)
    && At(s, table + 20 * count, Trailer(count, xref))
    && |s| == table + 20 * count + |Trailer(count, xref)|
  }

  /** The whole file, of any size: the objects, the table that starts at `xref`, and the trailer. */
  ghost predicate Written(s: string, bodies: seq<string>, offsets: seq<nat>, xref: nat) {
    && xref <= |s| && |bodies| > 0 && ObjectsAt(s[..xref], bodies, offsets, xref)
    && s == s[..xref] + (TableHead(|bodies|) + (Entries(offsets) + Trailer(|bodies|, xref)))
  }

  /** The file that holds these lines, with some offsets of its objects. */
  ghost predicate IsFileOf(s: string, lines: seq<string>) {
    exists offsets: seq<nat>, xref: nat :: Written(s, Bodies(lines), offsets, xref)
  }

  // ---- writing

  lemma StillAt(s: string, more: string, i: nat, text: string)
    requires At(s, i, text)
    ensures At(s + more, i, text)
  {
  }

  lemma AtEnd(s: string, text: string)
    ensures At(s + text, |s|, text)
  {
  }

  lemma EntrySize(offset: nat)
    requires offset < OFFSET_LIMIT
    ensures |Entry(offset)| == 20
  {
    TenDigitsReadBack(offset);
  }

  method WriteContent(lines: seq<string>) returns (content: string)
    ensures content == Stream(lines)
  {
    content := TEXT_HEAD;
    for i := 0 to |lines|
      invariant content + TextLines(lines[i..]) == Stream(lines)
    {
      assert lines[i..][1..] == lines[i + 1..];
      var line := "<" + (UCS2Hex(lines[i]) + (">" + " Tj\nT*\n"));
      assert line + TextLines(lines[i + 1..]) == TextLines(lines[i..]);
      content := content + line;
    }
    content := content + "ET\n";
  }

  lemma PageBodies(lines: seq<string>, page: nat)
    requires page < PageCount(lines)
    ensures Body(lines, 5 + 2 * page) == PageObject(6 + 2 * page)
    ensures Body(lines, 6 + 2 * page) == ContentObject(Stream(PageLines(lines, page)))
  {
    hide PageLines, Stream, ContentObject, PageObject, PageCount;
    assert (6 + 2 * page - 5) % 2 == 1 && (6 + 2 * page - 6) / 2 == page;
  }

  method BuildObjects(lines: seq<string>) returns (objects: array<string>)
    ensures fresh(objects) && objects[..] == Bodies(lines)
  {
    hide Body, Bodies, PageLines, Stream, ContentObject, PageObject, PagesObject, Kids, Decimal;
    var pageCount := (|lines| + LINES_PER_PAGE - 1) / LINES_PER_PAGE;
    objects := new string[5 + pageCount * 2](_ => "");
    objects[1] := CATALOG;
    var kids: seq<nat> := [];
    for page := 0 to pageCount
      invariant |kids| == page && forall i | 0 <= i < page :: kids[i] == 5 + 2 * i
      invariant objects[0] == "" && objects[1] == CATALOG
    {
      kids := kids + [5 + page * 2];
    }
    objects[2] := PAGES_HEAD + (Kids(kids) + ("] /Count " + (Decimal(pageCount) + " >>")));
    objects[3] := FONT;
    objects[4] := CID_FONT;
    assert kids == KidIDs(0, pageCount);
    FixedBodies(lines);
    WritePages(objects, lines);
  }

  /** The page objects and their streams, from number 5 on. */
  method WritePages(objects: array<string>, lines: seq<string>)
    requires objects.Length == ObjectCount(lines) && objects[0] == ""
    requires forall id | 0 < id < 5 :: objects[id] == Body(lines, id)
    modifies objects
    ensures objects[..] == Bodies(lines)
  {
    hide Body, Bodies, PageLines, Stream, ContentObject, PageObject;
    for page := 0 to PageCount(lines)
      invariant objects[0] == "" && forall id | 0 < id < 5 + 2 * page :: objects[id] == Body(lines, id)
    {
      var pageID := 5 + page * 2;
      var contentID := pageID + 1;
      objects[pageID] := PageObject(contentID);
      var start := page * LINES_PER_PAGE;
      var end := start + LINES_PER_PAGE;
      if end > |lines| {
        end := |lines|;
      }
      PageIs(lines, page);
      var stream := WriteContent(lines[start..end]);
      objects[contentID] := ContentObject(stream);
      PageBodies(lines, page);
    }
    AllBodies(objects[..], lines);
  }

  lemma PageIs(lines: seq<string>, page: nat)
    requires page < PageCount(lines)
    ensures var start := page * LINES_PER_PAGE;
      start <= |lines| && PageLines(lines, page) ==
        lines[start..if start + LINES_PER_PAGE > |lines| then |lines| else start + LINES_PER_PAGE]
  {
  }

  lemma AllBodies(objects: seq<string>, lines: seq<string>)
    requires |objects| == ObjectCount(lines) && objects[0] == ""
    requires forall id | 0 < id < |objects| :: objects[id] == Body(lines, id)
    ensures objects == Bodies(lines)
  {
    hide Body;
  }

  lemma FixedBodies(lines: seq<string>)
    ensures Body(lines, 1) == CATALOG && Body(lines, 3) == FONT && Body(lines, 4) == CID_FONT
    ensures Body(lines, 2) ==
      PAGES_HEAD + (Kids(KidIDs(0, PageCount(lines))) + ("] /Count " + (Decimal(PageCount(lines)) + " >>")))
  {
  }

  method WriteObjects(objects: array<string>) returns (output: string, offsets: seq<nat>)
    requires objects.Length > 0
    ensures ObjectsAt(output, objects[..], offsets, |output|)
  {
    hide ObjectText, HEADER;
    output := HEADER;
    offsets := [0];
    AtEnd("", HEADER);
    assert "" + HEADER == HEADER;
    for id := 1 to objects.Length
      invariant ObjectsAt(output, objects[..id], offsets, |output|)
    {
      var text := ObjectText(id, objects[id]);
      assert objects[..id + 1] == objects[..id] + [objects[id]];
      ObjectsGrow(output, objects[..id], offsets, objects[id]);
      offsets := offsets + [|output|];
      output := output + text;
    }
    assert objects[..objects.Length] == objects[..];
  }

  lemma ObjectsGrow(s: string, bodies: seq<string>, offsets: seq<nat>, body: string)
    requires |bodies| > 0 && ObjectsAt(s, bodies, offsets, |s|)
    ensures var after := s + ObjectText(|bodies|, body);
      ObjectsAt(after, bodies + [body], offsets + [|s|], |after|)
  {
    hide ObjectText, HEADER;
    var text := ObjectText(|bodies|, body);
    var bodies', offsets', end := bodies + [body], offsets + [|s|], |s + text|;
    StillAt(s, text, 0, HEADER);
    AtEnd(s, text);
    forall id | 0 < id < |bodies'|
      ensures At(s + text, offsets'[id], ObjectText(id, bodies'[id]))
      ensures offsets'[id] + |ObjectText(id, bodies'[id])| == if id + 1 < |bodies'| then offsets'[id + 1] else end
    {
      if id < |bodies| {
        assert bodies'[id] == bodies[id] && offsets'[id] == offsets[id];
        assert offsets[id] + |ObjectText(id, bodies[id])| == if id + 1 < |bodies| then offsets[id + 1] else |s|;
        assert offsets'[id + 1] == if id + 1 < |bodies| then offsets[id + 1] else |s|;
        StillAt(s, text, offsets[id], ObjectText(id, bodies[id]));
      }
    }
  }

  lemma ObjectsStay(s: string, more: string, bodies: seq<string>, offsets: seq<nat>, end: nat)
    requires ObjectsAt(s, bodies, offsets, end)
    ensures ObjectsAt(s + more, bodies, offsets, end)
  {
    hide ObjectText, HEADER;
    StillAt(s, more, 0, HEADER);
    forall id | 0 < id < |bodies| ensures At(s + more, offsets[id], ObjectText(id, bodies[id])) {
      StillAt(s, more, offsets[id], ObjectText(id, bodies[id]));
    }
  }

  lemma EntriesStay(s: string, more: string, offsets: seq<nat>, count: nat, table: nat)
    requires count <= |offsets| && EntriesAt(s, offsets, count, table)
    ensures EntriesAt(s + more, offsets, count, table)
  {
    hide Entry, FREE_ENTRY;
    StillAt(s, more, table, FREE_ENTRY);
    forall id | 0 < id < count ensures At(s + more, table + 20 * id, Entry(offsets[id])) {
      StillAt(s, more, table + 20 * id, Entry(offsets[id]));
    }
  }

  method WriteEntries(before: string, offsets: seq<nat>) returns (output: string)
    requires |offsets| > 0
    ensures output == before + Entries(offsets)
  {
    hide Entry, FREE_ENTRY;
    output := before + FREE_ENTRY;
    for id := 1 to |offsets|
      invariant output == before + Entries(offsets[..id])
    {
      assert offsets[..id + 1][..id] == offsets[..id];
      output := output + Entry(offsets[id]);
    }
    assert offsets[..|offsets|] == offsets;
  }

  /** Below 10^10 the entries have a fixed width, so each is found by its number. */
  lemma {:induction false} EntriesHaveFixedWidth(before: string, offsets: seq<nat>)
    requires |offsets| > 0 && forall id | 0 < id < |offsets| :: offsets[id] < OFFSET_LIMIT
    ensures EntriesAt(before + Entries(offsets), offsets, |offsets|, |before|)
    ensures |Entries(offsets)| == 20 * |offsets|
    decreases |offsets|
  {
    hide Entry, EntriesAt;
    if |offsets| == 1 {
      FreeEntryAt(before, offsets);
    } else {
      hide FREE_ENTRY;
      var fewer, last := offsets[..|offsets| - 1], offsets[|offsets| - 1];
      EntriesHaveFixedWidth(before, fewer);
      EntrySize(last);
      assert before + Entries(offsets) == (before + Entries(fewer)) + Entry(last);
      EntriesGrow(before + Entries(fewer), offsets, |before|);
    }
  }

  lemma FreeEntryAt(before: string, offsets: seq<nat>)
    requires |offsets| > 0
    ensures EntriesAt(before + FREE_ENTRY, offsets, 1, |before|)
  {
  }

  lemma EntriesGrow(s: string, offsets: seq<nat>, table: nat)
    requires |offsets| > 1
    requires EntriesAt(s, offsets[..|offsets| - 1], |offsets| - 1, table) && |s| == table + 20 * (|offsets| - 1)
    requires |Entry(offsets[|offsets| - 1])| == 20
    ensures EntriesAt(s + Entry(offsets[|offsets| - 1]), offsets, |offsets|, table)
  {
    hide Entry, FREE_ENTRY;
    var fewer, last := offsets[..|offsets| - 1], offsets[|offsets| - 1];
    var after := s + Entry(last);
    EntriesStay(s, Entry(last), fewer, |fewer|, table);
    AtEnd(s, Entry(last));
    forall id | 0 < id < |offsets|
      ensures At(after, table + 20 * id, Entry(offsets[id])) && |Entry(offsets[id])| == 20
    {
      if id < |fewer| {
        assert fewer[id] == offsets[id];
      }
    }
  }

  method RenderCJKPDF(input: seq<string>) returns (output: string)
    ensures IsFileOf(output, if input == [] then [""] else input)
  {
    hide Bodies, Trailer, TableHead, ObjectText, Entries;
    var lines := if input == [] then [""] else input;
    var objects := BuildObjects(lines);
    var offsets;
    output, offsets := WriteObjects(objects);
    var start, count := |output|, objects.Length;
    ghost var before := output;
    output := output + TableHead(count);
    output := WriteEntries(output, offsets);
    output := output + Trailer(count, start);
    assert output == before + (TableHead(count) + (Entries(offsets) + Trailer(count, start)));
    PrefixIs(before, TableHead(count) + (Entries(offsets) + Trailer(count, start)));
    assert Written(output, Bodies(lines), offsets, start);
  }

  lemma PrefixIs(s: string, more: string)
    ensures (s + more)[..|s|] == s
  {
  }

  /** Below 10^10 a written file meets the layout that a reader relies on. */
  lemma WrittenIsLaidOut(s: string, bodies: seq<string>, offsets: seq<nat>, xref: nat)
    requires Written(s, bodies, offsets, xref) && xref < OFFSET_LIMIT
    ensures LaidOut(s, bodies, offsets, xref)
  {
    hide Trailer, TableHead, ObjectText, Entries, Entry, FREE_ENTRY;
    var count := |bodies|;
    var s0 := s[..xref];
    var head, entries, trailer := TableHead(count), Entries(offsets), Trailer(count, xref);
    var s1 := s0 + head;
    var s2 := s1 + entries;
    assert s == s2 + trailer;
    OffsetsBelow(s0, bodies, offsets, xref);
    EntriesHaveFixedWidth(s1, offsets);
    AtEnd(s0, head);
    StillAt(s1, entries, xref, head);
    StillAt(s2, trailer, xref, head);
    ObjectsStay(s0, head, bodies, offsets, xref);
    ObjectsStay(s1, entries, bodies, offsets, xref);
    ObjectsStay(s2, trailer, bodies, offsets, xref);
    EntriesStay(s2, trailer, offsets, count, |s1|);
    AtEnd(s2, trailer);
  }

  lemma OffsetsBelow(s: string, bodies: seq<string>, offsets: seq<nat>, end: nat)
    requires ObjectsAt(s, bodies, offsets, end) && end == |s|
    ensures forall id | 0 < id < |bodies| :: offsets[id] <= end
  {
  }
}
