/** Numbers, hexadecimal text and line wrapping of the PDF export (`backend/handlers/article_exports.go`). */
module PdfText {
  import opened Prelude

  // ---- decimal numbers

  function Digit(d: int): char
    requires 0 <= d < 10
  {
    '0' + d as char
  }

  predicate IsDigit(c: char) {
    '0' <= c <= '9'
  }

  /** %d of a number that is not negative. */
  function Decimal(n: nat): (s: string)
    ensures |s| > 0 && forall i | 0 <= i < |s| :: IsDigit(s[i])
  {
    if n < 10 then [Digit(n)] else Decimal(n / 10) + [Digit(n % 10)]
  }

  function Zeros(n: nat): (s: string)
    ensures |s| == n && forall i | 0 <= i < n :: s[i] == '0'
  {
    if n == 0 then "" else Zeros(n - 1) + "0"
  }

  /** %010d: at least ten digits. */
  function TenDigits(n: nat): (s: string)
    ensures |s| >= 10 && forall i | 0 <= i < |s| :: IsDigit(s[i])
  {
    var d := Decimal(n);
    if |d| < 10 then Zeros(10 - |d|) + d else d
  }

  function Value(s: string): nat
    requires forall i | 0 <= i < |s| :: IsDigit(s[i])
  {
    if s == "" then 0
    else
      assert IsDigit(s[|s| - 1]);
      Value(s[..|s| - 1]) * 10 + (s[|s| - 1] as int - '0' as int)
  }

  lemma {:induction false} DecimalValue(n: nat)
    ensures Value(Decimal(n)) == n
    decreases n
  {
    if n >= 10 {
      DecimalValue(n / 10);
      assert Decimal(n)[..|Decimal(n)| - 1] == Decimal(n / 10);
    }
  }

  lemma {:induction false} LeadingZeros(k: nat, s: string)
    requires forall i | 0 <= i < |s| :: IsDigit(s[i])
    ensures Value(Zeros(k) + s) == Value(s)
    decreases k, |s|
  {
    if s != "" {
      LeadingZeros(k, s[..|s| - 1]);
      assert (Zeros(k) + s)[..|Zeros(k) + s| - 1] == Zeros(k) + s[..|s| - 1];
    } else if k > 0 {
      LeadingZeros(k - 1, "");
      assert Zeros(k) + "" == Zeros(k) && Zeros(k)[..k - 1] == Zeros(k - 1) && Zeros(k - 1) + "" == Zeros(k - 1);
    }
  }

  function Power(k: nat): nat {
    if k == 0 then 1 else 10 * Power(k - 1)
  }

  lemma {:induction false} DecimalIsShort(n: nat, k: nat)
    requires k > 0 && n < Power(k)
    ensures |Decimal(n)| <= k
    decreases k
  {
    if n >= 10 {
      assert k > 1;
      DecimalIsShort(n / 10, k - 1);
    }
  }

  /** Below 10^10 the padded number takes exactly ten digits, and it always reads back. */
  lemma TenDigitsReadBack(n: nat)
    ensures Value(TenDigits(n)) == n
    ensures n < 10000000000 ==> |TenDigits(n)| == 10
  {
    DecimalValue(n);
    if |Decimal(n)| < 10 {
      LeadingZeros(10 - |Decimal(n)|, Decimal(n));
    }
    if n < 10000000000 {
      assert Power(10) == 10000000000;
      DecimalIsShort(n, 10);
    }
  }

  // ---- reading: each reader returns what follows

  function Expect(s: string, literal: string): Option<string> {
    if literal <= s then Some(s[|literal|..]) else None
  }

  lemma Expected(literal: string, rest: string)
    ensures Expect(literal + rest, literal) == Some(rest)
  {
  }

  function DigitRun(s: string): (k: nat)
    ensures k <= |s| && forall i | 0 <= i < k :: IsDigit(s[i])
    ensures k < |s| ==> !IsDigit(s[k])
  {
    if s != "" && IsDigit(s[0]) then 1 + DigitRun(s[1..]) else 0
  }

  function ReadNumber(s: string): Option<(nat, string)> {
    var k := DigitRun(s);
    if k == 0 then None else Some((Value(s[..k]), s[k..]))
  }

  lemma {:induction false} RunStops(s: string, k: nat)
    requires k <= |s| && forall i | 0 <= i < k :: IsDigit(s[i])
    requires k < |s| ==> !IsDigit(s[k])
    ensures DigitRun(s) == k
    decreases k
  {
  }

  lemma NumberReadBack(n: nat, rest: string)
    requires rest == "" || !IsDigit(rest[0])
    ensures ReadNumber(Decimal(n) + rest) == Some((n, rest))
  {
    var s := Decimal(n) + rest;
    RunStops(s, |Decimal(n)|);
    assert s[..|Decimal(n)|] == Decimal(n) && s[|Decimal(n)|..] == rest;
    DecimalValue(n);
  }

  // ---- UCS-2 hexadecimal

  function HexDigit(d: int): char
    requires 0 <= d < 16
  {
    if d < 10 then '0' + d as char else 'A' + (d - 10) as char
  }

  function HexValue(c: char): Option<int> {
    if '0' <= c <= '9' then Some(c as int - '0' as int)
    else if 'A' <= c <= 'F' then Some(c as int - 'A' as int + 10)
    else None
  }

  /** Characters outside the basic plane cannot be written and become question marks. */
  function Printable(c: char): char {
    if c as int > 0xFFFF then '?' else c
  }

  function PrintableLine(line: string): (r: string)
    ensures |r| == |line| && forall i | 0 <= i < |line| :: r[i] == if line[i] as int > 0xFFFF then '?' else line[i]
  {
    if line == "" then "" else [Printable(line[0])] + PrintableLine(line[1..])
  }

  function HexOf(c: char): (s: string)
    ensures |s| == 4
  {
    var v := Printable(c) as int;
    [HexDigit(v / 16 / 16 / 16), HexDigit(v / 16 / 16 % 16), HexDigit(v / 16 % 16), HexDigit(v % 16)]
  }

  function UCS2Hex(line: string): string {
    if line == "" then "" else HexOf(line[0]) + UCS2Hex(line[1..])
  }

  function HexChar(s: string): Option<char>
    requires |s| >= 4
  {
    var a, b, c, d := HexValue(s[0]), HexValue(s[1]), HexValue(s[2]), HexValue(s[3]);
    if a.None? || b.None? || c.None? || d.None? then None
    else
      var v := ((a.value * 16 + b.value) * 16 + c.value) * 16 + d.value;
      if 0 <= v < 0xD800 || 0xE000 <= v < 0x10000 then Some(v as char) else None
  }

  /** The characters up to the closing bracket, and what follows it. */
  function ReadHex(s: string): Option<(string, string)>
    decreases |s|
  {
    if s == "" then None
    else if s[0] == '>' then Some(("", s[1..]))
    else if |s| < 4 || HexChar(s).None? then None
    else
      var rest := ReadHex(s[4..]);
      if rest.None? then None else Some(([HexChar(s).value] + rest.value.0, rest.value.1))
  }

  lemma HexDigitBack(d: int)
    requires 0 <= d < 16
    ensures HexValue(HexDigit(d)) == Some(d) && HexDigit(d) != '>'
  {
  }

  lemma HexCharBack(c: char, rest: string)
    ensures HexChar(HexOf(c) + rest) == Some(Printable(c)) && (HexOf(c) + rest)[0] != '>'
  {
    var v := Printable(c) as int;
    var s := HexOf(c) + rest;
    assert s[0] == HexOf(c)[0] && s[1] == HexOf(c)[1] && s[2] == HexOf(c)[2] && s[3] == HexOf(c)[3];
    HexDigitBack(v / 16 / 16 / 16);
    HexDigitBack(v / 16 / 16 % 16);
    HexDigitBack(v / 16 % 16);
    HexDigitBack(v % 16);
  }

  lemma {:induction false} HexReadBack(line: string, rest: string)
    ensures ReadHex(UCS2Hex(line) + (">" + rest)) == Some((PrintableLine(line), rest))
    decreases |line|
  {
    var s := UCS2Hex(line) + (">" + rest);
    if line == "" {
      assert s == ">" + rest && s[1..] == rest;
    } else {
      var tail := UCS2Hex(line[1..]) + (">" + rest);
      assert s == HexOf(line[0]) + tail;
      HexCharBack(line[0], tail);
      assert s[4..] == tail;
      HexReadBack(line[1..], rest);
    }
  }

  // ---- wrapping

  /** strings.ReplaceAll of a carriage return and line feed by a line feed. */
  function WithoutPairs(s: string): string
    decreases |s|
  {
    if |s| >= 2 && s[0] == '\r' && s[1] == '\n' then "\n" + WithoutPairs(s[2..])
    else if s == "" then "" else [s[0]] + WithoutPairs(s[1..])
  }

  function WithoutReturns(s: string): (r: string)
    ensures '\r' !in r
  {
    if s == "" then "" else [if s[0] == '\r' then '\n' else s[0]] + WithoutReturns(s[1..])
  }

  /** strings.Split by line feeds. */
  function Lines(s: string): (r: seq<string>)
    ensures |r| > 0 && forall line | line in r :: '\n' !in line
  {
    if s == "" then [""]
    else
      var rest := Lines(s[1..]);
      if s[0] == '\n' then [""] + rest else [[s[0]] + rest[0]] + rest[1..]
  }

  function Joined(lines: seq<string>): string
    requires |lines| > 0
  {
    if |lines| == 1 then lines[0] else lines[0] + "\n" + Joined(lines[1..])
  }

  function Concat(pieces: seq<string>): string {
    if pieces == [] then "" else pieces[0] + Concat(pieces[1..])
  }

  function Pieces(line: string, width: nat): seq<string>
    requires width > 0
  {
    if |line| <= width then [line] else [line[..width]] + Pieces(line[width..], width)
  }

  function WrapLines(lines: seq<string>, width: nat): seq<string>
    requires width > 0
  {
    if lines == [] then [] else Pieces(lines[0], width) + WrapLines(lines[1..], width)
  }

  lemma {:induction false} LinesJoinBack(s: string)
    ensures Joined(Lines(s)) == s
    decreases |s|
  {
    if s != "" {
      LinesJoinBack(s[1..]);
      var rest := Lines(s[1..]);
      if s[0] == '\n' {
        assert ([""] + rest)[1..] == rest;
        assert "" + "\n" + Joined(rest) == [s[0]] + s[1..];
      } else {
        assert ([[s[0]] + rest[0]] + rest[1..])[1..] == rest[1..];
        assert s == [s[0]] + s[1..];
      }
    }
  }

  /** The pieces of a line join back to it; all but the last are full and none is longer. */
  lemma {:induction false} PiecesConcatBack(line: string, width: nat)
    requires width > 0
    ensures Concat(Pieces(line, width)) == line
    ensures var p := Pieces(line, width);
      && |p| > 0 && |p[|p| - 1]| <= width && (forall i | 0 <= i < |p| - 1 :: |p[i]| == width)
      && (|p| > 1 ==> p[|p| - 1] != "")
    decreases |line|
  {
    if |line| > width {
      PiecesConcatBack(line[width..], width);
      var rest := Pieces(line[width..], width);
      assert ([line[..width]] + rest)[1..] == rest;
      assert line == line[..width] + line[width..];
    } else {
      assert [line][1..] == [];
      assert line + "" == line;
    }
  }

  // ---- what wrapping means for the text itself

  const BREAKS := {"\r\n", "\r", "\n"}

  /** A line cut into pieces: all but the last are full, and the last is empty only for an empty line. */
  predicate CutAt(pieces: seq<string>, width: nat) {
    && |pieces| > 0 && (forall i | 0 <= i < |pieces| - 1 :: |pieces[i]| == width)
    && |pieces[|pieces| - 1]| <= width && (|pieces| > 1 ==> pieces[|pieces| - 1] != "")
  }

  function Flat(groups: seq<seq<string>>): seq<string> {
    if groups == [] then [] else groups[0] + Flat(groups[1..])
  }

  /** The lines with a line break after each but the last. */
  function WithBreaks(lines: seq<string>, breaks: seq<string>): string
    requires |lines| == |breaks| + 1
  {
    if breaks == [] then lines[0] else lines[0] + breaks[0] + WithBreaks(lines[1..], breaks[1..])
  }

  /** The text's lines and line breaks, where a carriage return and a line feed next to each other are one break. */
  predicate SplitInto(text: string, lines: seq<string>, breaks: seq<string>) {
    && |lines| == |breaks| + 1 && text == WithBreaks(lines, breaks)
    && (forall line | line in lines :: '\r' !in line && '\n' !in line)
    && (forall i | 0 <= i < |breaks| :: breaks[i] in BREAKS)
    && (forall i | 0 <= i < |breaks| - 1 :: breaks[i] == "\r" && lines[i + 1] == "" ==> breaks[i + 1] != "\n")
  }

  /** `result` is, line by line of the text, that line cut into pieces. */
  ghost predicate Wraps(text: string, width: nat, result: seq<string>) {
    exists groups: seq<seq<string>>, lines: seq<string>, breaks: seq<string> ::
      && SplitInto(text, lines, breaks) && result == Flat(groups) && |groups| == |lines|
      && forall i | 0 <= i < |groups| :: CutAt(groups[i], width) && Concat(groups[i]) == lines[i]
  }

  lemma BreakBefore(rest: string, lines: seq<string>, breaks: seq<string>, first: string)
    requires SplitInto(rest, lines, breaks) && first in BREAKS
    requires first == "\r" ==> rest == "" || rest[0] != '\n'
    ensures SplitInto(first + rest, [""] + lines, [first] + breaks)
  {
    assert ([""] + lines)[1..] == lines && ([first] + breaks)[1..] == breaks;
    assert "" + first + WithBreaks(lines, breaks) == first + rest;
    if breaks != [] && lines[0] == "" && breaks[0] == "\n" {
      assert WithBreaks(lines, breaks)[0] == '\n';
    }
  }

  lemma CharBefore(c: char, rest: string, lines: seq<string>, breaks: seq<string>)
    requires SplitInto(rest, lines, breaks) && c != '\r' && c != '\n'
    ensures SplitInto([c] + rest, [[c] + lines[0]] + lines[1..], breaks)
  {
    var longer := [[c] + lines[0]] + lines[1..];
    assert longer[1..] == lines[1..];
    assert WithBreaks(longer, breaks) == [c] + WithBreaks(lines, breaks);
    forall line | line in longer ensures '\r' !in line && '\n' !in line {
      assert line == [c] + lines[0] || line in lines;
      assert lines[0] in lines;
    }
  }

  lemma {:induction false} NormalisingSplits(text: string) returns (breaks: seq<string>)
    ensures SplitInto(text, Lines(WithoutReturns(WithoutPairs(text))), breaks)
    decreases |text|
  {
    hide SplitInto;
    if text == "" {
      breaks := [];
      EmptyIsOneLine();
    } else if |text| >= 2 && text[0] == '\r' && text[1] == '\n' {
      var rest := NormalisingSplits(text[2..]);
      breaks := ["\r\n"] + rest;
      BreakBefore(text[2..], Lines(WithoutReturns(WithoutPairs(text[2..]))), rest, "\r\n");
      assert text == "\r\n" + text[2..];
    } else {
      var rest := NormalisingSplits(text[1..]);
      var lines := Lines(WithoutReturns(WithoutPairs(text[1..])));
      assert text == [text[0]] + text[1..];
      if text[0] == '\r' || text[0] == '\n' {
        breaks := [[text[0]]] + rest;
        BreakBefore(text[1..], lines, rest, [text[0]]);
      } else {
        breaks := rest;
        CharBefore(text[0], text[1..], lines, rest);
      }
    }
  }

  lemma EmptyIsOneLine()
    ensures SplitInto("", [""], [])
  {
  }

  lemma {:induction false} PiecesAreGroups(lines: seq<string>, width: nat) returns (groups: seq<seq<string>>)
    requires width > 0
    ensures WrapLines(lines, width) == Flat(groups) && |groups| == |lines|
    ensures forall i | 0 <= i < |groups| :: CutAt(groups[i], width) && Concat(groups[i]) == lines[i]
    decreases |lines|
  {
    groups := [];
    if lines != [] {
      var rest := PiecesAreGroups(lines[1..], width);
      groups := [Pieces(lines[0], width)] + rest;
      PiecesConcatBack(lines[0], width);
      assert groups[1..] == rest;
    }
  }

  lemma WrappingWraps(text: string, width: nat)
    requires width > 0
    ensures Wraps(text, width, WrapLines(Lines(WithoutReturns(WithoutPairs(text))), width))
  {
    var breaks := NormalisingSplits(text);
    var groups := PiecesAreGroups(Lines(WithoutReturns(WithoutPairs(text))), width);
  }

  lemma {:induction false} WrapAppend(lines: seq<string>, line: string, width: nat)
    requires width > 0
    ensures WrapLines(lines + [line], width) == WrapLines(lines, width) + Pieces(line, width)
    decreases |lines|
  {
    if lines == [] {
      assert [line][1..] == [];
    } else {
      assert (lines + [line])[1..] == lines[1..] + [line];
      WrapAppend(lines[1..], line, width);
      assert Pieces(lines[0], width) + (WrapLines(lines[1..], width) + Pieces(line, width)) ==
        WrapLines(lines, width) + Pieces(line, width);
    }
  }

  method WrapPDFText(value: string, width: nat) returns (result: seq<string>)
    requires width > 0
    ensures result == WrapLines(Lines(WithoutReturns(WithoutPairs(value))), width)
    ensures Wraps(value, width, result)
  {
    var lines := Lines(WithoutReturns(WithoutPairs(value)));
    result := [];
    for i := 0 to |lines|
      invariant result == WrapLines(lines[..i], width)
    {
      assert lines[..i + 1] == lines[..i] + [lines[i]];
      WrapAppend(lines[..i], lines[i], width);
      ghost var before := result;
      var runes := lines[i];
      if |runes| == 0 {
        result := result + [""];
        continue;
      }
      while |runes| > width
        invariant result + Pieces(runes, width) == before + Pieces(lines[i], width)
        decreases |runes|
      {
        assert result + ([runes[..width]] + Pieces(runes[width..], width)) ==
          (result + [runes[..width]]) + Pieces(runes[width..], width);
        result := result + [runes[..width]];
        runes := runes[width..];
      }
      result := result + [runes];
    }
    assert lines[..|lines|] == lines;
    WrappingWraps(value, width);
  }
}
