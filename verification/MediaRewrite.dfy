/** Rewriting local media addresses in article text (`backend/content/sanitize.go`). */
module MediaRewrite {
  import opened Prelude

  // ---- leftmost occurrences

  predicate OccursAt(s: string, pattern: string, i: nat) {
    i + |pattern| <= |s| && s[i..i + |pattern|] == pattern
  }

  /** strings.Index: the leftmost occurrence. */
  function Index(s: string, pattern: string): (r: Option<nat>)
    ensures r.Some? ==> OccursAt(s, pattern, r.value) && forall i: nat | i < r.value :: !OccursAt(s, pattern, i)
    ensures r.None? ==> forall i: nat :: !OccursAt(s, pattern, i)
  {
    IndexFrom(s, pattern, 0)
  }

  function IndexFrom(s: string, pattern: string, from: nat): (r: Option<nat>)
    requires from <= |s| && forall i: nat | i < from :: !OccursAt(s, pattern, i)
    ensures r.Some? ==> OccursAt(s, pattern, r.value) && forall i: nat | i < r.value :: !OccursAt(s, pattern, i)
    ensures r.None? ==> forall i: nat :: !OccursAt(s, pattern, i)
    decreases |s| - from
  {
    if OccursAt(s, pattern, from) then Some(from)
    else if from == |s| then None
    else IndexFrom(s, pattern, from + 1)
  }

  lemma CutAround(s: string, pattern: string, i: nat)
    requires OccursAt(s, pattern, i)
    ensures s == s[..i] + (pattern + s[i + |pattern|..])
  {
  }

  lemma CutTwice(s: string, prefix: string, suffix: string, start: nat, end: nat)
    requires OccursAt(s, prefix, start) && OccursAt(s[start + |prefix|..], suffix, end)
    ensures var rest := s[start + |prefix|..];
      s == s[..start] + (prefix + (rest[..end] + (suffix + rest[end + |suffix|..])))
  {
    CutAround(s, prefix, start);
    CutAround(s[start + |prefix|..], suffix, end);
  }

  // ---- one pass, as a recursion over what is still unread

  // The text before the leftmost address, its id, and the text after it.
  datatype Split = Split(before: string, id: string, after: string)

  function FirstAddress(s: string, prefix: string, suffix: string): (r: Option<Split>)
    ensures r.Some? ==>
      |s| == |r.value.before| + |prefix| + |r.value.id| + |suffix| + |r.value.after|
  {
    var start := Index(s, prefix);
    if start.None? then None
    else
      var rest := s[start.value + |prefix|..];
      var end := Index(rest, suffix);
      if end.None? then None
      else
        Some(Split(s[..start.value], rest[..end.value], rest[end.value + |suffix|..]))
  }

  lemma FirstAddressSplits(s: string, prefix: string, suffix: string)
    requires FirstAddress(s, prefix, suffix).Some?
    ensures var f := FirstAddress(s, prefix, suffix).value;
      s == f.before + (prefix + (f.id + (suffix + f.after)))
  {
    hide IndexFrom;
    var start := Index(s, prefix).value;
    CutTwice(s, prefix, suffix, start, Index(s[start + |prefix|..], suffix).value);
  }

  /** Replace each leftmost address by its resolution, reading left to right and never going back. */
  function Rewrite(s: string, prefix: string, suffix: string, resolve: string -> string): string
    requires prefix != "" && suffix != ""
    decreases |s|
  {
    var first := FirstAddress(s, prefix, suffix);
    if first.None? then s
    else first.value.before + (resolve(first.value.id) + Rewrite(first.value.after, prefix, suffix, resolve))
  }

  lemma NothingToRewrite(s: string, prefix: string, suffix: string, resolve: string -> string)
    requires prefix != "" && suffix != ""
    requires Index(s, prefix).None? || Index(s[Index(s, prefix).value + |prefix|..], suffix).None?
    ensures Rewrite(s, prefix, suffix, resolve) == s
  {
  }

  lemma Regroup(a: string, b: string, c: string, d: string)
    ensures a + (b + (c + d)) == (a + b + c) + d
  {
  }

  lemma RewriteUnfolds(s: string, prefix: string, suffix: string, resolve: string -> string)
    requires prefix != "" && suffix != "" && FirstAddress(s, prefix, suffix).Some?
    ensures var f := FirstAddress(s, prefix, suffix).value;
      Rewrite(s, prefix, suffix, resolve) == f.before + (resolve(f.id) + Rewrite(f.after, prefix, suffix, resolve))
  {
  }

  lemma FirstIs(s: string, prefix: string, suffix: string, start: nat, end: nat)
    requires Index(s, prefix) == Some(start) && Index(s[start + |prefix|..], suffix) == Some(end)
    ensures var rest := s[start + |prefix|..];
      FirstAddress(s, prefix, suffix) == Some(Split(s[..start], rest[..end], rest[end + |suffix|..]))
  {
    hide OccursAt;
  }

  lemma RewriteFirst(done: string, unread: string, prefix: string, suffix: string, resolve: string -> string)
    requires prefix != "" && suffix != "" && Index(unread, prefix).Some?
    requires Index(unread[Index(unread, prefix).value + |prefix|..], suffix).Some?
    ensures var start := Index(unread, prefix).value;
      var rest := unread[start + |prefix|..];
      var end := Index(rest, suffix).value;
      done + Rewrite(unread, prefix, suffix, resolve) ==
      (done + unread[..start] + resolve(rest[..end])) + Rewrite(rest[end + |suffix|..], prefix, suffix, resolve)
  {
    hide Rewrite, FirstAddress, OccursAt, Index;
    var start := Index(unread, prefix).value;
    OccursInside(unread, prefix, start);
    var rest := unread[start + |prefix|..];
    FirstIs(unread, prefix, suffix, start, Index(rest, suffix).value);
    RewriteUnfolds(unread, prefix, suffix, resolve);
    var f := FirstAddress(unread, prefix, suffix).value;
    Regroup(done, f.before, resolve(f.id), Rewrite(f.after, prefix, suffix, resolve));
  }

  /** The loop of the source, which edits the text and a search position. */
  method RewritePattern(input: string, prefix: string, suffix: string, resolve: string -> string)
    returns (result: string)
    requires prefix != "" && suffix != ""
    ensures result == Rewrite(input, prefix, suffix, resolve)
  {
    hide Rewrite, OccursAt, Index;
    result := input;
    var search := 0;
    assert input[..0] + Rewrite(input[0..], prefix, suffix, resolve) == Rewrite(input, prefix, suffix, resolve) by {
      assert input[0..] == input;
    }
    while true
      invariant search <= |result|
      invariant result[..search] + Rewrite(result[search..], prefix, suffix, resolve) ==
        Rewrite(input, prefix, suffix, resolve)
      decreases |result| - search
    {
      ghost var done := result[..search];
      var unread := result[search..];
      var found := Index(unread, prefix);
      if found.None? {
        NothingToRewrite(unread, prefix, suffix, resolve);
        assert done + unread == result;
        return;
      }
      OccursInside(unread, prefix, found.value);
      var start := search + found.value;
      var rest := result[start + |prefix|..];
      assert rest == unread[found.value + |prefix|..];
      var idEnd := Index(rest, suffix);
      if idEnd.None? {
        NothingToRewrite(unread, prefix, suffix, resolve);
        assert done + unread == result;
        return;
      }
      OccursInside(rest, suffix, idEnd.value);
      RewriteFirst(done, unread, prefix, suffix, resolve);
      var id := result[start + |prefix|..start + |prefix| + idEnd.value];
      assert id == rest[..idEnd.value];
      var resolved := resolve(id);
      var after := result[start + |prefix| + idEnd.value + |suffix|..];
      assert after == rest[idEnd.value + |suffix|..];
      assert result[..start] == done + unread[..found.value];
      if resolved == "" {
        result := result[..start] + after;
        search := start;
      } else {
        result := result[..start] + resolved + after;
        search := start + |resolved|;
      }
      assert result[..search] == done + unread[..found.value] + resolved;
      assert result[search..] == after;
    }
  }

  lemma OccursInside(s: string, pattern: string, i: nat)
    requires OccursAt(s, pattern, i)
    ensures i + |pattern| <= |s|
  {
  }

  // ---- what a pass keeps and what it replaces

  // The text between addresses, and the ids of the addresses in order.
  datatype Piece = Text(text: string) | Address(id: string)

  function Parse(s: string, prefix: string, suffix: string): seq<Piece>
    requires prefix != "" && suffix != ""
    decreases |s|
  {
    var first := FirstAddress(s, prefix, suffix);
    if first.None? then [Text(s)]
    else [Text(first.value.before), Address(first.value.id)] + Parse(first.value.after, prefix, suffix)
  }

  function Rendered(pieces: seq<Piece>, resolve: string -> string): string {
    if pieces == [] then ""
    else (match pieces[0] case Text(t) => t case Address(id) => resolve(id)) + Rendered(pieces[1..], resolve)
  }

  lemma RenderedPair(text: string, id: string, rest: seq<Piece>, resolve: string -> string)
    ensures Rendered([Text(text), Address(id)] + rest, resolve) == text + (resolve(id) + Rendered(rest, resolve))
  {
  }

  /** The output is the input's pieces in order, the texts unchanged and each id resolved. */
  lemma {:induction false} RewriteRendersPieces(s: string, prefix: string, suffix: string, resolve: string -> string)
    requires prefix != "" && suffix != ""
    ensures Rewrite(s, prefix, suffix, resolve) == Rendered(Parse(s, prefix, suffix), resolve)
    decreases |s|
  {
    var first := FirstAddress(s, prefix, suffix);
    if first.Some? {
      RewriteRendersPieces(first.value.after, prefix, suffix, resolve);
      RenderedPair(first.value.before, first.value.id, Parse(first.value.after, prefix, suffix), resolve);
    } else {
      assert [Text(s)][1..] == [];
      assert s + "" == s;
    }
  }

  /** Put back what was cut out and the pieces are the input again. */
  lemma {:induction false} PiecesRebuildInput(s: string, prefix: string, suffix: string)
    requires prefix != "" && suffix != ""
    ensures Rendered(Parse(s, prefix, suffix), id => prefix + (id + suffix)) == s
    decreases |s|
  {
    hide FirstAddress, OccursAt;
    var first := FirstAddress(s, prefix, suffix);
    var whole := (id: string) => prefix + (id + suffix);
    if first.Some? {
      var f := first.value;
      FirstAddressSplits(s, prefix, suffix);
      PiecesRebuildInput(f.after, prefix, suffix);
      RenderedPair(f.before, f.id, Parse(f.after, prefix, suffix), whole);
      assert prefix + (f.id + suffix) + f.after == prefix + (f.id + (suffix + f.after));
    } else {
      assert [Text(s)][1..] == [];
      assert s + "" == s;
    }
  }

  /** No address starts in a text before the next address, and ids end at the first suffix. */
  ghost predicate Leftmost(pieces: seq<Piece>, prefix: string, suffix: string) {
    && (forall k | 0 <= k < |pieces| - 1 && pieces[k].Text? ::
          forall i: nat | i < |pieces[k].text| :: !OccursAt(pieces[k].text + prefix, prefix, i))
    && (forall k | 0 <= k < |pieces| && pieces[k].Address? ::
          forall i: nat | i < |pieces[k].id| :: !OccursAt(pieces[k].id + suffix, suffix, i))
    && (pieces != [] ==> pieces[|pieces| - 1].Text? && FirstAddress(pieces[|pieces| - 1].text, prefix, suffix).None?)
  }

  lemma OccurrenceCarries(s: string, pattern: string, at: nat, i: nat)
    requires OccursAt(s, pattern, at) && i < at && OccursAt(s[..at] + pattern, pattern, i)
    ensures OccursAt(s, pattern, i)
  {
    assert s[..at + |pattern|] == s[..at] + pattern;
    assert (s[..at] + pattern)[i..i + |pattern|] == s[i..i + |pattern|];
  }

  lemma FirstIsLeftmost(s: string, prefix: string, suffix: string)
    requires FirstAddress(s, prefix, suffix).Some?
    ensures var f := FirstAddress(s, prefix, suffix).value;
      && (forall i: nat | i < |f.before| :: !OccursAt(f.before + prefix, prefix, i))
      && (forall i: nat | i < |f.id| :: !OccursAt(f.id + suffix, suffix, i))
  {
    var f := FirstAddress(s, prefix, suffix).value;
    var start := Index(s, prefix).value;
    var rest := s[start + |prefix|..];
    forall i: nat | i < |f.before| ensures !OccursAt(f.before + prefix, prefix, i) {
      if OccursAt(f.before + prefix, prefix, i) {
        OccurrenceCarries(s, prefix, start, i);
        assert false;
      }
    }
    forall i: nat | i < |f.id| ensures !OccursAt(f.id + suffix, suffix, i) {
      if OccursAt(f.id + suffix, suffix, i) {
        OccurrenceCarries(rest, suffix, |f.id|, i);
        assert false;
      }
    }
  }

  lemma {:induction false} ParseIsLeftmost(s: string, prefix: string, suffix: string)
    requires prefix != "" && suffix != ""
    ensures Parse(s, prefix, suffix) != [] && Leftmost(Parse(s, prefix, suffix), prefix, suffix)
    decreases |s|
  {
    hide OccursAt, FirstAddress;
    var first := FirstAddress(s, prefix, suffix);
    if first.Some? {
      FirstIsLeftmost(s, prefix, suffix);
      ParseIsLeftmost(first.value.after, prefix, suffix);
      var rest := Parse(first.value.after, prefix, suffix);
      var pieces := [Text(first.value.before), Address(first.value.id)] + rest;
      assert pieces[|pieces| - 1] == rest[|rest| - 1];
      assert forall k | 2 <= k < |pieces| :: pieces[k] == rest[k - 2];
    }
  }

  // ---- which addresses the pass leaves

  /** The prefix occurs at `i` and the suffix somewhere after it. */
  predicate AddressFrom(s: string, prefix: string, suffix: string, i: nat) {
    OccursAt(s, prefix, i) && Index(s[i + |prefix|..], suffix).Some?
  }

  lemma AddressFound(s: string, prefix: string, suffix: string)
    ensures FirstAddress(s, prefix, suffix).Some? <==> exists i: nat :: AddressFrom(s, prefix, suffix, i)
  {
    if FirstAddress(s, prefix, suffix).Some? {
      assert AddressFrom(s, prefix, suffix, Index(s, prefix).value);
    }
    if i: nat :| AddressFrom(s, prefix, suffix, i) {
      var start, end := Index(s, prefix).value, Index(s[i + |prefix|..], suffix).value;
      var rest := s[start + |prefix|..];
      assert rest[i - start..] == s[i + |prefix|..];
      OccursLater(rest, suffix, i - start, end);
    }
  }

  lemma OccursLater(s: string, pattern: string, from: nat, i: nat)
    requires from <= |s| && OccursAt(s[from..], pattern, i)
    ensures OccursAt(s, pattern, from + i)
  {
    assert s[from..][i..i + |pattern|] == s[from + i..from + i + |pattern|];
  }

  /** The text ends in a proper, non-empty start of the pattern. */
  predicate EndsInStart(text: string, pattern: string) {
    exists n | 0 < n < |pattern| && n <= |text| :: text[|text| - n..] == pattern[..n]
  }

  function Content(piece: Piece, resolve: string -> string): string {
    match piece case Text(t) => t case Address(id) => resolve(id)
  }

  lemma {:induction false} RenderedConcat(a: seq<Piece>, b: seq<Piece>, resolve: string -> string)
    ensures Rendered(a + b, resolve) == Rendered(a, resolve) + Rendered(b, resolve)
    decreases |a|
  {
    if a == [] {
      assert a + b == b;
    } else {
      assert (a + b)[1..] == a[1..] + b;
      RenderedConcat(a[1..], b, resolve);
    }
  }

  predicate EndsIn(s: string, text: string) {
    |text| <= |s| && s[|s| - |text|..] == text
  }

  /**
   The first `n` characters of the prefix end what is put before piece `k`, the
   others begin what is put from there on, and the suffix occurs after them.
   */
  predicate AtSeam(pieces: seq<Piece>, k: nat, n: nat, prefix: string, suffix: string, resolve: string -> string) {
    && k <= |pieces| && 0 < n < |prefix|
    && EndsIn(Rendered(pieces[..k], resolve), prefix[..n])
    && prefix[n..] <= Rendered(pieces[k..], resolve)
    && Index(Rendered(pieces[k..], resolve)[|prefix| - n..], suffix).Some?
  }

  /** The resolution of piece `k` itself holds the prefix at `j`, and the suffix occurs after it. */
  predicate Inside(pieces: seq<Piece>, k: nat, j: nat, prefix: string, suffix: string, resolve: string -> string) {
    && k < |pieces| && pieces[k].Address? && OccursAt(resolve(pieces[k].id), prefix, j)
    && Index(resolve(pieces[k].id)[j + |prefix|..] + Rendered(pieces[k + 1..], resolve), suffix).Some?
  }

  lemma SeamIsAddress(pieces: seq<Piece>, k: nat, n: nat, prefix: string, suffix: string, resolve: string -> string)
    requires AtSeam(pieces, k, n, prefix, suffix, resolve)
    ensures exists i: nat :: AddressFrom(Rendered(pieces, resolve), prefix, suffix, i)
  {
    hide Rendered, Index;
    var a, b := Rendered(pieces[..k], resolve), Rendered(pieces[k..], resolve);
    assert pieces == pieces[..k] + pieces[k..];
    RenderedConcat(pieces[..k], pieces[k..], resolve);
    JoinedOccurs(a, b, prefix, n);
    assert AddressFrom(a + b, prefix, suffix, |a| - n);
  }

  lemma JoinedOccurs(a: string, b: string, prefix: string, n: nat)
    requires 0 < n < |prefix| && EndsIn(a, prefix[..n]) && prefix[n..] <= b
    ensures OccursAt(a + b, prefix, |a| - n) && (a + b)[|a| - n + |prefix|..] == b[|prefix| - n..]
  {
    assert (a + b)[|a| - n..|a| - n + |prefix|] == prefix[..n] + prefix[n..];
  }

  lemma InsideIsAddress(pieces: seq<Piece>, k: nat, j: nat, prefix: string, suffix: string, resolve: string -> string)
    requires Inside(pieces, k, j, prefix, suffix, resolve)
    ensures exists i: nat :: AddressFrom(Rendered(pieces, resolve), prefix, suffix, i)
  {
    hide Rendered, Index;
    var a, r, b := Rendered(pieces[..k], resolve), resolve(pieces[k].id), Rendered(pieces[k + 1..], resolve);
    assert pieces == pieces[..k] + pieces[k..];
    RenderedConcat(pieces[..k], pieces[k..], resolve);
    assert Rendered(pieces[k..], resolve) == r + b by { FirstRendered(pieces, k, resolve); }
    HeldOccurs(a, r, b, prefix, j);
    assert AddressFrom(a + (r + b), prefix, suffix, |a| + j);
  }

  lemma FirstRendered(pieces: seq<Piece>, k: nat, resolve: string -> string)
    requires k < |pieces|
    ensures Rendered(pieces[k..], resolve) == Content(pieces[k], resolve) + Rendered(pieces[k + 1..], resolve)
  {
    assert pieces[k..][1..] == pieces[k + 1..];
  }

  lemma HeldOccurs(a: string, r: string, b: string, prefix: string, j: nat)
    requires OccursAt(r, prefix, j)
    ensures OccursAt(a + (r + b), prefix, |a| + j)
    ensures (a + (r + b))[|a| + j + |prefix|..] == r[j + |prefix|..] + b
  {
    assert (a + (r + b))[|a| + j..|a| + j + |prefix|] == r[j..j + |prefix|];
  }

  // Where an address of a joined text starts: in the first part, across the joint, or in the second.

  lemma AddressInFirst(a: string, b: string, prefix: string, suffix: string, i: nat)
    requires AddressFrom(a + b, prefix, suffix, i) && i + |prefix| <= |a|
    ensures OccursAt(a + prefix, prefix, i) && OccursAt(a, prefix, i) && Index(a[i + |prefix|..] + b, suffix).Some?
  {
    hide Index;
    var s := a + b;
    assert (a + prefix)[i..i + |prefix|] == s[i..i + |prefix|] == a[i..i + |prefix|];
    assert s[i + |prefix|..] == a[i + |prefix|..] + b;
  }

  lemma AddressAcross(a: string, b: string, prefix: string, suffix: string, i: nat)
    requires AddressFrom(a + b, prefix, suffix, i) && i < |a| < i + |prefix|
    ensures var n := |a| - i;
      EndsIn(a, prefix[..n]) && prefix[n..] <= b && Index(b[|prefix| - n..], suffix).Some?
  {
    hide Index;
    var s, n := a + b, |a| - i;
    assert prefix == s[i..i + |prefix|];
    assert forall x | 0 <= x < |prefix| :: prefix[x] == s[i + x];
    assert a[i..] == prefix[..n];
    assert b[..|prefix| - n] == prefix[n..];
    assert s[i + |prefix|..] == b[|prefix| - n..];
  }

  lemma AddressInSecond(a: string, b: string, prefix: string, suffix: string, i: nat)
    requires AddressFrom(a + b, prefix, suffix, i) && i >= |a|
    ensures AddressFrom(b, prefix, suffix, i - |a|)
  {
    hide Index;
    assert (a + b)[i..i + |prefix|] == b[i - |a|..i - |a| + |prefix|];
    assert (a + b)[i + |prefix|..] == b[i - |a| + |prefix|..];
  }

  /** An address that is left lies across a seam between pieces or starts inside a resolution. */
  ghost predicate IsLeft(pieces: seq<Piece>, prefix: string, suffix: string, resolve: string -> string) {
    || (exists k: nat, n: nat :: AtSeam(pieces, k, n, prefix, suffix, resolve))
    || (exists k: nat, j: nat :: Inside(pieces, k, j, prefix, suffix, resolve))
  }

  lemma LeftInRest(text: string, id: string, rest: seq<Piece>, prefix: string, suffix: string,
    resolve: string -> string)
    requires IsLeft(rest, prefix, suffix, resolve)
    ensures IsLeft([Text(text), Address(id)] + rest, prefix, suffix, resolve)
  {
    hide Rendered, Index, OccursAt;
    var pair := [Text(text), Address(id)];
    var pieces := pair + rest;
    if k: nat, n: nat :| AtSeam(rest, k, n, prefix, suffix, resolve) {
      assert pieces[..k + 2] == pair + rest[..k] && pieces[k + 2..] == rest[k..];
      RenderedConcat(pair, rest[..k], resolve);
      assert AtSeam(pieces, k + 2, n, prefix, suffix, resolve);
    } else {
      var k: nat, j: nat :| Inside(rest, k, j, prefix, suffix, resolve);
      assert pieces[k + 2] == rest[k] && pieces[k + 3..] == rest[k + 1..];
      assert Inside(pieces, k + 2, j, prefix, suffix, resolve);
    }
  }

  lemma LeftInFirst(text: string, id: string, rest: seq<Piece>, prefix: string, suffix: string,
    resolve: string -> string, i: nat)
    requires AddressFrom(text + (resolve(id) + Rendered(rest, resolve)), prefix, suffix, i)
    requires prefix != "" && i < |text| + |resolve(id)| && (i < |text| ==> !OccursAt(text + prefix, prefix, i))
    ensures IsLeft([Text(text), Address(id)] + rest, prefix, suffix, resolve)
  {
    hide Rendered, Index, OccursAt, AddressFrom;
    var pieces := [Text(text), Address(id)] + rest;
    var r, b := resolve(id), Rendered(rest, resolve);
    PairParts(text, id, rest, resolve);
    if i + |prefix| <= |text| {
      AddressInFirst(text, r + b, prefix, suffix, i);
      assert false;
    } else if i < |text| {
      AddressAcross(text, r + b, prefix, suffix, i);
      assert AtSeam(pieces, 1, |text| - i, prefix, suffix, resolve);
    } else {
      AddressInSecond(text, r + b, prefix, suffix, i);
      if i - |text| + |prefix| <= |r| {
        AddressInFirst(r, b, prefix, suffix, i - |text|);
        assert Inside(pieces, 1, i - |text|, prefix, suffix, resolve);
      } else {
        AddressAcross(r, b, prefix, suffix, i - |text|);
        SeamEnd(text, r, prefix[..|r| - (i - |text|)]);
        assert AtSeam(pieces, 2, |r| - (i - |text|), prefix, suffix, resolve);
      }
    }
  }

  lemma SeamEnd(a: string, b: string, text: string)
    requires EndsIn(b, text)
    ensures EndsIn(a + b, text)
  {
    assert (a + b)[|a + b| - |text|..] == b[|b| - |text|..];
  }

  lemma PairParts(text: string, id: string, rest: seq<Piece>, resolve: string -> string)
    ensures var pieces := [Text(text), Address(id)] + rest;
      && |pieces| == |rest| + 2 && pieces[1] == Address(id) && pieces[2..] == rest
      && Rendered(pieces[..1], resolve) == text
      && Rendered(pieces[1..], resolve) == resolve(id) + Rendered(rest, resolve)
      && Rendered(pieces[..2], resolve) == text + resolve(id)
  {
    var pieces := [Text(text), Address(id)] + rest;
    assert pieces[..1] == [Text(text)] && pieces[1..] == [Address(id)] + rest;
    assert pieces[..2] == [Text(text), Address(id)] && [Text(text), Address(id)][1..] == [Address(id)];
    assert [Text(text)][1..] == [] && [Address(id)][1..] == [];
    assert ([Address(id)] + rest)[1..] == rest;
    assert text + "" == text && resolve(id) + "" == resolve(id);
  }

  lemma {:induction false} AddressIsLeft(s: string, prefix: string, suffix: string, resolve: string -> string, i: nat)
    requires prefix != "" && suffix != ""
    requires AddressFrom(Rewrite(s, prefix, suffix, resolve), prefix, suffix, i)
    ensures IsLeft(Parse(s, prefix, suffix), prefix, suffix, resolve)
    decreases |s|
  {
    hide OccursAt, Index, FirstAddress, AddressFrom, IsLeft;
    AddressFound(s, prefix, suffix);
    var f := FirstAddress(s, prefix, suffix).value;
    var rest, left := Parse(f.after, prefix, suffix), Rewrite(f.after, prefix, suffix, resolve);
    RewriteRendersPieces(f.after, prefix, suffix, resolve);
    FirstIsLeftmost(s, prefix, suffix);
    var r := resolve(f.id);
    if i < |f.before| + |r| {
      LeftInFirst(f.before, f.id, rest, prefix, suffix, resolve, i);
    } else {
      AddressInSecond(f.before, r + left, prefix, suffix, i);
      AddressInSecond(r, left, prefix, suffix, i - |f.before|);
      AddressIsLeft(f.after, prefix, suffix, resolve, i - |f.before| - |r|);
      LeftInRest(f.before, f.id, rest, prefix, suffix, resolve);
    }
  }

  /**
   After a pass an address is left exactly if, among the pieces of the input,
   the prefix comes about across a seam or stands inside a resolution, with the
   suffix somewhere after it.
   */
  lemma AddressLeftIff(s: string, prefix: string, suffix: string, resolve: string -> string)
    requires prefix != "" && suffix != ""
    ensures var pieces := Parse(s, prefix, suffix);
      FirstAddress(Rewrite(s, prefix, suffix, resolve), prefix, suffix).Some? <==>
      || (exists k: nat, n: nat :: AtSeam(pieces, k, n, prefix, suffix, resolve))
      || (exists k: nat, j: nat :: Inside(pieces, k, j, prefix, suffix, resolve))
  {
    hide Rewrite, Parse, Rendered, FirstAddress, AddressFrom, AtSeam, Inside;
    var out, pieces := Rewrite(s, prefix, suffix, resolve), Parse(s, prefix, suffix);
    AddressFound(out, prefix, suffix);
    RewriteRendersPieces(s, prefix, suffix, resolve);
    if i: nat :| AddressFrom(out, prefix, suffix, i) {
      AddressIsLeft(s, prefix, suffix, resolve, i);
    }
    if k: nat, n: nat :| AtSeam(pieces, k, n, prefix, suffix, resolve) {
      SeamIsAddress(pieces, k, n, prefix, suffix, resolve);
    }
    if k: nat, j: nat :| Inside(pieces, k, j, prefix, suffix, resolve) {
      InsideIsAddress(pieces, k, j, prefix, suffix, resolve);
    }
  }

  /** What ends in a start of the prefix has a piece that does. */
  lemma {:induction false} EndComesFromPiece(pieces: seq<Piece>, k: nat, n: nat, prefix: string,
    resolve: string -> string)
    requires k <= |pieces| && 0 < n < |prefix| && EndsIn(Rendered(pieces[..k], resolve), prefix[..n])
    ensures exists q :: 0 <= q < k && EndsInStart(Content(pieces[q], resolve), prefix)
    decreases k
  {
    hide EndsInStart;
    assert k > 0;
    var before, last := Rendered(pieces[..k - 1], resolve), Content(pieces[k - 1], resolve);
    assert Rendered(pieces[..k], resolve) == before + last by { LastRendered(pieces, k, resolve); }
    if n <= |last| {
      StartAtEnd(before, last, prefix, n);
    } else {
      EndOfFront(before, last, prefix, n);
      EndComesFromPiece(pieces, k - 1, n - |last|, prefix, resolve);
    }
  }

  lemma LastRendered(pieces: seq<Piece>, k: nat, resolve: string -> string)
    requires 0 < k <= |pieces|
    ensures Rendered(pieces[..k], resolve) == Rendered(pieces[..k - 1], resolve) + Content(pieces[k - 1], resolve)
  {
    assert pieces[..k] == pieces[..k - 1] + [pieces[k - 1]];
    RenderedConcat(pieces[..k - 1], [pieces[k - 1]], resolve);
    assert [pieces[k - 1]][1..] == [];
    var last := Content(pieces[k - 1], resolve);
    assert last + "" == last;
  }

  lemma StartAtEnd(a: string, b: string, prefix: string, n: nat)
    requires 0 < n < |prefix| && n <= |b| && EndsIn(a + b, prefix[..n])
    ensures EndsInStart(b, prefix)
  {
    assert b[|b| - n..] == (a + b)[|a + b| - n..];
  }

  lemma EndOfFront(a: string, b: string, prefix: string, n: nat)
    requires |b| < n < |prefix| && EndsIn(a + b, prefix[..n])
    ensures EndsIn(a, prefix[..n - |b|])
  {
    var s := a + b;
    assert a[|a| - (n - |b|)..] == s[|s| - n..][..n - |b|];
  }

  /**
   So none is left if no text before a replaced span ends in a proper start of
   the prefix and no resolution holds the prefix or ends in such a start.
   */
  lemma NoAddressLeft(s: string, prefix: string, suffix: string, resolve: string -> string)
    requires prefix != "" && suffix != ""
    requires var pieces := Parse(s, prefix, suffix);
      forall k | 0 <= k < |pieces| - 1 ::
        && !EndsInStart(Content(pieces[k], resolve), prefix)
        && (pieces[k].Address? ==> forall j: nat :: !OccursAt(resolve(pieces[k].id), prefix, j))
    ensures FirstAddress(Rewrite(s, prefix, suffix, resolve), prefix, suffix).None?
  {
    hide Rewrite, Parse, FirstAddress, EndsInStart, OccursAt, Index, Leftmost;
    var pieces := Parse(s, prefix, suffix);
    AddressLeftIff(s, prefix, suffix, resolve);
    LastIsText(s, prefix, suffix);
    if k: nat, n: nat :| AtSeam(pieces, k, n, prefix, suffix, resolve) {
      assert k < |pieces|;
      EndComesFromPiece(pieces, k, n, prefix, resolve);
    }
  }

  lemma LastIsText(s: string, prefix: string, suffix: string)
    requires prefix != "" && suffix != ""
    ensures var pieces := Parse(s, prefix, suffix); pieces != [] && pieces[|pieces| - 1].Text?
  {
    hide Parse, FirstAddress, OccursAt;
    ParseIsLeftmost(s, prefix, suffix);
  }

  // ---- both passes

  const FILES := "/api/files/"
  const PREVIEW := "/preview"
  const THUMBNAIL := "/thumbnail"

  method RewriteLocalMedia(input: string, resolve: string -> string) returns (replaced: string)
    ensures replaced ==
      Rewrite(Rewrite(input, "/api/files/", "/preview", resolve), "/api/files/", "/thumbnail", resolve)
  {
    hide Rewrite;
    replaced := RewritePattern(input, FILES, PREVIEW, resolve);
    replaced := RewritePattern(replaced, FILES, THUMBNAIL, resolve);
  }

  lemma LeftmostIs(s: string, pattern: string, i: nat)
    requires OccursAt(s, pattern, i) && forall k: nat | k < i :: !OccursAt(s, pattern, k)
    ensures Index(s, pattern) == Some(i)
  {
  }

  lemma DiffersAt(s: string, pattern: string, i: nat, k: nat)
    requires k < |pattern| && (i + k >= |s| || s[i + k] != pattern[k])
    ensures !OccursAt(s, pattern, i)
  {
  }

  lemma AddressIsFound(tail: string, prefix: string, suffix: string)
    requires prefix != "" && Index(tail, suffix).Some?
    ensures FirstAddress(prefix + tail, prefix, suffix).Some?
  {
    var s := prefix + tail;
    assert OccursAt(s, prefix, 0);
    LeftmostIs(s, prefix, 0);
    assert s[0 + |prefix|..] == tail;
  }

  /** When the first resolution joins its neighbours into a new start, the pass leaves that in. */
  lemma RemovalCanLeaveAnAddress(s: string, prefix: string, suffix: string, resolve: string -> string, right: string,
    tail: string)
    requires prefix != "" && suffix != "" && FirstAddress(s, prefix, suffix).Some?
    requires var first := FirstAddress(s, prefix, suffix).value;
      && prefix == first.before + (resolve(first.id) + right)
      && Rewrite(first.after, prefix, suffix, resolve) == right + tail
    requires Index(tail, suffix).Some?
    ensures Rewrite(s, prefix, suffix, resolve) == prefix + tail
    ensures FirstAddress(Rewrite(s, prefix, suffix, resolve), prefix, suffix).Some?
  {
    hide FirstAddress, OccursAt, Index;
    var first := FirstAddress(s, prefix, suffix).value;
    assert first.before + (resolve(first.id) + (right + tail)) == prefix + tail;
    AddressIsFound(tail, prefix, suffix);
  }

  lemma CutStart(rest: string)
    ensures Index("/api/fi" + (FILES + rest), FILES) == Some(7)
  {
    var s := "/api/fi" + (FILES + rest);
    assert s[7] == FILES[0];
    forall k: nat | k < 7 ensures !OccursAt(s, FILES, k) {
      DiffersAt(s, FILES, k, if k == 0 then 7 else if k == 4 then 1 else 0);
    }
    assert s[7..7 + |FILES|] == FILES;
    LeftmostIs(s, FILES, 7);
  }

  lemma CutEnd(id: char, after: string)
    requires id != '/'
    ensures Index([id] + (PREVIEW + after), PREVIEW) == Some(1)
  {
    var rest := [id] + (PREVIEW + after);
    DiffersAt(rest, PREVIEW, 0, 0);
    assert rest[1..1 + |PREVIEW|] == PREVIEW;
    LeftmostIs(rest, PREVIEW, 1);
  }

  lemma NoStartLeft()
    ensures Index("les/2/preview", FILES).None?
  {
    var after := "les/2/preview";
    forall k: nat ensures !OccursAt(after, FILES, k) {
      DiffersAt(after, FILES, k, if k < 3 then 0 else 10);
    }
  }

  lemma SecondStart(rest: string)
    ensures Index("les/2 " + (FILES + rest), FILES) == Some(6)
  {
    var s := "les/2 " + (FILES + rest);
    assert s[6] == FILES[0];
    forall k: nat | k < 6 ensures !OccursAt(s, FILES, k) {
      DiffersAt(s, FILES, k, if k == 3 then 1 else 0);
    }
    assert s[6..6 + |FILES|] == FILES;
    LeftmostIs(s, FILES, 6);
  }

  lemma Slices(a: string, b: string, c: string)
    ensures (a + (b + c))[..|a|] == a && (a + (b + c))[|a|..] == b + c && (a + (b + c))[|a| + |b|..] == c
  {
  }

  // The first address of a text that begins like this.
  lemma FirstCut(left: string, id: char, after: string)
    requires id != '/' && Index(left + (FILES + ([id] + (PREVIEW + after))), FILES) == Some(|left|)
    ensures FirstAddress(left + (FILES + ([id] + (PREVIEW + after))), FILES, PREVIEW) == Some(Split(left, [id], after))
  {
    hide Index, FirstAddress, FILES, PREVIEW;
    var rest := [id] + (PREVIEW + after);
    CutEnd(id, after);
    Slices(left, FILES, rest);
    Slices([id], PREVIEW, after);
    FirstIs(left + (FILES + rest), FILES, PREVIEW, |left|, 1);
  }

  lemma Joints()
    ensures FILES == "/api/fi" + ("" + "les/") && "les/2/preview" == "les/" + ("2" + PREVIEW)
    ensures FILES != "" && PREVIEW != "" && |"/api/fi"| == 7
  {
  }

  /** A text in which that happens: after the pass that drops every preview, file 2 is still there. */
  lemma DroppedPreviewUncoversAnother()
    ensures Rewrite("/api/fi" + (FILES + ("1" + (PREVIEW + "les/2/preview"))), FILES, PREVIEW, _ => "") ==
      FILES + ("2" + PREVIEW)
  {
    hide Rewrite, Index, FirstAddress, OccursAt, FILES, PREVIEW;
    Joints();
    var after := "les/2/preview";
    CutStart("1" + (PREVIEW + after));
    FirstCut("/api/fi", '1', after);
    NoStartLeft();
    NothingToRewrite(after, FILES, PREVIEW, _ => "");
    EndFound("2");
    var s := "/api/fi" + (FILES + ("1" + (PREVIEW + after)));
    RemovalCanLeaveAnAddress(s, FILES, PREVIEW, _ => "", "les/", "2" + PREVIEW);
  }

  lemma EndFound(id: string)
    ensures Index(id + PREVIEW, PREVIEW).Some?
  {
    assert OccursAt(id + PREVIEW, PREVIEW, |id|);
  }

  // ---- the addresses that public pages resolve to

  const PUBLIC := "/api/public/files/"

  predicate IsFileID(id: string) {
    id != "" && forall i | 0 <= i < |id| :: '0' <= id[i] <= '9'
  }

  /** A file that may not be shown resolves to nothing, any other to its public preview. */
  ghost predicate IsPublicResolver(resolve: string -> string) {
    forall id :: resolve(id) == "" || (IsFileID(id) && resolve(id) == PUBLIC + (id + PREVIEW))
  }

  lemma PublicHoldsNoStart(id: string, j: nat)
    requires IsFileID(id)
    ensures !OccursAt(PUBLIC + (id + PREVIEW), FILES, j)
  {
    var s := PUBLIC + (id + PREVIEW);
    if j >= |s| || s[j] != '/' {
      DiffersAt(s, FILES, j, 0);
    } else if j == 0 {
      assert s[5] == PUBLIC[5];
      DiffersAt(s, FILES, j, 5);
    } else {
      assert j < 18 ==> s[j] == PUBLIC[j];
      assert forall i | 0 <= i < |id| :: s[18 + i] == id[i];
      assert j < 18 || j - 18 >= |id|;
      assert j >= 18 + |id| ==> s[j] == PREVIEW[j - 18 - |id|];
      assert j == 17 ==> s[18] == id[0];
      DiffersAt(s, FILES, j, 1);
    }
  }

  lemma PublicEndsInNoStart(id: string)
    ensures !EndsInStart(PUBLIC + (id + PREVIEW), FILES) && !EndsInStart("", FILES)
  {
    var s := PUBLIC + (id + PREVIEW);
    assert s[|s| - 1] == PREVIEW[7] == 'w';
    forall n | 0 < n < |FILES| && n <= |s| ensures s[|s| - n..] != FILES[..n] {
      assert s[|s| - n..][n - 1] == 'w' && FILES[..n][n - 1] == FILES[n - 1];
    }
  }

  /** If no resolution holds the prefix or ends in a start of it, only the texts decide. */
  lemma HarmlessResolutions(s: string, prefix: string, suffix: string, resolve: string -> string)
    requires prefix != "" && suffix != ""
    requires forall id :: !EndsInStart(resolve(id), prefix)
    requires forall id, j: nat :: !OccursAt(resolve(id), prefix, j)
    requires var pieces := Parse(s, prefix, suffix);
      forall k | 0 <= k < |pieces| - 1 && pieces[k].Text? :: !EndsInStart(pieces[k].text, prefix)
    ensures FirstAddress(Rewrite(s, prefix, suffix, resolve), prefix, suffix).None?
  {
    hide Rewrite, Parse, FirstAddress, EndsInStart, OccursAt;
    NoAddressLeft(s, prefix, suffix, resolve);
  }

  /** On public pages a preview is left only if a text before one ends in a start of the prefix. */
  lemma PublicPassLeavesNone(s: string, resolve: string -> string)
    requires IsPublicResolver(resolve)
    requires var pieces := Parse(s, FILES, PREVIEW);
      forall k | 0 <= k < |pieces| - 1 && pieces[k].Text? :: !EndsInStart(pieces[k].text, FILES)
    ensures FirstAddress(Rewrite(s, FILES, PREVIEW, resolve), FILES, PREVIEW).None?
  {
    hide IsPublicResolver, OccursAt, EndsInStart;
    forall id ensures !EndsInStart(resolve(id), FILES) && forall j: nat :: !OccursAt(resolve(id), FILES, j) {
      ResolutionIsHarmless(id, resolve);
    }
    HarmlessResolutions(s, FILES, PREVIEW, resolve);
  }

  lemma ResolutionIsHarmless(id: string, resolve: string -> string)
    requires IsPublicResolver(resolve)
    ensures !EndsInStart(resolve(id), FILES) && forall j: nat :: !OccursAt(resolve(id), FILES, j)
  {
    hide EndsInStart;
    PublicEndsInNoStart(id);
    forall j: nat ensures !OccursAt(resolve(id), FILES, j) {
      if resolve(id) != "" {
        PublicHoldsNoStart(id, j);
      }
    }
  }

  // Only file 5 is public.
  function OnlyFifth(id: string): string {
    if id == "5" then PUBLIC + (id + PREVIEW) else ""
  }

  /** With file 5 public, dropping a preview uncovers file 2, whose address then runs on into that of file 5. */
  lemma PublicPreviewUncoversAnother()
    ensures IsPublicResolver(OnlyFifth)
    ensures var s := "/api/fi" + (FILES + ("x" + (PREVIEW + ("les/2 " + (FILES + ("5" + (PREVIEW + "")))))));
      var out := Rewrite(s, FILES, PREVIEW, OnlyFifth);
      && out == FILES + ("2 " + (PUBLIC + ("5" + PREVIEW)))
      && FirstAddress(out, FILES, PREVIEW).Some?
  {
    hide Rewrite, Index, FirstAddress, OccursAt, FILES, PREVIEW, PUBLIC;
    Joints();
    assert IsFileID("5");
    var after := "les/2 " + (FILES + ("5" + (PREVIEW + "")));
    CutStart("x" + (PREVIEW + after));
    FirstCut("/api/fi", 'x', after);
    SecondStart("5" + (PREVIEW + ""));
    FirstCut("les/2 ", '5', "");
    var tail := "2 " + (PUBLIC + ("5" + PREVIEW));
    assert Rewrite(after, FILES, PREVIEW, OnlyFifth) == "les/" + tail by {
      RewriteUnfolds(after, FILES, PREVIEW, OnlyFifth);
      NothingInNothing(OnlyFifth);
      assert "les/2 " + ((PUBLIC + ("5" + PREVIEW)) + "") == "les/" + tail;
    }
    EndFound("2 " + (PUBLIC + "5"));
    assert tail == ("2 " + (PUBLIC + "5")) + PREVIEW;
    RemovalCanLeaveAnAddress("/api/fi" + (FILES + ("x" + (PREVIEW + after))), FILES, PREVIEW, OnlyFifth, "les/", tail);
  }

  lemma NothingInNothing(resolve: string -> string)
    ensures Rewrite("", FILES, PREVIEW, resolve) == ""
  {
    hide Rewrite;
    forall k: nat ensures !OccursAt("", FILES, k) {}
    NothingToRewrite("", FILES, PREVIEW, resolve);
  }
}
