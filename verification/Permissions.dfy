/** Text comparison and the action-permission catalogue (`backend/permissions/actions.go`). */
module Permissions {
  import opened Prelude

  // ---- the string functions of the standard library that the codes go through

  predicate IsSpace(c: char) {
    c == ' ' || '\t' <= c <= '\r' || c == '\U{85}' || c == '\U{A0}' || c == '\U{1680}'
    || '\U{2000}' <= c <= '\U{200A}' || c == '\U{2028}' || c == '\U{2029}' || c == '\U{202F}'
    || c == '\U{205F}' || c == '\U{3000}'
  }

  function TrimLeft(s: string): string {
    if s != [] && IsSpace(s[0]) then TrimLeft(s[1..]) else s
  }

  function TrimRight(s: string): string {
    if s != [] && IsSpace(s[|s| - 1]) then TrimRight(s[..|s| - 1]) else s
  }

  function Trim(s: string): string {
    TrimRight(TrimLeft(s))
  }

  predicate IsTrimmed(s: string) {
    s == [] || (!IsSpace(s[0]) && !IsSpace(s[|s| - 1]))
  }

  lemma TrimmedStays(s: string)
    requires IsTrimmed(s)
    ensures Trim(s) == s
  {
  }

  lemma {:induction false} TrimLeftIsExact(s: string) returns (i: nat)
    ensures i <= |s| && TrimLeft(s) == s[i..] && (forall k | 0 <= k < i :: IsSpace(s[k]))
    ensures i < |s| ==> !IsSpace(s[i])
    decreases |s|
  {
    i := 0;
    if s != [] && IsSpace(s[0]) {
      var rest := TrimLeftIsExact(s[1..]);
      i := rest + 1;
    }
  }

  lemma {:induction false} TrimRightIsExact(s: string) returns (j: nat)
    ensures j <= |s| && TrimRight(s) == s[..j] && (forall k | j <= k < |s| :: IsSpace(s[k]))
    ensures j > 0 ==> !IsSpace(s[j - 1])
    decreases |s|
  {
    j := |s|;
    if s != [] && IsSpace(s[|s| - 1]) {
      j := TrimRightIsExact(s[..|s| - 1]);
    }
  }

  /** Trimming takes away exactly the white space at both ends. */
  lemma TrimIsExact(s: string) returns (i: nat, j: nat)
    ensures i <= j <= |s| && Trim(s) == s[i..j] && IsTrimmed(Trim(s))
    ensures forall k | 0 <= k < i || j <= k < |s| :: IsSpace(s[k])
  {
    i := TrimLeftIsExact(s);
    var n := TrimRightIsExact(TrimLeft(s));
    j := i + n;
    assert TrimLeft(s)[..n] == s[i..j];
    forall k | j <= k < |s| ensures IsSpace(s[k]) {
      assert s[k] == TrimLeft(s)[k - i];
    }
  }

  // Upper-case ASCII letters, and the Kelvin sign and the dotted capital I, whose lower cases are ASCII letters.
  function LowerChar(c: char): char {
    if 'A' <= c <= 'Z' then c + 32 as char
    else if c == '\U{212A}' then 'k'
    else if c == '\U{130}' then 'i'
    else c
  }

  function Lower(s: string): (r: string)
    ensures |r| == |s| && forall i | 0 <= i < |s| :: r[i] == LowerChar(s[i])
  {
    if s == [] then [] else [LowerChar(s[0])] + Lower(s[1..])
  }

  // Simple case folding: the long s folds to an ASCII letter although it is lower case, the dotted capital I does not.
  function FoldChar(c: char): char {
    if c == '\U{17F}' then 's' else if c == '\U{130}' then c else LowerChar(c)
  }

  predicate EqualFold(a: string, b: string) {
    |a| == |b| && forall i | 0 <= i < |a| :: FoldChar(a[i]) == FoldChar(b[i])
  }

  /** Letter case makes no difference, except for the dotted capital I. */
  lemma CaseIsFolded(s: string)
    requires '\U{130}' !in s
    ensures EqualFold(s, Lower(s)) && EqualFold(Lower(s), s)
  {
  }

  const SUPER_ADMIN := "super-admin"
  const SYSTEM_ADMIN := "system-admin"

  predicate IsAdministratorRoleCode(code: string) {
    EqualFold(Trim(code), SUPER_ADMIN) || EqualFold(Trim(code), SYSTEM_ADMIN)
  }

  lemma FoldIsLower(s: string, code: string)
    requires '\U{130}' !in s && '\U{17F}' !in s
    requires forall i | 0 <= i < |code| :: LowerChar(code[i]) == FoldChar(code[i]) == code[i]
    ensures EqualFold(s, code) <==> Lower(s) == code
  {
    if EqualFold(s, code) {
      assert forall i | 0 <= i < |s| :: Lower(s)[i] == code[i];
    }
  }

  /** Blanks around an administrator's code and its letter case make no difference. */
  lemma AdministratorInAnyCase(code: string)
    requires '\U{130}' !in Trim(code) && '\U{17F}' !in Trim(code)
    ensures IsAdministratorRoleCode(code) <==>
      Lower(Trim(code)) == "super-admin" || Lower(Trim(code)) == "system-admin"
  {
    FoldIsLower(Trim(code), SUPER_ADMIN);
    FoldIsLower(Trim(code), SYSTEM_ADMIN);
  }

  // ---- the catalogue

  datatype Definition = Definition(code: string, readOnly: bool)

  const DASHBOARD: seq<Definition> := [Definition("dashboard.query", true), Definition("dashboard.view", true),
    Definition("dashboard.create", false)]
  const USERS: seq<Definition> := [Definition("users.query", true), Definition("users.view", true),
    Definition("users.create", false), Definition("users.update", false), Definition("users.delete", false),
    Definition("users.permissions.update", false)]
  const DEPARTMENTS: seq<Definition> := [Definition("departments.query", true),
    Definition("departments.view", true), Definition("departments.create", false),
    Definition("departments.update", false), Definition("departments.delete", false),
    Definition("departments.permissions.update", false)]
  const ROLES: seq<Definition> := [Definition("roles.query", true), Definition("roles.view", true),
    Definition("roles.create", false), Definition("roles.update", false), Definition("roles.delete", false),
    Definition("roles.permissions.update", false)]
  const MENUS: seq<Definition> := [Definition("menus.query", true), Definition("menus.view", true),
    Definition("menus.create", false), Definition("menus.update", false), Definition("menus.delete", false)]
  const ARTICLES: seq<Definition> := [Definition("articles.query", true), Definition("articles.view", true),
    Definition("articles.create", false), Definition("articles.update", false),
    Definition("articles.delete", false)]
  const FILES: seq<Definition> := [Definition("files.query", true), Definition("files.view", true),
    Definition("files.create", false), Definition("files.update", false), Definition("files.delete", false),
    Definition("files.restore", false), Definition("files.permanent-delete", false)]
  const SOCKET: seq<Definition> := [Definition("socket.query", true), Definition("socket.view", true),
    Definition("socket.send", false), Definition("socket.delete", false)]
  const ANALYTICS: seq<Definition> := [Definition("visitor-analytics.query", true),
    Definition("visitor-analytics.view", true)]

  const PARTS: seq<seq<Definition>> := [DASHBOARD, USERS, DEPARTMENTS, ROLES, MENUS, ARTICLES, FILES, SOCKET, ANALYTICS]

  const DEFINITIONS: seq<Definition> := Joined(PARTS)

  function Joined(parts: seq<seq<Definition>>): (r: seq<Definition>)
    ensures forall d :: d in r <==> exists part | part in parts :: d in part
  {
    if parts == [] then []
    else
      assert forall part :: part in parts <==> part == parts[0] || part in parts[1..];
      parts[0] + Joined(parts[1..])
  }

  predicate TrimmedCodes(definitions: seq<Definition>) {
    forall d | d in definitions :: IsTrimmed(d.code)
  }

  // Both ends are lower-case letters.
  predicate HasLetterEnds(s: string) {
    s != [] && 'a' <= s[0] <= 'z' && 'a' <= s[|s| - 1] <= 'z'
  }

  lemma LetterEndsAreTrimmed(s: string)
    requires HasLetterEnds(s)
    ensures IsTrimmed(s)
  {
  }

  lemma FirstPartsHaveLetterEnds()
    ensures forall k, i | 0 <= k < 4 && 0 <= i < |PARTS[k]| :: HasLetterEnds(PARTS[k][i].code)
  {
  }

  lemma LastPartsHaveLetterEnds()
    ensures |PARTS| == 9
    ensures forall k, i | 4 <= k < 9 && 0 <= i < |PARTS[k]| :: HasLetterEnds(PARTS[k][i].code)
  {
  }

  lemma CatalogueIsTrimmed()
    ensures TrimmedCodes(DEFINITIONS)
  {
    hide HasLetterEnds, IsTrimmed, PARTS;
    FirstPartsHaveLetterEnds();
    LastPartsHaveLetterEnds();
    forall d | d in DEFINITIONS ensures IsTrimmed(d.code) {
      LetterEndsAreTrimmed(d.code);
    }
  }

  predicate Distinct(codes: seq<string>) {
    forall i, j | 0 <= i < j < |codes| :: codes[i] != codes[j]
  }

  predicate CodesDiffer(definitions: seq<Definition>) {
    forall i, j | 0 <= i < j < |definitions| :: definitions[i].code != definitions[j].code
  }

  // How the codes of each part begin, and the letters that tell the codes of one part apart.
  const STARTS: seq<string> := ["da", "us", "de", "ro", "me", "ar", "fi", "so", "vi"]
  const PLACES: seq<nat> := [10, 6, 12, 6, 6, 9, 6, 7, 18]
  const LETTERS: seq<string> := ["qvc", "qvcudp", "qvcudp", "qvcudp", "qvcud", "qvcud", "qvcudrp", "qvsd", "qv"]

  predicate Told(k: nat, i: nat)
    requires k < |PARTS| && i < |PARTS[k]|
  {
    var code := PARTS[k][i].code;
    && |PLACES| == |LETTERS| == |STARTS| == 9 && k < 9 && i < |LETTERS[k]| && |STARTS[k]| == 2
    && 1 < PLACES[k] < |code|
    && code[0] == STARTS[k][0] && code[1] == STARTS[k][1] && code[PLACES[k]] == LETTERS[k][i]
  }

  lemma FirstPartsTold()
    ensures forall k: nat, i: nat | k < 3 && i < |PARTS[k]| :: Told(k, i)
  {
  }

  lemma MiddlePartsTold()
    ensures forall k: nat, i: nat | 3 <= k < 6 && i < |PARTS[k]| :: Told(k, i)
  {
  }

  lemma LastPartsTold()
    ensures forall k: nat, i: nat | 6 <= k < 9 && i < |PARTS[k]| :: Told(k, i)
  {
  }

  lemma StartsDiffer()
    ensures |STARTS| == |LETTERS| == |PARTS| == 9 && forall k | 0 <= k < 9 :: |STARTS[k]| == 2
    ensures forall k, l | 0 <= k < l < 9 :: STARTS[k][0] != STARTS[l][0] || STARTS[k][1] != STARTS[l][1]
    ensures forall k, i, j | 0 <= k < 9 && 0 <= i < j < |LETTERS[k]| :: LETTERS[k][i] != LETTERS[k][j]
  {
  }

  lemma PartsAreDistinct(k: nat, l: nat, i: nat, j: nat)
    requires |PARTS| == 9 && k < 9 && l < 9 && i < |PARTS[k]| && j < |PARTS[l]| && Told(k, i) && Told(l, j)
    requires k < l || (k == l && i < j)
    ensures PARTS[k][i].code != PARTS[l][j].code
  {
    hide PARTS, STARTS, PLACES, LETTERS;
    StartsDiffer();
  }

  lemma CatalogueIsDistinct()
    ensures CodesDiffer(DEFINITIONS)
  {
    hide PARTS, Told, Joined;
    FirstPartsTold();
    MiddlePartsTold();
    LastPartsTold();
    StartsDiffer();
    forall k: nat, l: nat, i: nat, j: nat
      | k < 9 && l < 9 && i < |PARTS[k]| && j < |PARTS[l]| && (k < l || (k == l && i < j))
      ensures PARTS[k][i].code != PARTS[l][j].code
    {
      PartsAreDistinct(k, l, i, j);
    }
    JoinedIsDistinct(PARTS);
  }

  /** Parts whose codes all differ, within each and between them, join to a catalogue whose codes do. */
  lemma {:induction false} JoinedIsDistinct(parts: seq<seq<Definition>>)
    requires forall k: nat, l: nat, i: nat, j: nat
      | k < |parts| && l < |parts| && i < |parts[k]| && j < |parts[l]| && (k < l || (k == l && i < j)) ::
        parts[k][i].code != parts[l][j].code
    ensures CodesDiffer(Joined(parts))
    decreases |parts|
  {
    if parts != [] {
      hide CodesDiffer;
      var rest := parts[1..];
      assert forall k: nat | k < |rest| :: rest[k] == parts[k + 1];
      JoinedIsDistinct(rest);
      assert CodesDiffer(parts[0]) by { FirstDiffers(parts); }
      forall x: nat, y: nat | x < |parts[0]| && y < |Joined(rest)| ensures parts[0][x].code != Joined(rest)[y].code {
        var l, j := PlaceInJoined(rest, y);
        assert parts[l + 1][j] == Joined(rest)[y];
      }
      ConcatIsDistinct(parts[0], Joined(rest));
    }
  }

  lemma PlaceInJoined(parts: seq<seq<Definition>>, y: nat) returns (l: nat, j: nat)
    requires y < |Joined(parts)|
    ensures l < |parts| && j < |parts[l]| && parts[l][j] == Joined(parts)[y]
  {
    hide Joined;
    assert Joined(parts)[y] in Joined(parts);
    var part :| part in parts && Joined(parts)[y] in part;
    l :| 0 <= l < |parts| && parts[l] == part;
    j :| 0 <= j < |part| && part[j] == Joined(parts)[y];
  }

  lemma FirstDiffers(parts: seq<seq<Definition>>)
    requires parts != []
    requires forall k: nat, l: nat, i: nat, j: nat
      | k < |parts| && l < |parts| && i < |parts[k]| && j < |parts[l]| && (k < l || (k == l && i < j)) ::
        parts[k][i].code != parts[l][j].code
    ensures CodesDiffer(parts[0])
  {
  }

  lemma ConcatIsDistinct(a: seq<Definition>, b: seq<Definition>)
    requires CodesDiffer(a) && CodesDiffer(b)
    requires forall x, y | 0 <= x < |a| && 0 <= y < |b| :: a[x].code != b[y].code
    ensures CodesDiffer(a + b)
  {
  }

  predicate Catalogued(catalogue: seq<Definition>, code: string) {
    exists d | d in catalogue :: d.code == code
  }

  // ---- selecting codes

  /** The codes a request names, blanks around them removed. */
  function Requested(groups: seq<seq<string>>): set<string> {
    set group, code | group in groups && code in group :: Trim(code)
  }

  /** The selected codes of a catalogue in catalogue order. */
  function Selected(definitions: seq<Definition>, selected: set<string>): (r: seq<string>)
    ensures forall c :: c in r <==> c in selected && exists d | d in definitions :: d.code == c
  {
    if definitions == [] then []
    else
      var rest := Selected(definitions[1..], selected);
      assert forall d :: d in definitions <==> d == definitions[0] || d in definitions[1..];
      if definitions[0].code in selected then [definitions[0].code] + rest else rest
  }

  /** The canonical union of the known codes among `groups`. */
  function Merged(catalogue: seq<Definition>, groups: seq<seq<string>>): seq<string> {
    Selected(catalogue, Requested(groups))
  }

  function AllCodes(catalogue: seq<Definition>): seq<string> {
    Kept(catalogue, d => true)
  }

  function DefaultRoleCodes(catalogue: seq<Definition>): seq<string> {
    Kept(catalogue, (d: Definition) => d.readOnly)
  }

  /** The codes of the definitions to keep, in catalogue order. */
  function Kept(definitions: seq<Definition>, keep: Definition -> bool): (r: seq<string>)
    ensures forall c :: c in r <==> exists d | d in definitions :: keep(d) && d.code == c
  {
    if definitions == [] then []
    else
      var rest := Kept(definitions[1..], keep);
      assert forall d :: d in definitions <==> d == definitions[0] || d in definitions[1..];
      if keep(definitions[0]) then [definitions[0].code] + rest else rest
  }

  function RoleCodes(catalogue: seq<Definition>, roleCode: string): seq<string> {
    if IsAdministratorRoleCode(roleCode) then AllCodes(catalogue) else DefaultRoleCodes(catalogue)
  }

  lemma {:induction false} SelectedAppend(definitions: seq<Definition>, d: Definition, selected: set<string>)
    ensures Selected(definitions + [d], selected) ==
      Selected(definitions, selected) + (if d.code in selected then [d.code] else [])
    decreases |definitions|
  {
    if definitions == [] {
      assert [d][1..] == [];
    } else {
      assert (definitions + [d])[1..] == definitions[1..] + [d];
      SelectedAppend(definitions[1..], d, selected);
    }
  }

  /** `codes` lists, by ascending place, every definition of the catalogue whose code it holds. */
  predicate ListedAt(catalogue: seq<Definition>, codes: seq<string>, places: seq<nat>) {
    && |places| == |codes| && (forall i, j | 0 <= i < j < |places| :: places[i] < places[j])
    && (forall i | 0 <= i < |codes| :: places[i] < |catalogue| && catalogue[places[i]].code == codes[i])
    && forall p: nat | p < |catalogue| :: catalogue[p].code in codes ==> p in places
  }

  ghost predicate FollowsCatalogue(catalogue: seq<Definition>, codes: seq<string>) {
    exists places :: ListedAt(catalogue, codes, places)
  }

  lemma ListedWithLast(catalogue: seq<Definition>, codes: seq<string>, places: seq<nat>, d: Definition)
    requires ListedAt(catalogue, codes, places)
    requires Catalogued(catalogue, d.code) ==> d.code in codes
    ensures ListedAt(catalogue + [d], codes + [d.code], places + [|catalogue|])
  {
    forall p: nat | p < |catalogue| && catalogue[p].code in codes + [d.code] ensures p in places {
      assert catalogue[p] in catalogue;
    }
    assert |catalogue| in places + [|catalogue|] by { assert (places + [|catalogue|])[|places|] == |catalogue|; }
  }

  lemma ListedWithoutLast(catalogue: seq<Definition>, codes: seq<string>, places: seq<nat>, d: Definition)
    requires ListedAt(catalogue, codes, places) && d.code !in codes
    ensures ListedAt(catalogue + [d], codes, places)
  {
  }

  lemma {:induction false} SelectedFollowsCatalogue(definitions: seq<Definition>, selected: set<string>)
    returns (places: seq<nat>)
    ensures ListedAt(definitions, Selected(definitions, selected), places)
    decreases |definitions|
  {
    places := [];
    if definitions != [] {
      hide ListedAt;
      var front, d := definitions[..|definitions| - 1], definitions[|definitions| - 1];
      assert front + [d] == definitions;
      places := SelectedFollowsCatalogue(front, selected);
      SelectedAppend(front, d, selected);
      if d.code in selected {
        ListedWithLast(front, Selected(front, selected), places, d);
        places := places + [|front|];
      } else {
        ListedWithoutLast(front, Selected(front, selected), places, d);
      }
    }
  }

  lemma {:induction false} AllCodesFollowCatalogue(catalogue: seq<Definition>)
    ensures |AllCodes(catalogue)| == |catalogue|
    ensures forall i | 0 <= i < |catalogue| :: AllCodes(catalogue)[i] == catalogue[i].code
    ensures FollowsCatalogue(catalogue, AllCodes(catalogue))
  {
    KeepingAllKeepsPlaces(catalogue, d => true);
    assert ListedAt(catalogue, AllCodes(catalogue), seq(|catalogue|, i requires 0 <= i => i));
  }

  lemma {:induction false} KeepingAllKeepsPlaces(definitions: seq<Definition>, keep: Definition -> bool)
    requires forall d | d in definitions :: keep(d)
    ensures |Kept(definitions, keep)| == |definitions|
    ensures forall i | 0 <= i < |definitions| :: Kept(definitions, keep)[i] == definitions[i].code
    decreases |definitions|
  {
    if definitions != [] {
      assert definitions[0] in definitions;
      KeepingAllKeepsPlaces(definitions[1..], keep);
    }
  }

  method SelectedCodes(definitions: seq<Definition>, selected: set<string>) returns (codes: seq<string>)
    ensures codes == Selected(definitions, selected)
  {
    codes := [];
    for i := 0 to |definitions|
      invariant codes == Selected(definitions[..i], selected)
    {
      assert definitions[..i + 1] == definitions[..i] + [definitions[i]];
      SelectedAppend(definitions[..i], definitions[i], selected);
      if definitions[i].code in selected {
        codes := codes + [definitions[i].code];
      }
    }
    assert definitions[..|definitions|] == definitions;
  }

  lemma {:induction false} KeptAppend(definitions: seq<Definition>, d: Definition, keep: Definition -> bool)
    ensures Kept(definitions + [d], keep) == Kept(definitions, keep) + (if keep(d) then [d.code] else [])
    decreases |definitions|
  {
    if definitions == [] {
      assert [d][1..] == [];
    } else {
      assert (definitions + [d])[1..] == definitions[1..] + [d];
      KeptAppend(definitions[1..], d, keep);
    }
  }

  /** filterCodes: the codes of the definitions that the caller's test keeps, in catalogue order. */
  method FilterCodes(definitions: seq<Definition>, keep: Definition -> bool) returns (codes: seq<string>)
    ensures codes == Kept(definitions, keep)
  {
    codes := [];
    for i := 0 to |definitions|
      invariant codes == Kept(definitions[..i], keep)
    {
      assert definitions[..i + 1] == definitions[..i] + [definitions[i]];
      KeptAppend(definitions[..i], definitions[i], keep);
      if keep(definitions[i]) {
        codes := codes + [definitions[i].code];
      }
    }
    assert definitions[..|definitions|] == definitions;
  }

  predicate IsKnown(catalogue: seq<Definition>, code: string) {
    Catalogued(catalogue, Trim(code))
  }

  // Unknown codes never reach the result, whether or not they are dropped first.
  lemma {:induction false} SelectedIgnoresUnknown(definitions: seq<Definition>, a: set<string>, b: set<string>)
    requires forall d | d in definitions :: d.code in a <==> d.code in b
    ensures Selected(definitions, a) == Selected(definitions, b)
    decreases |definitions|
  {
    if definitions != [] {
      assert definitions[0] in definitions;
      SelectedIgnoresUnknown(definitions[1..], a, b);
    }
  }

  /** MergeCodes: unknown codes are skipped, the rest comes out in catalogue order. */
  method MergeCodes(catalogue: seq<Definition>, groups: seq<seq<string>>) returns (codes: seq<string>)
    ensures codes == Merged(catalogue, groups)
  {
    var selected: set<string> := {};
    for g := 0 to |groups|
      invariant forall c :: c in selected <==> Catalogued(catalogue, c) && c in Requested(groups[..g])
    {
      ghost var before := selected;
      for i := 0 to |groups[g]|
        invariant forall c :: c in selected <==>
          c in before || (Catalogued(catalogue, c) && exists k | 0 <= k < i :: Trim(groups[g][k]) == c)
      {
        var code := Trim(groups[g][i]);
        if Catalogued(catalogue, code) {
          selected := selected + {code};
        }
      }
      assert groups[..g + 1] == groups[..g] + [groups[g]];
      forall c ensures c in Requested(groups[..g + 1]) <==>
        c in Requested(groups[..g]) || exists k | 0 <= k < |groups[g]| :: Trim(groups[g][k]) == c
      {
        if k :| 0 <= k < |groups[g]| && Trim(groups[g][k]) == c {
          assert groups[g] in groups[..g + 1] && groups[g][k] in groups[g];
        }
        if c in Requested(groups[..g + 1]) && c !in Requested(groups[..g]) {
          var group, code :| group in groups[..g + 1] && code in group && Trim(code) == c;
          assert group == groups[g];
        }
      }
    }
    assert groups[..|groups|] == groups;
    codes := SelectedCodes(catalogue, selected);
    SelectedIgnoresUnknown(catalogue, selected, Requested(groups));
  }

  /** NormalizeCodes refuses a request with any unknown code and otherwise merges it. */
  method NormalizeCodes(catalogue: seq<Definition>, raw: seq<string>) returns (codes: Option<seq<string>>)
    ensures codes == if forall c | c in raw :: IsKnown(catalogue, c) then Some(Merged(catalogue, [raw])) else None
  {
    for i := 0 to |raw|
      invariant forall k | 0 <= k < i :: IsKnown(catalogue, raw[k])
    {
      if !IsKnown(catalogue, raw[i]) {
        return None;
      }
    }
    var merged := MergeCodes(catalogue, [raw]);
    codes := Some(merged);
  }

  // ---- laws of the merge

  /** A merge holds exactly the known codes that were asked for. */
  lemma MergedIsExact(catalogue: seq<Definition>, groups: seq<seq<string>>, code: string)
    ensures code in Merged(catalogue, groups) <==>
      Catalogued(catalogue, code) && exists g, c | g in groups && c in g :: Trim(c) == code
  {
  }

  /** The order and grouping of the request do not matter. */
  lemma MergedIgnoresOrder(catalogue: seq<Definition>, a: seq<seq<string>>, b: seq<seq<string>>)
    requires forall code | Catalogued(catalogue, code) :: code in Requested(a) <==> code in Requested(b)
    ensures Merged(catalogue, a) == Merged(catalogue, b)
  {
    SelectedIgnoresUnknown(catalogue, Requested(a), Requested(b));
  }

  lemma RequestedOfMerged(catalogue: seq<Definition>, groups: seq<seq<string>>, code: string)
    requires TrimmedCodes(catalogue)
    requires Catalogued(catalogue, code)
    ensures code in Requested([Merged(catalogue, groups)]) <==> code in Requested(groups)
  {
  }

  lemma {:induction false} SelectedIsDistinct(definitions: seq<Definition>, selected: set<string>)
    requires CodesDiffer(definitions)
    ensures Distinct(Selected(definitions, selected))
    decreases |definitions|
  {
    if definitions != [] {
      var rest := definitions[1..];
      assert forall i | 0 <= i < |rest| :: rest[i] == definitions[i + 1];
      SelectedIsDistinct(rest, selected);
      assert definitions[0].code !in Selected(rest, selected) by {
        assert forall d | d in rest :: d.code != definitions[0].code;
      }
    }
  }

  /** A merge of the catalogue's codes repeats none. */
  lemma MergedRepeatsNone(groups: seq<seq<string>>)
    ensures Distinct(Merged(DEFINITIONS, groups))
  {
    hide DEFINITIONS;
    CatalogueIsDistinct();
    SelectedIsDistinct(DEFINITIONS, Requested(groups));
  }

  /** Merging what is already merged changes nothing. */
  lemma MergedIsIdempotent(catalogue: seq<Definition>, groups: seq<seq<string>>)
    requires TrimmedCodes(catalogue)
    ensures Merged(catalogue, [Merged(catalogue, groups)]) == Merged(catalogue, groups)
  {
    forall code | Catalogued(catalogue, code)
      ensures code in Requested([Merged(catalogue, groups)]) <==> code in Requested(groups)
    {
      RequestedOfMerged(catalogue, groups, code);
    }
    MergedIgnoresOrder(catalogue, [Merged(catalogue, groups)], groups);
  }

  /** A group may be merged beforehand. */
  lemma MergedAbsorbs(catalogue: seq<Definition>, first: seq<string>, second: seq<string>)
    requires TrimmedCodes(catalogue)
    ensures Merged(catalogue, [first, Merged(catalogue, [second])]) == Merged(catalogue, [first, second])
  {
    var merged := Merged(catalogue, [second]);
    forall code | Catalogued(catalogue, code)
      ensures code in Requested([first, merged]) <==> code in Requested([first, second])
    {
      RequestedOfMerged(catalogue, [second], code);
      RequestedOfPair(first, merged, code);
      RequestedOfPair(first, second, code);
    }
    MergedIgnoresOrder(catalogue, [first, merged], [first, second]);
  }

  lemma RequestedOfPair(first: seq<string>, second: seq<string>, code: string)
    ensures code in Requested([first, second]) <==> code in Requested([first]) || code in Requested([second])
  {
  }
}
