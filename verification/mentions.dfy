/**
 The @-mention scanner of the notification endpoint: every left-to-right,
 non-overlapping match of the global regular expression

     @([a-zA-Z0-9._%+-]+@[a-zA-Z0-9.-]+\.[a-zA-Z]{2,})

 with its capture group collected. The backtracking matcher is spelled out
 as a deterministic scan:
 - the local part cannot contain `@`, so it is the maximal run of local-part
   characters and must be followed by `@`;
 - `[a-zA-Z0-9.-]+\.` backtracks from the end of the maximal run of domain
   characters to the LAST dot that is followed by two letters;
 - the greedy `[a-zA-Z]{2,}` then takes the whole run of letters after it;
 - a failed attempt retries one character further on, a successful one
   resumes where the match ended.
 */
module Mentions {
  import opened Collections

  predicate IsLetter(c: char) {
    'a' <= c <= 'z' || 'A' <= c <= 'Z'
  }

  predicate IsDigit(c: char) {
    '0' <= c <= '9'
  }

  /** The three character classes of the pattern. */
  datatype CharClass = LocalPart | DomainPart | Letter

  predicate InClass(c: char, k: CharClass) {
    match k
    case LocalPart => IsLetter(c) || IsDigit(c) || c == '.' || c == '_' || c == '%' || c == '+' || c == '-'
    case DomainPart => IsLetter(c) || IsDigit(c) || c == '.' || c == '-'
    case Letter => IsLetter(c)
  }

  /** `x` splits as local@domain.tld at positions `at` and `dot`: a non-empty
      local part, a non-empty domain part, and a top-level part of at least two
      letters. */
  predicate EmailSplit(x: string, at: int, dot: int) {
    && 0 < at && at + 1 < dot && dot + 2 < |x|
    && x[at] == '@' && x[dot] == '.'
    && (forall y :: 0 <= y < at ==> InClass(x[y], LocalPart))
    && (forall y :: at < y < dot ==> InClass(x[y], DomainPart))
    && (forall y :: dot < y < |x| ==> IsLetter(x[y]))
  }

  /** `x` has the shape of an e-mail address as the pattern's group defines it. */
  ghost predicate IsEmailShaped(x: string) {
    exists at, dot :: EmailSplit(x, at, dot)
  }

  /** End of the maximal run of `k`-characters starting at `i`. */
  function RunEnd(s: string, i: nat, k: CharClass): (e: nat)
    requires i <= |s|
    ensures i <= e <= |s|
    ensures forall x :: i <= x < e ==> InClass(s[x], k)
    ensures e == |s| || !InClass(s[e], k)
    decreases |s| - i
  {
    if i < |s| && InClass(s[i], k) then RunEnd(s, i + 1, k) else i
  }

  /** A dot at `m` followed by two letters: where `\.[a-zA-Z]{2,}` can match. */
  predicate TldAt(s: string, m: nat) {
    m + 2 < |s| && s[m] == '.' && IsLetter(s[m + 1]) && IsLetter(s[m + 2])
  }

  /** The backtracking of `[a-zA-Z0-9.-]+\.`: the largest `m` in `(lo, hi]`
      where a top-level part can start. */
  function LastTldDot(s: string, lo: nat, hi: int): (r: Option<nat>)
    ensures r.Some? ==> lo < r.value <= hi && TldAt(s, r.value)
    ensures r.Some? ==> forall x :: r.value < x <= hi ==> !TldAt(s, x)
    ensures r.None? ==> forall x :: lo < x <= hi ==> !TldAt(s, x)
    decreases hi
  {
    if hi <= lo then None
    else if TldAt(s, hi) then Some(hi)
    else LastTldDot(s, lo, hi - 1)
  }

  /** The match attempt at position `i`: the end of the match (exclusive), or
      None when the pattern does not match there. */
  function MatchAt(s: string, i: nat): (r: Option<nat>)
    requires i < |s|
    ensures r.Some? ==> i + 1 < r.value <= |s| && IsEmailShaped(s[i + 1..r.value])
    ensures r.Some? ==> s[i] == '@'
  {
    if s[i] != '@' then None
    else
      var p := RunEnd(s, i + 1, LocalPart);
      if p == i + 1 || p == |s| || s[p] != '@' then None
      else
        var k := RunEnd(s, p + 1, DomainPart);
        match LastTldDot(s, p + 1, k - 1)
        case None => None
        case Some(m) =>
          var e := RunEnd(s, m + 1, Letter);
          MatchShape(s, i, p, k, m, e);
          Some(e)
  }

  /** The pieces found by `MatchAt` make an e-mail shaped capture. */
  lemma MatchShape(s: string, i: nat, p: nat, k: nat, m: nat, e: nat)
    requires i + 1 < p < |s| && s[p] == '@'
    requires forall x :: i + 1 <= x < p ==> InClass(s[x], LocalPart)
    requires p + 1 <= k <= |s|
    requires forall x :: p + 1 <= x < k ==> InClass(s[x], DomainPart)
    requires k == |s| || !InClass(s[k], DomainPart)
    requires p + 1 < m <= k - 1 && TldAt(s, m)
    requires m + 1 <= e <= |s|
    requires forall x :: m + 1 <= x < e ==> IsLetter(s[x])
    requires e == |s| || !IsLetter(s[e])
    ensures i + 1 < e && IsEmailShaped(s[i + 1..e])
  {
    assert m + 2 < e;
    var x := s[i + 1..e];
    assert forall y :: 0 <= y < |x| ==> x[y] == s[i + 1 + y];
    assert EmailSplit(x, p - (i + 1), m - (i + 1));
  }

  /** Reference meaning of one match attempt: `@` at `i` followed by the
      e-mail shaped text `s[i + 1..e]`. */
  ghost predicate CaptureAt(s: string, i: nat, e: int) {
    i < |s| && s[i] == '@' && i + 1 <= e <= |s| && IsEmailShaped(s[i + 1..e])
  }

  /** Any capture at `i` is cut the way the scanner cuts: its `@` ends the
      local-part run, it stays inside the domain run, and its dot is a
      possible top-level start. */
  lemma CaptureStructure(s: string, i: nat, e: nat, at: int, dot: int)
    requires i < |s| && s[i] == '@' && i + 1 <= e <= |s|
    requires EmailSplit(s[i + 1..e], at, dot)
    ensures RunEnd(s, i + 1, LocalPart) == i + 1 + at
    ensures i + 1 < i + 1 + at < |s| && s[i + 1 + at] == '@'
    ensures i + 1 + at + 1 < i + 1 + dot && i + 1 + dot + 2 < e
    ensures e <= RunEnd(s, i + 1 + at + 1, DomainPart)
    ensures TldAt(s, i + 1 + dot)
    ensures forall y :: i + 1 + dot < y < e ==> IsLetter(s[y])
  {
    var x := s[i + 1..e];
    assert forall y :: 0 <= y < |x| ==> x[y] == s[i + 1 + y];
    var p := i + 1 + at;
    assert forall y :: i + 1 <= y < p ==> InClass(s[y], LocalPart);
    RunEndReaches(s, i + 1, LocalPart, p);
    assert !InClass(s[p], LocalPart);
    assert forall y :: p + 1 <= y < e ==> InClass(s[y], DomainPart);
    RunEndReaches(s, p + 1, DomainPart, e);
  }

  /** A run of `k`-characters from `i` to `j` ends no earlier than `j`. */
  lemma {:induction false} RunEndReaches(s: string, i: nat, k: CharClass, j: nat)
    requires i <= j <= |s|
    requires forall y :: i <= y < j ==> InClass(s[y], k)
    ensures j <= RunEnd(s, i, k)
    decreases j - i
  {
    if i < j {
      RunEndReaches(s, i + 1, k, j);
    }
  }

  /** Every capture at `i` is found by the scanner and is no longer than
      the match it reports. */
  lemma CaptureWithinMatch(s: string, i: nat, e: nat)
    requires CaptureAt(s, i, e)
    ensures MatchAt(s, i).Some? && e <= MatchAt(s, i).value
  {
    var at, dot :| EmailSplit(s[i + 1..e], at, dot);
    SplitWithinMatch(s, i, e, at, dot);
  }

  lemma SplitWithinMatch(s: string, i: nat, e: nat, at: int, dot: int)
    requires i < |s| && s[i] == '@' && i + 1 <= e <= |s|
    requires EmailSplit(s[i + 1..e], at, dot)
    ensures MatchAt(s, i).Some? && e <= MatchAt(s, i).value
  {
    CaptureStructure(s, i, e, at, dot);
    ScannerFinds(s, i, e, i + 1 + dot);
  }

  /** A match assembled from its pieces: the local-part run ends at `p` on
      an `@`, the domain run ends at `k`, the last top-level dot is `m` and
      the letters after it end at `e`. */
  lemma MatchFromPieces(s: string, i: nat, p: nat, k: nat, m: nat, e: nat)
    requires i < |s| && s[i] == '@'
    requires i + 1 < p < |s| && RunEnd(s, i + 1, LocalPart) == p && s[p] == '@'
    requires RunEnd(s, p + 1, DomainPart) == k
    requires LastTldDot(s, p + 1, k - 1) == Some(m)
    requires RunEnd(s, m + 1, Letter) == e
    ensures MatchAt(s, i) == Some(e)
  {
  }

  /** The scanner succeeds at `i` and reaches at least as far as any
      top-level part that starts at a dot `d` inside the domain run. */
  lemma ScannerFinds(s: string, i: nat, e: nat, d: nat)
    requires i < |s| && s[i] == '@'
    requires i + 1 < RunEnd(s, i + 1, LocalPart) < |s|
    requires s[RunEnd(s, i + 1, LocalPart)] == '@'
    requires RunEnd(s, i + 1, LocalPart) + 1 < d
    requires d + 2 < e <= RunEnd(s, RunEnd(s, i + 1, LocalPart) + 1, DomainPart)
    requires TldAt(s, d)
    requires forall y :: d < y < e ==> IsLetter(s[y])
    ensures MatchAt(s, i).Some? && e <= MatchAt(s, i).value
  {
    var p := RunEnd(s, i + 1, LocalPart);
    var k := RunEnd(s, p + 1, DomainPart);
    var r := LastTldDot(s, p + 1, k - 1);
    assert r.Some?;
    var m := r.value;
    var end := RunEnd(s, m + 1, Letter);
    MatchFromPieces(s, i, p, k, m, end);
    if d == m {
      RunEndReaches(s, m + 1, Letter, e);
    } else {
      assert forall y :: d < y < e ==> s[y] != '.';
    }
  }

  /** The scanner's match at `i` is the longest capture there, and it fails
      only when there is none: the pattern's greedy, backtracking semantics. */
  lemma MatchAtIsLongestCapture(s: string, i: nat)
    requires i < |s|
    ensures MatchAt(s, i).Some? ==> CaptureAt(s, i, MatchAt(s, i).value)
    ensures MatchAt(s, i).Some? ==> forall e :: CaptureAt(s, i, e) ==> e <= MatchAt(s, i).value
    ensures MatchAt(s, i).None? ==> forall e :: !CaptureAt(s, i, e)
  {
    forall e | CaptureAt(s, i, e)
      ensures MatchAt(s, i).Some? && e <= MatchAt(s, i).value
    {
      CaptureWithinMatch(s, i, e);
    }
  }

  /** All captures found from position `i` on, left to right. */
  function Scan(s: string, i: nat): (ms: seq<string>)
    requires i <= |s|
    ensures forall x :: x in ms ==> IsEmailShaped(x)
    ensures (forall y :: i <= y < |s| ==> s[y] != '@') ==> ms == []
    decreases |s| - i
  {
    if i == |s| then []
    else
      match MatchAt(s, i)
      case Some(e) => [s[i + 1..e]] + Scan(s, e)
      case None => Scan(s, i + 1)
  }

  /** The scan from `i` reports first the leftmost capture position `j`, with
      the longest capture there, and resumes where that capture ends: the
      `exec` loop of a global pattern. */
  lemma ScanFirstCapture(s: string, i: nat, j: nat, e: nat)
    requires i <= j < |s|
    requires forall y, f :: i <= y < j ==> !CaptureAt(s, y, f)
    requires CaptureAt(s, j, e)
    requires forall f :: CaptureAt(s, j, f) ==> f <= e
    ensures Scan(s, i) == [s[j + 1..e]] + Scan(s, e)
  {
    ScanSkipsNoCapture(s, i, j);
    ScanTakes(s, j, e);
  }

  /** Positions holding no capture are passed over. */
  lemma ScanSkipsNoCapture(s: string, i: nat, j: nat)
    requires i <= j <= |s|
    requires forall y, f :: i <= y < j ==> !CaptureAt(s, y, f)
    ensures Scan(s, i) == Scan(s, j)
  {
    forall y | i <= y < j
      ensures Scan(s, y) == Scan(s, y + 1)
    {
      ScanSkips(s, y);
    }
    ScanSkipsRun(s, i, j);
  }

  /** A stretch of positions each of which is passed over is passed over as
      a whole. */
  lemma ScanSkipsRun(s: string, i: nat, j: nat)
    requires i <= j <= |s|
    requires forall y :: i <= y < j ==> Scan(s, y) == Scan(s, y + 1)
    ensures Scan(s, i) == Scan(s, j)
  {
    var scans := seq(|s| + 1, y requires 0 <= y <= |s| => Scan(s, y));
    ConstantRun(scans, i, j);
  }

  /** A position holding no capture is passed over. */
  lemma ScanSkips(s: string, i: nat)
    requires i < |s|
    requires forall f :: !CaptureAt(s, i, f)
    ensures Scan(s, i) == Scan(s, i + 1)
  {
    MatchAtIsLongestCapture(s, i);
    assert MatchAt(s, i) == None;
    ScanStepNone(s, i);
  }

  /** At a position holding a capture the longest one is taken. */
  lemma ScanTakes(s: string, i: nat, e: nat)
    requires CaptureAt(s, i, e)
    requires forall f :: CaptureAt(s, i, f) ==> f <= e
    ensures Scan(s, i) == [s[i + 1..e]] + Scan(s, e)
  {
    MatchAtIsLongestCapture(s, i);
    var v := MatchAt(s, i).value;
    assert CaptureAt(s, i, v);
    assert v == e;
    ScanStepSome(s, i, e);
  }

  /** A failed attempt moves the scan one position on. */
  lemma ScanStepNone(s: string, i: nat)
    requires i < |s| && MatchAt(s, i) == None
    ensures Scan(s, i) == Scan(s, i + 1)
  {
  }

  /** A match contributes its capture and the scan resumes at its end. */
  lemma ScanStepSome(s: string, i: nat, e: nat)
    requires i < |s| && MatchAt(s, i) == Some(e)
    ensures Scan(s, i) == [s[i + 1..e]] + Scan(s, e)
  {
  }

  /** The mentioned e-mails of a notification text, in order of appearance. */
  function Extract(text: string): (ms: seq<string>)
    ensures forall x :: x in ms ==> IsEmailShaped(x)
    ensures '@' !in text ==> ms == []
  {
    Scan(text, 0)
  }

  /** Only a text holding a capture has mentions, and one that does has at
      least one. */
  lemma ExtractEmptyIffNoCapture(text: string)
    ensures Extract(text) == [] <==> forall j, e :: 0 <= j < |text| ==> !CaptureAt(text, j, e)
  {
    ScanEmptyIffNoCapture(text, 0);
  }

  /** The scan from `i` is empty exactly when no position from `i` on holds a
      capture. */
  lemma {:induction false} ScanEmptyIffNoCapture(s: string, i: nat)
    requires i <= |s|
    ensures Scan(s, i) == [] <==> forall j, e :: i <= j < |s| ==> !CaptureAt(s, j, e)
    decreases |s| - i
  {
    if i < |s| {
      MatchAtIsLongestCapture(s, i);
      match MatchAt(s, i)
      case None =>
        ScanStepNone(s, i);
        ScanEmptyIffNoCapture(s, i + 1);
      case Some(e) =>
        ScanStepSome(s, i, e);
    }
  }

  /** The first mention of a text is the longest capture at the leftmost
      position that has one, and the rest are scanned from its end. */
  lemma ExtractFirstMention(text: string, j: nat, e: nat)
    requires j < |text|
    requires forall y, f :: 0 <= y < j ==> !CaptureAt(text, y, f)
    requires CaptureAt(text, j, e)
    requires forall f :: CaptureAt(text, j, f) ==> f <= e
    ensures Extract(text) == [text[j + 1..e]] + Scan(text, e)
  {
    ScanFirstCapture(text, 0, j, e);
  }
}
