/**
 * The table of contents of a blog post (src/lib/toc.ts): heading ids made
 * URL safe, and the headings found by scanning the markdown with the
 * multiline pattern `^(#{1,4})\s+(.+)$`, with the backtracking that the
 * pattern has in a JavaScript regular expression engine.
 */
module Toc {
  import opened Wrappers
  import opened Js

  // ---------------------------------------------------------------------------
  // Runs of characters

  /** The character classes the id rules and the heading pattern work with. */
  datatype CharClass = Hash | Space | Dash | LineChar

  /** `#`, `\s`, `-`, and `.` (anything but a line terminator). */
  predicate In(cls: CharClass, c: char) {
    match cls
    case Hash => c == '#'
    case Space => IsWhitespace(c)
    case Dash => c == '-'
    case LineChar => !IsLineTerminator(c)
  }

  /** The length of the longest run of characters of class `cls` that starts at `i`. */
  function Run(s: string, i: nat, cls: CharClass): (n: nat)
    requires i <= |s|
    ensures i + n <= |s|
    ensures forall k :: i <= k < i + n ==> In(cls, s[k])
    ensures i + n < |s| ==> !In(cls, s[i + n])
    decreases |s| - i
  {
    if i < |s| && In(cls, s[i]) then 1 + Run(s, i + 1, cls) else 0
  }

  /** A run is exactly as long as a stretch of the class followed by a character outside it. */
  lemma {:induction false} RunExact(s: string, i: nat, cls: CharClass, n: nat)
    requires i + n < |s|
    requires forall k :: i <= k < i + n ==> In(cls, s[k])
    requires !In(cls, s[i + n])
    ensures Run(s, i, cls) == n
    decreases n
  {
    if n > 0 {
      RunExact(s, i + 1, cls, n - 1);
    }
  }

  /** A stretch of `n` characters of the class makes the run at least `n` long. */
  lemma {:induction false} RunAtLeast(s: string, i: nat, cls: CharClass, n: nat)
    requires i + n <= |s|
    requires forall k :: i <= k < i + n ==> In(cls, s[k])
    ensures Run(s, i, cls) >= n
    decreases n
  {
    if n > 0 {
      RunAtLeast(s, i + 1, cls, n - 1);
    }
  }

  // ---------------------------------------------------------------------------
  // generateHeadingId

  /** `\w` of a regular expression without the `u` flag. */
  predicate IsWordChar(c: char) {
    'a' <= c <= 'z' || 'A' <= c <= 'Z' || '0' <= c <= '9' || c == '_'
  }

  /** The characters a heading id is made of. */
  predicate IsIdChar(c: char) {
    'a' <= c <= 'z' || '0' <= c <= '9' || c == '_' || c == '-'
  }

  predicate IsUpper(c: char) {
    'A' <= c <= 'Z'
  }

  /** What `[^\w\s-]` does not match: a word character, white space or '-'. */
  predicate IsKeptChar(c: char) {
    IsWordChar(c) || IsWhitespace(c) || c == '-'
  }

  /**
   * `replace(/[^\w\s-]/g, "")`: drop every character that is not a word
   * character, white space or '-'.
   */
  function RemoveSpecial(s: string): (r: string)
    ensures forall i :: 0 <= i < |r| ==> IsKeptChar(r[i])
  {
    if s == [] then []
    else if IsKeptChar(s[0]) then [s[0]] + RemoveSpecial(s[1..])
    else RemoveSpecial(s[1..])
  }

  /** Every kept character stays as often as it occurs, and every other character is gone. */
  lemma {:induction false} RemoveSpecialCounts(s: string)
    ensures forall c :: multiset(RemoveSpecial(s))[c] == if IsKeptChar(c) then multiset(s)[c] else 0
  {
    if s != [] {
      assert s == [s[0]] + s[1..];
      RemoveSpecialCounts(s[1..]);
    }
  }

  /** The kept characters keep their order: removing from two pieces one after the other. */
  lemma {:induction false} RemoveSpecialAppend(a: string, b: string)
    ensures RemoveSpecial(a + b) == RemoveSpecial(a) + RemoveSpecial(b)
  {
    if a == [] {
      assert a + b == b;
    } else {
      var ab := a + b;
      assert ab[0] == a[0] && ab[1..] == a[1..] + b;
      RemoveSpecialAppend(a[1..], b);
      if IsKeptChar(a[0]) {
        calc {
          RemoveSpecial(ab);
          [a[0]] + RemoveSpecial(a[1..] + b);
          [a[0]] + (RemoveSpecial(a[1..]) + RemoveSpecial(b));
          ([a[0]] + RemoveSpecial(a[1..])) + RemoveSpecial(b);
        }
      }
    }
  }

  /** `replace(/\s+/g, "-")` for `Space`, `replace(/-+/g, "-")` for `Dash`: every maximal run of the class becomes one '-'. */
  function ReplaceRuns(s: string, cls: CharClass): (r: string)
    decreases |s|
  {
    if s == [] then []
    else if In(cls, s[0]) then "-" + ReplaceRuns(s[Run(s, 0, cls)..], cls)
    else [s[0]] + ReplaceRuns(s[1..], cls)
  }

  /** The id before the final `trim`. */
  function Collapsed(text: string): string {
    ReplaceRuns(ReplaceRuns(RemoveSpecial(ToLower(text)), Space), Dash)
  }

  /**
   * `text.toLowerCase().replace(/[^\w\s-]/g, "").replace(/\s+/g, "-").replace(/-+/g, "-").trim()`:
   * an id made of lower-case ASCII letters, digits, '_' and '-' only (no white
   * space, no capital), never holding "--".
   */
  function GenerateHeadingId(text: string): (id: string)
    ensures forall i :: 0 <= i < |id| ==> IsIdChar(id[i]) && !IsWhitespace(id[i])
    ensures NoDoubleDash(id)
  {
    CollapsedChars(text);
    DashRunsNoDoubleDash(ReplaceRuns(RemoveSpecial(ToLower(text)), Space));
    Trim(Collapsed(text))
  }

  /** No two '-' in a row. */
  predicate NoDoubleDash(s: string) {
    forall i :: 0 <= i < |s| - 1 ==> !(s[i] == '-' && s[i + 1] == '-')
  }

  /** Dropping characters never brings in a capital. */
  lemma {:induction false} RemoveSpecialNoUpper(s: string)
    requires forall i :: 0 <= i < |s| ==> !IsUpper(s[i])
    ensures forall i :: 0 <= i < |RemoveSpecial(s)| ==> !IsUpper(RemoveSpecial(s)[i])
  {
    if s != [] {
      RemoveSpecialNoUpper(s[1..]);
    }
  }

  /** Turning the white-space runs of id characters and white space into '-' leaves id characters only. */
  lemma {:induction false} SpaceRunsGiveIdChars(s: string)
    requires forall i :: 0 <= i < |s| ==> IsIdChar(s[i]) || IsWhitespace(s[i])
    ensures forall i :: 0 <= i < |ReplaceRuns(s, Space)| ==> IsIdChar(ReplaceRuns(s, Space)[i])
    decreases |s|
  {
    if s != [] {
      if IsWhitespace(s[0]) {
        SpaceRunsGiveIdChars(s[Run(s, 0, Space)..]);
      } else {
        SpaceRunsGiveIdChars(s[1..]);
      }
    }
  }

  /** Collapsing the dash runs of id characters leaves id characters only. */
  lemma {:induction false} DashRunsKeepIdChars(s: string)
    requires forall i :: 0 <= i < |s| ==> IsIdChar(s[i])
    ensures forall i :: 0 <= i < |ReplaceRuns(s, Dash)| ==> IsIdChar(ReplaceRuns(s, Dash)[i])
    decreases |s|
  {
    if s != [] {
      if s[0] == '-' {
        DashRunsKeepIdChars(s[Run(s, 0, Dash)..]);
      } else {
        DashRunsKeepIdChars(s[1..]);
      }
    }
  }

  /** After collapsing the dash runs there is no "--" left. */
  lemma {:induction false} DashRunsNoDoubleDash(s: string)
    ensures NoDoubleDash(ReplaceRuns(s, Dash))
    decreases |s|
  {
    if s != [] {
      var r := ReplaceRuns(s, Dash);
      if s[0] == '-' {
        var t := s[Run(s, 0, Dash)..];
        DashRunsNoDoubleDash(t);
        assert r == "-" + ReplaceRuns(t, Dash);
        assert t != [] ==> ReplaceRuns(t, Dash)[0] == t[0] != '-';
      } else {
        DashRunsNoDoubleDash(s[1..]);
        assert r == [s[0]] + ReplaceRuns(s[1..], Dash);
      }
    }
  }

  /** A string whose characters of the class are single dashes is left as it is. */
  lemma {:induction false} ReplaceRunsIdentity(s: string, cls: CharClass)
    requires forall i :: 0 <= i < |s| && In(cls, s[i]) ==> s[i] == '-' && (i + 1 < |s| ==> !In(cls, s[i + 1]))
    ensures ReplaceRuns(s, cls) == s
    decreases |s|
  {
    if s != [] {
      if In(cls, s[0]) {
        if |s| > 1 {
          RunExact(s, 0, cls, 1);
        }
      }
      ReplaceRunsIdentity(s[1..], cls);
    }
  }

  /** A string without white space is its own trim. */
  lemma TrimOfNoWhitespace(s: string)
    requires forall i :: 0 <= i < |s| ==> !IsWhitespace(s[i])
    ensures Trim(s) == s
  {
    if s != [] {
      TrimOfTrimmed(s);
    }
  }

  /** Before the final `trim` the id holds only id characters, so the trim changes nothing. */
  lemma CollapsedChars(text: string)
    ensures forall i :: 0 <= i < |Collapsed(text)| ==> IsIdChar(Collapsed(text)[i])
    ensures Trim(Collapsed(text)) == Collapsed(text)
  {
    var low := ToLower(text);
    var a := RemoveSpecial(low);
    RemoveSpecialNoUpper(low);
    SpaceRunsGiveIdChars(a);
    var b := ReplaceRuns(a, Space);
    DashRunsKeepIdChars(b);
    TrimOfNoWhitespace(ReplaceRuns(b, Dash));
  }

  lemma {:induction false} RemoveSpecialKeeps(s: string)
    requires forall i :: 0 <= i < |s| ==> IsIdChar(s[i])
    ensures RemoveSpecial(s) == s
  {
    if s != [] {
      RemoveSpecialKeeps(s[1..]);
    }
  }

  /** A string of id characters without "--" is its own id. */
  lemma HeadingIdOfId(s: string)
    requires forall i :: 0 <= i < |s| ==> IsIdChar(s[i])
    requires NoDoubleDash(s)
    ensures GenerateHeadingId(s) == s
  {
    CollapsedOfId(s);
    TrimOfNoWhitespace(s);
  }

  /** The collapsing steps leave a string of id characters without "--" as it is. */
  lemma CollapsedOfId(s: string)
    requires forall i :: 0 <= i < |s| ==> IsIdChar(s[i])
    requires NoDoubleDash(s)
    ensures Collapsed(s) == s
  {
    assert ToLower(s) == s;
    RemoveSpecialKeeps(s);
    ReplaceRunsIdentity(s, Space);
    ReplaceRunsIdentity(s, Dash);
  }

  /** generateHeadingId is idempotent. */
  lemma HeadingIdIdempotent(text: string)
    ensures GenerateHeadingId(GenerateHeadingId(text)) == GenerateHeadingId(text)
  {
    HeadingIdOfId(GenerateHeadingId(text));
  }

  // ---------------------------------------------------------------------------
  // The heading pattern

  /** `^` of a multiline pattern: the start of the input or just after a line terminator. */
  predicate AtLineStart(s: string, p: nat)
    requires p <= |s|
  {
    p == 0 || IsLineTerminator(s[p - 1])
  }

  /** One match of the pattern: where it starts, the length of `#{1,4}`, group 2 and where the match ends. */
  datatype Match = Match(start: nat, level: nat, body: string, end: nat)

  /**
   * `\s+` is greedy and gives characters back only until `(.+)` can start: the
   * largest `j` in 1..`w` such that the character after `j` white-space
   * characters exists and is not a line terminator.
   */
  function BodyOffset(s: string, q: nat, j: nat): (r: Option<nat>)
    requires q + j <= |s|
    ensures r.Some? ==> 1 <= r.value <= j && q + r.value < |s| && In(LineChar, s[q + r.value])
    ensures r.Some? ==> forall t :: q + r.value < t <= q + j && t < |s| ==> !In(LineChar, s[t])
    ensures r.None? ==> forall t :: q < t <= q + j && t < |s| ==> !In(LineChar, s[t])
  {
    if j == 0 then None
    else if q + j < |s| && In(LineChar, s[q + j]) then Some(j)
    else BodyOffset(s, q, j - 1)
  }

  /**
   * The match of `^(#{1,4})\s+(.+)$` at position `p`, if any. `#{1,4}` can only
   * succeed with the whole run of '#' (a shorter take leaves a '#' where `\s`
   * is needed), `\s+` may cross line breaks, and `(.+)` runs to the end of its
   * line, where `$` holds.
   */
  function MatchAt(s: string, p: nat): (m: Option<Match>)
    requires p <= |s|
    ensures m.Some? ==> m.value.start == p && p < m.value.end <= |s| && 1 <= m.value.level <= 4
  {
    var h := Run(s, p, Hash);
    if !AtLineStart(s, p) || h < 1 || h > 4 then None
    else
      var q := p + h;
      var w := Run(s, q, Space);
      match BodyOffset(s, q, w)
      case None => None
      case Some(j) =>
        var b := q + j;
        var len := Run(s, b, LineChar);
        Some(Match(p, h, s[b..b + len], b + len))
  }

  /** The match attempt at every position of `s`, the end of input included. */
  function Attempts(s: string): (t: seq<Option<Match>>)
    ensures |t| == |s| + 1
  {
    seq(|s| + 1, p requires 0 <= p <= |s| => MatchAt(s, p))
  }

  /** The first index from `from` on where `t` holds a value; |t| when there is none. */
  function FirstSome<T>(t: seq<Option<T>>, from: nat): (i: nat)
    requires from <= |t|
    ensures from <= i <= |t|
    ensures i < |t| ==> t[i].Some?
    ensures forall p :: from <= p < i ==> t[p].None?
    decreases |t| - from
  {
    if from == |t| then from
    else if t[from].Some? then from
    else FirstSome(t, from + 1)
  }

  /** `regex.exec(content)` with `lastIndex == from`: the match at the first position from `from` on where there is one. */
  function Exec(s: string, from: nat): (m: Option<Match>)
    requires from <= |s|
    ensures m.Some? ==> from <= m.value.start <= |s| && MatchAt(s, m.value.start) == m
  {
    var t := Attempts(s);
    var i := FirstSome(t, from);
    if i < |t| then t[i] else None
  }

  /** `exec` finds the first match: there is none before the one it returns, and none at all when it returns null. */
  lemma ExecIsFirst(s: string, from: nat)
    requires from <= |s|
    ensures Exec(s, from).Some? ==> forall p :: from <= p < Exec(s, from).value.start ==> MatchAt(s, p).None?
    ensures Exec(s, from).None? ==> forall p :: from <= p <= |s| ==> MatchAt(s, p).None?
  {
    var t := Attempts(s);
    var i := FirstSome(t, from);
    assert forall p :: from <= p < i ==> t[p] == MatchAt(s, p);
  }

  /** The successive results of `exec` until it returns null; each starts where the previous match ended. */
  function Matches(s: string, from: nat): (ms: seq<Match>)
    requires from <= |s|
    decreases |s| - from
  {
    match Exec(s, from)
    case None => []
    case Some(m) => [m] + Matches(s, m.end)
  }

  // ---------------------------------------------------------------------------
  // extractHeadings

  datatype TocItem = TocItem(id: string, text: string, level: nat)

  /** `HEADING_LEVELS.MIN` and `HEADING_LEVELS.MAX`, the default range of levels. */
  const MinHeadingLevel := 1
  const MaxHeadingLevel := 4

  /** The item a match contributes: its trimmed text and the id of that text. */
  function ItemOf(m: Match): TocItem {
    var text := Trim(m.body);
    TocItem(GenerateHeadingId(text), text, m.level)
  }

  predicate InRange(m: Match, minLevel: int, maxLevel: int) {
    minLevel <= m.level <= maxLevel
  }

  /** The matches whose level lies in [minLevel, maxLevel], in their order: the ones the loop does not skip. */
  function Selected(ms: seq<Match>, minLevel: int, maxLevel: int): (r: seq<Match>)
    ensures |r| <= |ms|
    ensures forall i :: 0 <= i < |r| ==> InRange(r[i], minLevel, maxLevel)
  {
    if ms == [] then []
    else if InRange(ms[0], minLevel, maxLevel) then [ms[0]] + Selected(ms[1..], minLevel, maxLevel)
    else Selected(ms[1..], minLevel, maxLevel)
  }

  /** Each match in the level range is kept as often as it occurs; every other match is skipped. */
  lemma {:induction false} SelectedCounts(ms: seq<Match>, minLevel: int, maxLevel: int)
    ensures forall m :: multiset(Selected(ms, minLevel, maxLevel))[m]
                     == if InRange(m, minLevel, maxLevel) then multiset(ms)[m] else 0
  {
    if ms != [] {
      assert ms == [ms[0]] + ms[1..];
      SelectedCounts(ms[1..], minLevel, maxLevel);
    }
  }

  /** Selecting from two stretches of matches selects from each in turn, so the kept matches keep their order. */
  lemma {:induction false} SelectedAppend(a: seq<Match>, b: seq<Match>, minLevel: int, maxLevel: int)
    ensures Selected(a + b, minLevel, maxLevel) == Selected(a, minLevel, maxLevel) + Selected(b, minLevel, maxLevel)
  {
    if a != [] {
      assert (a + b)[0] == a[0];
      assert (a + b)[1..] == a[1..] + b;
      SelectedAppend(a[1..], b, minLevel, maxLevel);
    } else {
      assert a + b == b;
    }
  }

  /** Each match ends at or before the start of every later one. */
  predicate InSourceOrder(ms: seq<Match>) {
    forall i, j :: 0 <= i < j < |ms| ==> ms[i].end <= ms[j].start
  }

  /** Skipping matches outside the level range keeps the rest in source order. */
  lemma {:induction false} SelectedInOrder(ms: seq<Match>, minLevel: int, maxLevel: int)
    requires InSourceOrder(ms)
    ensures InSourceOrder(Selected(ms, minLevel, maxLevel))
  {
    if ms != [] {
      var tail := ms[1..];
      var rest := Selected(tail, minLevel, maxLevel);
      assert InSourceOrder(tail) by {
        forall i, j | 0 <= i < j < |tail|
          ensures tail[i].end <= tail[j].start
        {
          assert tail[i] == ms[i + 1] && tail[j] == ms[j + 1];
        }
      }
      SelectedInOrder(tail, minLevel, maxLevel);
      if InRange(ms[0], minLevel, maxLevel) {
        SelectedCounts(tail, minLevel, maxLevel);
        forall j | 0 <= j < |rest|
          ensures ms[0].end <= rest[j].start
        {
          assert rest[j] in multiset(rest);
          assert rest[j] in multiset(tail);
          var k :| 0 <= k < |tail| && tail[k] == rest[j];
          assert tail[k] == ms[k + 1];
        }
        ConsIndex(ms[0], rest);
      }
    }
  }

  /** The matches extractHeadings keeps come in source order, so its items do too. */
  lemma HeadingMatchesInOrder(content: string, minLevel: int, maxLevel: int)
    ensures InSourceOrder(Selected(Matches(content, 0), minLevel, maxLevel))
  {
    MatchesInOrder(content, 0);
    SelectedInOrder(Matches(content, 0), minLevel, maxLevel);
  }

  /** `f` applied to each element of `xs`, in order. */
  function Map<A, B>(f: A -> B, xs: seq<A>): (r: seq<B>)
    ensures |r| == |xs|
    ensures forall i :: 0 <= i < |xs| ==> r[i] == f(xs[i])
  {
    seq(|xs|, i requires 0 <= i < |xs| => f(xs[i]))
  }

  /** Mapping over a sequence extended by one element extends the result by the image of that element. */
  lemma MapSnoc<A, B>(f: A -> B, xs: seq<A>, x: A)
    ensures Map(f, xs + [x]) == Map(f, xs) + [f(x)]
  {
    var l := Map(f, xs + [x]);
    var r := Map(f, xs) + [f(x)];
    forall i | 0 <= i < |l|
      ensures l[i] == r[i]
    {
      if i < |xs| {
        assert (xs + [x])[i] == xs[i];
      }
    }
  }

  /** The items of a sequence of matches, one each, in order. */
  function ItemsOf(ms: seq<Match>): (r: seq<TocItem>)
    ensures |r| == |ms|
  {
    Map(ItemOf, ms)
  }

  /** What extractHeadings returns. */
  function Headings(content: string, minLevel: int, maxLevel: int): seq<TocItem> {
    ItemsOf(Selected(Matches(content, 0), minLevel, maxLevel))
  }

  /** One step of the scan: the first match and the matches after it. */
  lemma MatchesStep(s: string, from: nat)
    requires from <= |s| && Exec(s, from).Some?
    ensures Matches(s, from) == [Exec(s, from).value] + Matches(s, Exec(s, from).value.end)
  {
  }

  /** Selecting from a match followed by more matches. */
  lemma SelectedStep(m: Match, rest: seq<Match>, minLevel: int, maxLevel: int)
    ensures Selected([m] + rest, minLevel, maxLevel)
         == (if InRange(m, minLevel, maxLevel) then [m] else []) + Selected(rest, minLevel, maxLevel)
  {
    assert ([m] + rest)[1..] == rest;
  }

  /** The loop's bookkeeping: after match `m`, the matches kept so far and the ones still to select still make up the selection. */
  lemma KeptStep(kept: seq<Match>, m: Match, rest: seq<Match>, all: seq<Match>, minLevel: int, maxLevel: int)
    requires kept + Selected([m] + rest, minLevel, maxLevel) == all
    ensures (if InRange(m, minLevel, maxLevel) then kept + [m] else kept) + Selected(rest, minLevel, maxLevel) == all
  {
    SelectedStep(m, rest, minLevel, maxLevel);
    if InRange(m, minLevel, maxLevel) {
      assert kept + ([m] + Selected(rest, minLevel, maxLevel)) == kept + [m] + Selected(rest, minLevel, maxLevel);
    } else {
      assert [] + Selected(rest, minLevel, maxLevel) == Selected(rest, minLevel, maxLevel);
    }
  }

  /** One more match gives one more item at the end. */
  lemma ItemsOfSnoc(ms: seq<Match>, m: Match)
    ensures ItemsOf(ms + [m]) == ItemsOf(ms) + [ItemOf(m)]
  {
    MapSnoc(ItemOf, ms, m);
  }

  /** extractHeadings: the `exec` loop, skipping levels outside the range and pushing one item per match. */
  method ExtractHeadings(content: string, minLevel: int, maxLevel: int) returns (headings: seq<TocItem>)
    ensures headings == Headings(content, minLevel, maxLevel)
  {
    headings := [];
    var lastIndex := 0;
    var next := Exec(content, lastIndex);
    ghost var kept: seq<Match> := [];
    while next.Some?
      invariant lastIndex <= |content|
      invariant next == Exec(content, lastIndex)
      invariant kept + Selected(Matches(content, lastIndex), minLevel, maxLevel) == Selected(Matches(content, 0), minLevel, maxLevel)
      invariant headings == ItemsOf(kept)
      decreases |content| - lastIndex
    {
      var m := next.value;
      MatchesStep(content, lastIndex);
      KeptStep(kept, m, Matches(content, m.end), Selected(Matches(content, 0), minLevel, maxLevel), minLevel, maxLevel);
      lastIndex := m.end;
      next := Exec(content, lastIndex);
      if m.level < minLevel || m.level > maxLevel {
        continue;
      }
      var text := Trim(m.body);
      var id := GenerateHeadingId(text);
      ItemsOfSnoc(kept, m);
      kept := kept + [m];
      headings := headings + [TocItem(id, text, m.level)];
    }
  }

  // ---------------------------------------------------------------------------
  // Properties of the scan

  /** Every match starts at a line start with one to four '#', followed by white space, and has a non-empty group 2 on one line. */
  lemma MatchShape(s: string, p: nat)
    requires p <= |s| && MatchAt(s, p).Some?
    ensures var m := MatchAt(s, p).value;
            AtLineStart(s, p) && 1 <= m.level <= 4 && p + m.level < |s|
            && (forall k :: p <= k < p + m.level ==> s[k] == '#')
            && IsWhitespace(s[p + m.level])
            && m.body != [] && (forall k :: 0 <= k < |m.body| ==> !IsLineTerminator(m.body[k]))
  {
  }

  /**
   * The converse of MatchShape: at a line start, one to four '#' followed by
   * `j` >= 1 white-space characters and then a character other than a line
   * terminator give a match of that level, whose group 2 is not empty.
   */
  lemma HeadingLineMatches(s: string, p: nat, h: nat, j: nat)
    requires p <= |s| && AtLineStart(s, p) && 1 <= h <= 4 && 1 <= j && p + h + j < |s|
    requires forall k :: p <= k < p + h ==> s[k] == '#'
    requires forall k :: p + h <= k < p + h + j ==> IsWhitespace(s[k])
    requires !IsLineTerminator(s[p + h + j])
    ensures MatchAt(s, p).Some? && MatchAt(s, p).value.level == h && MatchAt(s, p).value.body != []
  {
    var q := p + h;
    RunExact(s, p, Hash, h);
    RunAtLeast(s, q, Space, j);
    assert In(LineChar, s[q + j]);
  }

  /** A line that starts with more than four '#' gives no match there. */
  lemma TooManyHashesNoMatch(s: string, p: nat)
    requires p + 5 <= |s| && s[p..p + 5] == "#####"
    ensures MatchAt(s, p).None?
  {
    assert forall k :: p <= k < p + 5 ==> In(Hash, s[k]) by {
      forall k | p <= k < p + 5 ensures In(Hash, s[k]) {
        assert s[p..p + 5][k - p] == s[k];
      }
    }
    RunAtLeast(s, p, Hash, 5);
  }

  /** A run of '#' followed directly by a character other than white space gives no match there. */
  lemma HashesWithoutSpaceNoMatch(s: string, p: nat, h: nat)
    requires p + h < |s| && 1 <= h
    requires forall k :: p <= k < p + h ==> s[k] == '#'
    requires s[p + h] != '#' && !IsWhitespace(s[p + h])
    ensures MatchAt(s, p).None?
  {
    RunExact(s, p, Hash, h);
  }

  /** Every match lies in `s`, from `from` on. */
  lemma {:induction false} MatchesInBounds(s: string, from: nat)
    requires from <= |s|
    ensures forall i :: 0 <= i < |Matches(s, from)| ==>
              from <= Matches(s, from)[i].start < Matches(s, from)[i].end <= |s|
    decreases |s| - from
  {
    if Exec(s, from).Some? {
      var m := Exec(s, from).value;
      MatchesStep(s, from);
      MatchesInBounds(s, m.end);
      ConsIndex(m, Matches(s, m.end));
    }
  }

  /** The matches come in source order and do not overlap: each starts at or after the end of the one before. */
  lemma {:induction false} MatchesInOrder(s: string, from: nat)
    requires from <= |s|
    ensures forall i, j :: 0 <= i < j < |Matches(s, from)| ==> Matches(s, from)[i].end <= Matches(s, from)[j].start
    decreases |s| - from
  {
    if Exec(s, from).Some? {
      var m := Exec(s, from).value;
      var rest := Matches(s, m.end);
      MatchesStep(s, from);
      MatchesInOrder(s, m.end);
      MatchesInBounds(s, m.end);
      ConsIndex(m, rest);
      assert forall j :: 0 <= j < |rest| ==> m.end <= rest[j].start;
    }
  }

  /** The elements after the head of a sequence are those of its tail. */
  lemma ConsIndex<T>(x: T, rest: seq<T>)
    ensures forall i :: 0 < i < |[x] + rest| ==> ([x] + rest)[i] == rest[i - 1]
  {
  }

  /** Every match has a level from 1 to 4. */
  lemma {:induction false} MatchLevels(s: string, from: nat)
    requires from <= |s|
    ensures forall i :: 0 <= i < |Matches(s, from)| ==> 1 <= Matches(s, from)[i].level <= 4
    decreases |s| - from
  {
    if Exec(s, from).Some? {
      var m := Exec(s, from).value;
      MatchesStep(s, from);
      MatchLevels(s, m.end);
      ConsIndex(m, Matches(s, m.end));
    }
  }

  /** What every item of extractHeadings satisfies. */
  predicate WellFormedItem(it: TocItem, minLevel: int, maxLevel: int) {
    minLevel <= it.level <= maxLevel && 1 <= it.level <= 4
    && Trim(it.text) == it.text && it.id == GenerateHeadingId(it.text)
  }

  /** The item of a match: its text is trimmed and its id is the id of that text. */
  lemma ItemOfWellFormed(m: Match, minLevel: int, maxLevel: int)
    requires 1 <= m.level <= 4 && InRange(m, minLevel, maxLevel)
    ensures WellFormedItem(ItemOf(m), minLevel, maxLevel)
  {
    TrimIdempotent(m.body);
  }

  /** Selecting keeps levels from 1 to 4. */
  lemma {:induction false} SelectedLevels(ms: seq<Match>, minLevel: int, maxLevel: int)
    requires forall i :: 0 <= i < |ms| ==> 1 <= ms[i].level <= 4
    ensures forall i :: 0 <= i < |Selected(ms, minLevel, maxLevel)| ==> 1 <= Selected(ms, minLevel, maxLevel)[i].level <= 4
  {
    if ms != [] {
      SelectedLevels(ms[1..], minLevel, maxLevel);
    }
  }

  /** extractHeadings only returns items whose level is in range and in 1..4, with trimmed text and the id of that text. */
  lemma HeadingsWellFormed(content: string, minLevel: int, maxLevel: int, i: nat)
    requires i < |Headings(content, minLevel, maxLevel)|
    ensures WellFormedItem(Headings(content, minLevel, maxLevel)[i], minLevel, maxLevel)
  {
    var sel := Selected(Matches(content, 0), minLevel, maxLevel);
    MatchLevels(content, 0);
    SelectedLevels(Matches(content, 0), minLevel, maxLevel);
    ItemOfWellFormed(sel[i], minLevel, maxLevel);
  }

  /** "## Setup" holds one match: level 2, group 2 "Setup". */
  lemma SetupMatch()
    ensures MatchAt("## Setup", 0) == Some(Match(0, 2, "Setup", 8))
  {
    var s := "## Setup";
    RunExact(s, 0, Hash, 2);
    RunExact(s, 2, Space, 1);
    assert Run(s, 3, LineChar) == 5;
    assert BodyOffset(s, 2, 1) == Some(1);
    assert s[3..8] == "Setup";
  }

  /** The id of "Setup" is "setup". */
  lemma SetupId()
    ensures GenerateHeadingId("Setup") == "setup"
  {
    assert ToLower("Setup") == ToLower("setup");
    HeadingIdOfId("setup");
  }

  /** The scan of "## Setup" finds that one match and nothing after it. */
  lemma SetupMatches()
    ensures Matches("## Setup", 0) == [Match(0, 2, "Setup", 8)]
  {
    var s := "## Setup";
    SetupMatch();
    assert Exec(s, 0) == Some(Match(0, 2, "Setup", 8));
    assert Exec(s, 8) == None;
    MatchesStep(s, 0);
  }

  /** The item of that match. */
  lemma SetupItem()
    ensures ItemOf(Match(0, 2, "Setup", 8)) == TocItem("setup", "Setup", 2)
  {
    TrimOfTrimmed("Setup");
    SetupId();
  }

  /** A single heading line: "## Setup" is the one level 2 item with the id "setup". */
  lemma SingleHeadingLine()
    ensures Headings("## Setup", MinHeadingLevel, MaxHeadingLevel) == [TocItem("setup", "Setup", 2)]
  {
    var m := Match(0, 2, "Setup", 8);
    assert Selected([m], MinHeadingLevel, MaxHeadingLevel) == [m] by {
      SelectedStep(m, [], MinHeadingLevel, MaxHeadingLevel);
    }
    assert ItemsOf([m]) == [TocItem("setup", "Setup", 2)] by {
      SetupItem();
      assert ItemsOf([m])[0] == ItemOf(m);
    }
    SetupMatches();
  }

  /**
   * `\s+` may cross a line break: a line holding only "#" followed by a line
   * of text is a level 1 heading made of that text.
   */
  lemma BareMarkerTakesNextLine()
    ensures MatchAt("#\nNotes", 0) == Some(Match(0, 1, "Notes", 7))
  {
    var s := "#\nNotes";
    RunExact(s, 0, Hash, 1);
    RunExact(s, 1, Space, 1);
    assert Run(s, 2, LineChar) == 5;
    assert BodyOffset(s, 1, 1) == Some(1);
    assert s[2..7] == "Notes";
  }
}
