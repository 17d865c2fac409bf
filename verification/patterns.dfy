/**
 * The matchers of the highlighter's rules (QuickMD/highlighter.py), seen as
 * QRegExp.indexIn(text, from) followed by matchedLength(): the first match
 * starting at or after from, as a span, or None.
 */
module Patterns {
  import opened Wrappers

  /** A match: the characters [start, start + length). */
  datatype Span = Span(start: nat, length: nat) {
    function End(): nat { start + length }
  }

  type Matcher = (string, nat) -> Option<Span>

  /** A search from position from may only report a non-empty match at or
      after from that lies inside the text. */
  predicate ValidMatch(text: string, from: nat, m: Option<Span>) {
    m.Some? ==> from <= m.value.start && 0 < m.value.length && m.value.End() <= |text|
  }

  /** What the highlighter's loop needs of a matcher: every answer valid. */
  ghost predicate WellFormed(matcher: Matcher) {
    forall text: string, from: nat :: ValidMatch(text, from, matcher(text, from))
  }

  // ----- Heading: ^#{1,6} .+

  /** Number of '#' characters the text starts with. */
  function LeadingHashes(text: string): (h: nat)
    ensures h <= |text|
    ensures forall i :: 0 <= i < h ==> text[i] == '#'
    ensures h < |text| ==> text[h] != '#'
  {
    if text == [] || text[0] != '#' then 0 else 1 + LeadingHashes(text[1..])
  }

  /** The pattern ^#{1,6} .+ read literally: one to six '#', a space, and at
      least one more character, from the start of the block. */
  ghost predicate IsHeadingLine(text: string) {
    exists k :: 1 <= k <= 6 && k + 1 < |text| && text[k] == ' ' && forall i :: 0 <= i < k ==> text[i] == '#'
  }

  /** indexIn for ^#{1,6} .+ : with QRegExp's default caret mode '^' only
      matches at position 0 of the text, so a search from any later position
      fails, and the greedy .+ runs to the end of the block. */
  function HeadingMatch(text: string, from: nat): (m: Option<Span>)
    ensures ValidMatch(text, from, m)
    ensures m.Some? ==> from == 0 && m.value == Span(0, |text|) && |text| >= 3
  {
    var h := LeadingHashes(text);
    if from == 0 && 1 <= h <= 6 && h + 1 < |text| && text[h] == ' ' then Some(Span(0, |text|))
    else None
  }

  /** The heading matcher matches exactly the heading lines. */
  lemma HeadingMatchIsHeadingLine(text: string)
    ensures HeadingMatch(text, 0).Some? <==> IsHeadingLine(text)
  {
    var h := LeadingHashes(text);
    if IsHeadingLine(text) {
      var k :| 1 <= k <= 6 && k + 1 < |text| && text[k] == ' ' && forall i :: 0 <= i < k ==> text[i] == '#';
      assert h == k;
    }
    if HeadingMatch(text, 0).Some? {
      assert 1 <= h <= 6 && h + 1 < |text| && text[h] == ' ';
    }
  }

  // ----- Code: `[^`]+`

  /** Position of the first backtick at or after j, or |text| when there is none. */
  function NextBacktick(text: string, j: nat): (r: nat)
    ensures j <= |text| ==> j <= r <= |text|
    ensures j > |text| ==> r == |text|
    ensures r < |text| ==> text[r] == '`'
    ensures forall k :: j <= k < r ==> text[k] != '`'
    decreases |text| - j
  {
    if j >= |text| then |text|
    else if text[j] == '`' then j
    else NextBacktick(text, j + 1)
  }

  /** The pattern `[^`]+` read literally: a backtick, one or more characters
      none of which is a backtick, and a closing backtick. */
  predicate IsCodeSpan(text: string, s: Span) {
    && s.length >= 3 && s.End() <= |text|
    && text[s.start] == '`' && text[s.End() - 1] == '`'
    && forall k :: s.start < k < s.End() - 1 ==> text[k] != '`'
  }

  /** The code span that starts at i, if one does. */
  function CodeSpanAt(text: string, i: nat): (m: Option<Span>)
    ensures m.Some? ==> m.value.start == i && IsCodeSpan(text, m.value)
    ensures m.None? ==> forall len :: !IsCodeSpan(text, Span(i, len))
  {
    if i + 1 < |text| && text[i] == '`' && text[i + 1] != '`' && NextBacktick(text, i + 1) < |text| then
      Some(Span(i, NextBacktick(text, i + 1) - i + 1))
    else
      None
  }

  /** indexIn for `[^`]+` : the leftmost code span starting at or after from. */
  function CodeMatch(text: string, from: nat): (m: Option<Span>)
    ensures ValidMatch(text, from, m)
    ensures m.Some? ==> IsCodeSpan(text, m.value)
    ensures m.Some? ==> forall i, len :: from <= i < m.value.start ==> !IsCodeSpan(text, Span(i, len))
    ensures m.None? ==> forall i, len :: from <= i ==> !IsCodeSpan(text, Span(i, len))
    decreases |text| - from
  {
    if from >= |text| then None
    else match CodeSpanAt(text, from)
      case Some(s) => Some(s)
      case None => CodeMatch(text, from + 1)
  }

  /** Both concrete matchers meet what the highlighter's loop needs. */
  lemma ConcreteMatchersWellFormed()
    ensures WellFormed(HeadingMatch) && WellFormed(CodeMatch)
  {
    forall text: string, from: nat ensures ValidMatch(text, from, HeadingMatch(text, from)) {
    }
    forall text: string, from: nat ensures ValidMatch(text, from, CodeMatch(text, from)) {
    }
  }
}
