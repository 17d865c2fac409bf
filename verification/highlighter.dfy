/**
 * MarkdownHighlighter (QuickMD/highlighter.py): an ordered list of four
 * (matcher, format) rules applied to one text block, writing into the block's
 * per-character format buffer.
 */
module Highlighter {
  import opened Wrappers
  import opened Patterns

  datatype Color = Blue | DarkGreen

  /** The character-format properties the rules set; None and false are
      "not set", as in a fresh QTextCharFormat. */
  datatype CharFormat = CharFormat(foreground: Option<Color>, bold: bool, italic: bool, fontFamily: Option<string>)

  const HeadingFormat := CharFormat(Some(Blue), true, false, None)
  const BoldFormat := CharFormat(None, true, false, None)
  const ItalicFormat := CharFormat(None, false, true, None)
  const CodeFormat := CharFormat(Some(DarkGreen), false, false, Some("Courier New"))

  datatype Rule = Rule(matcher: Matcher, format: CharFormat)

  ghost predicate ValidRules(rules: seq<Rule>) {
    forall k :: 0 <= k < |rules| ==> WellFormed(rules[k].matcher)
  }

  /** The rule list __init__ builds, in its order: heading, bold, italic,
      code. The bold and italic patterns are kept abstract. */
  function StandardRules(bold: Matcher, italic: Matcher): (rules: seq<Rule>)
    requires WellFormed(bold) && WellFormed(italic)
    ensures ValidRules(rules)
    ensures |rules| == 4
    ensures rules[0].format == HeadingFormat && rules[1].format == BoldFormat
    ensures rules[2].format == ItalicFormat && rules[3].format == CodeFormat
    ensures rules[0].matcher == HeadingMatch && rules[1].matcher == bold
    ensures rules[2].matcher == italic && rules[3].matcher == CodeMatch
  {
    ConcreteMatchersWellFormed();
    [Rule(HeadingMatch, HeadingFormat), Rule(bold, BoldFormat), Rule(italic, ItalicFormat), Rule(CodeMatch, CodeFormat)]
  }

  /** QSyntaxHighlighter.setFormat(start, count, format) on the buffer: the
      positions of [start, start + count) inside the block take the format,
      positions past the end of the block are ignored. */
  function SetSpan(formats: seq<CharFormat>, start: nat, count: nat, format: CharFormat): (r: seq<CharFormat>)
    ensures |r| == |formats|
    ensures forall i :: 0 <= i < |r| ==> r[i] == if start <= i < start + count then format else formats[i]
  {
    seq(|formats|, i requires 0 <= i < |formats| => if start <= i < start + count then format else formats[i])
  }

  /** The matches a rule's while loop visits: the first from position from,
      then each next search resuming at the end of the previous match. */
  ghost function Matches(text: string, matcher: Matcher, from: nat): (ms: seq<Span>)
    requires WellFormed(matcher)
    ensures forall k :: 0 <= k < |ms| ==> from <= ms[k].start && 0 < ms[k].length && ms[k].End() <= |text|
    ensures forall j, k :: 0 <= j < k < |ms| ==> ms[j].End() <= ms[k].start
    decreases |text| - from
  {
    Pending(text, matcher, from, matcher(text, from))
  }

  /** The matches still to visit when the current search result is m. */
  ghost function Pending(text: string, matcher: Matcher, from: nat, m: Option<Span>): (ms: seq<Span>)
    requires WellFormed(matcher) && ValidMatch(text, from, m)
    ensures forall k :: 0 <= k < |ms| ==> from <= ms[k].start && 0 < ms[k].length && ms[k].End() <= |text|
    ensures forall j, k :: 0 <= j < k < |ms| ==> ms[j].End() <= ms[k].start
    ensures m.Some? ==> |ms| > 0 && ms[0] == m.value
    decreases |text| - from, if m.Some? then 0 else 1
  {
    if m.None? then []
    else [m.value] + Matches(text, matcher, m.value.End())
  }

  /** Setting the format over every span in turn. */
  function Paint(formats: seq<CharFormat>, spans: seq<Span>, format: CharFormat): (r: seq<CharFormat>)
    ensures |r| == |formats|
    decreases |spans|
  {
    if spans == [] then formats
    else Paint(SetSpan(formats, spans[0].start, spans[0].length, format), spans[1..], format)
  }

  /** Some span of the list covers position p. */
  predicate Covers(spans: seq<Span>, p: nat) {
    exists k :: 0 <= k < |spans| && spans[k].start <= p < spans[k].End()
  }

  /** Painting gives position p the format exactly when a span covers it, and
      leaves every other position as it was. */
  lemma {:induction false} PaintAt(formats: seq<CharFormat>, spans: seq<Span>, format: CharFormat, p: nat)
    requires p < |formats|
    ensures Paint(formats, spans, format)[p] == if Covers(spans, p) then format else formats[p]
    decreases |spans|
  {
    if spans != [] {
      var next := SetSpan(formats, spans[0].start, spans[0].length, format);
      PaintAt(next, spans[1..], format, p);
      if Covers(spans[1..], p) {
        var k :| 0 <= k < |spans[1..]| && spans[1..][k].start <= p < spans[1..][k].End();
        assert spans[k + 1] == spans[1..][k];
      } else if spans[0].start <= p < spans[0].End() {
        assert Covers(spans, p);
      }
    }
  }

  /** One rule's while loop applied to the buffer: a position takes the
      rule's format exactly when one of the rule's matches covers it. */
  ghost function ApplyRule(formats: seq<CharFormat>, text: string, rule: Rule): (r: seq<CharFormat>)
    requires WellFormed(rule.matcher)
    ensures |r| == |formats|
    ensures forall p :: 0 <= p < |r| ==>
      r[p] == if Covers(Matches(text, rule.matcher, 0), p) then rule.format else formats[p]
  {
    var ms := Matches(text, rule.matcher, 0);
    assert forall p :: 0 <= p < |formats| ==>
      Paint(formats, ms, rule.format)[p] == if Covers(ms, p) then rule.format else formats[p] by {
      forall p | 0 <= p < |formats| {
        PaintAt(formats, ms, rule.format, p);
      }
    }
    Paint(formats, ms, rule.format)
  }

  /** The rules applied one after the other, first to last. */
  ghost function Highlight(rules: seq<Rule>, text: string, formats: seq<CharFormat>): (r: seq<CharFormat>)
    requires ValidRules(rules)
    ensures |r| == |formats|
  {
    if rules == [] then formats
    else ApplyRule(Highlight(rules[..|rules| - 1], text, formats), text, rules[|rules| - 1])
  }

  /** Position p is inside some match of the rule in the block. */
  ghost predicate RuleCovers(rule: Rule, text: string, p: nat)
    requires WellFormed(rule.matcher)
  {
    Covers(Matches(text, rule.matcher, 0), p)
  }

  /** The format position p ends with, read from the last rule back: the
      format of the last rule with a match over p, or the old format. */
  ghost function FinalFormat(rules: seq<Rule>, text: string, formats: seq<CharFormat>, p: nat): CharFormat
    requires ValidRules(rules) && p < |formats|
  {
    if rules == [] then formats[p]
    else if RuleCovers(rules[|rules| - 1], text, p) then rules[|rules| - 1].format
    else FinalFormat(rules[..|rules| - 1], text, formats, p)
  }

  /** Highlighting gives every position the format of the last rule that
      matches over it, and leaves a position no match covers as it was. */
  lemma {:induction false} HighlightAt(rules: seq<Rule>, text: string, formats: seq<CharFormat>, p: nat)
    requires ValidRules(rules) && p < |formats|
    ensures Highlight(rules, text, formats)[p] == FinalFormat(rules, text, formats, p)
    decreases |rules|
  {
    if rules != [] {
      var init := rules[..|rules| - 1];
      var last := rules[|rules| - 1];
      HighlightAt(init, text, formats, p);
    }
  }

  /** A later rule overwrites: where rule j matches and no later rule does,
      the character ends with rule j's format. */
  lemma {:induction false} LaterRuleWins(rules: seq<Rule>, text: string, formats: seq<CharFormat>, p: nat, j: nat)
    requires ValidRules(rules) && p < |formats| && j < |rules|
    requires RuleCovers(rules[j], text, p)
    requires forall k :: j < k < |rules| ==> !RuleCovers(rules[k], text, p)
    ensures Highlight(rules, text, formats)[p] == rules[j].format
    decreases |rules|
  {
    HighlightAt(rules, text, formats, p);
    FinalFormatOfLastCovering(rules, text, formats, p, j);
  }

  lemma {:induction false} FinalFormatOfLastCovering(rules: seq<Rule>, text: string, formats: seq<CharFormat>, p: nat, j: nat)
    requires ValidRules(rules) && p < |formats| && j < |rules|
    requires RuleCovers(rules[j], text, p)
    requires forall k :: j < k < |rules| ==> !RuleCovers(rules[k], text, p)
    ensures FinalFormat(rules, text, formats, p) == rules[j].format
    decreases |rules|
  {
    if j < |rules| - 1 {
      var init := rules[..|rules| - 1];
      assert !RuleCovers(rules[|rules| - 1], text, p);
      forall k | j < k < |init| ensures !RuleCovers(init[k], text, p) {
        assert init[k] == rules[k];
      }
      assert init[j] == rules[j];
      FinalFormatOfLastCovering(init, text, formats, p, j);
    }
  }

  /** Nothing else changes: a position that no rule matches over keeps its format. */
  lemma {:induction false} UncoveredUnchanged(rules: seq<Rule>, text: string, formats: seq<CharFormat>, p: nat)
    requires ValidRules(rules) && p < |formats|
    requires forall k :: 0 <= k < |rules| ==> !RuleCovers(rules[k], text, p)
    ensures Highlight(rules, text, formats)[p] == formats[p]
    decreases |rules|
  {
    HighlightAt(rules, text, formats, p);
    FinalFormatUncovered(rules, text, formats, p);
  }

  lemma {:induction false} FinalFormatUncovered(rules: seq<Rule>, text: string, formats: seq<CharFormat>, p: nat)
    requires ValidRules(rules) && p < |formats|
    requires forall k :: 0 <= k < |rules| ==> !RuleCovers(rules[k], text, p)
    ensures FinalFormat(rules, text, formats, p) == formats[p]
    decreases |rules|
  {
    if rules != [] {
      var init := rules[..|rules| - 1];
      assert !RuleCovers(rules[|rules| - 1], text, p);
      forall k | 0 <= k < |init| ensures !RuleCovers(init[k], text, p) {
        assert init[k] == rules[k];
      }
      FinalFormatUncovered(init, text, formats, p);
    }
  }

  /** With the standard rules, code is the last rule, so a character inside a
      code span always ends in the code format, whatever else matched it. */
  lemma CodeSpanWins(bold: Matcher, italic: Matcher, text: string, formats: seq<CharFormat>, p: nat)
    requires WellFormed(bold) && WellFormed(italic) && p < |formats|
    requires Covers(Matches(text, CodeMatch, 0), p)
    ensures Highlight(StandardRules(bold, italic), text, formats)[p] == CodeFormat
  {
    var rules := StandardRules(bold, italic);
    LaterRuleWins(rules, text, formats, p, 3);
  }

  /** QSyntaxHighlighter.setFormat on the block's format buffer. */
  method SetFormat(formats: array<CharFormat>, start: nat, count: nat, format: CharFormat)
    modifies formats
    ensures formats[..] == SetSpan(old(formats[..]), start, count, format)
  {
    forall i | 0 <= i < formats.Length && start <= i < start + count {
      formats[i] := format;
    }
  }

  class MarkdownHighlighter {
    var highlightingRules: seq<Rule>

    ghost predicate Valid()
      reads this
    {
      ValidRules(highlightingRules)
    }

    /** __init__: the four rules appended in order. */
    constructor (bold: Matcher, italic: Matcher)
      requires WellFormed(bold) && WellFormed(italic)
      ensures Valid() && highlightingRules == StandardRules(bold, italic)
    {
      ConcreteMatchersWellFormed();
      highlightingRules := [];
      highlightingRules := highlightingRules + [Rule(HeadingMatch, HeadingFormat)];
      highlightingRules := highlightingRules + [Rule(bold, BoldFormat)];
      highlightingRules := highlightingRules + [Rule(italic, ItalicFormat)];
      highlightingRules := highlightingRules + [Rule(CodeMatch, CodeFormat)];
    }

    /** highlightBlock: for each rule in order, format every match found by
        searching from the start and then from the end of the previous match.
        The block's text is only read. */
    method HighlightBlock(text: string, formats: array<CharFormat>)
      requires Valid() && formats.Length == |text|
      modifies formats
      ensures formats[..] == Highlight(highlightingRules, text, old(formats[..]))
    {
      var r := 0;
      while r < |highlightingRules|
        invariant 0 <= r <= |highlightingRules|
        invariant formats[..] == Highlight(highlightingRules[..r], text, old(formats[..]))
      {
        var rule := highlightingRules[r];
        ghost var goal := ApplyRule(formats[..], text, rule);
        var m := rule.matcher(text, 0);
        var from: nat := 0;
        while m.Some?
          invariant ValidMatch(text, from, m)
          invariant Paint(formats[..], Pending(text, rule.matcher, from, m), rule.format) == goal
          decreases if m.Some? then |text| - m.value.start else 0
        {
          SetFormat(formats, m.value.start, m.value.length, rule.format);
          from := m.value.End();
          m := rule.matcher(text, from);
        }
        assert highlightingRules[..r + 1][..r] == highlightingRules[..r];
        r := r + 1;
      }
      assert highlightingRules[..r] == highlightingRules;
    }
  }
}
