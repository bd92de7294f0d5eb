// The global regular-expression replacements `convert` applies before the
// list pass. Every pattern there has one of three shapes, and each shape is
// matched by a small scanner that follows the matching rules of JavaScript
// regular expressions:
//
//  - a literal string (the "thumb: /" rewrite);
//  - an opening literal followed by one or two lazy groups, each ending at a
//    literal delimiter (links, the include tags, bold, italic, code spans,
//    <kbd> and <code>);
//  - an opening literal followed by a greedy group running to the end of the
//    line, optionally only at the start of a line (headings, blockquotes).
//
// A group matches anything but a line terminator. A lazy group ends at the
// first occurrence of its delimiter on the same line; when the next group
// then finds no delimiter, a later occurrence of the first delimiter cannot
// help (the next group would only search a shorter stretch of the same line),
// so the scanner needs no backtracking to find the match the regular
// expression engine finds.
//
// A global replace tries every position from left to right; after a match
// it continues right after the matched text, otherwise it copies one
// character and tries the next position.
module Rewrites {
  import opened Wrappers
  import opened Strings
  import Urls

  /** What a match is replaced with, as a function of its captured groups. */
  datatype Markup =
    | Link            // `[url=<resolved target>]label[/url]`
    | Image           // `[img]<resolved src>[/img]`
    | CaptionedImage  // `[img]<resolved src>[/img]\n[i]alt[/i]`
    | Video           // `[img]<resolved src with .webp>[/img]`
    | CaptionedVideo  // `[img]<resolved src with .webp>[/img]\n[i]alt[/i]`
    | Tag(name: string, trim: bool)  // `[name]group[/name]`, the group trimmed or not

  /** How many groups the markup uses. */
  function Arity(m: Markup): nat {
    match m
    case Link => 2
    case CaptionedImage => 2
    case CaptionedVideo => 2
    case _ => 1
  }

  /** The replacement text built from the captured groups. */
  function Render(m: Markup, groups: seq<string>): string
    requires |groups| == Arity(m)
  {
    match m
    case Link => "[url=" + Urls.GetUrl(groups[1]) + "]" + groups[0] + "[/url]"
    case Image => "[img]" + Urls.GetUrl(groups[0]) + "[/img]"
    case CaptionedImage => "[img]" + Urls.GetUrl(groups[0]) + "[/img]\n[i]" + groups[1] + "[/i]"
    case Video => "[img]" + Urls.GetUrl(Urls.ChangeExtension(groups[0], ".webp")) + "[/img]"
    case CaptionedVideo =>
      "[img]" + Urls.GetUrl(Urls.ChangeExtension(groups[0], ".webp")) + "[/img]\n[i]" + groups[1] + "[/i]"
    case Tag(name, trim) =>
      "[" + name + "]" + (if trim then Trim(groups[0]) else groups[0]) + "[/" + name + "]"
  }

  /** One global replacement. */
  datatype Rule =
    | Literal(pattern: string, replacement: string)
    | Lazy(open: string, delimiters: seq<string>, markup: Markup)
    | RestOfLine(open: string, lineStart: bool, markup: Markup)

  /** A rule whose pattern cannot match the empty string and whose markup gets the groups it uses. */
  predicate ValidRule(rule: Rule) {
    match rule
    case Literal(p, _) => p != []
    case Lazy(open, delimiters, m) => open != [] && |delimiters| == Arity(m)
    case RestOfLine(open, _, m) => open != [] && Arity(m) == 1
  }

  /** How many groups the rule's pattern captures. */
  function GroupCount(rule: Rule): nat {
    match rule
    case Literal(_, _) => 0
    case Lazy(_, delimiters, _) => |delimiters|
    case RestOfLine(_, _, _) => 1
  }

  /** A successful match: the captured groups and the index just past the matched text. */
  datatype Match = Match(groups: seq<string>, end: nat)

  /** No line terminator in `s[from..to]`. */
  predicate OnOneLine(s: string, from: nat, to: nat)
    requires from <= to <= |s|
  {
    forall k :: from <= k < to ==> !IsLineTerminator(s[k])
  }

  /**
   * A lazy group starting at `from` and closed by `d`: the first index where
   * `d` occurs, provided no line terminator comes before it.
   */
  function FindDelimiter(s: string, from: nat, d: string): (r: Option<nat>)
    requires from <= |s|
    ensures r.Some? ==> && from <= r.value <= |s|
                        && StartsAt(s, r.value, d)
                        && OnOneLine(s, from, r.value)
                        && forall j :: from <= j < r.value ==> !StartsAt(s, j, d)
    ensures r.None? ==> forall j :: from <= j <= |s| && OnOneLine(s, from, j) ==> !StartsAt(s, j, d)
    decreases |s| - from
  {
    if StartsAt(s, from, d) then Some(from)
    else if from == |s| || IsLineTerminator(s[from]) then None
    else FindDelimiter(s, from + 1, d)
  }

  /** The lazy groups, one per delimiter, from index `from` on. */
  function MatchGroups(s: string, from: nat, delimiters: seq<string>): (r: Option<Match>)
    requires from <= |s|
    ensures r.Some? ==> |r.value.groups| == |delimiters| && from <= r.value.end <= |s|
    decreases |delimiters|
  {
    if delimiters == [] then Some(Match([], from))
    else match FindDelimiter(s, from, delimiters[0])
      case None => None
      case Some(q) =>
        match MatchGroups(s, q + |delimiters[0]|, delimiters[1..])
        case None => None
        case Some(m) => Some(Match([s[from..q]] + m.groups, m.end))
  }

  /** The index of the first line terminator at or after `from`, or the end of `s`. */
  function LineEnd(s: string, from: nat): (e: nat)
    requires from <= |s|
    ensures from <= e <= |s|
    ensures e == |s| || IsLineTerminator(s[e])
    ensures OnOneLine(s, from, e)
    decreases |s| - from
  {
    if from == |s| || IsLineTerminator(s[from]) then from else LineEnd(s, from + 1)
  }

  /** Index `i` is the start of a line, as a multiline `^` sees it. */
  predicate AtLineStart(s: string, i: nat)
    requires i <= |s|
  {
    i == 0 || IsLineTerminator(s[i - 1])
  }

  /** The rule's pattern matched at exactly index `i`. */
  function MatchAt(rule: Rule, s: string, i: nat): (r: Option<Match>)
    requires ValidRule(rule) && i <= |s|
    ensures r.Some? ==> |r.value.groups| == GroupCount(rule) && i < r.value.end <= |s|
  {
    match rule
    case Literal(p, _) =>
      if StartsAt(s, i, p) then Some(Match([], i + |p|)) else None
    case Lazy(open, delimiters, _) =>
      if StartsAt(s, i, open) then MatchGroups(s, i + |open|, delimiters) else None
    case RestOfLine(open, lineStart, _) =>
      if (!lineStart || AtLineStart(s, i)) && StartsAt(s, i, open) then
        var e := LineEnd(s, i + |open|);
        Some(Match([s[i + |open|..e]], e))
      else None
  }

  /** The text a match is replaced with. */
  function Replacement(rule: Rule, groups: seq<string>): string
    requires ValidRule(rule) && |groups| == GroupCount(rule)
  {
    match rule
    case Literal(_, replacement) => replacement
    case Lazy(_, _, m) => Render(m, groups)
    case RestOfLine(_, _, m) => Render(m, groups)
  }

  /**
   * The global replacement applied to `s[i..]`. Where the pattern matches
   * nowhere, the text comes back unchanged.
   */
  function ReplaceFrom(rule: Rule, s: string, i: nat): (r: string)
    requires ValidRule(rule) && i <= |s|
    ensures (forall j :: i <= j < |s| ==> MatchAt(rule, s, j).None?) ==> r == s[i..]
    decreases |s| - i
  {
    if i == |s| then []
    else match MatchAt(rule, s, i)
      case Some(m) => Replacement(rule, m.groups) + ReplaceFrom(rule, s, m.end)
      case None => [s[i]] + ReplaceFrom(rule, s, i + 1)
  }

  /** Where the pattern does not match, one character is copied and the scan moves on. */
  lemma ReplaceFromCopies(rule: Rule, s: string, i: nat)
    requires ValidRule(rule) && i < |s| && MatchAt(rule, s, i).None?
    ensures ReplaceFrom(rule, s, i) == [s[i]] + ReplaceFrom(rule, s, i + 1)
  {
  }

  /** Where the pattern matches, the match is replaced and the scan resumes after it. */
  lemma ReplaceFromReplaces(rule: Rule, s: string, i: nat, m: Match)
    requires ValidRule(rule) && i < |s| && MatchAt(rule, s, i) == Some(m)
    ensures |m.groups| == GroupCount(rule) && m.end <= |s|
    ensures ReplaceFrom(rule, s, i) == Replacement(rule, m.groups) + ReplaceFrom(rule, s, m.end)
  {
  }

  /**
   * The leftmost match wins: when the pattern first matches at `j`, the text
   * before `j` is copied unchanged, the match is replaced, and the scan
   * resumes right after the matched text, so matches never overlap.
   */
  lemma {:induction false} ReplaceFromLeftmost(rule: Rule, s: string, i: nat, j: nat, m: Match)
    requires ValidRule(rule) && i <= j < |s|
    requires forall k :: i <= k < j ==> MatchAt(rule, s, k).None?
    requires MatchAt(rule, s, j) == Some(m)
    ensures |m.groups| == GroupCount(rule) && m.end <= |s|
    ensures ReplaceFrom(rule, s, i) == s[i..j] + (Replacement(rule, m.groups) + ReplaceFrom(rule, s, m.end))
    decreases j - i
  {
    if i == j {
      ReplaceFromReplaces(rule, s, j, m);
      assert s[i..j] == [];
    } else {
      ReplaceFromCopies(rule, s, i);
      ReplaceFromLeftmost(rule, s, i + 1, j, m);
      CopiedPrefix(s, i, j, Replacement(rule, m.groups) + ReplaceFrom(rule, s, m.end));
    }
  }

  /** One copied character in front of a copied stretch is the longer stretch. */
  lemma CopiedPrefix(s: string, i: nat, j: nat, tail: string)
    requires i < j <= |s|
    ensures [s[i]] + (s[i + 1..j] + tail) == s[i..j] + tail
  {
    assert s[i..j] == [s[i]] + s[i + 1..j];
  }

  /** `s.replace(pattern, replacement)` for a global pattern. */
  function Replace(rule: Rule, s: string): (r: string)
    requires ValidRule(rule)
    ensures (forall j :: 0 <= j < |s| ==> MatchAt(rule, s, j).None?) ==> r == s
  {
    ReplaceFrom(rule, s, 0)
  }

  // The replacements of `convert`, one per pattern.
  const ThumbStep := Literal("thumb: /", "thumb: " + Urls.Root + "/")
  const LinkStep := Lazy("[", ["](", ")"], Link)
  const CaptionedImageStep := Lazy("{% include img.html src=\"", ["\" alt=\"", "\" %}"], CaptionedImage)
  const ImageStep := Lazy("{% include img.html src=\"", ["\" %}"], Image)
  const CaptionedVideoStep := Lazy("{% include video.html src=\"", ["\" alt=\"", "\" %}"], CaptionedVideo)
  const VideoStep := Lazy("{% include video.html src=\"", ["\" %}"], Video)
  const Heading3Step := RestOfLine("### ", false, Tag("h3", true))
  const Heading2Step := RestOfLine("## ", false, Tag("h2", true))
  const BoldStep := Lazy("**", ["**"], Tag("b", false))
  const ItalicStep := Lazy("*", ["*"], Tag("i", false))
  const CodeSpanStep := Lazy("`", ["`"], Tag("i", false))
  const KbdStep := Lazy("<kbd>", ["</kbd>"], Tag("i", false))
  const CodeTagStep := Lazy("<code>", ["</code>"], Tag("i", false))
  const QuoteStep := RestOfLine("> ", true, Tag("i", true))

  /** The replacements of `convert`, in the order it applies them. */
  const Steps: seq<Rule> := [
    ThumbStep, LinkStep, CaptionedImageStep, ImageStep, CaptionedVideoStep, VideoStep,
    Heading3Step, Heading2Step, BoldStep, ItalicStep, CodeSpanStep, KbdStep, CodeTagStep,
    QuoteStep
  ]

  /** Every rule of the list is well-formed. */
  predicate AllValid(rules: seq<Rule>) {
    forall k :: 0 <= k < |rules| ==> ValidRule(rules[k])
  }

  /** The rules applied one after the other, each to the output of the one before. */
  function ApplyAll(rules: seq<Rule>, s: string): (r: string)
    requires AllValid(rules)
    ensures (forall k, j :: 0 <= k < |rules| && 0 <= j < |s| ==> MatchAt(rules[k], s, j).None?) ==> r == s
  {
    if rules == [] then s
    else
      var t := Replace(rules[0], s);
      ApplyAll(rules[1..], t)
  }

  /** Applying a chain in two parts is applying the first part, then the second to its output. */
  lemma {:induction false} ApplyAllAppend(a: seq<Rule>, b: seq<Rule>, s: string)
    requires AllValid(a) && AllValid(b)
    ensures AllValid(a + b)
    ensures ApplyAll(a + b, s) == ApplyAll(b, ApplyAll(a, s))
    decreases |a|
  {
    if a == [] {
      assert a + b == b;
    } else {
      assert (a + b)[1..] == a[1..] + b;
      ApplyAllAppend(a[1..], b, Replace(a[0], s));
    }
  }
}

module RewriteExamples {
  import opened Wrappers
  import opened Strings
  import opened Rewrites

  /** The label group of "[hi](/a)" ends at the "](" after "hi". */
  lemma LinkLabel(s: string)
    requires s == "[hi](/a)"
    ensures FindDelimiter(s, 1, "](") == Some(3)
  {
    assert s[1..3] == "hi" && s[2..4] == "i]" && s[3..5] == "](";
    assert OnOneLine(s, 1, 3);
  }

  /** The target group of "[hi](/a)" ends at the closing ")". */
  lemma LinkTarget(s: string)
    requires s == "[hi](/a)"
    ensures FindDelimiter(s, 5, ")") == Some(7)
  {
    assert s[5..6] == "/" && s[6..7] == "a" && s[7..8] == ")";
    assert OnOneLine(s, 5, 7);
  }

  /** The link pattern matches the whole of "[hi](/a)", capturing the label and the target. */
  lemma LinkMatch(s: string)
    requires s == "[hi](/a)"
    ensures MatchAt(LinkStep, s, 0) == Some(Match(["hi", "/a"], 8))
  {
    LinkLabel(s);
    LinkTarget(s);
    assert s[1..3] == "hi" && s[5..7] == "/a";
    var delims := ["](", ")"];
    assert delims[1..] == [")"] && [")"][1..] == [];
    assert MatchGroups(s, 8, []) == Some(Match([], 8));
    assert [s[5..7]] + [] == ["/a"];
    assert MatchGroups(s, 5, [")"]) == Some(Match(["/a"], 8));
    assert [s[1..3]] + ["/a"] == ["hi", "/a"];
    assert MatchGroups(s, 1, delims) == Some(Match(["hi", "/a"], 8));
  }

  /** The replacement for label "hi" and target "/a": the target resolved against the root. */
  lemma LinkRender(groups: seq<string>)
    requires groups == ["hi", "/a"]
    ensures Render(Link, groups) == "[url=" + Urls.Root + "/a" + "]hi[/url]"
  {
    var t := groups[1];
    assert t[..1] == "/" && t[..2] == "/a" && t[1] != "//"[1];
    assert Urls.GetUrl(t) == Urls.Root + "/a";
  }

  /** A Markdown link to a site-relative target becomes a `[url=...]` link to the resolved target. */
  lemma LinkExample(s: string)
    requires s == "[hi](/a)"
    ensures Replace(LinkStep, s) == "[url=" + Urls.Root + "/a" + "]hi[/url]"
  {
    LinkMatch(s);
    LinkRender(["hi", "/a"]);
    assert ReplaceFrom(LinkStep, s, 8) == [];
  }

  /** The heading pattern takes the rest of the line. */
  lemma HeadingMatch(s: string)
    requires s == "## Title "
    ensures MatchAt(Heading2Step, s, 0) == Some(Match(["Title "], 9))
  {
    assert s[0..3] == "## ";
    assert LineEnd(s, 9) == 9;
    assert LineEnd(s, 3) == 9;
    assert s[3..9] == "Title ";
  }

  /** Trimming drops the trailing blank. */
  lemma TrimExample(t: string)
    requires t == "Title "
    ensures Trim(t) == "Title"
  {
    assert SkipWhitespace(t, 0) == 0 by { assert !IsWhitespace(t[0]); }
    assert SkipWhitespaceBack(t, 0, 5) == 5 by { assert !IsWhitespace(t[4]); }
    assert SkipWhitespaceBack(t, 0, 6) == 5 by { assert IsWhitespace(t[5]); }
    assert t[0..5] == "Title";
  }

  /** The level-2 heading markup around the trimmed text. */
  lemma HeadingRender(groups: seq<string>)
    requires groups == ["Title "]
    ensures Render(Tag("h2", true), groups) == "[h2]Title[/h2]"
  {
    TrimExample(groups[0]);
    assert Render(Tag("h2", true), groups) == "[" + "h2" + "]" + "Title" + "[/" + "h2" + "]";
  }

  /** A level-2 heading becomes `[h2]...[/h2]` around its trimmed text. */
  lemma HeadingExample(s: string)
    requires s == "## Title "
    ensures Replace(Heading2Step, s) == "[h2]Title[/h2]"
  {
    HeadingMatch(s);
    HeadingRender(["Title "]);
    assert ReplaceFrom(Heading2Step, s, 9) == [];
  }

  /** The bold pattern matches the whole of "**bold**". */
  lemma BoldMatch(s: string)
    requires s == "**bold**"
    ensures MatchAt(BoldStep, s, 0) == Some(Match(["bold"], 8))
  {
    assert StartsAt(s, 0, "**");
    assert s[2..4] == "bo" && s[3..5] == "ol" && s[4..6] == "ld" && s[5..7] == "d*" && s[6..8] == "**";
    assert s[2..6] == "bold";
    assert OnOneLine(s, 2, 6);
    assert FindDelimiter(s, 2, "**") == Some(6);
    assert MatchGroups(s, 8, []) == Some(Match([], 8));
    assert ["**"][1..] == [];
    assert [s[2..6]] + [] == ["bold"];
    assert MatchGroups(s, 2, ["**"]) == Some(Match(["bold"], 8));
  }

  /** Bold emphasis becomes `[b]...[/b]`. */
  lemma BoldExample(s: string)
    requires s == "**bold**"
    ensures Replace(BoldStep, s) == "[b]bold[/b]"
  {
    BoldMatch(s);
    assert Render(Tag("b", false), ["bold"]) == "[" + "b" + "]" + "bold" + "[/" + "b" + "]";
    assert ReplaceFrom(BoldStep, s, 8) == [];
  }
}
