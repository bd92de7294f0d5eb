/**
 * `convert`: Markdown with a few template tags to BBCode. The empty text is
 * returned as it is; any other text goes through the fixed chain of
 * replacements, then the list pass, and gets the community banner appended.
 */
module Md2bb {
  import opened Strings
  import Rewrites
  import Lists

  /** The banner appended to every converted non-empty text. */
  const Footer: string :=
    "\n\n[url=https://discord.gg/voxeltycoon][img]https://discordapp.com/api/guilds/346672255084003329/embed.png?style=banner2[/img][/url]"

  /** Every replacement of the chain is well-formed. */
  lemma StepsValid()
    ensures Rewrites.AllValid(Rewrites.Steps)
  {
  }

  /**
   * `convert`: the empty text maps to the empty text with no banner; any other
   * text ends with the banner, after the converted body.
   */
  function Convert(text: string): (r: string)
    ensures text == [] ==> r == []
    ensures text != [] ==> |Footer| <= |r| && r[|r| - |Footer|..] == Footer
  {
    if text == [] then []
    else
      StepsValid();
      var body := Lists.ListMarkup(Rewrites.ApplyAll(Rewrites.Steps, text));
      assert (body + Footer)[|body|..] == Footer;
      body + Footer
  }

  /**
   * Text in which no replacement finds anything and no line is a list item
   * comes out unchanged but for "\r\n" line breaks, which become "\n", and
   * the banner.
   */
  lemma PlainTextPassesThrough(text: string)
    requires text != []
    requires forall k, j :: 0 <= k < |Rewrites.Steps| && 0 <= j < |text| ==>
      Rewrites.ValidRule(Rewrites.Steps[k]) && Rewrites.MatchAt(Rewrites.Steps[k], text, j).None?
    requires forall k :: 0 <= k < |SplitLines(text)| ==> !Lists.IsItem(SplitLines(text)[k])
    ensures Convert(text) == NormalizeNewlines(text) + Footer
  {
    StepsValid();
    assert Rewrites.ApplyAll(Rewrites.Steps, text) == text;
    var lines := SplitLines(text);
    Lists.NoItemsAllCopied(lines);
    JoinSplitLines(text);
  }
}
