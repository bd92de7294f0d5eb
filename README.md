# md2bb in Dafny

A model of the Markdown-to-BBCode converter of `src/routes/md2bb/md2bb.ts`, with the
properties the converter promises stated and proved.

The converter has four operations:

- `getUrl` makes a URL absolute. A protocol-relative URL gets `https:`, a site-relative one gets
  the site root, and anything else is kept.
- `changeExtension` replaces a trailing `.ext` of a path.
- `convertLists` is one pass over the lines with an "inside a list" flag. It turns runs of
  `- ` lines into `[list]` … `[/list]` blocks.
- `convert` returns the empty text unchanged. Any other text goes through a fixed chain of
  fourteen regular-expression replacements, then `convertLists`, and then gets a fixed
  community banner appended.

Files and modules:

- `strings.dfy`: `Wrappers.Option`, plus `Strings`. `Strings` holds the JavaScript built-ins
  the converter uses: `startsWith`, `trim` (with JavaScript's exact whitespace set),
  `split(/\r?\n/)` and `join`.
- `urls.dfy`: `Urls`, which holds `getUrl` and `changeExtension`.
- `rewrites.dfy`: `Rewrites` and `RewriteExamples`. The fourteen replacements of `convert`
  are written as rules of three shapes: a literal, lazy groups between literal delimiters,
  and a greedy rest of the line (optionally only at a line start). A scanner follows
  JavaScript's global `replace`: it tries each position from left to right, and after a
  match it goes on right after the matched text.
- `lists.dfy`: `Lists`. The specification is a state machine, and every line it emits is
  tagged with what it is (`Entry`). `ConvertLists` is the source's loop, which pushes onto
  the output. It is proved to produce exactly what the specification describes.
- `list_examples.dfy`: `ListExamples`, the list pass worked out on concrete inputs.
- `md2bb.dfy`: `Md2bb`, which holds `convert` and the banner.

The heading patterns are not anchored at the start of a line, so `#### x` becomes
`#[h3]x[/h3]`. Only the blockquote pattern is anchored.

## Model

| member | source | states |
|---|---|---|
| `Urls.GetUrl` | src/routes/md2bb/md2bb.ts:38-45 | A URL starting with `//` gets `https:` prepended. One starting with a single `/` gets the root prepended. Any other URL is returned unchanged. The result never starts with `/` and always ends with the given URL. |
| `Urls.GetUrlIdempotent` | src/routes/md2bb/md2bb.ts:38-45 | Resolving a resolved URL again changes nothing. |
| `Urls.FindExtension` | src/routes/md2bb/md2bb.ts:54 | Finds the index where the extension pattern (a '.' then one or more characters that are neither '/' nor '.', up to the end) matches. If it returns none, the pattern matches nowhere. |
| `Urls.ExtensionAtUnique` | src/routes/md2bb/md2bb.ts:54 | The extension pattern matches in at most one place. So the first match that `replace` uses is the only one. |
| `Urls.ChangeExtension` | src/routes/md2bb/md2bb.ts:53-55 | If the path ends in an extension, the result is the part before its '.' followed by the new extension. Otherwise the path is returned unchanged. |
| `Urls.ChangeExtensionIdempotent` | src/routes/md2bb/md2bb.ts:53-55 | Changing to an extension that itself matches the pattern (such as `.webp`) a second time changes nothing. |
| `Urls.ChangeExtensionExample` | src/routes/md2bb/md2bb.ts:53-55 | `a/b/video.mp4` with `.webp` becomes `a/b/video.webp`. |
| `Urls.ChangeExtensionNoExtensionExample` | src/routes/md2bb/md2bb.ts:53-55 | A path whose last '.' comes before a '/' is returned unchanged. |
| `Strings.StartsWith` | src/routes/md2bb/md2bb.ts:39-41 | `startsWith`: the string begins with the prefix. It is also the item test at line 68. |
| `Strings.Trim` | src/routes/md2bb/md2bb.ts:75 | The result of `trim()` is a contiguous part `s[a..b]` of the input, with only whitespace before `a` and after `b`. It is empty exactly when every character is JavaScript whitespace. Otherwise it has no whitespace at either end. |
| `Strings.Join` | src/routes/md2bb/md2bb.ts:88 | `join`: the lines with the separator between consecutive ones. Its partner is `Strings.JoinSplitLines`. |
| `Strings.SplitLines` | src/routes/md2bb/md2bb.ts:64 | `split(/\r?\n/)` yields at least one line, and no line contains '\n'. |
| `Strings.JoinSplitLines` | src/routes/md2bb/md2bb.ts:64 | Joining the split lines with "\n" gives back the text, except that each "\r\n" becomes "\n". |
| `Strings.SplitLinesBreak` | src/routes/md2bb/md2bb.ts:64 | A text made of a line, "\n" and a rest splits into that line followed by the lines of the rest. |
| `Strings.SplitTwoLines` | src/routes/md2bb/md2bb.ts:64 | Two lines joined by one "\n" split back into exactly those two lines. |
| `Rewrites.ThumbStep` | src/routes/md2bb/md2bb.ts:12 | The literal rewrite of "thumb: /" to "thumb: " followed by the root and "/". |
| `Rewrites.LinkStep` | src/routes/md2bb/md2bb.ts:13 | "[", then a lazy label up to "](", then a lazy target up to ")", rendered as a link. |
| `Rewrites.CaptionedImageStep` | src/routes/md2bb/md2bb.ts:14 | The image include tag with `src` and `alt` groups, rendered as an image followed by an italic caption. |
| `Rewrites.ImageStep` | src/routes/md2bb/md2bb.ts:15 | The image include tag with a `src` group only, rendered as an image. |
| `Rewrites.CaptionedVideoStep` | src/routes/md2bb/md2bb.ts:16 | The video include tag with `src` and `alt` groups, rendered as an image of the `.webp` file followed by an italic caption. |
| `Rewrites.VideoStep` | src/routes/md2bb/md2bb.ts:17 | The video include tag with a `src` group only, rendered as an image of the `.webp` file. |
| `Rewrites.Heading3Step` | src/routes/md2bb/md2bb.ts:18 | "### " then the rest of the line, anywhere in a line, rendered as `[h3]` around the trimmed text. |
| `Rewrites.Heading2Step` | src/routes/md2bb/md2bb.ts:19 | "## " then the rest of the line, anywhere in a line, rendered as `[h2]` around the trimmed text. |
| `Rewrites.BoldStep` | src/routes/md2bb/md2bb.ts:20 | "**", a lazy group, then "**", rendered as `[b]`. |
| `Rewrites.ItalicStep` | src/routes/md2bb/md2bb.ts:21 | "*", a lazy group, then "*", rendered as `[i]`. |
| `Rewrites.CodeSpanStep` | src/routes/md2bb/md2bb.ts:22 | A backtick, a lazy group, then a backtick, rendered as `[i]`. |
| `Rewrites.KbdStep` | src/routes/md2bb/md2bb.ts:23 | `<kbd>`, a lazy group, then `</kbd>`, rendered as `[i]`. |
| `Rewrites.CodeTagStep` | src/routes/md2bb/md2bb.ts:24 | `<code>`, a lazy group, then `</code>`, rendered as `[i]`. |
| `Rewrites.QuoteStep` | src/routes/md2bb/md2bb.ts:25 | "> " at the start of a line, then the rest of the line, rendered as `[i]` around the trimmed text. |
| `Rewrites.Steps` | src/routes/md2bb/md2bb.ts:12-25 | The fourteen rewrites, in the order `convert` applies them. |
| `Rewrites.Render` | src/routes/md2bb/md2bb.ts:13-25 | The replacement text for each markup, built from the captured groups. URLs are resolved with `getUrl`, and videos get `.webp` through `changeExtension`. |
| `Rewrites.FindDelimiter` | src/routes/md2bb/md2bb.ts:13-24 | A lazy group ends at the first occurrence of its delimiter, with no line terminator before it. If there is no such occurrence, the delimiter occurs nowhere on the rest of that line. |
| `Rewrites.MatchAt` | src/routes/md2bb/md2bb.ts:12-25 | A match captures as many groups as the pattern has, and it consumes at least one character. |
| `Rewrites.ReplaceFrom` | src/routes/md2bb/md2bb.ts:12-25 | Global replace: text in which the pattern matches nowhere is returned unchanged. |
| `Rewrites.ReplaceFromLeftmost` | src/routes/md2bb/md2bb.ts:12-25 | Global replace is leftmost and non-overlapping. When the first match from `i` is at `j`, the text before `j` is copied unchanged and the match is replaced. The scan then resumes right after the matched text. |
| `Rewrites.Replace` | src/routes/md2bb/md2bb.ts:12-25 | `replace` with a global pattern, from the start of the text. A text where the pattern matches nowhere is returned unchanged. |
| `Rewrites.ApplyAll` | src/routes/md2bb/md2bb.ts:12-25 | The chained replacements leave a text unchanged when no rule matches anywhere in it. |
| `Rewrites.ApplyAllAppend` | src/routes/md2bb/md2bb.ts:12-25 | Applying a chain in two parts is applying the first part, then the second part to its output. This is the reassignment of `text` from line to line. |
| `RewriteExamples.LinkExample` | src/routes/md2bb/md2bb.ts:13 | `[hi](/a)` becomes `[url=<root>/a]hi[/url]`. |
| `RewriteExamples.HeadingExample` | src/routes/md2bb/md2bb.ts:19 | `## Title ` becomes `[h2]Title[/h2]`, with the text trimmed. |
| `RewriteExamples.BoldExample` | src/routes/md2bb/md2bb.ts:20 | `**bold**` becomes `[b]bold[/b]`. |
| `Lists.RenderEntry` | src/routes/md2bb/md2bb.ts:71-85 | The text of each pushed line: `[list]`, `[*] ` plus the body, `[/list]\n` after a blank line, `[/list]` at the end, or the line itself. |
| `Lists.Step` | src/routes/md2bb/md2bb.ts:68-81 | What one line does to the flag and the output, with "blank" meaning that `trim` empties the line. |
| `Lists.StepAppends` | src/routes/md2bb/md2bb.ts:68-81 | A step only appends to the output. Afterwards the pass is inside a list exactly when the line is an item, or it was inside one and the line is not blank. |
| `Lists.Entries` | src/routes/md2bb/md2bb.ts:67-86 | Everything the loop emits, plus the closing `[/list]` when a list is still open at the end. |
| `Lists.ListMarkup` | src/routes/md2bb/md2bb.ts:62-89 | The result of `convertLists`: the split lines run through the pass, rendered and joined with "\n". `Md2bb.Convert` uses it. |
| `Lists.ConvertLists` | src/routes/md2bb/md2bb.ts:62-89 | The loop and the post-loop fix-up return exactly the specification's output: the rendered entries joined with "\n". |
| `Lists.InListIff` | src/routes/md2bb/md2bb.ts:66-82 | After some lines, the flag is set exactly when some item line is followed by no blank line. Both directions are proved. |
| `Lists.LineEffect` | src/routes/md2bb/md2bb.ts:67-82 | An item line adds `[list]` exactly when no list is open, then its `[*] ` line. Inside a list, a blank line adds `[/list]\n` and any other line adds nothing. Outside a list, the line is copied. |
| `Lists.EntriesBalanced` | src/routes/md2bb/md2bb.ts:68-86 | Each `[list]` is immediately followed by an item. Items appear only inside a list and copied lines only outside. Every list is closed exactly once, and the end-of-text `[/list]` can only come last. |
| `Lists.MarkersMatch` | src/routes/md2bb/md2bb.ts:69-86 | There are as many closing markers as opening ones. |
| `Lists.ItemsOfEntries` | src/routes/md2bb/md2bb.ts:68-73 | Each item line yields exactly one `[*] ` entry holding the line after its first two characters, in input order. |
| `Lists.CopiedInOrder` | src/routes/md2bb/md2bb.ts:79-81 | The copied lines are exactly the non-item lines that fall outside a list, unchanged and in order. |
| `Lists.NoItemsAllCopied` | src/routes/md2bb/md2bb.ts:79-81 | Lines without items are copied one for one, and no list is left open. |
| `ListExamples.ListExample` | src/routes/md2bb/md2bb.ts:62-89 | `- a\n- b\n\ntext` becomes `[list]\n[*] a\n[*] b\n[/list]\n\ntext`. |
| `ListExamples.DroppedLineExample` | src/routes/md2bb/md2bb.ts:74-86 | In `- a\ntext`, the line after the item is dropped. The unterminated list is still closed with `[/list]`. |
| `Md2bb.Convert` | src/routes/md2bb/md2bb.ts:8-31 | The empty text maps to the empty text, with no banner. Any other text ends with the fixed banner. |
| `Md2bb.PlainTextPassesThrough` | src/routes/md2bb/md2bb.ts:8-31 | A non-empty text where no replacement matches and no line is an item comes out as itself plus the banner. Its "\r\n" become "\n". |

## Left out

- Strings are sequences of Unicode scalar values, not UTF-16 code units. Every character the model splits, trims or matches on is either ASCII or a JavaScript whitespace character, and each of these is a single UTF-16 unit. So the results agree except on unpaired surrogates.
- The JavaScript whitespace set used by `trim` is written out from the Unicode space-separator category (Zs). A later Unicode version that adds to Zs is not followed.
- Rewrites.FindDelimiter and Rewrites.MatchAt: the claim that lazy groups need no backtracking is argued in a comment, not proved. The model has no general regular-expression engine to prove it against.
- Md2bb.Convert: three of the fourteen replacements (links, level-2 headings, bold) are proved on one example each, as a single step. The other eleven have no example. All fourteen are covered only for the no-match case, and no example goes through `Md2bb.Convert`, so no lemma traces a whole document through every step.
- Convert is a pure function. It uses the specification of `convertLists` (`Lists.ListMarkup`), and the method `Lists.ConvertLists` is proved equal to it.
- Urls.ChangeExtension: the new extension is inserted literally. JavaScript's `replace` would expand the `$&`, `$$`, `` $` `` and `$'` patterns in a replacement string, and those patterns are not modelled. The converter only ever passes `.webp`, which contains none of them.
- Rewrites.ReplaceFrom: the result is specified through `Rewrites.ReplaceFromLeftmost` and the no-match case. That the matches it finds are the ones JavaScript's regular-expression engine finds rests on `Rewrites.MatchAt`, which is not proved against an engine.
- Rewrites.ApplyAll: what the chain computes is stated as the composition law `Rewrites.ApplyAllAppend` and the no-match case. No closed form of the whole chain's output is given.
- Idempotence of `convert` does not hold in general (bracket markup from one pass can be rewritten by a second), so it is not stated.
