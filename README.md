# Markdown core of a static site generator, in Dafny

This project models the string-processing core of a small Python static
site generator and proves properties of it. It covers four components.

- **Inline tokenizer** (`src/inline_markdown.py`).
  - `split_nodes_delimiter` cuts the TEXT nodes of a node list at a delimiter such as `**`, `_` or a backtick. Fragments alternate between plain text and the target kind, and empty fragments are dropped. A text with an odd number of delimiters raises "closing delimeter missing".
  - `extract_markdown_images` and `extract_markdown_links` return the `(text, url)` pairs of the two fixed regular expressions.
- **Block segmenter** (`src/markdown_blocks.py`). `markdown_to_blocks` splits a document at blank lines (`"\n\n"`), drops the pieces that are exactly `""`, then strips each survivor.
- **HTML node base class** (`src/htmlnode.py`).
  - The constructor defaults every field to `None`.
  - `props_to_html` renders the attribute map as ` key="value"` pairs, in insertion order and without escaping.
  - The base `to_html` always fails.
- **Title extractor** (`src/generate_page.py`, `extract_title`). It takes the first line starting with `# `, minus those two characters. When no line qualifies it fails with "no title found".

Layout:
- `Wrappers.dfy`: `Option` and `Result`.
- `PyStr.dfy`: the Python `str` operations the core relies on. These are `find`, `split` with a separator, `count`, `strip()`, `startswith`, `join`, and the `filter(lambda x: x != "")` idiom.
- `TextNodes.dfy`: the `TextNode`/`TextType` value.
- One file per component: `InlineMarkdown.dfy`, `MarkdownBlocks.dfy`, `HtmlNodes.dfy`, `GeneratePage.dfy`.

The model follows the shape of the code.
- **Loops become methods.** `split_nodes_delimiter`, `props_to_html` and `extract_title` are loops, so they are methods with loop invariants. Each method is proved equal to a specification function, or is given its outcome directly (for `extract_title`).
- **Expressions become functions.** `markdown_to_blocks` and the two extractors are single expressions, so they are functions.
- **`HTMLNode` is a class.** Its four fields are stored by the constructor and read by the methods.

Regular expressions are not modelled in general. The two fixed patterns are written as a scanner. Lemmas prove that the scanner follows Python's `re.findall` semantics for these patterns:
- lazy `(.*?)` groups;
- `.` not matching a line break;
- matches taken left to right and never overlapping;
- nothing skipped.

The code is followed as written.
- The error text is "closing delimeter missing", spelled as in the code.
- `markdown_to_blocks` filters the pieces before it strips them. The test `test_consecutive_blank_lines_do_not_create_empty_block` (src/test_markdown_blocks.py:35-37) expects no empty block, which only stripping first guarantees (see Findings).
- An empty delimiter is handled as Python handles it. `s.count("")` is `len(s) + 1`, and `s.split("")` raises `ValueError`. The model returns the `EmptySeparator` error for that `ValueError`, after the parity check, as Python does.

## Model

| member | source | states |
|---|---|---|
| InlineMarkdown.SplitNodesDelimiter | src/inline_markdown.py:6-25 | the loop over the nodes and the loop over the fragments compute exactly `SplitNodes`: the concatenation of every node's contribution, in order, or the first exception raised |
| InlineMarkdown.SplitNodes | src/inline_markdown.py:6-25 | no ensures of its own: the specification of `split_nodes_delimiter`, node by node in order, stopping at the first exception; see SplitNodesDelimiter, SplitNodesAppend, SplitNodesFails |
| InlineMarkdown.InlineError.Message | src/inline_markdown.py:14 | no ensures of its own: the exception text "closing delimeter missing", spelled as in the code, and "empty separator" for the `ValueError` of `split("")`; see SplitNodesFails, OddDelimiterTest |
| InlineMarkdown.SplitNode | src/inline_markdown.py:9-23 | no ensures of its own: one node's contribution (kept as is when not TEXT, "closing delimeter missing" for an odd count, otherwise its fragments); see SplitNodesPassThrough, SplitTextNode, SplitEmptyText |
| InlineMarkdown.Then | src/inline_markdown.py:7-14 | no ensures of its own: appending one node's output to the list built so far, or the first exception raised; see SplitNodesAppend, SplitNodesStops, ThenAssoc |
| InlineMarkdown.ThenAssoc | src/inline_markdown.py:7-14 | accumulating outputs does not depend on grouping: `(x then y) then z` equals `x then (y then z)` |
| InlineMarkdown.SplitNodesSnoc | src/inline_markdown.py:8-25 | the result for the first `k + 1` nodes is the result for the first `k` followed by node `k`'s contribution, which is what one loop iteration adds |
| InlineMarkdown.KindAt | src/inline_markdown.py:20-23 | no ensures of its own: fragment `i` is TEXT when `i % 2 == 0`, otherwise the target kind; see FragmentAt, FragmentsShape |
| InlineMarkdown.Piece | src/inline_markdown.py:18-23 | no ensures of its own: an empty fragment adds nothing, any other adds one node of kind `KindAt(i)` with no url; see FragmentsSnoc, FragmentsShape |
| InlineMarkdown.Fragments | src/inline_markdown.py:17-23 | no ensures of its own: the nodes the inner loop emits for the fragments of one TEXT node, in order; it is that loop's invariant in SplitNodesDelimiter; see FragmentsSnoc, FragmentsTexts, FragmentAt, FragmentsShape |
| InlineMarkdown.FragmentsSnoc | src/inline_markdown.py:17-23 | the fragments of the first `i + 1` pieces are the fragments of the first `i` followed by what piece `i` adds |
| InlineMarkdown.FragmentsExtend | src/inline_markdown.py:17-23 | the same step with the output built before the current node in front |
| InlineMarkdown.FragmentsPrefix | src/inline_markdown.py:17-23 | the fragments of a prefix of the pieces are a prefix of all the fragments |
| InlineMarkdown.SplitNodesAppend | src/inline_markdown.py:7-8 | the result for a concatenation of node lists is the result for the first list followed by the result for the second; an exception in either is the result |
| InlineMarkdown.SplitNodesPassThrough | src/inline_markdown.py:9-11 | a non-TEXT node appears in the output unchanged, between the outputs of the nodes before it and those after it |
| InlineMarkdown.SplitNodesFails | src/inline_markdown.py:13-14 | the call fails if and only if some TEXT node is rejected; with a non-empty delimiter the exception is "closing delimeter missing" |
| InlineMarkdown.Rejects | src/inline_markdown.py:13-16 | no ensures of its own: a node the call raises on, a TEXT node whose delimiter count is odd, or any TEXT node when the delimiter is empty (`split("")` raises `ValueError`); see SplitNodesFails, SplitNodesStops |
| InlineMarkdown.SplitNodesStops | src/inline_markdown.py:13-14 | once a prefix of the input raises, the whole call raises the same exception and returns nothing |
| InlineMarkdown.SplitTextNode | src/inline_markdown.py:16-23 | for one TEXT node with an even count, the output texts are the non-empty pieces of `text.split(delimiter)` in order, at most `count + 1` nodes, none empty, none with a url, and together they spell the text with the delimiters removed |
| InlineMarkdown.FragmentsTexts | src/inline_markdown.py:16-23 | the texts of the emitted nodes are exactly the non-empty fragments, in order |
| InlineMarkdown.FragmentAt | src/inline_markdown.py:17-23 | a non-empty fragment `i` is emitted at the position counting the non-empty fragments before it, as TEXT when `i` is even and as the target kind when `i` is odd |
| InlineMarkdown.FragmentsShape | src/inline_markdown.py:18-23 | no more nodes than fragments; every node has non-empty text, no url, and is TEXT or the target kind |
| InlineMarkdown.SplitEmptyText | src/inline_markdown.py:18-19 | a TEXT node with text `""` contributes no node |
| InlineMarkdown.SplitPlainText | src/inline_markdown.py:16-21 | a non-empty TEXT node without the delimiter comes back as one TEXT node with the same text |
| InlineMarkdownTests.CodeBasicTest | src/test_inline_markdown.py:12-22 | ``"This is text with a `code block` word"`` split at a backtick gives TEXT, CODE, TEXT nodes with the three texts |
| InlineMarkdownTests.BoldBasicTest | src/test_inline_markdown.py:24-32 | `"before **bold** after"` split at `**` gives `before `, `bold` (BOLD), ` after` |
| InlineMarkdownTests.BoldMultiplePairsTest | src/test_inline_markdown.py:34-44 | `"a **x** b **y** c"` gives five nodes, the two delimited ones BOLD |
| InlineMarkdownTests.ItalicAtStringEdgesTest | src/test_inline_markdown.py:46-54 | `"_start_ and _end_"` gives `start` (ITALIC), ` and `, `end` (ITALIC): the empty first and last fragments produce no node |
| InlineMarkdownTests.NoDelimiterTest | src/test_inline_markdown.py:56-60 | a text without the delimiter comes back as the same single TEXT node |
| InlineMarkdownTests.OddDelimiterTest | src/test_inline_markdown.py:62-66 | ``"broken `code"`` fails with the error whose message is "closing delimeter missing" |
| InlineMarkdownTests.NonTextPassThroughTest | src/test_inline_markdown.py:68-72 | a LINK node with a url is returned unchanged |
| InlineMarkdownTests.SplitNodesOne | src/inline_markdown.py:8-25 | the result for a one-node list is that node's contribution |
| InlineMarkdownTests.SplitJoined | src/inline_markdown.py:13-23 | a TEXT node whose text is parts joined by the delimiter, no part holding its first character, fails when the number of parts is even and otherwise gives the fragments of exactly those parts |
| InlineMarkdownTests.SplitCounted | src/inline_markdown.py:13-23 | the same outcome for any text, given its split and its count |
| InlineMarkdownTests.SplitThree | src/inline_markdown.py:13-23 | a text with two delimiters gives the fragments of its three pieces, in order |
| InlineMarkdownTests.SplitFive | src/inline_markdown.py:13-23 | a text with four delimiters gives the fragments of its five pieces, in order |
| InlineMarkdownTests.FragmentsOfThree | src/inline_markdown.py:17-23 | three pieces emit piece 0 as TEXT, piece 1 as the target kind, piece 2 as TEXT |
| InlineMarkdownTests.FragmentsOfFive | src/inline_markdown.py:17-23 | five pieces alternate TEXT and the target kind, starting with TEXT |
| InlineMarkdown.OpenAt | src/inline_markdown.py:29-34 | when a pattern's opening (`![`, or `[` not after `!`) matches at `p`, group 1 starts after `p` and inside the text |
| InlineMarkdown.CloseParen | src/inline_markdown.py:29 | a reported end of group 2 lies inside the text at or after its start and is a `)` |
| InlineMarkdown.CloseParenFirst | src/inline_markdown.py:29 | the reported `)` is the first one and no line break comes before it; when none is reported, every `)` after the start has a line break before it |
| InlineMarkdown.BodyFrom | src/inline_markdown.py:29 | the reported positions of `](` and `)` lie inside the text, in order, after the point group 1 has reached; that these characters are there is BodyFromLazy's ValidBody |
| InlineMarkdown.BodyFromLazy | src/inline_markdown.py:29 | the reported `(close, end)` is a valid way to finish the match, it is the first in backtracking order of the two lazy groups, and none is reported only when no way exists |
| InlineMarkdown.MatchAt | src/inline_markdown.py:29-34 | a match at `p` starts at `p`, its group 1 starts where the opening ends, and its `](` and `)` lie in order inside the text |
| InlineMarkdown.MatchAtIsLazyMatch | src/inline_markdown.py:29-34 | the match at `p` satisfies the pattern and is the first in backtracking order among all matches at `p`; there is no match only when the opening fails or no way to finish exists |
| InlineMarkdown.ValidBody | src/inline_markdown.py:29 | no ensures of its own: the body `(.*?)\]\((.*?)\)` of both patterns (also src/inline_markdown.py:34): `](` ends group 1, `)` ends group 2, and neither group holds a line break, which `.` does not match; see MatchAtIsLazyMatch, FindAllSound |
| InlineMarkdown.Before | src/inline_markdown.py:29 | no ensures of its own: the order in which the two lazy `(.*?)` groups are tried (also src/inline_markdown.py:34), shortest group 1 first, then shortest group 2; see BodyFromLazy, MatchAtIsLazyMatch |
| InlineMarkdown.FindAllSound | src/inline_markdown.py:29-34 | every reported span is what the pattern matches at its own start, and satisfies the pattern |
| InlineMarkdown.FindAllOrdered | src/inline_markdown.py:29-34 | the spans reported from `p` start at or after `p`, come left to right and never overlap |
| InlineMarkdown.FindAllComplete | src/inline_markdown.py:29-34 | every position from `p` on where the pattern matches is the start of a reported span or lies inside one |
| InlineMarkdown.FindAll | src/inline_markdown.py:29-34 | no ensures of its own: `re.findall`'s scan, trying each position left to right and going on after a match; see FindAllSound, FindAllOrdered, FindAllComplete |
| InlineMarkdown.FindAllMatches | src/inline_markdown.py:29-34 | every span of the scan is the pattern's match at its own start |
| InlineMarkdown.AllMatchValid | src/inline_markdown.py:29-34 | every span is the pattern's match at its start and has a valid body: `](` follows group 1, `)` ends group 2, and neither group holds a line break |
| InlineMarkdown.FindAllChain | src/inline_markdown.py:29-34 | each span of the scan starts at or after the end of the one before |
| InlineMarkdown.ChainOrdered | src/inline_markdown.py:29-34 | such a chain starts at or after the scan's start, comes left to right and never overlaps |
| InlineMarkdown.ConsStartsFrom | src/inline_markdown.py:29-34 | a span followed by spans that start after it keeps the order |
| InlineMarkdown.FindAllCovers | src/inline_markdown.py:29-34 | a position where the pattern matches is the start of a reported span or lies inside one |
| InlineMarkdown.CoveredByCovered | src/inline_markdown.py:29-34 | the recursive form of "covered" implies the quantified one |
| InlineMarkdown.FindAllSkip | src/inline_markdown.py:29-34 | the scan jumps over a stretch with no opening character without reporting anything |
| InlineMarkdown.FindAllGap | src/inline_markdown.py:29-34 | the same for a given gap text lying at the scan position |
| InlineMarkdown.FindAllAt | src/inline_markdown.py:29-34 | a match at the scan position is reported, and the scan goes on after its `)` |
| InlineMarkdown.CloseParenScan | src/inline_markdown.py:29 | the lazy group 2 ends at the first `)`, provided no line break comes before it |
| InlineMarkdown.BodyFromScan | src/inline_markdown.py:29 | the lazy group 1 ends at the first `](` with no `]` or line break before it, once group 2 can end |
| InlineMarkdown.MatchAtOf | src/inline_markdown.py:29-34 | an opening at `start` and a body from `open` make the match at `start` exactly that span |
| InlineMarkdown.CloseParenFacts | src/inline_markdown.py:29 | group 2 given as text ends at the `)` right after it |
| InlineMarkdown.BodyFacts | src/inline_markdown.py:29 | group 1 given as text ends at the `](` right after it |
| InlineMarkdown.MatchTextParts | src/inline_markdown.py:29-34 | the text `![g1](g2)` (or `[g1](g2)`) has the opener, `g1`, `](`, `g2` and `)` at the expected offsets |
| InlineMarkdown.MatchTextAt | src/inline_markdown.py:29-34 | that text at `p` in `s` puts the same characters at the span's offsets in `s` |
| InlineMarkdown.MatchHere | src/inline_markdown.py:29-34 | that text at `p`, with the lookbehind satisfied and groups without `]`, `)` or line breaks, is the match at `p`, and its captures are `(g1, g2)` |
| InlineMarkdown.FindAllMatch | src/inline_markdown.py:29-34 | the scan from such a `p` reports that match first and goes on after it |
| InlineMarkdown.GapThenMatch | src/inline_markdown.py:29-34 | the scan from `x` crosses a gap with no opening character and then reports the match at `p` |
| InlineMarkdown.FindAllTwo | src/inline_markdown.py:29-34 | two consecutive reported matches, the second ending the text, are all the scan reports |
| InlineMarkdown.ScanTwo | src/inline_markdown.py:29-34 | a text made of a gap, a match, a gap and a match at its end yields exactly those two spans, with their captures |
| InlineMarkdown.TwoMatchesIn | src/inline_markdown.py:29-34 | such a text yields exactly the two group pairs |
| InlineMarkdown.GroupsOf | src/inline_markdown.py:29-34 | the pairs returned are the captures of the scan's spans |
| InlineMarkdown.GroupsOfOne | src/inline_markdown.py:29-34 | a prefix without an opening character (nor `!` for links) followed by one match yields its one pair |
| InlineMarkdown.GroupsOfTwo | src/inline_markdown.py:29-34 | a prefix, a match, a gap and a match yield their two pairs, in order |
| InlineMarkdown.AfterMatch | src/inline_markdown.py:34 | the character before a second link is never `!` when a match ending in `)` and a gap without `!` come before it |
| InlineMarkdown.ExtractedPairs | src/inline_markdown.py:28-35 | the `j`th returned pair is the two groups of the `j`th match; neither group holds a line break and the url holds no `)` |
| InlineMarkdown.Capture | src/inline_markdown.py:29-34 | no ensures of its own: the `(group 1, group 2)` tuple that `re.findall` returns for one match; see ExtractedPairs, MatchHere |
| InlineMarkdown.Captures | src/inline_markdown.py:29-34 | no ensures of its own: the tuples of all the matches, in the order of the matches; see GroupsOf, ExtractedPairs |
| InlineMarkdown.FindAllGroups | src/inline_markdown.py:29-34 | no ensures of its own: the group pairs of the scan's spans; see ExtractedPairs, GroupsOf |
| InlineMarkdown.ExtractMarkdownImages | src/inline_markdown.py:28-30 | no ensures of its own: the pairs of the image pattern; see ExtractedPairs, ImagesAreImages, ExtractImagesTest |
| InlineMarkdown.ExtractMarkdownLinks | src/inline_markdown.py:33-35 | no ensures of its own: the pairs of the link pattern; see ExtractedPairs, LinksAreNotImages, ExtractLinksTest |
| InlineMarkdownTests.ExtractImagesTest | src/test_inline_markdown.py:75-83 | `"This is text with an ![image](https://i.imgur.com/image.png)"` yields `[("image", "https://i.imgur.com/image.png")]` |
| InlineMarkdownTests.ExtractLinksTest | src/test_inline_markdown.py:86-100 | the text with two links yields the two `(text, url)` pairs in order |
| InlineMarkdown.ImagesAreImages | src/inline_markdown.py:29 | every image match begins with `![` and its alt text starts right after it |
| InlineMarkdown.LinksAreNotImages | src/inline_markdown.py:34 | every link match begins with a `[` that is not preceded by `!` |
| InlineMarkdown.ImageExample | src/inline_markdown.py:28-30 | worked example of the image pattern: `![a](b)` yields the single image pair `("a", "b")` |
| InlineMarkdown.ImageIsNoLink | src/inline_markdown.py:33-35 | worked example of the lookbehind: `![a](b)` yields no link pair |
| PyStr.FindFrom | src/markdown_blocks.py:2 | a reported occurrence of the separator is at or after the start and is the first one; none is reported only when there is none |
| PyStr.StartsWith | src/generate_page.py:9 | no ensures of its own: `s.startswith(prefix)`; see TitleStartsWithHash |
| PyStr.Split | src/markdown_blocks.py:2 | no ensures of its own: `s.split(sep)` for a non-empty separator, cutting at the leftmost occurrence each time; see SplitJoin, SplitCount, SplitFree, JoinSplit |
| PyStr.Count | src/inline_markdown.py:13 | no ensures of its own: non-overlapping occurrences, left to right; see SplitCount |
| PyStr.PyCount | src/inline_markdown.py:13 | no ensures of its own: `s.count(sep)`, with `len(s) + 1` for the empty separator; see SplitNodesFails |
| PyStr.Join | src/markdown_blocks.py:2 | no ensures of its own: `sep.join(parts)`, the inverse of the split; see SplitJoin, JoinSplit |
| PyStr.JoinSplit | src/markdown_blocks.py:2 | splitting a join of parts that do not hold the separator's first character gives the parts back, with one occurrence fewer than parts |
| PyStr.SplitAtFirst | src/inline_markdown.py:13-16 | a first piece without the separator's first character is cut off at the separator after it, adding one to the count |
| PyStr.FreeOfHead | src/markdown_blocks.py:2 | a string without the separator's first character holds no occurrence |
| PyStr.FreeChar | src/markdown_blocks.py:2 | a string with no occurrence of a one-character separator does not contain that character |
| PyStr.FreeSlice | src/markdown_blocks.py:2 | a slice of a string with no occurrence has none either |
| PyStr.FindFromExtend | src/markdown_blocks.py:2 | appending text does not move an occurrence already found |
| PyStr.Reassemble | src/markdown_blocks.py:2 | cutting out an occurrence and putting it back gives the string |
| PyStr.JoinCons | src/markdown_blocks.py:2 | joining a part in front of a non-empty list puts the separator between them |
| PyStr.SplitJoin | src/markdown_blocks.py:2 | joining the pieces of `s.split(sep)` with `sep` gives `s` back |
| PyStr.SplitCount | src/inline_markdown.py:13-16 | `s.split(sep)` has exactly `s.count(sep) + 1` pieces |
| PyStr.SplitFree | src/markdown_blocks.py:2 | no piece of `s.split(sep)` contains `sep` |
| PyStr.SplitSingle | src/markdown_blocks.py:2 | `s.split(sep) == [s]` if and only if `sep` does not occur in `s`, and then the count is zero |
| PyStr.SplitLeadingSep | src/markdown_blocks.py:2 | a separator at the very start adds one empty first piece and changes no other piece |
| PyStr.IsSpace | src/markdown_blocks.py:3 | no ensures of its own: the characters for which `str.isspace` is true, which are the ones `strip()` removes; see StripSlice, StripEmpty |
| PyStr.TrimStart | src/markdown_blocks.py:3 | the result is no longer than the input and does not start with whitespace |
| PyStr.TrimEnd | src/markdown_blocks.py:3 | the result is no longer than the input and does not end with whitespace |
| PyStr.Strip | src/markdown_blocks.py:3 | neither end of the result is whitespace and the result is no longer than the input |
| PyStr.StripSlice | src/markdown_blocks.py:3 | `s.strip()` is a contiguous slice of `s`, and what lies before and after it is whitespace only |
| PyStr.StripEmpty | src/markdown_blocks.py:3 | `s.strip() == ""` if and only if `s` is whitespace only |
| PyStr.StripFree | src/markdown_blocks.py:3 | stripping never creates an occurrence of a separator |
| PyStr.StripNoop | src/markdown_blocks.py:3 | a string with no whitespace at its ends is its own strip |
| PyStr.TrimStartSuffix | src/markdown_blocks.py:3 | the left strip is a suffix of the input |
| PyStr.TrimEndPrefix | src/markdown_blocks.py:3 | the right strip is a prefix of the input |
| PyStr.TrimStartRemoves | src/markdown_blocks.py:3 | what the left strip removes is whitespace only |
| PyStr.TrimEndRemoves | src/markdown_blocks.py:3 | what the right strip removes is whitespace only |
| PyStr.TrimStartAllSpace | src/markdown_blocks.py:3 | a whitespace-only string strips to `""` |
| PyStr.NonEmpty | src/markdown_blocks.py:3 | no ensures of its own: `filter(lambda x: x != "", parts)`; see NonEmptyAt, NonEmptyFrom, NonEmptyKeepsAll |
| PyStr.NonEmptyAt | src/markdown_blocks.py:3 | the filter keeps order: a non-empty piece `i` lands at the position counting the non-empty pieces before it |
| PyStr.NonEmptyFrom | src/markdown_blocks.py:3 | the filter keeps at most all pieces, none of them empty, each one taken from the input |
| PyStr.NonEmptyKeepsAll | src/markdown_blocks.py:3 | with no empty piece, the filter keeps everything |
| PyStr.NonEmptyConcat | src/inline_markdown.py:16-19 | dropping empty pieces does not change their concatenation |
| PyStr.NonEmptyPrefix | src/markdown_blocks.py:3 | filtering a list is filtering a prefix and the rest, one after the other |
| PyStr.NonEmptyAppend | src/markdown_blocks.py:3 | filtering a concatenation is concatenating the filtered lists |
| PyStr.NonEmptySource | src/markdown_blocks.py:3 | every kept piece is a piece of the input |
| PyStr.NonEmptyOne | src/markdown_blocks.py:3 | one piece is kept exactly when it is not `""` |
| PyStr.StripAll | src/markdown_blocks.py:3 | no ensures of its own: `list(map(lambda x: x.strip(), parts))`; see StripAllAt |
| PyStr.StripAllSnoc | src/markdown_blocks.py:3 | mapping over a list with a last element appends that element's strip |
| PyStr.StripAllKeepsAll | src/markdown_blocks.py:3 | mapping over pieces that are already stripped changes nothing |
| PyStr.StripAllAt | src/markdown_blocks.py:3 | the map keeps the length and strips each piece in place |
| PyStr.FilterStripCommute | src/markdown_blocks.py:3 | when no piece is whitespace only (apart from `""`), filtering then stripping equals stripping then filtering |
| MarkdownBlocks.BlocksCount | src/markdown_blocks.py:1-4 | one block per non-empty piece, so at most `count("\n\n") + 1` blocks |
| MarkdownBlocks.Pieces | src/markdown_blocks.py:2 | no ensures of its own: `markdown.split("\n\n")`; see SplitAfterPiece, SplitJoinBlocks, KeptPiecesFree |
| MarkdownBlocks.MarkdownToBlocks | src/markdown_blocks.py:1-4 | no ensures of its own: split at `"\n\n"`, filter out `""`, strip each survivor; see BlocksCount, BlocksStripped, BlocksInOrder, BlocksRoundTrip |
| MarkdownBlocks.KeptPiecesFree | src/markdown_blocks.py:2-3 | no piece kept by the filter holds a blank line |
| MarkdownBlocks.BlocksStripped | src/markdown_blocks.py:1-4 | no block has whitespace at either end and none holds a blank line |
| MarkdownBlocks.BlocksInOrder | src/markdown_blocks.py:2-3 | blocks keep document order: non-empty piece `i` becomes block number "non-empty pieces before `i`", its own strip |
| MarkdownBlocks.LeadingBlankLine | src/markdown_blocks.py:1-4 | a blank line in front of the document adds no block |
| MarkdownBlocks.TrailingBlankLine | src/markdown_blocks.py:1-4 | a blank line after a document that is empty or does not end in a line break adds no block |
| MarkdownBlocks.SplitTrailingSep | src/markdown_blocks.py:2 | such a trailing blank line adds exactly one empty last piece |
| MarkdownBlocks.SingleBlock | src/markdown_blocks.py:1-4 | a non-empty document with no blank line is one block, its own strip |
| MarkdownBlocks.SplitAfterPiece | src/markdown_blocks.py:2 | after a piece with no blank line and no trailing line break, the split cuts exactly at the next blank line |
| MarkdownBlocks.SplitJoinBlocks | src/markdown_blocks.py:2 | splitting the blank-line join of non-empty stripped blocks without blank lines gives the blocks back |
| MarkdownBlocks.BlocksRoundTrip | src/markdown_blocks.py:1-4 | such blocks joined with blank lines come back unchanged, inner line breaks included |
| MarkdownBlocks.ExtraBlankLine | src/markdown_blocks.py:1-4 | two blank lines in a row separate blocks exactly as one does |
| MarkdownBlocks.DoubleBlankLinePieces | src/markdown_blocks.py:2 | two blank lines after a first piece add one empty piece between it and the rest |
| MarkdownBlocks.DropEmptyPiece | src/markdown_blocks.py:3 | that empty piece is dropped by the filter |
| MarkdownBlocks.ConsecutiveBlankLines | src/test_markdown_blocks.py:35-37 | `"para 1\n\n\n\npara 2"` gives `["para 1", "para 2"]` |
| MarkdownBlocks.SurroundedByBlankLines | src/markdown_blocks.py:1-4 | clean blocks joined by blank lines, with one more blank line before the first and after the last, still give exactly those blocks |
| MarkdownBlocks.LeadingAndTrailingBlankLines | src/test_markdown_blocks.py:39-51 | blank lines before the first and after the last paragraph add no block: `"\n\nFirst paragraph\n\nSecond paragraph\n\n"` gives `["First paragraph", "Second paragraph"]` |
| MarkdownBlocks.InlineNewlineStays | src/test_markdown_blocks.py:53-58 | `"line 1\nline 2\n\nlast block"` gives `["line 1\nline 2", "last block"]`: a single line break stays inside its block |
| MarkdownBlocks.BreakAfterFree | src/markdown_blocks.py:2 | one line break after text that holds no blank line and does not end in a line break adds no blank line |
| MarkdownBlocks.StripLeadingBreak | src/markdown_blocks.py:3 | `strip()` removes a line break in front of a clean block |
| MarkdownBlocks.StripTrailingBreak | src/markdown_blocks.py:3 | `strip()` removes a line break after a clean block |
| MarkdownBlocks.ThreePieces | src/markdown_blocks.py:2 | three pieces without a blank line, the first two not ending in a line break, joined by blank lines, split back into those three pieces |
| MarkdownBlocks.StripThreePieces | src/markdown_blocks.py:3 | the filter keeps three non-empty pieces and the strip removes the first one's leading and the last one's trailing line break |
| MarkdownBlocks.ThreeBlocks | src/markdown_blocks.py:1-4 | a triple-quoted document of a one-line block and two two-line blocks gives the three blocks in order, inner line breaks kept and the outer ones stripped |
| MarkdownBlocks.MarkdownToBlocksTest | src/test_markdown_blocks.py:11-29 | the test's document gives exactly its three expected blocks |
| MarkdownBlocks.SingleParagraphTest | src/test_markdown_blocks.py:31-33 | `"Just one paragraph."` gives `["Just one paragraph."]` |
| MarkdownBlocks.OneBreakFree | src/markdown_blocks.py:2 | two lines joined by one line break hold no blank line |
| MarkdownBlocks.NoBreakFree | src/markdown_blocks.py:2 | a string without a line break holds no blank line |
| MarkdownBlocks.SamplePieces | src/markdown_blocks.py:2 | `"a\n\n \n\nb"` splits into `["a", " ", "b"]` |
| MarkdownBlocks.WhitespacePieceGivesEmptyBlock | src/markdown_blocks.py:3 | as written, `"a\n\n \n\nb"` gives `["a", "", "b"]`: the whitespace-only piece survives the filter and becomes an empty block |
| MarkdownBlocks.SampleStripped | src/markdown_blocks.py:3 | stripping `["a", " ", "b"]` gives `["a", "", "b"]` |
| MarkdownBlocks.TrailingNewlinePieces | src/markdown_blocks.py:2 | `"a\n\n\n"` splits into `["a", "\n"]` |
| MarkdownBlocks.TrailingNewlineGivesEmptyBlock | src/markdown_blocks.py:3 | as written, `"a\n\n\n"` gives `["a", ""]`: the piece `"\n"` survives the filter and becomes an empty block |
| MarkdownBlocks.MarkdownToBlocksIntended | src/markdown_blocks.py:3 | no ensures of its own: the corrected order of the Findings row, strip every piece and then drop the empty ones; see IntendedBlocksShape, IntendedAgrees, IntendedDropsWhitespacePiece, IntendedDropsTrailingNewline |
| MarkdownBlocks.StrippedPiecesFree | src/markdown_blocks.py:2-3 | no stripped piece holds a blank line |
| MarkdownBlocks.IntendedBlocksShape | src/markdown_blocks.py:3 | with the strip before the filter, every block is non-empty, has no whitespace at either end and holds no blank line |
| MarkdownBlocks.IntendedAgrees | src/markdown_blocks.py:3 | both orders give the same blocks on every document with no whitespace-only piece |
| MarkdownBlocks.IntendedDropsWhitespacePiece | src/markdown_blocks.py:3 | with the strip before the filter, `"a\n\n \n\nb"` gives `["a", "b"]` |
| MarkdownBlocks.IntendedDropsTrailingNewline | src/markdown_blocks.py:3 | with the strip before the filter, `"a\n\n\n"` gives `["a"]` |
| MarkdownBlocks.SampleFiltered | src/markdown_blocks.py:3 | filtering `["a", "", "b"]` gives `["a", "b"]` |
| HtmlNodes.HtmlNode.constructor | src/htmlnode.py:2-12 | the four fields hold the given values, `None` for each one left out |
| HtmlNodes.HtmlNode.ToHtml | src/htmlnode.py:14-16 | every call fails with "to_html method not implemented", whatever the fields hold |
| HtmlNodes.HtmlError.Message | src/htmlnode.py:16 | no ensures of its own: the text "to_html method not implemented" of the `NotImplementedError`; see HtmlNode.ToHtml |
| HtmlNodes.HtmlNode.PropsToHtml | src/htmlnode.py:18-23 | the loop builds exactly the serialisation of the `props` field: `""` when absent, the attributes in insertion order otherwise |
| HtmlNodes.PropsHtmlEmpty | src/htmlnode.py:19-20 | the result is `""` if and only if there is no map or the map is empty |
| HtmlNodes.PropsHtml | src/htmlnode.py:18-23 | no ensures of its own: `""` without a map, otherwise the attributes of its pairs in order; see PropsHtmlEmpty, AttributeAt, AttrsHtmlLength |
| HtmlNodes.AttrsHtml | src/htmlnode.py:21-22 | no ensures of its own: the attributes one after the other; see AttrsHtmlAppend, AttributeAt |
| HtmlNodes.Attribute | src/htmlnode.py:22 | no ensures of its own: ` key="value"`; see AttributeParts |
| HtmlNodes.Width | src/htmlnode.py:22 | no ensures of its own: key, value and four characters per pair; see AttrsHtmlLength |
| HtmlNodes.AttributeParts | src/htmlnode.py:22 | one attribute is a space, the key verbatim, `="`, the value verbatim and `"`: four characters more than key and value |
| HtmlNodes.AttrsHtmlAppend | src/htmlnode.py:21-22 | serialising two lists one after the other is concatenating their serialisations |
| HtmlNodes.AttrsHtmlLength | src/htmlnode.py:22 | the output length is the sum over pairs of `len(key) + len(value) + 4` |
| HtmlNodes.AttributeAt | src/htmlnode.py:21-22 | pair `i` appears verbatim as ` key="value"` right after the serialisation of the pairs before it |
| HtmlNodes.AttrsHtmlOne | src/htmlnode.py:22 | a single pair is a single attribute |
| HtmlNodes.AttrsHtmlTwo | src/htmlnode.py:21-22 | two pairs are two attributes in their order |
| HtmlNodes.HrefTargetExample | src/test_htmlnode.py:35-38 | `href` and `target` serialise to ` href="https://example.com" target="_blank"` |
| HtmlNodes.ExampleAttributes | src/test_htmlnode.py:35-38 | the two pairs of that test serialise to ` href="https://example.com"` and ` target="_blank"` |
| GeneratePage.ExtractTitle | src/generate_page.py:5-12 | on success the result is the first title line without `# `, and it holds no line break; the call fails with "no title found" exactly when no line is a title line |
| GeneratePage.TitleError.Message | src/generate_page.py:12 | no ensures of its own: the exception text "no title found"; see ExtractTitle, RaisesWhenNoTitle |
| GeneratePage.Lines | src/generate_page.py:6 | no ensures of its own: `markdown.split("\n")`; see TitleHasNoBreak |
| GeneratePage.IsTitleLine | src/generate_page.py:9 | no ensures of its own: `line.startswith("# ")`; see TitleStartsWithHash, DeeperHeadingNotTitle |
| GeneratePage.FirstTitle | src/generate_page.py:8-10 | no ensures of its own: line `i` is a title line and no line before it is; see FirstTitleUnique, FirstTitleExists |
| GeneratePage.TitleHasNoBreak | src/generate_page.py:6-10 | a title taken from a line of the split holds no line break |
| GeneratePage.FirstTitleUnique | src/generate_page.py:8-10 | there is at most one first title line, so later title lines are never returned |
| GeneratePage.FirstTitleExists | src/generate_page.py:8-12 | some line is a title line if and only if a first title line exists |
| GeneratePage.DeeperHeadingNotTitle | src/generate_page.py:9 | a line starting with `##` is never a title line |
| GeneratePage.TitleStartsWithHash | src/generate_page.py:9 | a title line begins with `#` and then a space |
| GeneratePage.UntrimmedTitle | src/generate_page.py:10 | `"#  x"` has the title `" x"`: only `# ` is removed, nothing is trimmed |
| GeneratePage.LinesOf | src/generate_page.py:6 | lines without a line break, joined by line breaks, are split back into exactly those lines |
| GeneratePage.TitleResult | src/generate_page.py:8-12 | ExtractTitle's contract determines its result: when line `i` is the first title line, the result is `Ok` of that line without `# ` |
| GeneratePage.TitleAtStartDocument | src/test_generate_content.py:7-13 | the test's document splits into `["", "# My Title", "", "Some content", ""]`, and line 1 is the first title line |
| GeneratePage.FindsTitleAtStart | src/test_generate_content.py:7-13 | ExtractTitle on the test's document returns `"My Title"` |
| GeneratePage.TitleNotFirstLineDocument | src/test_generate_content.py:15-23 | the test's document (its seven lines joined by line breaks) splits back into those lines, and line 3 is the first title line |
| GeneratePage.FindsTitleNotFirstLine | src/test_generate_content.py:15-23 | ExtractTitle on the test's document returns `"Real Title"`: the text line before it does not stop the search |
| GeneratePage.FirstTitleOnlyDocument | src/test_generate_content.py:25-31 | the test's document splits into `["", "# First Title", "", "# Second Title", ""]`, and line 1 is the first title line |
| GeneratePage.ReturnsFirstTitleOnly | src/test_generate_content.py:25-31 | ExtractTitle on the test's document returns `"First Title"`, not the later title |
| GeneratePage.NoTitleDocument | src/test_generate_content.py:33-39 | the test's document splits into `["", "No headers here", ""]`, and none of these is a title line |
| GeneratePage.RaisesWhenNoTitle | src/test_generate_content.py:33-39 | ExtractTitle on the test's document fails, and the message is "no title found" |

## Left out

- `src/copy_files.py`: filesystem copying and deletion, which is I/O only.
- `generate_page` (src/generate_page.py:15-37): file reads and writes, directory creation and the template substitution inside that I/O. `markdown_to_html_node`, which it imports, is not part of this model.
- `src/main.py`: entry-point wiring.
- `HTMLNode.__repr__` (src/htmlnode.py:25-26): its output depends on Python's `repr` of lists and dicts.
- `block_to_block_type`, `markdown_to_html_node`, `BlockType`, `LeafNode`, `ParentNode`, `text_to_textnodes` and the image/link node splitters are not part of this model. They are outside the modelled core.
- The `textnode` module is not part of this model. `TextNode` is a datatype with a text, a kind and an optional url, with structural equality.
- General regular expressions. Only the two fixed patterns are modelled, by a scanner.
- Python `dict` is modelled as a sequence of pairs with distinct keys, in insertion order.
- `HtmlNodes.HtmlNode.constructor`: it requires distinct keys in `props`, which a Python `dict` guarantees by construction.
- `HtmlNodes.HtmlNode.ToHtml`: the `NotImplementedError` exception is modelled as an `Err` result.
- `GeneratePage.ExtractTitle`: the `Exception` is modelled as an `Err` result.
- `InlineMarkdown.SplitNodesDelimiter`: the `Exception` "closing delimeter missing" and the `ValueError` of `split("")` are modelled as `Err` results.
- Text is a sequence of Unicode scalar values: a lone surrogate, which a Python `str` can hold, is not representable. `strip()` removes exactly the characters for which `str.isspace` is true; there is no normalisation.

## Findings

| source | as written | input that shows it | evidently intended | confidence | as-written member | corrected member |
|---|---|---|---|---|---|---|
| src/markdown_blocks.py:3 | the pieces equal to `""` are dropped before each piece is stripped, so a piece made only of whitespace becomes an empty block | `"a\n\n \n\nb"` gives `["a", "", "b"]`; `"a\n\n\n"` gives `["a", ""]` | strip every piece first, then drop the empty ones, so that no block is empty, as the test name `test_consecutive_blank_lines_do_not_create_empty_block` (src/test_markdown_blocks.py:35) says; this gives `["a", "b"]` and `["a"]` | not executed | MarkdownBlocks.WhitespacePieceGivesEmptyBlock | MarkdownBlocks.IntendedBlocksShape |
