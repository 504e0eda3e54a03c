/**
  The cases of the repository's inline tests (src/test_inline_markdown.py),
  worked out on the model. Long test texts are written as the concatenation
  of their parts, one part per match; the value is the same string.
*/
module InlineMarkdownTests {
  import opened Wrappers
  import opened PyStr
  import opened TextNodes
  import opened InlineMarkdown

  /** The one image of the image test. */
  lemma ExtractImagesTest()
    ensures ExtractMarkdownImages("This is text with an " + ("![" + "image" + "](" + "https://i.imgur.com/image.png" + ")"))
            == [("image", "https://i.imgur.com/image.png")]
  {
    var pre := "This is text with an ";
    var g1 := "image";
    var g2 := "https://i.imgur.com/image.png";
    // Each character check is done position by position.
    assert forall i | 0 <= i < |pre| :: pre[i] != '!';
    assert forall i | 0 <= i < |g1| :: g1[i] != ']' && g1[i] != '\n';
    assert forall i | 0 <= i < |g2| :: g2[i] != ')' && g2[i] != '\n';
    assert MatchText(ImagePattern, g1, g2) == "![" + g1 + "](" + g2 + ")";
    GroupsOfOne(pre, ImagePattern, g1, g2);
  }

  /** The two links of the link test, in the order they are written. */
  lemma ExtractLinksTest()
    ensures ExtractMarkdownLinks("This is text with a link " + ("[" + "to site one" + "](" + "http://www.one.com" + ")")
                                 + " and " + ("[" + "to site two" + "](" + "http://www.two.com" + ")"))
            == [("to site one", "http://www.one.com"), ("to site two", "http://www.two.com")]
  {
    var pre := "This is text with a link ";
    var g1 := "to site one";
    var g2 := "http://www.one.com";
    var gap := " and ";
    var h1 := "to site two";
    var h2 := "http://www.two.com";
    assert forall i | 0 <= i < |pre| :: pre[i] != '[' && pre[i] != '!';
    assert forall i | 0 <= i < |gap| :: gap[i] != '[' && gap[i] != '!';
    assert forall i | 0 <= i < |g1| :: g1[i] != ']' && g1[i] != '\n';
    assert forall i | 0 <= i < |g2| :: g2[i] != ')' && g2[i] != '\n';
    assert forall i | 0 <= i < |h1| :: h1[i] != ']' && h1[i] != '\n';
    assert forall i | 0 <= i < |h2| :: h2[i] != ')' && h2[i] != '\n';
    assert MatchText(LinkPattern, g1, g2) == "[" + g1 + "](" + g2 + ")";
    assert MatchText(LinkPattern, h1, h2) == "[" + h1 + "](" + h2 + ")";
    GroupsOfTwo(pre, LinkPattern, g1, g2, gap, h1, h2);
  }

  // ---------------------------------------------------------------------------
  // split_nodes_delimiter on one TEXT node

  /** A list of one node splits as that node does. */
  lemma SplitNodesOne(node: TextNode, d: string, textType: TextType)
    ensures SplitNodes([node], d, textType) == SplitNode(node, d, textType)
  {
    assert [node][..0] == [];
    match SplitNode(node, d, textType)
    case Err(_) =>
    case Ok(b) => assert [] + b == b;
  }

  /**
    A TEXT node whose text is `d.join(parts)`, no part holding `d`'s first
    character: an odd number of parts gives their fragments, an even
    number has no closing delimiter.
  */
  lemma SplitJoined(parts: seq<string>, d: string, textType: TextType)
    requires d != [] && parts != []
    requires forall k :: 0 <= k < |parts| ==> d[0] !in parts[k]
    ensures |parts| % 2 == 1 ==> SplitNodes([TextNode(Join(parts, d), Text, None)], d, textType) == Ok(Fragments(parts, textType))
    ensures |parts| % 2 == 0 ==> SplitNodes([TextNode(Join(parts, d), Text, None)], d, textType) == Err(ClosingDelimiterMissing)
  {
    JoinSplit(parts, d);
    SplitCounted(Join(parts, d), parts, d, textType);
  }

  /** The same for any text, given its split and its count. */
  lemma SplitCounted(s: string, parts: seq<string>, d: string, textType: TextType)
    requires d != [] && Split(s, d) == parts && Count(s, d) + 1 == |parts|
    ensures |parts| % 2 == 1 ==> SplitNodes([TextNode(s, Text, None)], d, textType) == Ok(Fragments(parts, textType))
    ensures |parts| % 2 == 0 ==> SplitNodes([TextNode(s, Text, None)], d, textType) == Err(ClosingDelimiterMissing)
  {
    SplitNodesOne(TextNode(s, Text, None), d, textType);
  }

  /** `a d b d c`, no part holding `d`'s first character, gives the fragments `a`, `b`, `c`. */
  lemma SplitThree(a: string, b: string, c: string, d: string, textType: TextType)
    requires d != [] && d[0] !in a && d[0] !in b && d[0] !in c
    ensures SplitNodes([TextNode(a + d + b + d + c, Text, None)], d, textType)
            == Ok(Piece(a, 0, textType) + Piece(b, 1, textType) + Piece(c, 2, textType))
  {
    JoinThree(a, b, c, d);
    SplitJoined([a, b, c], d, textType);
    FragmentsOfThree(a, b, c, textType);
  }

  /** `a d b d c d e d f`, likewise, gives five fragments. */
  lemma SplitFive(a: string, b: string, c: string, e: string, f: string, d: string, textType: TextType)
    requires d != [] && d[0] !in a && d[0] !in b && d[0] !in c && d[0] !in e && d[0] !in f
    ensures SplitNodes([TextNode(a + d + b + d + c + d + e + d + f, Text, None)], d, textType)
            == Ok(Piece(a, 0, textType) + Piece(b, 1, textType) + Piece(c, 2, textType) + Piece(e, 3, textType) + Piece(f, 4, textType))
  {
    JoinFive(a, b, c, e, f, d);
    SplitJoined([a, b, c, e, f], d, textType);
    FragmentsOfFive(a, b, c, e, f, textType);
  }

  /** The nodes of three fragments, one fragment at a time. */
  lemma FragmentsOfThree(a: string, b: string, c: string, textType: TextType)
    ensures Fragments([a, b, c], textType) == Piece(a, 0, textType) + Piece(b, 1, textType) + Piece(c, 2, textType)
  {
    assert [a, b, c][..2] == [a, b] && [a, b][..1] == [a] && [a][..0] == [];
    assert Fragments([a], textType) == Piece(a, 0, textType);
  }

  /** The nodes of five fragments. */
  lemma FragmentsOfFive(a: string, b: string, c: string, e: string, f: string, textType: TextType)
    ensures Fragments([a, b, c, e, f], textType)
            == Piece(a, 0, textType) + Piece(b, 1, textType) + Piece(c, 2, textType) + Piece(e, 3, textType) + Piece(f, 4, textType)
  {
    FragmentsOfThree(a, b, c, textType);
    assert [a, b, c, e, f][..4] == [a, b, c, e] && [a, b, c, e][..3] == [a, b, c];
  }

  /** The code test: one code span inside plain text. */
  lemma CodeBasicTest()
    ensures SplitNodes([TextNode("This is text with a " + "`" + "code block" + "`" + " word", Text, None)], "`", Code)
            == Ok([TextNode("This is text with a ", Text, None), TextNode("code block", Code, None), TextNode(" word", Text, None)])
  {
    var a, b, c := "This is text with a ", "code block", " word";
    assert forall i | 0 <= i < |a| :: a[i] != '`';
    assert forall i | 0 <= i < |b| :: b[i] != '`';
    assert forall i | 0 <= i < |c| :: c[i] != '`';
    SplitThree(a, b, c, "`", Code);
    var x, y, z := TextNode(a, Text, None), TextNode(b, Code, None), TextNode(c, Text, None);
    assert [x] + [y] + [z] == [x, y, z];
  }

  /** The bold test: a two-character delimiter. */
  lemma BoldBasicTest()
    ensures SplitNodes([TextNode("before " + "**" + "bold" + "**" + " after", Text, None)], "**", Bold)
            == Ok([TextNode("before ", Text, None), TextNode("bold", Bold, None), TextNode(" after", Text, None)])
  {
    assert forall i | 0 <= i < |" after"| :: " after"[i] != '*';
    SplitThree("before ", "bold", " after", "**", Bold);
    var x, y, z := TextNode("before ", Text, None), TextNode("bold", Bold, None), TextNode(" after", Text, None);
    assert [x] + [y] + [z] == [x, y, z];
  }

  /** The test with two bold pairs: the fragments alternate between plain and bold. */
  lemma BoldMultiplePairsTest()
    ensures SplitNodes([TextNode("a " + "**" + "x" + "**" + " b " + "**" + "y" + "**" + " c", Text, None)], "**", Bold)
            == Ok([TextNode("a ", Text, None), TextNode("x", Bold, None), TextNode(" b ", Text, None),
                   TextNode("y", Bold, None), TextNode(" c", Text, None)])
  {
    SplitFive("a ", "x", " b ", "y", " c", "**", Bold);
    var x, y, z := TextNode("a ", Text, None), TextNode("x", Bold, None), TextNode(" b ", Text, None);
    var u, v := TextNode("y", Bold, None), TextNode(" c", Text, None);
    assert [x] + [y] + [z] + [u] + [v] == [x, y, z, u, v];
  }

  /** The test with italics at both ends: the empty first and last fragments add no node. */
  lemma ItalicAtStringEdgesTest()
    ensures SplitNodes([TextNode("" + "_" + "start" + "_" + " and " + "_" + "end" + "_" + "", Text, None)], "_", Italic)
            == Ok([TextNode("start", Italic, None), TextNode(" and ", Text, None), TextNode("end", Italic, None)])
  {
    assert forall i | 0 <= i < |"start"| :: "start"[i] != '_';
    assert forall i | 0 <= i < |" and "| :: " and "[i] != '_';
    SplitFive("", "start", " and ", "end", "", "_", Italic);
    var x, y, z := TextNode("start", Italic, None), TextNode(" and ", Text, None), TextNode("end", Italic, None);
    assert [] + [x] + [y] + [z] + [] == [x, y, z];
  }

  /** The test without a delimiter: the node comes back as it was. */
  lemma NoDelimiterTest()
    ensures SplitNodes([TextNode("plain text", Text, None)], "`", Code) == Ok([TextNode("plain text", Text, None)])
  {
    var s := "plain text";
    assert forall i | 0 <= i < |s| :: s[i] != '`';
    FreeOfHead(s, "`");
    SplitPlainText(s, None, "`", Code);
    SplitNodesOne(TextNode(s, Text, None), "`", Code);
  }

  /** The test with one backtick: the error and its message. */
  lemma OddDelimiterTest()
    ensures SplitNodes([TextNode("broken " + "`" + "code", Text, None)], "`", Code) == Err(ClosingDelimiterMissing)
    ensures ClosingDelimiterMissing.Message() == "closing delimeter missing"
  {
    var parts := ["broken ", "code"];
    assert forall i | 0 <= i < |parts[0]| :: parts[0][i] != '`';
    assert forall i | 0 <= i < |parts[1]| :: parts[1][i] != '`';
    assert Join(parts, "`") == parts[0] + "`" + parts[1] by {
      assert parts[..1] == [parts[0]];
    }
    SplitJoined(parts, "`", Code);
  }

  /** The test with a link node: it is passed through unchanged. */
  lemma NonTextPassThroughTest()
    ensures SplitNodes([TextNode("Example", Link, Some("https://example.com"))], "`", Code)
            == Ok([TextNode("Example", Link, Some("https://example.com"))])
  {
    SplitNodesOne(TextNode("Example", Link, Some("https://example.com")), "`", Code);
  }
}
