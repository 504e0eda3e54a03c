/**
  `markdown_to_blocks` (src/markdown_blocks.py): a Markdown document is cut
  at every blank line (`"\n\n"`), the empty pieces are dropped and what is
  left is stripped of surrounding whitespace.
*/
module MarkdownBlocks {
  import opened Wrappers
  import opened PyStr

  /** The block separator: a blank line. */
  const BlankLine: string := "\n\n"

  /** The pieces `markdown.split("\n\n")`. */
  function Pieces(markdown: string): seq<string> {
    Split(markdown, BlankLine)
  }

  /**
    `markdown_to_blocks(markdown)` as written: the filter that drops `""`
    runs BEFORE the strip, so a piece made only of whitespace survives the
    filter and becomes an empty block.
  */
  function MarkdownToBlocks(markdown: string): seq<string> {
    StripAll(NonEmpty(Pieces(markdown)))
  }

  // ---------------------------------------------------------------------------
  // what every block is

  /** At most one block per blank-line separated piece: one per non-empty piece. */
  lemma BlocksCount(markdown: string)
    ensures |MarkdownToBlocks(markdown)| == |NonEmpty(Pieces(markdown))|
    ensures |MarkdownToBlocks(markdown)| <= Count(markdown, BlankLine) + 1
  {
    SplitCount(markdown, BlankLine);
    NonEmptyFrom(Pieces(markdown));
    StripAllAt(NonEmpty(Pieces(markdown)));
  }

  /** The non-empty pieces the filter keeps hold no blank line. */
  lemma KeptPiecesFree(markdown: string)
    ensures forall j :: 0 <= j < |NonEmpty(Pieces(markdown))| ==> Free(NonEmpty(Pieces(markdown))[j], BlankLine)
  {
    var pieces := Pieces(markdown);
    var kept := NonEmpty(pieces);
    NonEmptyFrom(pieces);
    SplitFree(markdown, BlankLine);
    forall j | 0 <= j < |kept| ensures Free(kept[j], BlankLine) {
      var k := NonEmptySource(pieces, j);
    }
  }

  /** Every block has no whitespace at either end and holds no blank line. */
  lemma BlocksStripped(markdown: string)
    ensures var blocks := MarkdownToBlocks(markdown);
            forall j :: 0 <= j < |blocks| ==> Stripped(blocks[j]) && Free(blocks[j], BlankLine)
  {
    var kept := NonEmpty(Pieces(markdown));
    KeptPiecesFree(markdown);
    forall j | 0 <= j < |kept| ensures Free(Strip(kept[j]), BlankLine) {
      assert Free(kept[j], BlankLine);
      StripFree(kept[j], BlankLine);
    }
    StripAllAt(kept);
  }

  /**
    Blocks keep document order: the non-empty piece `i` becomes the block
    whose index is the number of non-empty pieces before it.
  */
  lemma BlocksInOrder(markdown: string, i: nat)
    requires i < |Pieces(markdown)| && Pieces(markdown)[i] != []
    ensures var n := |NonEmpty(Pieces(markdown)[..i])|;
            n < |MarkdownToBlocks(markdown)| && MarkdownToBlocks(markdown)[n] == Strip(Pieces(markdown)[i])
  {
    var pieces := Pieces(markdown);
    NonEmptyAt(pieces, i);
    StripAllAt(NonEmpty(pieces));
  }

  /** Blank lines in front of the document add no block. */
  lemma LeadingBlankLine(markdown: string)
    ensures MarkdownToBlocks(BlankLine + markdown) == MarkdownToBlocks(markdown)
  {
    var empty: seq<string> := [[]];
    var rest := Pieces(markdown);
    SplitLeadingSep(markdown, BlankLine);
    var pieces := empty + rest;
    assert Pieces(BlankLine + markdown) == pieces;
    NonEmptyPrefix(pieces, 1);
    assert pieces[..1] == empty;
    assert pieces[1..] == rest;
    assert empty[..0] == [];
    assert NonEmpty(empty) == [];
    assert NonEmpty(pieces) == NonEmpty(rest);
  }

  /**
    A blank line appended to a document that is empty or does not end in a
    line break adds no block. (A document that already ends in a line break
    is another matter: see `TrailingNewlineGivesEmptyBlock`.)
  */
  lemma TrailingBlankLine(markdown: string)
    requires markdown == [] || markdown[|markdown| - 1] != '\n'
    ensures MarkdownToBlocks(markdown + BlankLine) == MarkdownToBlocks(markdown)
  {
    var empty: seq<string> := [[]];
    var pieces := Pieces(markdown);
    assert Pieces(markdown + BlankLine) == pieces + empty by {
      SplitTrailingSep(markdown);
    }
    NonEmptyAppend(pieces, empty);
    assert empty[..0] == [];
    assert NonEmpty(empty) == [];
    assert NonEmpty(pieces) + [] == NonEmpty(pieces);
  }

  /** A non-empty document with no blank line is one block, its own strip. */
  lemma SingleBlock(markdown: string)
    requires markdown != [] && Free(markdown, BlankLine)
    ensures MarkdownToBlocks(markdown) == [Strip(markdown)]
  {
    SplitSingle(markdown, BlankLine);
    var one := [markdown];
    assert one[..0] == [];
    assert Pieces(markdown) == one;
    assert NonEmpty(one) == one;
    assert StripAll(one) == [Strip(markdown)];
  }

  // ---------------------------------------------------------------------------
  // the round trip

  /**
    A piece with no blank line and no line break at its end, followed by a
    blank line: the split cuts exactly there.
  */
  lemma SplitAfterPiece(a: string, rest: string)
    requires Free(a, BlankLine) && (a == [] || a[|a| - 1] != '\n')
    ensures Split(a + BlankLine + rest, BlankLine) == [a] + Split(rest, BlankLine)
  {
    var s := a + BlankLine + rest;
    assert s[|a|..|a| + 2] == BlankLine;
    assert IsAt(s, BlankLine, |a|);
    forall j | 0 <= j < |a| ensures !IsAt(s, BlankLine, j) {
      if j + 2 <= |a| {
        assert s[j..j + 2] == a[j..j + 2];
        assert !IsAt(a, BlankLine, j);
      } else {
        assert s[j] == a[|a| - 1];
      }
    }
    var f := FindFrom(s, BlankLine, 0);
    assert f == Some(|a|);
    assert s[..|a|] == a;
    assert s[|a| + 2..] == rest;
  }

  /**
    A blank line appended to a document that does not end in a line break
    adds one empty piece at the end.
  */
  lemma {:induction false} SplitTrailingSep(s: string)
    requires s == [] || s[|s| - 1] != '\n'
    ensures Pieces(s + BlankLine) == Pieces(s) + [[]]
    decreases |s|
  {
    match FindFrom(s, BlankLine, 0)
    case None =>
      assert Free(s, BlankLine);
      SplitSingle(s, BlankLine);
      assert s + BlankLine + [] == s + BlankLine;
      SplitAfterPiece(s, []);
      assert Pieces([]) == [[]];
    case Some(i) =>
      var rest := s[i + 2..];
      assert rest == [] || rest[|rest| - 1] == s[|s| - 1];
      SplitTrailingSep(rest);
      FindFromExtend(s, BlankLine, BlankLine, 0);
      var t := s + BlankLine;
      assert t[..i] == s[..i];
      assert t[i + 2..] == rest + BlankLine;
      assert Pieces(t) == [s[..i]] + Pieces(rest + BlankLine);
  }

  /** Splitting the blank-line join of such blocks gives the blocks back. */
  lemma {:induction false} SplitJoinBlocks(blocks: seq<string>)
    requires blocks != []
    requires forall j :: 0 <= j < |blocks| ==> blocks[j] != [] && Stripped(blocks[j]) && Free(blocks[j], BlankLine)
    ensures Split(Join(blocks, BlankLine), BlankLine) == blocks
    decreases |blocks|
  {
    var b := blocks[0];
    if |blocks| == 1 {
      SplitSingle(b, BlankLine);
    } else {
      var rest := blocks[1..];
      assert blocks == [b] + rest;
      JoinCons(b, rest, BlankLine);
      assert IsSpace('\n');
      SplitAfterPiece(b, Join(rest, BlankLine));
      assert forall j :: 0 <= j < |rest| ==> rest[j] == blocks[j + 1];
      SplitJoinBlocks(rest);
    }
  }

  /**
    Round trip: non-empty blocks with no whitespace at their ends and no blank
    line inside, joined with blank lines, come back unchanged (a block keeps
    its inner line breaks).
  */
  lemma BlocksRoundTrip(blocks: seq<string>)
    requires blocks != []
    requires forall j :: 0 <= j < |blocks| ==> blocks[j] != [] && Stripped(blocks[j]) && Free(blocks[j], BlankLine)
    ensures MarkdownToBlocks(Join(blocks, BlankLine)) == blocks
  {
    var markdown := Join(blocks, BlankLine);
    assert Pieces(markdown) == blocks by {
      SplitJoinBlocks(blocks);
    }
    assert NonEmpty(blocks) == blocks by {
      NonEmptyKeepsAll(blocks);
    }
    assert StripAll(blocks) == blocks by {
      StripAllKeepsAll(blocks);
    }
  }

  /** A string without a line break holds no blank line. */
  lemma NoBreakFree(s: string)
    requires '\n' !in s
    ensures Free(s, BlankLine)
  {
    forall i | 0 <= i <= |s| ensures !IsAt(s, BlankLine, i) {
      if i + 2 <= |s| {
        assert s[i..i + 2][0] == s[i];
      }
    }
  }

  // ---------------------------------------------------------------------------
  // examples from the repository's tests

  /**
    A blank line right after a separator adds no block: after a piece that
    holds no blank line and does not end in a line break, two blank lines in
    a row separate blocks exactly as one does.
  */
  lemma ExtraBlankLine(a: string, rest: string)
    requires Free(a, BlankLine) && (a == [] || a[|a| - 1] != '\n')
    ensures MarkdownToBlocks(a + BlankLine + BlankLine + rest) == MarkdownToBlocks(a + BlankLine + rest)
  {
    var tail := Pieces(rest);
    assert Pieces(a + BlankLine + BlankLine + rest) == [a] + ([[]] + tail) by {
      DoubleBlankLinePieces(a, rest);
    }
    assert Pieces(a + BlankLine + rest) == [a] + tail by {
      SplitAfterPiece(a, rest);
    }
    DropEmptyPiece(a, tail);
  }

  /** The pieces around a doubled blank line: an empty piece sits between the two. */
  lemma DoubleBlankLinePieces(a: string, rest: string)
    requires Free(a, BlankLine) && (a == [] || a[|a| - 1] != '\n')
    ensures Pieces(a + BlankLine + BlankLine + rest) == [a] + ([[]] + Pieces(rest))
  {
    assert a + BlankLine + BlankLine + rest == a + BlankLine + (BlankLine + rest);
    SplitAfterPiece(a, BlankLine + rest);
    SplitLeadingSep(rest, BlankLine);
  }

  /** The filter drops an empty piece wherever it sits. */
  lemma DropEmptyPiece(a: string, tail: seq<string>)
    ensures NonEmpty([a] + ([[]] + tail)) == NonEmpty([a] + tail)
  {
    var empty: seq<string> := [[]];
    NonEmptyAppend([a], empty + tail);
    NonEmptyAppend(empty, tail);
    NonEmptyAppend([a], tail);
    assert empty[..0] == [];
    assert NonEmpty(empty) == [];
  }

  /** Two blank lines in a row still give two blocks. */
  lemma ConsecutiveBlankLines()
    ensures MarkdownToBlocks("para 1\n\n\n\npara 2") == ["para 1", "para 2"]
  {
    var blocks := ["para 1", "para 2"];
    NoBreakFree("para 1");
    NoBreakFree("para 2");
    assert forall j :: 0 <= j < |blocks| ==> blocks[j] != [] && Stripped(blocks[j]) && Free(blocks[j], BlankLine) by {
      assert Stripped("para 1") && Stripped("para 2");
    }
    assert "para 1\n\n\n\npara 2" == "para 1" + BlankLine + BlankLine + "para 2";
    ExtraBlankLine("para 1", "para 2");
    assert Join(blocks, BlankLine) == "para 1" + BlankLine + "para 2" by {
      assert blocks[..1] == ["para 1"];
    }
    BlocksRoundTrip(blocks);
  }

  /**
    Blank lines before the first and after the last block add no block: clean
    blocks joined by blank lines, with one more blank line at each end, come
    back unchanged.
  */
  lemma SurroundedByBlankLines(blocks: seq<string>)
    requires blocks != []
    requires forall j :: 0 <= j < |blocks| ==> blocks[j] != [] && Stripped(blocks[j]) && Free(blocks[j], BlankLine)
    ensures MarkdownToBlocks(BlankLine + (Join(blocks, BlankLine) + BlankLine)) == blocks
  {
    var body := Join(blocks, BlankLine);
    assert MarkdownToBlocks(body) == blocks by {
      BlocksRoundTrip(blocks);
    }
    assert MarkdownToBlocks(body + BlankLine) == MarkdownToBlocks(body) by {
      var last := blocks[|blocks| - 1];
      assert body[|body| - 1] == last[|last| - 1] by {
        assert |blocks| == 1 || body == Join(blocks[..|blocks| - 1], BlankLine) + BlankLine + last;
      }
      assert !IsSpace(last[|last| - 1]);
      TrailingBlankLine(body);
    }
    LeadingBlankLine(body + BlankLine);
  }

  /** The test's document with blank lines before and after its two paragraphs. */
  lemma LeadingAndTrailingBlankLines()
    ensures MarkdownToBlocks("\n\n" + "First paragraph" + "\n\n" + "Second paragraph" + "\n\n") == ["First paragraph", "Second paragraph"]
  {
    var blocks := ["First paragraph", "Second paragraph"];
    var body := "First paragraph" + BlankLine + "Second paragraph";
    NoBreakFree("First paragraph");
    NoBreakFree("Second paragraph");
    assert forall j :: 0 <= j < |blocks| ==> blocks[j] != [] && Stripped(blocks[j]) && Free(blocks[j], BlankLine) by {
      assert Stripped("First paragraph") && Stripped("Second paragraph");
    }
    assert Join(blocks, BlankLine) == body by {
      assert blocks[..1] == ["First paragraph"];
    }
    SurroundedByBlankLines(blocks);
    assert BlankLine + (body + BlankLine) == "\n\n" + "First paragraph" + "\n\n" + "Second paragraph" + "\n\n";
  }

  /** A single line break inside a paragraph stays inside its block. */
  lemma InlineNewlineStays()
    ensures MarkdownToBlocks("line 1\nline 2\n\nlast block") == ["line 1\nline 2", "last block"]
  {
    var blocks := ["line 1\nline 2", "last block"];
    assert "line 1\nline 2\n\nlast block" == "line 1\nline 2" + BlankLine + "last block";
    assert Join(blocks, BlankLine) == "line 1\nline 2" + BlankLine + "last block" by {
      assert blocks[..1] == ["line 1\nline 2"];
    }
    assert MarkdownToBlocks(Join(blocks, BlankLine)) == blocks by {
      assert Free("line 1\nline 2", BlankLine) by {
        OneBreakFree("line 1", "line 2");
        assert "line 1" + "\n" + "line 2" == "line 1\nline 2";
      }
      NoBreakFree("last block");
      assert forall j :: 0 <= j < |blocks| ==> blocks[j] != [] && Stripped(blocks[j]) && Free(blocks[j], BlankLine) by {
        assert Stripped("line 1\nline 2") && Stripped("last block");
      }
      BlocksRoundTrip(blocks);
    }
  }


  /** Two lines joined by one line break hold no blank line. */
  lemma OneBreakFree(x: string, y: string)
    requires '\n' !in x && '\n' !in y
    ensures Free(x + "\n" + y, BlankLine)
  {
    var s := x + "\n" + y;
    forall i | 0 <= i <= |s| ensures !IsAt(s, BlankLine, i) {
      if i + 2 <= |s| {
        assert s[i..i + 2][0] == s[i] && s[i..i + 2][1] == s[i + 1];
        if i < |x| {
          assert s[i] == x[i];
        } else if i > |x| {
          assert s[i] == y[i - |x| - 1];
        } else {
          assert s[i + 1] == y[0];
        }
      }
    }
  }

  /** A line break after text that holds no blank line and does not end in one adds no blank line. */
  lemma BreakAfterFree(x: string)
    requires Free(x, BlankLine) && x != [] && x[|x| - 1] != '\n'
    ensures Free(x + "\n", BlankLine)
  {
    var s := x + "\n";
    forall i | 0 <= i <= |s| ensures !IsAt(s, BlankLine, i) {
      if i + 2 <= |s| {
        assert s[i..i + 2][0] == s[i];
        if i + 2 <= |x| {
          assert s[i..i + 2] == x[i..i + 2];
          assert !IsAt(x, BlankLine, i);
        } else {
          assert s[i] == x[|x| - 1];
        }
      }
    }
  }

  /** A leading line break is stripped off a block. */
  lemma StripLeadingBreak(a: string)
    requires a != [] && Stripped(a)
    ensures Strip("\n" + a) == a
  {
    assert ("\n" + a)[1..] == a;
    assert TrimStart("\n" + a) == TrimStart(a) == a;
  }

  /** A trailing line break is stripped off a block. */
  lemma StripTrailingBreak(a: string)
    requires a != [] && Stripped(a)
    ensures Strip(a + "\n") == a
  {
    assert TrimStart(a + "\n") == a + "\n";
    assert (a + "\n")[..|a|] == a;
    assert TrimEnd(a + "\n") == TrimEnd(a) == a;
  }

  /** Three pieces without a blank line, joined by blank lines, are split back apart. */
  lemma ThreePieces(p1: string, p2: string, p3: string)
    requires Free(p1, BlankLine) && p1 != [] && p1[|p1| - 1] != '\n'
    requires Free(p2, BlankLine) && p2 != [] && p2[|p2| - 1] != '\n'
    requires Free(p3, BlankLine)
    ensures Pieces(p1 + BlankLine + (p2 + BlankLine + p3)) == [p1, p2, p3]
  {
    assert Pieces(p2 + BlankLine + p3) == [p2, p3] by {
      SplitAfterPiece(p2, p3);
      SplitSingle(p3, BlankLine);
    }
    SplitAfterPiece(p1, p2 + BlankLine + p3);
  }

  /**
    Three non-empty pieces, the first with a leading and the last with a
    trailing line break, strip to the clean blocks inside them.
  */
  lemma StripThreePieces(a: string, b: string, c: string)
    requires a != [] && b != [] && c != [] && Stripped(a) && Stripped(b) && Stripped(c)
    ensures StripAll(NonEmpty(["\n" + a, b, c + "\n"])) == [a, b, c]
  {
    var pieces := ["\n" + a, b, c + "\n"];
    NonEmptyKeepsAll(pieces);
    StripAllAt(pieces);
    StripLeadingBreak(a);
    StripNoop(b);
    StripTrailingBreak(c);
  }

  /**
    A document of three blocks (one line, two lines, two lines), opening and
    closing with a line break, as a triple-quoted Python string does: the
    blocks come out in order, their inner line breaks kept and the outer
    ones stripped.
  */
  lemma ThreeBlocks(a: string, b1: string, b2: string, c1: string, c2: string)
    requires CleanLine(a) && CleanLine(b1) && CleanLine(b2) && CleanLine(c1) && CleanLine(c2)
    ensures MarkdownToBlocks("\n" + a + "\n\n" + b1 + "\n" + b2 + "\n\n" + c1 + "\n" + c2 + "\n")
            == [a, b1 + "\n" + b2, c1 + "\n" + c2]
  {
    var p1 := "\n" + a;
    var p2 := b1 + "\n" + b2;
    var c := c1 + "\n" + c2;
    var p3 := c + "\n";
    assert "\n" + a + "\n\n" + b1 + "\n" + b2 + "\n\n" + c1 + "\n" + c2 + "\n" == p1 + BlankLine + (p2 + BlankLine + p3);
    assert Pieces(p1 + BlankLine + (p2 + BlankLine + p3)) == [p1, p2, p3] by {
      assert Free(p1, BlankLine) by {
        OneBreakFree("", a);
        assert "" + "\n" + a == p1;
      }
      assert Free(p2, BlankLine) by {
        OneBreakFree(b1, b2);
      }
      assert Free(p3, BlankLine) by {
        OneBreakFree(c1, c2);
        BreakAfterFree(c);
      }
      ThreePieces(p1, p2, p3);
    }
    assert StripAll(NonEmpty([p1, p2, p3])) == [a, p2, c] by {
      assert Stripped(p2) && Stripped(c);
      StripThreePieces(a, p2, c);
    }
  }

  /** A line of a block: non-empty, no line break, no whitespace at its ends. */
  predicate CleanLine(line: string) {
    line != [] && '\n' !in line && Stripped(line)
  }

  /**
    `test_markdown_to_blocks`: the test's triple-quoted document written
    line by line (its longest line in two halves).
  */
  lemma MarkdownToBlocksTest()
    ensures MarkdownToBlocks("\n" + "This is **bolded** paragraph" + "\n\n"
                             + ("This is another paragraph " + "with _italic_ text and `code` here") + "\n"
                             + "This is the same paragraph on a new line" + "\n\n"
                             + "- This is a list" + "\n" + "- with items" + "\n")
            == ["This is **bolded** paragraph",
                ("This is another paragraph " + "with _italic_ text and `code` here") + "\n" + "This is the same paragraph on a new line",
                "- This is a list" + "\n" + "- with items"]
  {
    assert CleanLine("This is **bolded** paragraph");
    assert CleanLine("This is another paragraph " + "with _italic_ text and `code` here");
    assert CleanLine("This is the same paragraph on a new line");
    assert CleanLine("- This is a list") && CleanLine("- with items");
    ThreeBlocks("This is **bolded** paragraph",
                "This is another paragraph " + "with _italic_ text and `code` here",
                "This is the same paragraph on a new line",
                "- This is a list", "- with items");
  }

  /** `test_single_paragraph`: a one-line document is its own single block. */
  lemma SingleParagraphTest()
    ensures MarkdownToBlocks("Just one paragraph.") == ["Just one paragraph."]
  {
    var md := "Just one paragraph.";
    assert Free(md, BlankLine) by {
      NoBreakFree(md);
    }
    assert Strip(md) == md by {
      assert Stripped(md);
      StripNoop(md);
    }
    SingleBlock(md);
  }


  // ---------------------------------------------------------------------------
  // the whitespace-only piece

  /** The pieces of the sample document with a whitespace-only line between two blank lines. */
  lemma SamplePieces()
    ensures Pieces("a\n\n \n\nb") == ["a", " ", "b"]
  {
    NoBreakFree("a");
    NoBreakFree(" ");
    NoBreakFree("b");
    assert "a\n\n \n\nb" == "a" + BlankLine + (" " + BlankLine + "b");
    SplitAfterPiece("a", " " + BlankLine + "b");
    SplitAfterPiece(" ", "b");
    SplitSingle("b", BlankLine);
  }

  lemma SampleStripped()
    ensures StripAll(["a", " ", "b"]) == ["a", "", "b"]
  {
    StripAllAt(["a", " ", "b"]);
    StripNoop("a");
    StripNoop("b");
    StripEmpty(" ");
  }

  /**
    As written, a piece made only of whitespace (a line holding spaces
    between two blank lines) is not `""`, so the filter keeps it, and the
    strip then turns it into an empty block.
  */
  lemma WhitespacePieceGivesEmptyBlock()
    ensures MarkdownToBlocks("a\n\n \n\nb") == ["a", "", "b"]
  {
    var pieces := ["a", " ", "b"];
    SamplePieces();
    NonEmptyKeepsAll(pieces);
    SampleStripped();
  }

  /** The pieces of `"a\n\n\n"`: the line break after the blank line is a piece of its own. */
  lemma TrailingNewlinePieces()
    ensures Pieces("a\n\n\n") == ["a", "\n"]
  {
    NoBreakFree("a");
    assert "a\n\n\n" == "a" + BlankLine + "\n";
    SplitAfterPiece("a", "\n");
    assert Free("\n", BlankLine);
    SplitSingle("\n", BlankLine);
  }

  /**
    As written, a document ending in three line breaks gets an empty last
    block: the piece `"\n"` is not `""`, so the filter keeps it, and the
    strip turns it into `""`.
  */
  lemma TrailingNewlineGivesEmptyBlock()
    ensures MarkdownToBlocks("a\n\n\n") == ["a", ""]
  {
    TrailingNewlinePieces();
    NonEmptyKeepsAll(["a", "\n"]);
    StripAllAt(["a", "\n"]);
    StripNoop("a");
    StripEmpty("\n");
  }

  /**
    `markdown_to_blocks` as the test
    `test_consecutive_blank_lines_do_not_create_empty_block`
    (src/test_markdown_blocks.py:35-37) expects it: strip every piece first,
    then drop the empty ones, so no block is empty.
  */
  function MarkdownToBlocksIntended(markdown: string): seq<string> {
    NonEmpty(StripAll(Pieces(markdown)))
  }

  /** Every stripped piece holds no blank line. */
  lemma StrippedPiecesFree(markdown: string)
    ensures forall k :: 0 <= k < |StripAll(Pieces(markdown))| ==> Free(StripAll(Pieces(markdown))[k], BlankLine)
  {
    var pieces := Pieces(markdown);
    StripAllAt(pieces);
    SplitFree(markdown, BlankLine);
    forall k | 0 <= k < |pieces| ensures Free(Strip(pieces[k]), BlankLine) {
      StripFree(pieces[k], BlankLine);
    }
  }

  /** No block is empty, none has whitespace at an end, none holds a blank line. */
  lemma IntendedBlocksShape(markdown: string)
    ensures forall j :: 0 <= j < |MarkdownToBlocksIntended(markdown)| ==>
              MarkdownToBlocksIntended(markdown)[j] != []
              && Stripped(MarkdownToBlocksIntended(markdown)[j])
              && Free(MarkdownToBlocksIntended(markdown)[j], BlankLine)
  {
    var stripped := StripAll(Pieces(markdown));
    var blocks := NonEmpty(stripped);
    StrippedPiecesFree(markdown);
    StripAllAt(Pieces(markdown));
    NonEmptyFrom(stripped);
    forall j | 0 <= j < |blocks| ensures Stripped(blocks[j]) && Free(blocks[j], BlankLine) {
      var k := NonEmptySource(stripped, j);
    }
  }

  /**
    Both versions agree on every document with no piece made only of
    whitespace (in particular on every document of the repository's tests).
  */
  lemma IntendedAgrees(markdown: string)
    requires forall j :: 0 <= j < |Pieces(markdown)| ==> Pieces(markdown)[j] == [] || !AllSpace(Pieces(markdown)[j])
    ensures MarkdownToBlocksIntended(markdown) == MarkdownToBlocks(markdown)
  {
    FilterStripCommute(Pieces(markdown));
  }

  lemma SampleFiltered()
    ensures NonEmpty(["a", "", "b"]) == ["a", "b"]
  {
    var three: seq<string> := ["a", "", "b"];
    var two: seq<string> := ["a", ""];
    var one: seq<string> := ["a"];
    var none: seq<string> := [];
    assert three[..2] == two && two[..1] == one && one[..0] == none;
    assert NonEmpty(one) == one;
    assert NonEmpty(two) == one;
  }

  /** The corrected version drops the trailing line break. */
  lemma IntendedDropsTrailingNewline()
    ensures MarkdownToBlocksIntended("a\n\n\n") == ["a"]
  {
    TrailingNewlinePieces();
    StripAllAt(["a", "\n"]);
    StripNoop("a");
    StripEmpty("\n");
    var two: seq<string> := ["a", ""];
    assert StripAll(["a", "\n"]) == two;
    assert two[..1] == ["a"] && ["a"][..0] == [];
    assert NonEmpty(["a"]) == ["a"];
  }

  /** The corrected version drops the whitespace-only piece. */
  lemma IntendedDropsWhitespacePiece()
    ensures MarkdownToBlocksIntended("a\n\n \n\nb") == ["a", "b"]
  {
    SamplePieces();
    SampleStripped();
    SampleFiltered();
  }
}
