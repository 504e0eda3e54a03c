/**
  `extract_title` (src/generate_page.py): the page title is the rest of the
  first line that starts with `# `.
*/
module GeneratePage {
  import opened Wrappers
  import opened PyStr

  /** The failure raised when no line is a title line. */
  datatype TitleError = NoTitleFound {
    function Message(): string {
      "no title found"
    }
  }

  /** The lines `markdown.split("\n")`. */
  function Lines(markdown: string): seq<string> {
    Split(markdown, "\n")
  }

  /** A level-one heading line: it starts with `#` and a space. */
  predicate IsTitleLine(line: string) {
    StartsWith(line, "# ")
  }

  /** Line `i` is a title line and no line before it is. */
  predicate FirstTitle(lines: seq<string>, i: int) {
    0 <= i < |lines| && IsTitleLine(lines[i]) && forall k :: 0 <= k < i ==> !IsTitleLine(lines[k])
  }

  /**
    `extract_title(markdown)`: scans the lines top to bottom and returns the
    first title line without its `# ` (the rest is not trimmed); when no line
    is a title line it fails with "no title found".
  */
  method ExtractTitle(markdown: string) returns (r: Result<string, TitleError>)
    ensures r.Ok? ==> exists i :: FirstTitle(Lines(markdown), i) && r.value == Lines(markdown)[i][2..]
    ensures r.Err? ==> r.error == NoTitleFound && forall k :: 0 <= k < |Lines(markdown)| ==> !IsTitleLine(Lines(markdown)[k])
    ensures r.Ok? ==> '\n' !in r.value
  {
    var lines := Lines(markdown);
    var i := 0;
    while i < |lines|
      invariant 0 <= i <= |lines|
      invariant forall k :: 0 <= k < i ==> !IsTitleLine(lines[k])
    {
      var line := lines[i];
      if StartsWith(line, "# ") {
        assert FirstTitle(lines, i);
        TitleHasNoBreak(markdown, i);
        return Ok(line[2..]);
      }
      i := i + 1;
    }
    return Err(NoTitleFound);
  }

  /** A line left by the split holds no line break, so neither does a title. */
  lemma TitleHasNoBreak(markdown: string, i: nat)
    requires i < |Lines(markdown)| && IsTitleLine(Lines(markdown)[i])
    ensures '\n' !in Lines(markdown)[i][2..]
  {
    var line := Lines(markdown)[i];
    SplitFree(markdown, "\n");
    FreeChar(line, '\n');
    assert forall c :: c in line[2..] ==> c in line;
  }

  /** At most one line is the first title line, so the result is determined. */
  lemma FirstTitleUnique(lines: seq<string>, i: int, j: int)
    requires FirstTitle(lines, i) && FirstTitle(lines, j)
    ensures i == j
  {
  }

  /** Some line is a title line exactly when there is a first one. */
  lemma {:induction false} FirstTitleExists(lines: seq<string>)
    ensures (exists k :: 0 <= k < |lines| && IsTitleLine(lines[k])) <==> (exists i :: FirstTitle(lines, i))
    decreases |lines|
  {
    if lines != [] && !IsTitleLine(lines[0]) {
      var rest := lines[1..];
      FirstTitleExists(rest);
      if exists k :: 0 <= k < |lines| && IsTitleLine(lines[k]) {
        var k :| 0 <= k < |lines| && IsTitleLine(lines[k]);
        assert IsTitleLine(rest[k - 1]);
        var i :| FirstTitle(rest, i);
        assert FirstTitle(lines, i + 1) by {
          assert lines[i + 1] == rest[i];
          forall m | 0 <= m < i + 1 ensures !IsTitleLine(lines[m]) {
            if m > 0 {
              assert lines[m] == rest[m - 1];
            }
          }
        }
      }
    } else if lines != [] {
      assert FirstTitle(lines, 0);
    }
  }

  /** A `##` line (a level-two heading or deeper) is never a title: its second character is not a space. */
  lemma DeeperHeadingNotTitle(line: string)
    requires StartsWith(line, "##")
    ensures !IsTitleLine(line)
  {
    assert line[1] == '#';
  }

  /** A title line begins with `#` and then a space. */
  lemma TitleStartsWithHash(line: string)
    requires IsTitleLine(line)
    ensures |line| >= 2 && line[0] == '#' && line[1] == ' '
  {
    assert line[..2] == "# ";
  }

  /** A one-line document `#  x` has the title ` x`: only `# ` is removed, nothing is trimmed. */
  lemma UntrimmedTitle()
    ensures FirstTitle(Lines("#  x"), 0) && Lines("#  x")[0][2..] == " x"
  {
    var doc := "#  x";
    assert Free(doc, "\n") by {
      forall i | 0 <= i <= |doc| ensures !IsAt(doc, "\n", i) {
        if i < |doc| {
          assert doc[i..i + 1][0] == doc[i];
        }
      }
    }
    SplitSingle(doc, "\n");
    assert doc[..2] == "# ";
  }

  // ---------------------------------------------------------------------------
  // the repository's tests (src/test_generate_content.py)

  /** Lines holding no line break, joined by line breaks, split back into those lines. */
  lemma LinesOf(lines: seq<string>)
    requires lines != [] && forall k :: 0 <= k < |lines| ==> '\n' !in lines[k]
    ensures Lines(Join(lines, "\n")) == lines
  {
    forall k | 0 <= k < |lines| ensures "\n"[0] !in lines[k] {
    }
    JoinSplit(lines, "\n");
  }

  /**
    What `ExtractTitle` promises pins its result down: when line `i` is the
    first title line, the result is that line without its `# `.
  */
  lemma TitleResult(lines: seq<string>, i: int, r: Result<string, TitleError>)
    requires FirstTitle(lines, i)
    requires r.Ok? ==> exists j :: FirstTitle(lines, j) && r.value == lines[j][2..]
    requires r.Err? ==> forall k :: 0 <= k < |lines| ==> !IsTitleLine(lines[k])
    ensures r == Ok(lines[i][2..])
  {
    if r.Ok? {
      var j :| FirstTitle(lines, j) && r.value == lines[j][2..];
      FirstTitleUnique(lines, i, j);
    }
  }

  /** The document of `test_finds_title_at_start`: its second line is the first title line. */
  lemma TitleAtStartDocument()
    ensures Lines("\n# My Title\n\nSome content\n") == ["", "# My Title", "", "Some content", ""]
    ensures FirstTitle(["", "# My Title", "", "Some content", ""], 1)
  {
    assert FirstTitle(["", "# My Title", "", "Some content", ""], 1) by {
      assert "# My Title"[..2] == "# ";
    }
    assert "\n# My Title\n\nSome content\n" == "" + "\n" + "# My Title" + "\n" + "" + "\n" + "Some content" + "\n" + "";
    assert Lines("" + "\n" + "# My Title" + "\n" + "" + "\n" + "Some content" + "\n" + "") == ["", "# My Title", "", "Some content", ""] by {
      JoinFive("", "# My Title", "", "Some content", "", "\n");
      LinesOf(["", "# My Title", "", "Some content", ""]);
    }
  }

  /** `test_finds_title_at_start`: the title line follows an empty first line. */
  method FindsTitleAtStart() returns (r: Result<string, TitleError>)
    ensures r == Ok("My Title")
  {
    var md := "\n# My Title\n\nSome content\n";
    TitleAtStartDocument();
    r := ExtractTitle(md);
    TitleResult(Lines(md), 1, r);
  }

  /**
    The document of `test_finds_title_not_first_line`, written as its seven
    lines joined by line breaks: a text line comes before the title line.
  */
  lemma TitleNotFirstLineDocument()
    ensures Lines("" + "\n" + "Intro text" + "\n" + "" + "\n" + "# Real Title" + "\n" + "" + "\n" + "More text" + "\n" + "") == ["", "Intro text", "", "# Real Title", "", "More text", ""]
    ensures FirstTitle(["", "Intro text", "", "# Real Title", "", "More text", ""], 3)
  {
    assert FirstTitle(["", "Intro text", "", "# Real Title", "", "More text", ""], 3) by {
      assert "# Real Title"[..2] == "# ";
      assert "Intro text"[..2][0] == 'I';
    }
    assert Lines("" + "\n" + "Intro text" + "\n" + "" + "\n" + "# Real Title" + "\n" + "" + "\n" + "More text" + "\n" + "") == ["", "Intro text", "", "# Real Title", "", "More text", ""] by {
      JoinSeven("", "Intro text", "", "# Real Title", "", "More text", "", "\n");
      LinesOf(["", "Intro text", "", "# Real Title", "", "More text", ""]);
    }
  }

  /** `test_finds_title_not_first_line`: a line of plain text before the title does not stop the search. */
  method FindsTitleNotFirstLine() returns (r: Result<string, TitleError>)
    ensures r == Ok("Real Title")
  {
    var md := "" + "\n" + "Intro text" + "\n" + "" + "\n" + "# Real Title" + "\n" + "" + "\n" + "More text" + "\n" + "";
    TitleNotFirstLineDocument();
    r := ExtractTitle(md);
    TitleResult(Lines(md), 3, r);
  }

  /** The document of `test_returns_first_title_only`: two title lines, the first one on line 1. */
  lemma FirstTitleOnlyDocument()
    ensures Lines("\n# First Title\n\n# Second Title\n") == ["", "# First Title", "", "# Second Title", ""]
    ensures FirstTitle(["", "# First Title", "", "# Second Title", ""], 1)
  {
    assert FirstTitle(["", "# First Title", "", "# Second Title", ""], 1) by {
      assert "# First Title"[..2] == "# ";
    }
    assert "\n# First Title\n\n# Second Title\n" == "" + "\n" + "# First Title" + "\n" + "" + "\n" + "# Second Title" + "\n" + "";
    assert Lines("" + "\n" + "# First Title" + "\n" + "" + "\n" + "# Second Title" + "\n" + "") == ["", "# First Title", "", "# Second Title", ""] by {
      JoinFive("", "# First Title", "", "# Second Title", "", "\n");
      LinesOf(["", "# First Title", "", "# Second Title", ""]);
    }
  }

  /** `test_returns_first_title_only`: a later title line is not returned. */
  method ReturnsFirstTitleOnly() returns (r: Result<string, TitleError>)
    ensures r == Ok("First Title")
  {
    var md := "\n# First Title\n\n# Second Title\n";
    FirstTitleOnlyDocument();
    r := ExtractTitle(md);
    TitleResult(Lines(md), 1, r);
  }

  /** The document of `test_raises_when_no_title`: none of its lines is a title line. */
  lemma NoTitleDocument()
    ensures Lines("\nNo headers here\n") == ["", "No headers here", ""]
    ensures forall k :: 0 <= k < 3 ==> !IsTitleLine(["", "No headers here", ""][k])
  {
    assert forall k :: 0 <= k < 3 ==> !IsTitleLine(["", "No headers here", ""][k]) by {
      assert "No headers here"[..2][0] == 'N';
    }
    assert "\nNo headers here\n" == "" + "\n" + "No headers here" + "\n" + "";
    assert Lines("" + "\n" + "No headers here" + "\n" + "") == ["", "No headers here", ""] by {
      JoinThree("", "No headers here", "", "\n");
      LinesOf(["", "No headers here", ""]);
    }
  }

  /** `test_raises_when_no_title`: the call fails with "no title found". */
  method RaisesWhenNoTitle() returns (r: Result<string, TitleError>)
    ensures r.Err? && r.error.Message() == "no title found"
  {
    var md := "\nNo headers here\n";
    NoTitleDocument();
    r := ExtractTitle(md);
  }
}
