/**
  Inline Markdown: `split_nodes_delimiter`, which cuts the TEXT nodes of a
  node list at a delimiter such as `**`, `_` or a backtick, and the two
  `re.findall` extractors for `![alt](url)` images and `[text](url)` links.
*/
module InlineMarkdown {
  import opened Wrappers
  import opened PyStr
  import opened TextNodes

  /** The exceptions `split_nodes_delimiter` can raise. */
  datatype InlineError =
    | ClosingDelimiterMissing  // a TEXT node holds the delimiter an odd number of times
    | EmptySeparator           // Python's `str.split("")` raises `ValueError`
  {
    function Message(): string {
      match this
      case ClosingDelimiterMissing => "closing delimeter missing"
      case EmptySeparator => "empty separator"
    }
  }

  // ---------------------------------------------------------------------------
  // split_nodes_delimiter: the specification

  /** Fragment `i` of a split is plain text when `i` is even and of the target kind when odd. */
  function KindAt(i: nat, textType: TextType): TextType {
    if i % 2 == 0 then Text else textType
  }

  /** The node fragment `i` becomes; an empty fragment becomes nothing. */
  function Piece(part: string, i: nat, textType: TextType): seq<TextNode> {
    if part == [] then [] else [TextNode(part, KindAt(i, textType), None)]
  }

  /** The nodes emitted for the fragments `parts` of one TEXT node, in order. */
  function Fragments(parts: seq<string>, textType: TextType): seq<TextNode>
    decreases |parts|
  {
    if parts == [] then []
    else Fragments(parts[..|parts| - 1], textType) + Piece(parts[|parts| - 1], |parts| - 1, textType)
  }

  /** The nodes one input node contributes, or the exception it raises. */
  function SplitNode(node: TextNode, delimiter: string, textType: TextType): Result<seq<TextNode>, InlineError> {
    if node.textType != Text then Ok([node])
    else if PyCount(node.text, delimiter) % 2 != 0 then Err(ClosingDelimiterMissing)
    else if delimiter == [] then Err(EmptySeparator)
    else Ok(Fragments(Split(node.text, delimiter), textType))
  }

  /** Runs `front`, then `next`; the first exception wins and nothing is returned with it. */
  function Then(front: Result<seq<TextNode>, InlineError>, next: Result<seq<TextNode>, InlineError>)
    : Result<seq<TextNode>, InlineError>
  {
    match front
    case Err(e) => Err(e)
    case Ok(a) =>
      match next
      case Err(e) => Err(e)
      case Ok(b) => Ok(a + b)
  }

  /** The result of `split_nodes_delimiter(nodes, delimiter, textType)`. */
  function SplitNodes(nodes: seq<TextNode>, delimiter: string, textType: TextType): Result<seq<TextNode>, InlineError>
    decreases |nodes|
  {
    if nodes == [] then Ok([])
    else Then(SplitNodes(nodes[..|nodes| - 1], delimiter, textType), SplitNode(nodes[|nodes| - 1], delimiter, textType))
  }

  /** A node the call rejects: a TEXT node whose delimiter count is odd, or any TEXT node when the delimiter is empty. */
  predicate Rejects(node: TextNode, delimiter: string) {
    node.textType == Text && (delimiter == [] || Count(node.text, delimiter) % 2 != 0)
  }

  // ---------------------------------------------------------------------------
  // split_nodes_delimiter: the loop

  method SplitNodesDelimiter(oldNodes: seq<TextNode>, delimiter: string, textType: TextType)
    returns (r: Result<seq<TextNode>, InlineError>)
    ensures r == SplitNodes(oldNodes, delimiter, textType)
  {
    var newNodes: seq<TextNode> := [];
    for k := 0 to |oldNodes|
      invariant SplitNodes(oldNodes[..k], delimiter, textType) == Ok(newNodes)
    {
      var oldNode := oldNodes[k];
      SplitNodesSnoc(oldNodes, k, delimiter, textType);
      if oldNode.textType != Text {
        newNodes := newNodes + [oldNode];
        continue;
      }
      if PyCount(oldNode.text, delimiter) % 2 != 0 {
        SplitNodesStops(oldNodes, k + 1, delimiter, textType);
        return Err(ClosingDelimiterMissing);
      }
      if delimiter == [] {
        SplitNodesStops(oldNodes, k + 1, delimiter, textType);
        return Err(EmptySeparator);
      }
      var parts := Split(oldNode.text, delimiter);
      ghost var before := newNodes;
      for i := 0 to |parts|
        invariant newNodes == before + Fragments(parts[..i], textType)
      {
        FragmentsExtend(before, parts, i, textType);
        if parts[i] == [] {
          continue;
        }
        if i % 2 == 0 {
          newNodes := newNodes + [TextNode(parts[i], Text, None)];
        } else {
          newNodes := newNodes + [TextNode(parts[i], textType, None)];
        }
      }
      assert parts[..|parts|] == parts;
    }
    assert oldNodes[..|oldNodes|] == oldNodes;
    return Ok(newNodes);
  }

  lemma SplitNodesSnoc(nodes: seq<TextNode>, k: nat, delimiter: string, textType: TextType)
    requires k < |nodes|
    ensures SplitNodes(nodes[..k + 1], delimiter, textType)
         == Then(SplitNodes(nodes[..k], delimiter, textType), SplitNode(nodes[k], delimiter, textType))
  {
    assert nodes[..k + 1][..k] == nodes[..k];
  }

  /** One more fragment appends its node, if any, to what the fragments before it produced. */
  lemma FragmentsExtend(before: seq<TextNode>, parts: seq<string>, i: nat, textType: TextType)
    requires i < |parts|
    ensures before + Fragments(parts[..i + 1], textType)
         == before + Fragments(parts[..i], textType) + Piece(parts[i], i, textType)
  {
    FragmentsSnoc(parts, i, textType);
  }

  lemma FragmentsSnoc(parts: seq<string>, i: nat, textType: TextType)
    requires i < |parts|
    ensures Fragments(parts[..i + 1], textType) == Fragments(parts[..i], textType) + Piece(parts[i], i, textType)
  {
    assert parts[..i + 1][..i] == parts[..i];
  }

  // ---------------------------------------------------------------------------
  // split_nodes_delimiter: properties

  lemma ThenAssoc(x: Result<seq<TextNode>, InlineError>, y: Result<seq<TextNode>, InlineError>, z: Result<seq<TextNode>, InlineError>)
    ensures Then(Then(x, y), z) == Then(x, Then(y, z))
  {
    match x
    case Err(_) =>
    case Ok(a) =>
      match y
      case Err(_) =>
      case Ok(b) =>
        match z
        case Err(_) =>
        case Ok(c) => assert a + b + c == a + (b + c);
  }

  /** The output is the in-order concatenation of the results for the two halves of the input. */
  lemma {:induction false} SplitNodesAppend(a: seq<TextNode>, b: seq<TextNode>, delimiter: string, textType: TextType)
    ensures SplitNodes(a + b, delimiter, textType)
         == Then(SplitNodes(a, delimiter, textType), SplitNodes(b, delimiter, textType))
    decreases |b|
  {
    if b == [] {
      assert a + b == a;
      match SplitNodes(a, delimiter, textType)
      case Err(_) =>
      case Ok(x) => assert x + [] == x;
    } else {
      var front := b[..|b| - 1];
      var last := b[|b| - 1];
      assert (a + b)[..|a + b| - 1] == a + front;
      assert (a + b)[|a + b| - 1] == last;
      SplitNodesAppend(a, front, delimiter, textType);
      ThenAssoc(SplitNodes(a, delimiter, textType), SplitNodes(front, delimiter, textType), SplitNode(last, delimiter, textType));
    }
  }

  /** Once the nodes up to `k` raise, the whole call raises the same exception. */
  lemma SplitNodesStops(nodes: seq<TextNode>, k: nat, delimiter: string, textType: TextType)
    requires k <= |nodes| && SplitNodes(nodes[..k], delimiter, textType).Err?
    ensures SplitNodes(nodes, delimiter, textType) == SplitNodes(nodes[..k], delimiter, textType)
  {
    assert nodes == nodes[..k] + nodes[k..];
    SplitNodesAppend(nodes[..k], nodes[k..], delimiter, textType);
  }

  /** A non-TEXT node is copied to the output unchanged, between the outputs for the nodes around it. */
  lemma SplitNodesPassThrough(a: seq<TextNode>, node: TextNode, b: seq<TextNode>, delimiter: string, textType: TextType,
                              out: seq<TextNode>)
    requires node.textType != Text
    requires SplitNodes(a + [node] + b, delimiter, textType) == Ok(out)
    ensures exists x, y :: SplitNodes(a, delimiter, textType) == Ok(x) && SplitNodes(b, delimiter, textType) == Ok(y)
                        && out == x + [node] + y
  {
    var one := [node];
    SplitNodesAppend(a + one, b, delimiter, textType);
    SplitNodesAppend(a, one, delimiter, textType);
    var none: seq<TextNode> := [];
    assert one[..0] == none;
    assert SplitNodes(one[..0], delimiter, textType) == Ok(none);
    assert SplitNode(one[0], delimiter, textType) == Ok(one);
    assert none + one == one;
    assert SplitNodes(one, delimiter, textType) == Ok(one);
  }

  /**
    The call raises exactly when some node is rejected; with a non-empty
    delimiter the exception is always "closing delimeter missing".
  */
  lemma {:induction false} SplitNodesFails(nodes: seq<TextNode>, delimiter: string, textType: TextType)
    ensures SplitNodes(nodes, delimiter, textType).Err? <==> exists i :: 0 <= i < |nodes| && Rejects(nodes[i], delimiter)
    ensures delimiter != [] && SplitNodes(nodes, delimiter, textType).Err? ==>
              SplitNodes(nodes, delimiter, textType).error == ClosingDelimiterMissing
    decreases |nodes|
  {
    if nodes != [] {
      var n := |nodes|;
      var front := nodes[..n - 1];
      SplitNodesFails(front, delimiter, textType);
      if exists i :: 0 <= i < n - 1 && Rejects(front[i], delimiter) {
        var i :| 0 <= i < n - 1 && Rejects(front[i], delimiter);
        assert nodes[i] == front[i];
      }
      if exists i :: 0 <= i < n && Rejects(nodes[i], delimiter) {
        var i :| 0 <= i < n && Rejects(nodes[i], delimiter);
        if i < n - 1 {
          assert front[i] == nodes[i];
        }
      }
    }
  }

  lemma {:induction false} FragmentsPrefix(parts: seq<string>, k: nat, textType: TextType)
    requires k <= |parts|
    ensures Fragments(parts[..k], textType) <= Fragments(parts, textType)
    decreases |parts| - k
  {
    if k < |parts| {
      var n := |parts|;
      FragmentsPrefix(parts[..n - 1], k, textType);
      assert parts[..n - 1][..k] == parts[..k];
    } else {
      assert parts[..k] == parts;
    }
  }

  /** The emitted texts are exactly the non-empty fragments, in order. */
  lemma {:induction false} FragmentsTexts(parts: seq<string>, textType: TextType)
    ensures Texts(Fragments(parts, textType)) == NonEmpty(parts)
    decreases |parts|
  {
    if parts != [] {
      var n := |parts|;
      var last := parts[n - 1];
      var front := Fragments(parts[..n - 1], textType);
      assert Texts(front) == NonEmpty(parts[..n - 1]) by {
        FragmentsTexts(parts[..n - 1], textType);
      }
      assert Fragments(parts, textType) == front + Piece(last, n - 1, textType);
      if last != [] {
        assert NonEmpty(parts) == NonEmpty(parts[..n - 1]) + [last];
        TextsSnoc(front, TextNode(last, KindAt(n - 1, textType), None));
      } else {
        assert NonEmpty(parts) == NonEmpty(parts[..n - 1]) + [];
        assert front + [] == front;
      }
    }
  }

  lemma TextsSnoc(nodes: seq<TextNode>, node: TextNode)
    ensures Texts(nodes + [node]) == Texts(nodes) + [node.text]
  {
    assert (nodes + [node])[..|nodes|] == nodes;
  }

  lemma {:induction false} TextsLength(nodes: seq<TextNode>)
    ensures |Texts(nodes)| == |nodes|
    ensures forall j :: 0 <= j < |nodes| ==> Texts(nodes)[j] == nodes[j].text
    decreases |nodes|
  {
    if nodes != [] {
      var n := |nodes|;
      TextsLength(nodes[..n - 1]);
      forall j | 0 <= j < n ensures Texts(nodes)[j] == nodes[j].text {
        if j < n - 1 {
          assert nodes[..n - 1][j] == nodes[j];
        }
      }
    }
  }

  /**
    Alternation: a non-empty fragment `i` is emitted at the position given by
    the number of non-empty fragments before it, as plain text when `i` is
    even and with the target kind when `i` is odd, and without a url.
  */
  lemma FragmentAt(parts: seq<string>, i: nat, textType: TextType)
    requires i < |parts| && parts[i] != []
    ensures |NonEmpty(parts[..i])| < |Fragments(parts, textType)|
    ensures Fragments(parts, textType)[|NonEmpty(parts[..i])|] == TextNode(parts[i], KindAt(i, textType), None)
  {
    var upToI := parts[..i + 1];
    assert upToI[..i] == parts[..i];
    FragmentsPrefix(parts, i + 1, textType);
    FragmentsTexts(parts[..i], textType);
    TextsLength(Fragments(parts[..i], textType));
    assert Fragments(upToI, textType) == Fragments(parts[..i], textType) + [TextNode(parts[i], KindAt(i, textType), None)];
  }

  /** Every emitted node has non-empty text, no url, and is plain text or of the target kind. */
  lemma {:induction false} FragmentsShape(parts: seq<string>, textType: TextType)
    ensures |Fragments(parts, textType)| <= |parts|
    ensures forall j :: 0 <= j < |Fragments(parts, textType)| ==>
              var node := Fragments(parts, textType)[j];
              node.text != [] && node.url == None && (node.textType == Text || node.textType == textType)
    decreases |parts|
  {
    if parts != [] {
      FragmentsShape(parts[..|parts| - 1], textType);
    }
  }

  /**
    One TEXT node with an even delimiter count: the output texts are the
    non-empty pieces of `text.split(delimiter)` in order, at most
    `count + 1` of them, none empty, and together they spell the text with
    every delimiter removed.
  */
  lemma SplitTextNode(text: string, url: Option<string>, delimiter: string, textType: TextType)
    requires delimiter != [] && Count(text, delimiter) % 2 == 0
    ensures var parts := Split(text, delimiter);
            var out := Fragments(parts, textType);
            SplitNode(TextNode(text, Text, url), delimiter, textType) == Ok(out)
            && Texts(out) == NonEmpty(parts)
            && |out| <= Count(text, delimiter) + 1
            && (forall j :: 0 <= j < |out| ==> out[j].text != [] && out[j].url == None)
            && Join(Texts(out), []) == Join(parts, [])
  {
    var parts := Split(text, delimiter);
    FragmentsTexts(parts, textType);
    FragmentsShape(parts, textType);
    SplitCount(text, delimiter);
    NonEmptyConcat(parts);
  }

  /** A TEXT node with text `""` contributes nothing. */
  lemma SplitEmptyText(url: Option<string>, delimiter: string, textType: TextType)
    requires delimiter != []
    ensures SplitNode(TextNode([], Text, url), delimiter, textType) == Ok([])
  {
    var empty: seq<string> := [[]];
    assert FindFrom([], delimiter, 0) == None;
    assert Count([], delimiter) == 0;
    assert Split([], delimiter) == empty;
    assert empty[..0] == [];
    assert Fragments(empty, textType) == Fragments([], textType) + Piece([], 0, textType);
  }

  /** A non-empty TEXT node without the delimiter comes back as one TEXT node with the same text. */
  lemma SplitPlainText(text: string, url: Option<string>, delimiter: string, textType: TextType)
    requires delimiter != [] && text != [] && Free(text, delimiter)
    ensures SplitNode(TextNode(text, Text, url), delimiter, textType) == Ok([TextNode(text, Text, None)])
  {
    SplitSingle(text, delimiter);
    var one := [text];
    var none: seq<string> := [];
    assert Split(text, delimiter) == one;
    assert PyCount(text, delimiter) == 0;
    assert one[..0] == none;
    assert Piece(text, 0, textType) == [TextNode(text, Text, None)];
    assert Fragments(one, textType) == Fragments(none, textType) + Piece(text, 0, textType);
    assert Fragments(one, textType) == [TextNode(text, Text, None)];
    assert SplitNode(TextNode(text, Text, url), delimiter, textType) == Ok(Fragments(one, textType));
  }

  // ---------------------------------------------------------------------------
  // extract_markdown_images / extract_markdown_links

  /** The two fixed patterns: `\!\[(.*?)\]\((.*?)\)` and `(?<!!)\[(.*?)\]\((.*?)\)`. */
  datatype Pattern = ImagePattern | LinkPattern

  /**
    One match: it begins at `start`, group 1 runs from `open` to the `]` at
    `close`, group 2 from `close + 2` to the `)` at `end`.
  */
  datatype Span = Span(start: nat, open: nat, close: nat, end: nat)

  /** `s[from..to]` holds no line break (what `.` matches). */
  predicate NoNewline(s: string, from: nat, to: nat) {
    from <= to <= |s| && forall x :: from <= x < to ==> s[x] != '\n'
  }

  /** `](` at `close`, the `)` at `end`, and both groups free of line breaks. */
  predicate ValidBody(s: string, open: nat, close: nat, end: nat) {
    open <= close && close + 2 <= end < |s|
    && s[close] == ']' && s[close + 1] == '(' && s[end] == ')'
    && NoNewline(s, open, close) && NoNewline(s, close + 2, end)
  }

  /** The lazy groups are tried shortest group 1 first, then shortest group 2. */
  predicate Before(close1: nat, end1: nat, close2: nat, end2: nat) {
    close1 < close2 || (close1 == close2 && end1 <= end2)
  }

  /** Group 2 from `j`: the first `)`, unless a line break comes first. */
  function CloseParen(s: string, j: nat): (r: Option<nat>)
    decreases |s| - j
    ensures r.Some? ==> j <= r.value < |s| && s[r.value] == ')'
  {
    if j >= |s| || s[j] == '\n' then None
    else if s[j] == ')' then Some(j)
    else CloseParen(s, j + 1)
  }

  /**
    `CloseParen` finds the shortest group 2: no line break and no `)` comes
    before the one it reports, and it finds none only when no `)` can end it.
  */
  lemma {:induction false} CloseParenFirst(s: string, j: nat)
    ensures CloseParen(s, j).Some? ==> NoNewline(s, j, CloseParen(s, j).value)
    ensures CloseParen(s, j).Some? ==> forall x :: j <= x < CloseParen(s, j).value ==> s[x] != ')'
    ensures CloseParen(s, j).None? ==> forall e :: j <= e < |s| && s[e] == ')' ==> !NoNewline(s, j, e)
    decreases |s| - j
  {
    if j < |s| && s[j] != '\n' && s[j] != ')' {
      CloseParenFirst(s, j + 1);
    }
  }

  /**
    The rest of the pattern after the opening bracket, with group 1 already
    extended to `k`: the first `(close, end)` in backtracking order.
  */
  function BodyFrom(s: string, k: nat): (r: Option<(nat, nat)>)
    decreases |s| - k
    ensures r.Some? ==> k <= r.value.0 && r.value.0 + 2 <= r.value.1 < |s|
  {
    if k + 1 < |s| && s[k] == ']' && s[k + 1] == '(' && CloseParen(s, k + 2).Some? then
      Some((k, CloseParen(s, k + 2).value))
    else if k < |s| && s[k] != '\n' then
      BodyFrom(s, k + 1)
    else
      None
  }

  /**
    `BodyFrom` follows the lazy quantifiers: with group 1 starting at `open`,
    its answer is a way to finish the match, it comes first in backtracking
    order among all of them, and it has no answer only when there is no way.
  */
  lemma {:induction false} BodyFromLazy(s: string, open: nat, k: nat)
    requires open <= k && NoNewline(s, open, k)
    ensures BodyFrom(s, k).Some? ==> ValidBody(s, open, BodyFrom(s, k).value.0, BodyFrom(s, k).value.1)
    ensures BodyFrom(s, k).Some? ==>
              forall c, e :: k <= c && ValidBody(s, open, c, e) ==>
                Before(BodyFrom(s, k).value.0, BodyFrom(s, k).value.1, c, e)
    ensures BodyFrom(s, k).None? ==> forall c, e :: k <= c ==> !ValidBody(s, open, c, e)
    decreases |s| - k
  {
    CloseParenFirst(s, k + 2);
    if k + 1 < |s| && s[k] == ']' && s[k + 1] == '(' && CloseParen(s, k + 2).Some? {
    } else if k < |s| && s[k] != '\n' {
      BodyFromLazy(s, open, k + 1);
    }
  }

  /** Where group 1 starts when the pattern's opening matches at `p`. */
  function OpenAt(s: string, pattern: Pattern, p: nat): (r: Option<nat>)
    ensures r.Some? ==> p < r.value <= |s|
  {
    match pattern
    case ImagePattern =>
      if p + 1 < |s| && s[p] == '!' && s[p + 1] == '[' then Some(p + 2) else None
    case LinkPattern =>
      if p < |s| && s[p] == '[' && (p == 0 || s[p - 1] != '!') then Some(p + 1) else None
  }

  /** What the pattern matches when tried at `p` (Python's `re` at one position). */
  function MatchAt(s: string, pattern: Pattern, p: nat): (r: Option<Span>)
    ensures r.Some? ==> r.value.start == p && OpenAt(s, pattern, p) == Some(r.value.open)
                        && r.value.open <= r.value.close && r.value.close + 2 <= r.value.end < |s|
  {
    match OpenAt(s, pattern, p)
    case None => None
    case Some(open) =>
      match BodyFrom(s, open)
      case None => None
      case Some(body) => Some(Span(p, open, body.0, body.1))
  }

  /**
    `MatchAt` is the regular expression's own semantics at `p`: when the
    opening matches, the reported groups are the first in backtracking order
    among all ways to match the rest, and there is no match when no way exists.
  */
  lemma MatchAtIsLazyMatch(s: string, pattern: Pattern, p: nat)
    ensures MatchAt(s, pattern, p).Some? ==>
              ValidBody(s, MatchAt(s, pattern, p).value.open, MatchAt(s, pattern, p).value.close, MatchAt(s, pattern, p).value.end)
    ensures MatchAt(s, pattern, p).Some? ==>
              forall c, e :: ValidBody(s, MatchAt(s, pattern, p).value.open, c, e) ==>
                Before(MatchAt(s, pattern, p).value.close, MatchAt(s, pattern, p).value.end, c, e)
    ensures MatchAt(s, pattern, p).None? ==>
              OpenAt(s, pattern, p).None? || forall c, e :: !ValidBody(s, OpenAt(s, pattern, p).value, c, e)
  {
    if OpenAt(s, pattern, p).Some? {
      var open := OpenAt(s, pattern, p).value;
      BodyFromLazy(s, open, open);
    }
  }

  /** `re.findall` from `p`: try each position in turn, resume after each match. */
  function FindAll(s: string, pattern: Pattern, p: nat): (r: seq<Span>)
    decreases |s| - p
  {
    if p >= |s| then []
    else
      match MatchAt(s, pattern, p)
      case None => FindAll(s, pattern, p + 1)
      case Some(sp) => [sp] + FindAll(s, pattern, sp.end + 1)
  }

  /** Each span is what the pattern matches at its own start. */
  predicate AllMatch(s: string, pattern: Pattern, spans: seq<Span>)
    decreases |spans|
  {
    spans == [] || (MatchAt(s, pattern, spans[0].start) == Some(spans[0]) && AllMatch(s, pattern, spans[1..]))
  }

  lemma {:induction false} FindAllMatches(s: string, pattern: Pattern, p: nat)
    ensures AllMatch(s, pattern, FindAll(s, pattern, p))
    decreases |s| - p
  {
    if p < |s| {
      if MatchAt(s, pattern, p).None? {
        FindAllMatches(s, pattern, p + 1);
        assert FindAll(s, pattern, p) == FindAll(s, pattern, p + 1);
      } else {
        var sp := MatchAt(s, pattern, p).value;
        var rest := FindAll(s, pattern, sp.end + 1);
        FindAllMatches(s, pattern, sp.end + 1);
        assert FindAll(s, pattern, p) == [sp] + rest;
        assert ([sp] + rest)[1..] == rest;
      }
    }
  }

  lemma {:induction false} AllMatchValid(s: string, pattern: Pattern, spans: seq<Span>)
    requires AllMatch(s, pattern, spans)
    ensures forall j :: 0 <= j < |spans| ==>
              MatchAt(s, pattern, spans[j].start) == Some(spans[j]) && ValidBody(s, spans[j].open, spans[j].close, spans[j].end)
    decreases |spans|
  {
    if spans != [] {
      AllMatchValid(s, pattern, spans[1..]);
      MatchAtIsLazyMatch(s, pattern, spans[0].start);
      forall j | 0 < j < |spans|
        ensures MatchAt(s, pattern, spans[j].start) == Some(spans[j]) && ValidBody(s, spans[j].open, spans[j].close, spans[j].end)
      {
        assert spans[j] == spans[1..][j - 1];
      }
    }
  }

  /** Every reported span is what the pattern matches at its own start. */
  lemma FindAllSound(s: string, pattern: Pattern, p: nat)
    ensures forall j :: 0 <= j < |FindAll(s, pattern, p)| ==>
              var sp := FindAll(s, pattern, p)[j];
              MatchAt(s, pattern, sp.start) == Some(sp) && ValidBody(s, sp.open, sp.close, sp.end)
  {
    FindAllMatches(s, pattern, p);
    AllMatchValid(s, pattern, FindAll(s, pattern, p));
  }

  /** Every span starts at or after `p` and ends after it starts. */
  predicate StartsFrom(spans: seq<Span>, p: nat) {
    forall j :: 0 <= j < |spans| ==> p <= spans[j].start < spans[j].end
  }

  /** Each span ends before the next one starts. */
  predicate Ordered(spans: seq<Span>) {
    forall j, k :: 0 <= j < k < |spans| ==> spans[j].end < spans[k].start
  }

  lemma ConsStartsFrom(sp: Span, rest: seq<Span>, p: nat)
    requires p <= sp.start < sp.end && StartsFrom(rest, sp.end + 1)
    ensures StartsFrom([sp] + rest, p) && (Ordered(rest) ==> Ordered([sp] + rest))
  {
    var r := [sp] + rest;
    forall j | 0 <= j < |r| ensures p <= r[j].start < r[j].end {
      if j > 0 {
        assert r[j] == rest[j - 1];
      }
    }
    if Ordered(rest) {
      forall j, k | 0 <= j < k < |r| ensures r[j].end < r[k].start {
        if j > 0 {
          assert r[j] == rest[j - 1];
        }
        assert r[k] == rest[k - 1];
      }
    }
  }

  /** The spans come left to right, from `p` on, each one after the end of the one before. */
  predicate Chain(spans: seq<Span>, p: nat)
    decreases |spans|
  {
    spans == [] || (p <= spans[0].start < spans[0].end && Chain(spans[1..], spans[0].end + 1))
  }

  /** A chain starts from its origin and never overlaps. */
  lemma {:induction false} ChainOrdered(spans: seq<Span>, p: nat)
    requires Chain(spans, p)
    ensures StartsFrom(spans, p) && Ordered(spans)
    decreases |spans|
  {
    if spans != [] {
      ChainOrdered(spans[1..], spans[0].end + 1);
      assert spans == [spans[0]] + spans[1..];
      ConsStartsFrom(spans[0], spans[1..], p);
    }
  }

  /** The matches reported from `p` on form a chain from `p`. */
  lemma {:induction false} FindAllChain(s: string, pattern: Pattern, p: nat)
    ensures Chain(FindAll(s, pattern, p), p)
    decreases |s| - p
  {
    if p < |s| {
      if MatchAt(s, pattern, p).None? {
        FindAllChain(s, pattern, p + 1);
        assert FindAll(s, pattern, p) == FindAll(s, pattern, p + 1);
      } else {
        var sp := MatchAt(s, pattern, p).value;
        var rest := FindAll(s, pattern, sp.end + 1);
        FindAllChain(s, pattern, sp.end + 1);
        assert FindAll(s, pattern, p) == [sp] + rest;
        assert ([sp] + rest)[1..] == rest;
      }
    }
  }

  /**
    The matches reported from `p` on come left to right, at or after `p`,
    and never overlap.
  */
  lemma FindAllOrdered(s: string, pattern: Pattern, p: nat)
    ensures StartsFrom(FindAll(s, pattern, p), p)
    ensures Ordered(FindAll(s, pattern, p))
  {
    FindAllChain(s, pattern, p);
    ChainOrdered(FindAll(s, pattern, p), p);
  }

  /** The two captured groups of one match. */
  function Capture(s: string, sp: Span): (string, string)
    requires ValidBody(s, sp.open, sp.close, sp.end)
  {
    (s[sp.open..sp.close], s[sp.close + 2..sp.end])
  }

  /** The captured groups of each match, in order. */
  function Captures(s: string, spans: seq<Span>): seq<(string, string)>
    requires forall j :: 0 <= j < |spans| ==> ValidBody(s, spans[j].open, spans[j].close, spans[j].end)
  {
    seq(|spans|, j requires 0 <= j < |spans| => Capture(s, spans[j]))
  }

  /** `re.findall(pattern, text)`: the two groups of every match, left to right. */
  function FindAllGroups(text: string, pattern: Pattern): seq<(string, string)> {
    FindAllSound(text, pattern, 0);
    Captures(text, FindAll(text, pattern, 0))
  }

  /** `extract_markdown_images(text)`: the `(alt, url)` pairs, left to right. */
  function ExtractMarkdownImages(text: string): seq<(string, string)> {
    FindAllGroups(text, ImagePattern)
  }

  /** `extract_markdown_links(text)`: the `(anchor, url)` pairs, left to right. */
  function ExtractMarkdownLinks(text: string): seq<(string, string)> {
    FindAllGroups(text, LinkPattern)
  }

  /** Position `q` is the start of one of `spans` or lies inside it. */
  predicate Covered(spans: seq<Span>, q: nat) {
    exists j :: 0 <= j < |spans| && spans[j].start <= q <= spans[j].end
  }

  /** `Covered`, one span at a time. */
  predicate CoveredBy(spans: seq<Span>, q: nat)
    decreases |spans|
  {
    spans != [] && (spans[0].start <= q <= spans[0].end || CoveredBy(spans[1..], q))
  }

  lemma {:induction false} CoveredByCovered(spans: seq<Span>, q: nat)
    requires CoveredBy(spans, q)
    ensures Covered(spans, q)
    decreases |spans|
  {
    if !(spans[0].start <= q <= spans[0].end) {
      CoveredByCovered(spans[1..], q);
      var j :| 0 <= j < |spans[1..]| && spans[1..][j].start <= q <= spans[1..][j].end;
      assert spans[j + 1] == spans[1..][j];
    }
  }

  lemma {:induction false} FindAllCovers(s: string, pattern: Pattern, p: nat, q: nat)
    requires p <= q < |s| && MatchAt(s, pattern, q).Some?
    ensures CoveredBy(FindAll(s, pattern, p), q)
    decreases |s| - p
  {
    if MatchAt(s, pattern, p).None? {
      FindAllCovers(s, pattern, p + 1, q);
      assert FindAll(s, pattern, p) == FindAll(s, pattern, p + 1);
    } else {
      var sp := MatchAt(s, pattern, p).value;
      var rest := FindAll(s, pattern, sp.end + 1);
      assert FindAll(s, pattern, p) == [sp] + rest;
      if sp.end < q {
        FindAllCovers(s, pattern, sp.end + 1, q);
        assert ([sp] + rest)[1..] == rest;
      }
    }
  }

  /**
    Nothing is skipped: every position from `p` on where the pattern matches
    is the start of a reported match or lies inside one (matches never overlap).
  */
  lemma FindAllComplete(s: string, pattern: Pattern, p: nat, q: nat)
    requires p <= q < |s| && MatchAt(s, pattern, q).Some?
    ensures Covered(FindAll(s, pattern, p), q)
  {
    FindAllCovers(s, pattern, p, q);
    CoveredByCovered(FindAll(s, pattern, p), q);
  }

  /**
    The `j`th pair is the two groups of the `j`th match, and neither group
    holds a line break, nor the url a `)`.
  */
  lemma ExtractedPairs(text: string, pattern: Pattern)
    ensures var spans := FindAll(text, pattern, 0);
            var pairs := FindAllGroups(text, pattern);
            |pairs| == |spans|
            && forall j :: 0 <= j < |pairs| ==>
                 ValidBody(text, spans[j].open, spans[j].close, spans[j].end) && pairs[j] == Capture(text, spans[j])
                 && '\n' !in pairs[j].0 && '\n' !in pairs[j].1 && ')' !in pairs[j].1
  {
    var spans := FindAll(text, pattern, 0);
    FindAllSound(text, pattern, 0);
    var pairs := FindAllGroups(text, pattern);
    forall j | 0 <= j < |pairs|
      ensures '\n' !in pairs[j].0 && '\n' !in pairs[j].1 && ')' !in pairs[j].1
    {
      var sp := spans[j];
      assert MatchAt(text, pattern, sp.start) == Some(sp);
      MatchAtIsLazyMatch(text, pattern, sp.start);
      assert ValidBody(text, sp.open, sp.close, sp.end);
      assert pairs[j] == Capture(text, sp);
      forall x | 0 <= x < |pairs[j].1| ensures pairs[j].1[x] != ')' && pairs[j].1[x] != '\n' {
        var e := sp.close + 2 + x;
        assert pairs[j].1[x] == text[e];
        // a `)` before `end` would have closed group 2 earlier
        assert !Before(sp.close, sp.end, sp.close, e);
        assert !ValidBody(text, sp.open, sp.close, e);
        assert NoNewline(text, sp.close + 2, e);
      }
      forall x | 0 <= x < |pairs[j].0| ensures pairs[j].0[x] != '\n' {
        assert pairs[j].0[x] == text[sp.open + x];
      }
    }
  }

  /** `extract_markdown_images` only reports text of the form `![alt](url)`. */
  lemma ImagesAreImages(text: string)
    ensures var spans := FindAll(text, ImagePattern, 0);
            forall j :: 0 <= j < |spans| ==>
              spans[j].start + 1 < |text| && text[spans[j].start] == '!' && text[spans[j].start + 1] == '['
              && spans[j].open == spans[j].start + 2
  {
    FindAllSound(text, ImagePattern, 0);
  }

  /** `extract_markdown_links` never reports a `[` immediately preceded by `!`. */
  lemma LinksAreNotImages(text: string)
    ensures var spans := FindAll(text, LinkPattern, 0);
            forall j :: 0 <= j < |spans| ==>
              spans[j].start < |text| && text[spans[j].start] == '[' && spans[j].open == spans[j].start + 1
              && (spans[j].start == 0 || text[spans[j].start - 1] != '!')
  {
    FindAllSound(text, LinkPattern, 0);
  }

  // ---------------------------------------------------------------------------
  // reading off the matches of a concrete text

  /** The character a match of the pattern must start with. */
  function OpenChar(pattern: Pattern): char {
    match pattern
    case ImagePattern => '!'
    case LinkPattern => '['
  }

  /** The literal opening of the pattern. */
  function Opener(pattern: Pattern): string {
    match pattern
    case ImagePattern => "!["
    case LinkPattern => "["
  }

  /** The text a match with groups `g1` and `g2` spans. */
  function MatchText(pattern: Pattern, g1: string, g2: string): string {
    Opener(pattern) + g1 + "](" + g2 + ")"
  }

  /** `re.findall` moves on past positions where the pattern's first character is missing. */
  lemma {:induction false} FindAllSkip(s: string, pattern: Pattern, p: nat, q: nat)
    requires p <= q <= |s|
    requires forall x :: p <= x < q ==> s[x] != OpenChar(pattern)
    ensures FindAll(s, pattern, p) == FindAll(s, pattern, q)
    decreases q - p
  {
    if p < q {
      assert OpenAt(s, pattern, p).None?;
      FindAllSkip(s, pattern, p + 1, q);
    }
  }

  /** A stretch `gap` of the text without the pattern's first character holds no match. */
  lemma FindAllGap(s: string, pattern: Pattern, p: nat, gap: string)
    requires p + |gap| <= |s| && s[p..p + |gap|] == gap && OpenChar(pattern) !in gap
    ensures FindAll(s, pattern, p) == FindAll(s, pattern, p + |gap|)
  {
    forall x | p <= x < p + |gap| ensures s[x] != OpenChar(pattern) {
      assert s[x] == gap[x - p];
    }
    FindAllSkip(s, pattern, p, p + |gap|);
  }

  /** Group 2 from `j` ends at the `)` at `e` when nothing before it stops the scan. */
  lemma {:induction false} CloseParenScan(s: string, j: nat, e: nat)
    requires j <= e < |s| && s[e] == ')'
    requires forall x :: j <= x < e ==> s[x] != ')' && s[x] != '\n'
    ensures CloseParen(s, j) == Some(e)
    decreases e - j
  {
    if j < e {
      CloseParenScan(s, j + 1, e);
    }
  }

  /** Group 1 from `k` stops at the first `]`, when `(` and a group 2 follow it. */
  lemma {:induction false} BodyFromScan(s: string, k: nat, c: nat, e: nat)
    requires k <= c && c + 1 < |s| && s[c] == ']' && s[c + 1] == '(' && CloseParen(s, c + 2) == Some(e)
    requires forall x :: k <= x < c ==> s[x] != ']' && s[x] != '\n'
    ensures BodyFrom(s, k) == Some((c, e))
    decreases c - k
  {
    if k < c {
      BodyFromScan(s, k + 1, c, e);
    }
  }

  /** The parts of `MatchText`: the opening, `g1`, `](`, `g2` and `)`. */
  lemma MatchTextParts(pattern: Pattern, g1: string, g2: string)
    ensures var m := MatchText(pattern, g1, g2);
            var n := |Opener(pattern)|;
            |m| == n + |g1| + 3 + |g2| && m[0] == OpenChar(pattern)
            && (pattern == ImagePattern ==> n == 2 && m[1] == '[')
            && (pattern == LinkPattern ==> n == 1)
            && m[n..n + |g1|] == g1
            && m[n + |g1|] == ']' && m[n + |g1| + 1] == '('
            && m[n + |g1| + 2..n + |g1| + 2 + |g2|] == g2
            && m[|m| - 1] == ')'
  {
  }

  /** The span of a match of `MatchText(pattern, g1, g2)` starting at `p`. */
  function MatchSpan(pattern: Pattern, p: nat, g1: string, g2: string): Span {
    var o := p + |Opener(pattern)|;
    Span(p, o, o + |g1|, o + |g1| + 2 + |g2|)
  }

  /** Where the text holds `MatchText` at `p`, its parts sit at their offsets. */
  lemma MatchTextAt(s: string, pattern: Pattern, p: nat, g1: string, g2: string)
    requires p + |MatchText(pattern, g1, g2)| <= |s| && s[p..p + |MatchText(pattern, g1, g2)|] == MatchText(pattern, g1, g2)
    ensures var sp := MatchSpan(pattern, p, g1, g2);
            sp.start == p && sp.end + 1 == p + |MatchText(pattern, g1, g2)| && sp.close == sp.open + |g1|
            && s[p] == OpenChar(pattern) && (pattern == ImagePattern ==> sp.open == p + 2 && s[p + 1] == '[')
            && (pattern == LinkPattern ==> sp.open == p + 1)
            && s[sp.open..sp.close] == g1 && s[sp.close] == ']' && s[sp.close + 1] == '('
            && s[sp.close + 2..sp.end] == g2 && s[sp.end] == ')'
  {
    var sp := MatchSpan(pattern, p, g1, g2);
    var m := MatchText(pattern, g1, g2);
    var n := |Opener(pattern)|;
    MatchTextParts(pattern, g1, g2);
    assert sp.open == p + n && sp.close == sp.open + |g1| && sp.end == sp.close + 2 + |g2|;
    MatchGroupsAt(s, p, m, n, g1, g2, sp.open, sp.close, sp.end);
    MatchCharsAt(s, p, m, n, sp.close, sp.end);
  }

  lemma MatchGroupsAt(s: string, p: nat, m: string, n: nat, g1: string, g2: string, o: nat, c: nat, e: nat)
    requires p + |m| <= |s| && s[p..p + |m|] == m && |m| == n + |g1| + 3 + |g2|
    requires m[n..n + |g1|] == g1 && m[n + |g1| + 2..n + |g1| + 2 + |g2|] == g2
    requires o == p + n && c == o + |g1| && e == c + 2 + |g2|
    ensures s[o..c] == g1 && s[c + 2..e] == g2
  {
    SliceOfSlice(s, p, p + |m|, n, n + |g1|);
    SliceOfSlice(s, p, p + |m|, n + |g1| + 2, n + |g1| + 2 + |g2|);
  }

  lemma MatchCharsAt(s: string, p: nat, m: string, n: nat, c: nat, e: nat)
    requires p + |m| <= |s| && s[p..p + |m|] == m && p + n <= c && c + 2 <= e && e == p + |m| - 1
    ensures s[p] == m[0] && s[p + 1] == m[1] && s[c] == m[c - p] && s[c + 1] == m[c + 1 - p] && s[e] == m[|m| - 1]
  {
    SliceChar(s, p, m, c - p);
    SliceChar(s, p, m, c + 1 - p);
    SliceChar(s, p, m, |m| - 1);
    SliceChar(s, p, m, 0);
    SliceChar(s, p, m, 1);
  }

  lemma SliceChar(s: string, p: nat, m: string, k: nat)
    requires p + |m| <= |s| && s[p..p + |m|] == m && k < |m|
    ensures s[p + k] == m[k]
  {
    assert s[p..p + |m|][k] == s[p + k];
  }

  /**
    Where the text holds `![g1](g2)` (or `[g1](g2)` not after a `!`) with no
    `]` or line break in `g1` and no `)` or line break in `g2`, the pattern
    matches exactly there, with `g1` and `g2` as its groups.
  */
  lemma MatchHere(s: string, pattern: Pattern, p: nat, g1: string, g2: string)
    requires p + |MatchText(pattern, g1, g2)| <= |s| && s[p..p + |MatchText(pattern, g1, g2)|] == MatchText(pattern, g1, g2)
    requires pattern == LinkPattern ==> p == 0 || s[p - 1] != '!'
    requires ']' !in g1 && '\n' !in g1 && ')' !in g2 && '\n' !in g2
    ensures MatchAt(s, pattern, p) == Some(MatchSpan(pattern, p, g1, g2))
    ensures MatchSpan(pattern, p, g1, g2).end + 1 == p + |MatchText(pattern, g1, g2)|
    ensures var sp := MatchSpan(pattern, p, g1, g2); ValidBody(s, sp.open, sp.close, sp.end)
    ensures Capture(s, MatchSpan(pattern, p, g1, g2)) == (g1, g2)
  {
    var sp := MatchSpan(pattern, p, g1, g2);
    MatchTextAt(s, pattern, p, g1, g2);
    assert OpenAt(s, pattern, p) == Some(sp.open);
    CloseParenFacts(s, sp.close + 2, g2);
    BodyFacts(s, sp.open, g1, sp.close, sp.end);
    MatchAtOf(s, pattern, sp);
    MatchAtIsLazyMatch(s, pattern, p);
  }

  lemma MatchAtOf(s: string, pattern: Pattern, sp: Span)
    requires OpenAt(s, pattern, sp.start) == Some(sp.open) && BodyFrom(s, sp.open) == Some((sp.close, sp.end))
    ensures MatchAt(s, pattern, sp.start) == Some(sp)
  {
  }

  lemma CloseParenFacts(s: string, j: nat, g2: string)
    requires j + |g2| < |s| && s[j + |g2|] == ')' && s[j..j + |g2|] == g2 && ')' !in g2 && '\n' !in g2
    ensures CloseParen(s, j) == Some(j + |g2|) && NoNewline(s, j, j + |g2|)
  {
    forall x | j <= x < j + |g2| ensures s[x] != ')' && s[x] != '\n' {
      assert s[j..j + |g2|][x - j] == s[x];
    }
    CloseParenScan(s, j, j + |g2|);
  }

  lemma BodyFacts(s: string, o: nat, g1: string, c: nat, e: nat)
    requires c == o + |g1| && c + 1 < |s| && s[c] == ']' && s[c + 1] == '(' && CloseParen(s, c + 2) == Some(e)
    requires s[o..c] == g1 && ']' !in g1 && '\n' !in g1
    ensures BodyFrom(s, o) == Some((c, e)) && NoNewline(s, o, c)
  {
    forall x | o <= x < c ensures s[x] != ']' && s[x] != '\n' {
      assert s[o..c][x - o] == s[x];
    }
    BodyFromScan(s, o, c, e);
  }

  /** A match at `p` is reported first, and the scan resumes right after it. */
  lemma FindAllAt(s: string, pattern: Pattern, p: nat, sp: Span)
    requires p < |s| && MatchAt(s, pattern, p) == Some(sp)
    ensures FindAll(s, pattern, p) == [sp] + FindAll(s, pattern, sp.end + 1)
  {
  }

  /** The groups `re.findall` returns for the matches it found. */
  lemma GroupsOf(s: string, pattern: Pattern, spans: seq<Span>)
    requires FindAll(s, pattern, 0) == spans
    ensures forall j :: 0 <= j < |spans| ==> ValidBody(s, spans[j].open, spans[j].close, spans[j].end)
    ensures FindAllGroups(s, pattern) == Captures(s, spans)
  {
    FindAllSound(s, pattern, 0);
  }

  /** The groups of one span. */
  lemma CapturesOne(s: string, a: Span)
    requires ValidBody(s, a.open, a.close, a.end)
    ensures Captures(s, [a]) == [Capture(s, a)]
  {
  }

  /** The groups of two spans, in order. */
  lemma CapturesTwo(s: string, a: Span, b: Span)
    requires ValidBody(s, a.open, a.close, a.end) && ValidBody(s, b.open, b.close, b.end)
    ensures Captures(s, [a, b]) == [Capture(s, a), Capture(s, b)]
  {
  }

  /**
    A match written out at position `p` is the first span the scan finds
    from `p`, and its groups are the two texts it was written with.
  */
  lemma FindAllMatch(s: string, pattern: Pattern, p: nat, g1: string, g2: string)
    requires p + |MatchText(pattern, g1, g2)| <= |s| && s[p..p + |MatchText(pattern, g1, g2)|] == MatchText(pattern, g1, g2)
    requires pattern == LinkPattern ==> p == 0 || s[p - 1] != '!'
    requires ']' !in g1 && '\n' !in g1 && ')' !in g2 && '\n' !in g2
    ensures FindAll(s, pattern, p) == [MatchSpan(pattern, p, g1, g2)] + FindAll(s, pattern, p + |MatchText(pattern, g1, g2)|)
    ensures var sp := MatchSpan(pattern, p, g1, g2); ValidBody(s, sp.open, sp.close, sp.end)
    ensures Capture(s, MatchSpan(pattern, p, g1, g2)) == (g1, g2)
  {
    var sp := MatchSpan(pattern, p, g1, g2);
    MatchHere(s, pattern, p, g1, g2);
    FindAllAt(s, pattern, p, sp);
  }

  /**
    A scan from the start that finds the match of `g1`, `g2` at `p`, then
    from `a`, where it ends, the match of `h1`, `h2` at `q` that ends the
    text, reports exactly those two matches.
  */
  lemma FindAllTwo(s: string, pattern: Pattern, p: nat, a: nat, q: nat, g1: string, g2: string, h1: string, h2: string)
    requires FindAll(s, pattern, 0) == [MatchSpan(pattern, p, g1, g2)] + FindAll(s, pattern, p + |MatchText(pattern, g1, g2)|)
    requires p + |MatchText(pattern, g1, g2)| == a
    requires FindAll(s, pattern, a) == [MatchSpan(pattern, q, h1, h2)] + FindAll(s, pattern, q + |MatchText(pattern, h1, h2)|)
    requires q + |MatchText(pattern, h1, h2)| == |s|
    ensures FindAll(s, pattern, 0) == [MatchSpan(pattern, p, g1, g2), MatchSpan(pattern, q, h1, h2)]
  {
    assert FindAll(s, pattern, |s|) == [];
  }

  /**
    The character before a position that follows a match ending in `)`
    and a stretch without `!` is not `!`.
  */
  lemma AfterMatch(s: string, p: nat, a: nat, q: nat, m: string)
    requires p <= a <= q <= |s| && s[p..a] == m && m != [] && m[|m| - 1] == ')' && '!' !in s[a..q]
    ensures s[q - 1] != '!'
  {
    if a < q {
      LastOfSlice(s, a, q, s[a..q]);
    } else {
      LastOfSlice(s, p, a, m);
    }
  }

  /** The last character of a slice is the last character of its text. */
  lemma LastOfSlice(s: string, i: nat, j: nat, t: string)
    requires i <= j <= |s| && s[i..j] == t && t != []
    ensures s[j - 1] == t[|t| - 1]
  {
    assert s[i..j][|t| - 1] == s[j - 1];
  }

  /** The pieces of `a + b` are `a` and `b`. */
  lemma ConcatSlices(a: string, b: string)
    ensures (a + b)[..|a|] == a && (a + b)[|a|..] == b
  {
  }

  /**
    A text made of a stretch without the pattern's first character and one
    match yields exactly that match's groups.
  */
  lemma GroupsOfOne(pre: string, pattern: Pattern, g1: string, g2: string)
    requires OpenChar(pattern) !in pre && (pattern == LinkPattern ==> '!' !in pre)
    requires ']' !in g1 && '\n' !in g1 && ')' !in g2 && '\n' !in g2
    ensures FindAllGroups(pre + MatchText(pattern, g1, g2), pattern) == [(g1, g2)]
  {
    var m := MatchText(pattern, g1, g2);
    var s := pre + m;
    var sp := MatchSpan(pattern, |pre|, g1, g2);
    ConcatSlices(pre, m);
    assert s[|pre|..|pre| + |m|] == m;
    FindAllGap(s, pattern, 0, pre);
    assert pattern == LinkPattern ==> |pre| == 0 || s[|pre| - 1] != '!' by {
      if pre != [] {
        assert s[|pre| - 1] == pre[|pre| - 1];
      }
    }
    FindAllMatch(s, pattern, |pre|, g1, g2);
    assert FindAll(s, pattern, |s|) == [];
    GroupsOf(s, pattern, [sp]);
    CapturesOne(s, sp);
  }

  /**
    A text made of a stretch, a match, another stretch and a second match,
    where the stretches lack the pattern's first character, yields the two
    matches' groups in order.
  */
  lemma GroupsOfTwo(pre: string, pattern: Pattern, g1: string, g2: string, gap: string, h1: string, h2: string)
    requires OpenChar(pattern) !in pre && OpenChar(pattern) !in gap
    requires pattern == LinkPattern ==> '!' !in pre && '!' !in gap
    requires ']' !in g1 && '\n' !in g1 && ')' !in g2 && '\n' !in g2
    requires ']' !in h1 && '\n' !in h1 && ')' !in h2 && '\n' !in h2
    ensures FindAllGroups(pre + MatchText(pattern, g1, g2) + gap + MatchText(pattern, h1, h2), pattern) == [(g1, g2), (h1, h2)]
  {
    var m := MatchText(pattern, g1, g2);
    var k := MatchText(pattern, h1, h2);
    var a := pre + m;
    var s := a + gap + k;
    ConcatSlices(a + gap, k);
    ConcatSlices(a, gap);
    ConcatSlices(pre, m);
    assert s[..|pre|] == pre && s[|pre|..|a|] == m by {
      assert s[..|a|] == a;
    }
    assert s[|a|..|a| + |gap|] == gap && s[|a| + |gap|..] == k;
    TwoMatchesIn(s, pattern, |pre|, |a|, |a| + |gap|, g1, g2, h1, h2);
  }

  /**
    The same, stated over positions of one text: a stretch before `p`, a
    match from `p` to `a`, a stretch from `a` to `q`, a match from `q` to
    the end.
  */
  lemma TwoMatchesIn(s: string, pattern: Pattern, p: nat, a: nat, q: nat, g1: string, g2: string, h1: string, h2: string)
    requires p <= a <= q <= |s|
    requires OpenChar(pattern) !in s[..p] && OpenChar(pattern) !in s[a..q]
    requires pattern == LinkPattern ==> '!' !in s[..p] && '!' !in s[a..q]
    requires s[p..a] == MatchText(pattern, g1, g2) && s[q..] == MatchText(pattern, h1, h2)
    requires ']' !in g1 && '\n' !in g1 && ')' !in g2 && '\n' !in g2
    requires ']' !in h1 && '\n' !in h1 && ')' !in h2 && '\n' !in h2
    ensures FindAllGroups(s, pattern) == [(g1, g2), (h1, h2)]
  {
    var sp := MatchSpan(pattern, p, g1, g2);
    var sq := MatchSpan(pattern, q, h1, h2);
    ScanTwo(s, pattern, p, a, q, g1, g2, h1, h2);
    GroupsOf(s, pattern, [sp, sq]);
    CapturesTwo(s, sp, sq);
  }

  /** The scan of such a text finds the two written-out matches. */
  lemma ScanTwo(s: string, pattern: Pattern, p: nat, a: nat, q: nat, g1: string, g2: string, h1: string, h2: string)
    requires p <= a <= q <= |s|
    requires OpenChar(pattern) !in s[..p] && OpenChar(pattern) !in s[a..q]
    requires pattern == LinkPattern ==> '!' !in s[..p] && '!' !in s[a..q]
    requires s[p..a] == MatchText(pattern, g1, g2) && s[q..] == MatchText(pattern, h1, h2)
    requires ']' !in g1 && '\n' !in g1 && ')' !in g2 && '\n' !in g2
    requires ']' !in h1 && '\n' !in h1 && ')' !in h2 && '\n' !in h2
    ensures FindAll(s, pattern, 0) == [MatchSpan(pattern, p, g1, g2), MatchSpan(pattern, q, h1, h2)]
    ensures var sp := MatchSpan(pattern, p, g1, g2); ValidBody(s, sp.open, sp.close, sp.end)
    ensures var sq := MatchSpan(pattern, q, h1, h2); ValidBody(s, sq.open, sq.close, sq.end)
    ensures Capture(s, MatchSpan(pattern, p, g1, g2)) == (g1, g2)
    ensures Capture(s, MatchSpan(pattern, q, h1, h2)) == (h1, h2)
  {
    assert pattern == LinkPattern ==> p == 0 || s[p - 1] != '!' by {
      if p > 0 {
        LastOfSlice(s, 0, p, s[..p]);
      }
    }
    if pattern == LinkPattern {
      MatchTextParts(pattern, g1, g2);
      AfterMatch(s, p, a, q, MatchText(pattern, g1, g2));
    }
    assert |s[p..a]| == a - p && |s[q..]| == |s| - q;
    GapThenMatch(s, pattern, 0, p, g1, g2);
    GapThenMatch(s, pattern, a, q, h1, h2);
    FindAllTwo(s, pattern, p, a, q, g1, g2, h1, h2);
  }

  /**
    The scan from `x`, over a stretch without the pattern's first
    character, finds the match written out at `p` first.
  */
  lemma GapThenMatch(s: string, pattern: Pattern, x: nat, p: nat, g1: string, g2: string)
    requires x <= p && p + |MatchText(pattern, g1, g2)| <= |s|
    requires OpenChar(pattern) !in s[x..p]
    requires s[p..p + |MatchText(pattern, g1, g2)|] == MatchText(pattern, g1, g2)
    requires pattern == LinkPattern ==> p == 0 || s[p - 1] != '!'
    requires ']' !in g1 && '\n' !in g1 && ')' !in g2 && '\n' !in g2
    ensures FindAll(s, pattern, x) == [MatchSpan(pattern, p, g1, g2)] + FindAll(s, pattern, p + |MatchText(pattern, g1, g2)|)
    ensures var sp := MatchSpan(pattern, p, g1, g2); ValidBody(s, sp.open, sp.close, sp.end)
    ensures Capture(s, MatchSpan(pattern, p, g1, g2)) == (g1, g2)
  {
    FindAllGap(s, pattern, x, s[x..p]);
    FindAllMatch(s, pattern, p, g1, g2);
  }

  /** `![a](b)` holds one image, with alt text `a` and url `b`. */
  lemma ImageExample()
    ensures ExtractMarkdownImages("![a](b)") == [("a", "b")]
  {
    var s := "![a](b)";
    assert CloseParen(s, 5) == Some(6) by {
      assert CloseParen(s, 6) == Some(6);
    }
    assert BodyFrom(s, 2) == Some((3, 6)) by {
      assert BodyFrom(s, 3) == Some((3, 6));
    }
    assert MatchAt(s, ImagePattern, 0) == Some(Span(0, 2, 3, 6));
    assert FindAll(s, ImagePattern, 0) == [Span(0, 2, 3, 6)] by {
      assert FindAll(s, ImagePattern, 7) == [];
    }
    assert s[2..3] == "a" && s[5..6] == "b";
  }

  /** The same text holds no link: its only `[` follows a `!`. */
  lemma ImageIsNoLink()
    ensures ExtractMarkdownLinks("![a](b)") == []
  {
    var s := "![a](b)";
    assert FindAll(s, LinkPattern, 7) == [];
    assert FindAll(s, LinkPattern, 6) == [];
    assert FindAll(s, LinkPattern, 5) == [];
    assert FindAll(s, LinkPattern, 4) == [];
    assert FindAll(s, LinkPattern, 3) == [];
    assert FindAll(s, LinkPattern, 2) == [];
    assert FindAll(s, LinkPattern, 1) == [];
    assert FindAll(s, LinkPattern, 0) == [];
  }
}
