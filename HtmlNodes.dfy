/**
  `HTMLNode` (src/htmlnode.py): the base node of the HTML tree, with an
  optional tag, value, children and attribute map, a serialiser for the
  attributes and a `to_html` that subclasses must override.
*/
module HtmlNodes {
  import opened Wrappers

  /** An attribute map in insertion order (a Python `dict` keeps that order). */
  type Props = seq<(string, string)>

  /** No key occurs twice, as in a `dict`. */
  predicate DistinctKeys(ps: Props) {
    forall i, j :: 0 <= i < j < |ps| ==> ps[i].0 != ps[j].0
  }

  /** One attribute, ` key="value"`. */
  function Attribute(key: string, value: string): string {
    " " + key + "=\"" + value + "\""
  }

  /** The attributes of `ps` one after the other. */
  function AttrsHtml(ps: Props): string
    decreases |ps|
  {
    if ps == [] then [] else AttrsHtml(ps[..|ps| - 1]) + Attribute(ps[|ps| - 1].0, ps[|ps| - 1].1)
  }

  /** What `props_to_html` returns for the field `props`. */
  function PropsHtml(props: Option<Props>): string {
    match props
    case None => []
    case Some(ps) => AttrsHtml(ps)
  }

  /** The serialised width of an attribute list: key, value and four more characters per pair. */
  function Width(ps: Props): nat
    decreases |ps|
  {
    if ps == [] then 0 else Width(ps[..|ps| - 1]) + |ps[|ps| - 1].0| + |ps[|ps| - 1].1| + 4
  }

  /** The failure of the base `to_html`. */
  datatype HtmlError = NotImplemented {
    function Message(): string {
      "to_html method not implemented"
    }
  }

  class HtmlNode {
    var tag: Option<string>
    var value: Option<string>
    var children: Option<seq<HtmlNode>>
    var props: Option<Props>

    /**
      Stores the four fields; each one left out is `None`. A map has distinct
      keys, as a Python dict does; the requires records that invariant of the
      argument, and no contract in this model depends on it.
    */
    constructor (tag: Option<string> := None, value: Option<string> := None,
                 children: Option<seq<HtmlNode>> := None, props: Option<Props> := None)
      requires props.Some? ==> DistinctKeys(props.value)
      ensures this.tag == tag && this.value == value
      ensures this.children == children && this.props == props
    {
      this.tag := tag;
      this.value := value;
      this.children := children;
      this.props := props;
    }

    /** The base class cannot render itself: every call fails, whatever the fields hold. */
    method ToHtml() returns (r: Result<string, HtmlError>)
      ensures r.Err? && r.error.Message() == "to_html method not implemented"
    {
      r := Err(NotImplemented);
    }

    /**
      `props_to_html`: `""` when there is no map or an empty one, otherwise
      ` key="value"` for every pair, in insertion order.
    */
    method PropsToHtml() returns (html: string)
      ensures html == PropsHtml(props)
    {
      html := "";
      if props.Some? && props.value != [] {
        var ps := props.value;
        for i := 0 to |ps|
          invariant html == AttrsHtml(ps[..i])
        {
          assert ps[..i + 1][..i] == ps[..i];
          html := html + Attribute(ps[i].0, ps[i].1);
        }
        assert ps[..|ps|] == ps;
      }
    }
  }

  // ---------------------------------------------------------------------------
  // properties of the serialisation

  /**
    An attribute copies key and value verbatim, with no escaping, between a
    space, `="` and a closing `"`: four characters more than both.
  */
  lemma AttributeParts(key: string, value: string)
    ensures var a := Attribute(key, value);
            |a| == |key| + |value| + 4
            && a[0] == ' ' && a[1..1 + |key|] == key && a[1 + |key|..3 + |key|] == "=\""
            && a[3 + |key|..3 + |key| + |value|] == value && a[|a| - 1] == '"'
  {
    var a := Attribute(key, value);
    assert a == [' '] + key + ['=', '"'] + value + ['"'];
  }

  /** Serialising a concatenation is concatenating the serialisations. */
  lemma {:induction false} AttrsHtmlAppend(xs: Props, ys: Props)
    ensures AttrsHtml(xs + ys) == AttrsHtml(xs) + AttrsHtml(ys)
    decreases |ys|
  {
    if ys == [] {
      assert xs + ys == xs;
    } else {
      var n := |ys|;
      var front := ys[..n - 1];
      var a := Attribute(ys[n - 1].0, ys[n - 1].1);
      var zs := xs + ys;
      assert AttrsHtml(zs) == AttrsHtml(xs + front) + a by {
        assert zs[..|zs| - 1] == xs + front;
        assert zs[|zs| - 1] == ys[n - 1];
      }
      AttrsHtmlAppend(xs, front);
      assert AttrsHtml(ys) == AttrsHtml(front) + a;
      assert AttrsHtml(xs) + AttrsHtml(front) + a == AttrsHtml(xs) + (AttrsHtml(front) + a);
    }
  }

  /** The output length is the sum over the pairs of `|key| + |value| + 4`. */
  lemma {:induction false} AttrsHtmlLength(ps: Props)
    ensures |AttrsHtml(ps)| == Width(ps)
    decreases |ps|
  {
    if ps != [] {
      AttrsHtmlLength(ps[..|ps| - 1]);
    }
  }

  /**
    Pair `i` appears verbatim, as ` key="value"`, right after the serialisation
    of the pairs before it.
  */
  lemma AttributeAt(ps: Props, i: nat)
    requires i < |ps|
    ensures Width(ps[..i]) + |Attribute(ps[i].0, ps[i].1)| <= |AttrsHtml(ps)|
    ensures AttrsHtml(ps)[Width(ps[..i])..Width(ps[..i]) + |Attribute(ps[i].0, ps[i].1)|] == Attribute(ps[i].0, ps[i].1)
  {
    var before := ps[..i];
    var one := [ps[i]];
    var after := ps[i + 1..];
    var a := Attribute(ps[i].0, ps[i].1);
    assert ps == before + one + after;
    AttrsHtmlAppend(before + one, after);
    AttrsHtmlAppend(before, one);
    assert one[..0] == [];
    assert AttrsHtml(one) == a;
    AttrsHtmlLength(before);
    var h := AttrsHtml(before) + a + AttrsHtml(after);
    assert AttrsHtml(ps) == h;
    assert h[|AttrsHtml(before)|..|AttrsHtml(before)| + |a|] == a;
  }

  /** The result is empty exactly when there is no map or the map is empty. */
  lemma PropsHtmlEmpty(props: Option<Props>)
    ensures PropsHtml(props) == [] <==> props.None? || props.value == []
  {
    if props.Some? && props.value != [] {
      var ps := props.value;
      AttrsHtmlAppend(ps[..|ps| - 1], [ps[|ps| - 1]]);
      assert ps[..|ps| - 1] + [ps[|ps| - 1]] == ps;
    }
  }

  /** A single pair is a single attribute. */
  lemma AttrsHtmlOne(key: string, value: string)
    ensures AttrsHtml([(key, value)]) == Attribute(key, value)
  {
    var one: Props := [(key, value)];
    assert one[..0] == [];
  }

  /** Two pairs are two attributes, in order. */
  lemma AttrsHtmlTwo(k1: string, v1: string, k2: string, v2: string)
    ensures AttrsHtml([(k1, v1), (k2, v2)]) == Attribute(k1, v1) + Attribute(k2, v2)
  {
    var ps: Props := [(k1, v1), (k2, v2)];
    assert ps[..1] == [(k1, v1)];
    AttrsHtmlOne(k1, v1);
  }

  /** The attributes of the repository's own example, in order. */
  lemma HrefTargetExample()
    ensures PropsHtml(Some([("href", "https://example.com"), ("target", "_blank")]))
            == " href=\"https://example.com\" target=\"_blank\""
  {
    AttrsHtmlTwo("href", "https://example.com", "target", "_blank");
    ExampleAttributes();
    assert " href=\"https://example.com\"" + " target=\"_blank\"" == " href=\"https://example.com\" target=\"_blank\"";
  }

  lemma ExampleAttributes()
    ensures Attribute("href", "https://example.com") == " href=\"https://example.com\""
    ensures Attribute("target", "_blank") == " target=\"_blank\""
  {
  }
}
