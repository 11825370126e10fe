/** The HTML node tree: plain nodes, leaf nodes and parent nodes, their
    constructor checks, attribute serialisation and rendering to HTML. */
module HtmlNodes {
  import opened Wrappers
  import opened Strings

  /** A dict of attributes, as its key/value pairs in insertion order. */
  type Props = seq<(string, string)>

  /** Which class a node was built by, and so which `to_html` it runs. */
  datatype Kind = Base | Leaf | Parent

  /** The four fields every node carries. */
  datatype HtmlNode = HtmlNode(
    kind: Kind,
    tag: Option<string>,
    value: Option<string>,
    children: Children,
    props: Props)

  /** The `children` field: a list, or None, which `to_html` guards against
      although no constructor leaves it so. */
  datatype Children = NoChildren | ChildList(nodes: seq<HtmlNode>)

  /** The two exception classes `to_html` and the constructors raise. */
  datatype HtmlError = NotImplemented | ValueError(message: string)

  const LeafValueError := ValueError("LeafNode must have a non-empty value")
  const LeafRenderError := ValueError("All leaf nodes must have a value")
  const ParentCtorError := ValueError("All parent nodes must have non-empty tag and children")
  const ParentTagError := ValueError("Invalid HTML: ParentNode must have a tag")
  const ParentChildrenError := ValueError("Invalid HTML: ParentNode must have children")

  // ---------------------------------------------------------------------
  // Construction

  /** HTMLNode(tag, value, children, props): an omitted list of children
      becomes the empty list, omitted props the empty dict. */
  function NewHtmlNode(tag: Option<string>, value: Option<string>, children: Option<seq<HtmlNode>>,
                       props: Option<Props>): (n: HtmlNode)
    ensures n.kind == Base && n.tag == tag && n.value == value
    ensures children.Some? ==> n.children == ChildList(children.value)
    ensures children.None? ==> n.children == ChildList([])
    ensures props.None? ==> n.props == []
    ensures props.Some? ==> n.props == props.value
  {
    HtmlNode(Base, tag, value,
      ChildList(if children.Some? then children.value else []),
      if props.Some? then props.value else [])
  }

  /** LeafNode(tag, value, props): refused only when the value is None; an
      empty value is accepted. A leaf has no children. */
  function NewLeafNode(tag: Option<string>, value: Option<string>, props: Option<Props>): (r: Result<HtmlNode, HtmlError>)
    ensures r.Failure? <==> value.None?
    ensures r.Failure? ==> r.error == LeafValueError
    ensures r.Success? ==> r.value.kind == Leaf && r.value.tag == tag && r.value.value == value
    ensures r.Success? ==> r.value.children == ChildList([])
    ensures r.Success? ==> r.value.props == if props.Some? then props.value else []
  {
    if value.None? then Failure(LeafValueError)
    else Success(NewHtmlNode(tag, value, None, props).(kind := Leaf))
  }

  /** ParentNode(tag, children, props): refused when the tag is None or
      empty, or the children are None or empty. A parent has no value. */
  function NewParentNode(tag: Option<string>, children: Option<seq<HtmlNode>>, props: Option<Props>)
    : (r: Result<HtmlNode, HtmlError>)
    ensures r.Failure? <==> tag.None? || tag.value == "" || children.None? || children.value == []
    ensures r.Failure? ==> r.error == ParentCtorError
    ensures r.Success? ==> r.value.kind == Parent && r.value.tag == tag && r.value.value == None
    ensures r.Success? ==> r.value.children == ChildList(children.value)
    ensures r.Success? ==> r.value.props == if props.Some? then props.value else []
  {
    if tag.None? || tag.value == "" || children.None? || children.value == [] then Failure(ParentCtorError)
    else Success(NewHtmlNode(tag, None, children, props).(kind := Parent))
  }

  // ---------------------------------------------------------------------
  // Attributes

  /** `key="value"`, with nothing escaped. */
  function Attribute(p: (string, string)): string {
    p.0 + "=\"" + p.1 + "\""
  }

  function Attributes(props: Props): seq<string> {
    seq(|props|, k requires 0 <= k < |props| => Attribute(props[k]))
  }

  /** props_to_html: nothing for no props; otherwise a space, then the
      attributes in order, separated by single spaces. */
  function PropsToHtml(props: Props): (r: string)
    ensures r == "" <==> props == []
    ensures props != [] ==> r[0] == ' '
  {
    if props == [] then "" else " " + Join(Attributes(props), " ")
  }

  /** Each attribute, with the space in front of it. */
  function SpacedAttributes(props: Props): seq<string> {
    seq(|props|, k requires 0 <= k < |props| => " " + Attribute(props[k]))
  }

  /** props_to_html is a space and `key="value"` for each pair, in
      insertion order, and nothing else. */
  lemma {:induction false} PropsToHtmlSpaced(props: Props)
    ensures PropsToHtml(props) == Concat(SpacedAttributes(props))
    decreases |props|
  {
    if props != [] {
      var n := |props| - 1;
      var init := props[..n];
      assert Attributes(props)[..n] == Attributes(init);
      assert SpacedAttributes(props)[..n] == SpacedAttributes(init);
      PropsToHtmlSpaced(init);
      if n == 0 {
        assert Concat(SpacedAttributes(init)) == "";
      } else {
        PropsSnocAlgebra(Join(Attributes(init), " "), Attribute(props[n]));
      }
    }
  }

  lemma PropsSnocAlgebra(j: string, a: string)
    ensures " " + (j + " " + a) == (" " + j) + (" " + a)
  {
  }

  /** Adding a pair to the dict adds its attribute at the end. */
  lemma PropsToHtmlSnoc(props: Props, p: (string, string))
    ensures PropsToHtml(props + [p]) == PropsToHtml(props) + (" " + Attribute(p))
  {
    PropsToHtmlSpaced(props);
    PropsToHtmlSpaced(props + [p]);
    assert SpacedAttributes(props + [p])[..|props|] == SpacedAttributes(props);
  }

  /** Every pair's attribute stands in props_to_html, after a space. */
  lemma {:induction false} PropsToHtmlHas(props: Props, k: nat)
    requires k < |props|
    ensures Contains(PropsToHtml(props), " " + Attribute(props[k]))
    decreases |props|
  {
    var n := |props| - 1;
    var init := props[..n];
    assert init + [props[n]] == props;
    PropsToHtmlSnoc(init, props[n]);
    var a := " " + Attribute(props[n]);
    if k == n {
      var out := PropsToHtml(init) + a;
      assert out[|PropsToHtml(init)|..] == a;
      assert OccursAt(out, a, |PropsToHtml(init)|);
    } else {
      assert props[k] == init[k];
      PropsToHtmlHas(init, k);
      ContainsPrefix(PropsToHtml(init), a, " " + Attribute(props[k]));
    }
  }

  /** An occurrence in `s` is an occurrence in `s + t`. */
  lemma ContainsPrefix(s: string, t: string, d: string)
    requires Contains(s, d)
    ensures Contains(s + t, d)
  {
    var i :| 0 <= i <= |s| && OccursAt(s, d, i);
    assert (s + t)[i..i + |d|] == s[i..i + |d|];
    assert OccursAt(s + t, d, i);
  }

  // ---------------------------------------------------------------------
  // Rendering

  /** `<tag props>inner</tag>`. */
  function Element(tag: string, props: Props, inner: string): string {
    "<" + tag + PropsToHtml(props) + ">" + inner + "</" + tag + ">"
  }

  /** to_html, by the class that built the node. Every error it raises,
      at any depth, is one of its four. */
  function Render(n: HtmlNode): (r: Result<string, HtmlError>)
    ensures r.Failure? ==> RenderError(r.error)
    decreases n
  {
    match n.kind
    case Base => Failure(NotImplemented)
    case Leaf =>
      if n.value.None? then Failure(LeafRenderError)
      else if n.tag.None? then Success(n.value.value)
      else Success(Element(n.tag.value, n.props, n.value.value))
    case Parent =>
      if n.tag.None? then Failure(ParentTagError)
      else if n.children.NoChildren? then Failure(ParentChildrenError)
      else
        CollectError(RenderEach(n.children.nodes));
        match Collect(RenderEach(n.children.nodes))
        case Failure(e) => Failure(e)
        case Success(inner) => Success(Element(n.tag.value, n.props, inner))
  }

  /** What to_html does for each child, in order. */
  function RenderEach(cs: seq<HtmlNode>): seq<Result<string, HtmlError>>
    decreases cs
  {
    seq(|cs|, k requires 0 <= k < |cs| => Render(cs[k]))
  }

  /** The outputs concatenated in order; the first error aborts. */
  function Collect(rs: seq<Result<string, HtmlError>>): Result<string, HtmlError>
    decreases |rs|
  {
    if rs == [] then Success("")
    else
      match Collect(rs[..|rs| - 1])
      case Failure(e) => Failure(e)
      case Success(prev) =>
        match rs[|rs| - 1]
        case Failure(e) => Failure(e)
        case Success(h) => Success(prev + h)
  }

  /** The nodes to_html succeeds on: leaves with a value, and parents with
      a tag and children that all succeed. A plain node never does. */
  predicate Renderable(n: HtmlNode)
    decreases n
  {
    match n.kind
    case Base => false
    case Leaf => n.value.Some?
    case Parent =>
      n.tag.Some? && n.children.ChildList? &&
      forall k :: 0 <= k < |n.children.nodes| ==> Renderable(n.children.nodes[k])
  }

  /** Collecting succeeds exactly when every output does. */
  lemma {:induction false} CollectSucceeds(rs: seq<Result<string, HtmlError>>)
    ensures Collect(rs).Success? <==> forall k :: 0 <= k < |rs| ==> rs[k].Success?
    decreases |rs|
  {
    if rs != [] {
      var n := |rs| - 1;
      CollectSucceeds(rs[..n]);
      assert forall k :: 0 <= k < n ==> rs[..n][k] == rs[k];
    }
  }

  /** A failed collection raises the error of one of the outputs. */
  lemma {:induction false} CollectError(rs: seq<Result<string, HtmlError>>)
    ensures Collect(rs).Failure? ==>
      exists k :: 0 <= k < |rs| && rs[k].Failure? && Collect(rs).error == rs[k].error
    decreases |rs|
  {
    if rs != [] {
      var n := |rs| - 1;
      CollectError(rs[..n]);
      if Collect(rs[..n]).Failure? {
        var k :| 0 <= k < n && rs[..n][k].Failure? && Collect(rs[..n]).error == rs[..n][k].error;
        assert rs[..n][k] == rs[k];
      }
    }
  }

  /** Once a prefix has failed, the rest is never looked at. */
  lemma {:induction false} CollectSticks(rs: seq<Result<string, HtmlError>>, i: nat)
    requires i <= |rs| && Collect(rs[..i]).Failure?
    ensures Collect(rs) == Collect(rs[..i])
    decreases |rs| - i
  {
    if i < |rs| {
      assert rs[..i + 1][..i] == rs[..i];
      CollectSticks(rs, i + 1);
    } else {
      assert rs[..i] == rs;
    }
  }

  /** The values of outputs that all succeeded. */
  function Values(rs: seq<Result<string, HtmlError>>): seq<string>
    requires forall k :: 0 <= k < |rs| ==> rs[k].Success?
  {
    seq(|rs|, k requires 0 <= k < |rs| => rs[k].value)
  }

  /** A successful collection is the outputs concatenated in order. */
  lemma {:induction false} CollectConcat(rs: seq<Result<string, HtmlError>>)
    requires forall k :: 0 <= k < |rs| ==> rs[k].Success?
    ensures Collect(rs) == Success(Concat(Values(rs)))
    decreases |rs|
  {
    if rs != [] {
      var n := |rs| - 1;
      assert forall k :: 0 <= k < n ==> rs[..n][k] == rs[k];
      CollectConcat(rs[..n]);
      assert Values(rs)[..n] == Values(rs[..n]);
    }
  }

  /** to_html succeeds exactly on the renderable nodes. */
  lemma {:induction false} RenderSucceeds(n: HtmlNode)
    ensures Render(n).Success? <==> Renderable(n)
    decreases n
  {
    if n.kind == Parent && n.tag.Some? && n.children.ChildList? {
      var cs := n.children.nodes;
      CollectSucceeds(RenderEach(cs));
      forall k | 0 <= k < |cs| ensures RenderEach(cs)[k].Success? <==> Renderable(cs[k]) {
        RenderSucceeds(cs[k]);
      }
    }
  }

  /** The errors to_html raises. */
  predicate RenderError(e: HtmlError) {
    e == NotImplemented || e == LeafRenderError || e == ParentTagError || e == ParentChildrenError
  }

  /** A renderable parent's HTML: its tag and attributes around each
      child's HTML, concatenated in order. */
  lemma ParentHtml(n: HtmlNode)
    requires n.kind == Parent && Renderable(n)
    ensures forall k :: 0 <= k < |n.children.nodes| ==> Render(n.children.nodes[k]).Success?
    ensures Render(n) == Success(Element(n.tag.value, n.props, Concat(Values(RenderEach(n.children.nodes)))))
  {
    var cs := n.children.nodes;
    forall k | 0 <= k < |cs| ensures Render(cs[k]).Success? {
      RenderSucceeds(cs[k]);
    }
    CollectConcat(RenderEach(cs));
  }

  /** A freshly built leaf always renders: its value verbatim without a
      tag, inside the tag otherwise. */
  lemma NewLeafRenders(tag: Option<string>, value: string, props: Option<Props>)
    ensures NewLeafNode(tag, Some(value), props).Success?
    ensures var n := NewLeafNode(tag, Some(value), props).value;
      Render(n) == Success(if tag.None? then value
                           else Element(tag.value, if props.Some? then props.value else [], value))
  {
  }

  /** A freshly built parent renders exactly when all its children do. */
  lemma NewParentRenders(tag: string, children: seq<HtmlNode>, props: Option<Props>)
    requires NewParentNode(Some(tag), Some(children), props).Success?
    ensures var n := NewParentNode(Some(tag), Some(children), props).value;
      Render(n).Success? <==> forall k :: 0 <= k < |children| ==> Renderable(children[k])
  {
    var n := NewParentNode(Some(tag), Some(children), props).value;
    RenderSucceeds(n);
  }

  /** A plain HTMLNode raises NotImplementedError, however it was built. */
  lemma NewHtmlNodeRaises(tag: Option<string>, value: Option<string>, children: Option<seq<HtmlNode>>,
                          props: Option<Props>)
    ensures Render(NewHtmlNode(tag, value, children, props)) == Failure(NotImplemented)
  {
  }

  // ---------------------------------------------------------------------
  // The recursive to_html, with the loop over the children

  method ToHtml(n: HtmlNode) returns (r: Result<string, HtmlError>)
    ensures r == Render(n)
    decreases n
  {
    match n.kind {
      case Base =>
        return Failure(NotImplemented);
      case Leaf =>
        if n.value.None? {
          return Failure(LeafRenderError);
        }
        if n.tag.None? {
          return Success(n.value.value);
        }
        return Success("<" + n.tag.value + PropsToHtml(n.props) + ">" + n.value.value + "</" + n.tag.value + ">");
      case Parent =>
        if n.tag.None? {
          return Failure(ParentTagError);
        }
        if n.children.NoChildren? {
          return Failure(ParentChildrenError);
        }
        var childrenHtml := ChildrenToHtml(n.children.nodes);
        if childrenHtml.Failure? {
          return childrenHtml;
        }
        return Success("<" + n.tag.value + PropsToHtml(n.props) + ">" + childrenHtml.value + "</" + n.tag.value + ">");
    }
  }

  /** The loop of ParentNode.to_html over the children. */
  method ChildrenToHtml(cs: seq<HtmlNode>) returns (r: Result<string, HtmlError>)
    ensures r == Collect(RenderEach(cs))
    decreases cs
  {
    ghost var rs := RenderEach(cs);
    var childrenHtml := "";
    var i := 0;
    while i < |cs|
      invariant 0 <= i <= |cs|
      invariant Collect(rs[..i]) == Success(childrenHtml)
    {
      var h := ToHtml(cs[i]);
      assert rs[..i + 1][..i] == rs[..i];
      if h.Failure? {
        CollectSticks(rs, i + 1);
        return Failure(h.error);
      }
      childrenHtml := childrenHtml + h.value;
      i := i + 1;
    }
    assert rs[..i] == rs;
    return Success(childrenHtml);
  }
}
