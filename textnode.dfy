/** Typed inline spans. Equality of spans is structural: text, kind and url
    all take part, as Dafny's datatype equality does. */
module TextNodes {
  import opened Wrappers
  import opened Strings

  datatype TextType = Text | Bold | Italic | Code | Link | Image

  /** A span of inline text; `url` is the destination of a link or an image. */
  datatype TextNode = TextNode(text: string, textType: TextType, url: Option<string>)

  /** The markdown delimiter that brackets a span of each formatted kind. */
  function Marker(t: TextType): string
    requires t == Bold || t == Italic || t == Code
  {
    match t
    case Bold => "**"
    case Italic => "*"
    case Code => "`"
  }

  /** `[text](url)`, the markdown for a link. */
  function LinkMarkup(text: string, url: string): string {
    "[" + text + "](" + url + ")"
  }

  /** `![alt](url)`, the markdown for an image. */
  function ImageMarkup(alt: string, url: string): string {
    "!" + LinkMarkup(alt, url)
  }

  /** The markdown a span was parsed from: plain text as it is, formatted
      spans between their delimiters, links and images in bracket form. */
  function Markup(n: TextNode): string {
    var url := match n.url case Some(u) => u case None => "";
    match n.textType
    case Text => n.text
    case Bold => Marker(Bold) + n.text + Marker(Bold)
    case Italic => Marker(Italic) + n.text + Marker(Italic)
    case Code => Marker(Code) + n.text + Marker(Code)
    case Link => LinkMarkup(n.text, url)
    case Image => ImageMarkup(n.text, url)
  }

  /** The markdown of a sequence of spans, in order. */
  function MarkupOf(nodes: seq<TextNode>): string {
    Concat(seq(|nodes|, k requires 0 <= k < |nodes| => Markup(nodes[k])))
  }

  lemma MarkupOfAppend(xs: seq<TextNode>, ys: seq<TextNode>)
    ensures MarkupOf(xs + ys) == MarkupOf(xs) + MarkupOf(ys)
  {
    var mx := seq(|xs|, k requires 0 <= k < |xs| => Markup(xs[k]));
    var my := seq(|ys|, k requires 0 <= k < |ys| => Markup(ys[k]));
    assert seq(|xs + ys|, k requires 0 <= k < |xs + ys| => Markup((xs + ys)[k])) == mx + my;
    ConcatAppend(mx, my);
  }

  lemma MarkupOfSingle(n: TextNode)
    ensures MarkupOf([n]) == Markup(n)
  {
    assert seq(1, k requires 0 <= k < 1 => Markup([n][k])) == [Markup(n)];
    assert Concat([Markup(n)]) == Concat([]) + Markup(n);
  }

  lemma MarkupPlain(n: TextNode)
    requires n.textType == Text
    ensures Markup(n) == n.text
  {
  }

  lemma MarkupFormatted(x: string, t: TextType)
    requires t == Bold || t == Italic || t == Code
    ensures Markup(TextNode(x, t, None)) == Marker(t) + x + Marker(t)
  {
  }

  /** The texts of the spans, in order. */
  function TextsOf(nodes: seq<TextNode>): seq<string> {
    seq(|nodes|, k requires 0 <= k < |nodes| => nodes[k].text)
  }

  /** The spans of one kind, in their original order. */
  function OfKind(nodes: seq<TextNode>, t: TextType): seq<TextNode>
    decreases |nodes|
  {
    if nodes == [] then []
    else OfKind(nodes[..|nodes| - 1], t) + (if nodes[|nodes| - 1].textType == t then [nodes[|nodes| - 1]] else [])
  }

  lemma {:induction false} OfKindAppend(xs: seq<TextNode>, ys: seq<TextNode>, t: TextType)
    ensures OfKind(xs + ys, t) == OfKind(xs, t) + OfKind(ys, t)
    decreases |ys|
  {
    if ys == [] {
      assert xs + ys == xs;
    } else {
      assert (xs + ys)[..|xs + ys| - 1] == xs + ys[..|ys| - 1];
      OfKindAppend(xs, ys[..|ys| - 1], t);
    }
  }

  lemma TextsOfAppend(xs: seq<TextNode>, ys: seq<TextNode>)
    ensures TextsOf(xs + ys) == TextsOf(xs) + TextsOf(ys)
  {
  }

  /** No span of kind `t`, no span in the selection. */
  lemma {:induction false} OfKindNone(nodes: seq<TextNode>, t: TextType)
    requires forall k :: 0 <= k < |nodes| ==> nodes[k].textType != t
    ensures OfKind(nodes, t) == []
    decreases |nodes|
  {
    if nodes != [] {
      OfKindNone(nodes[..|nodes| - 1], t);
    }
  }

  /** The shape every span produced by the inline parser has: only links and
      images carry a url, and every span other than a link or an image has
      non-empty text. */
  predicate WellFormedSpan(n: TextNode) {
    && (n.url.Some? <==> (n.textType == Link || n.textType == Image))
    && (n.textType != Link && n.textType != Image ==> n.text != "")
  }
}
