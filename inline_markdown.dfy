/** The inline span parser: a list of spans is refined, one stage at a time,
    by splitting the plain-text spans on `**`, `*` and a backtick, and then
    cutting out images and links. Every stage passes non-plain spans through
    untouched. */
module InlineMarkdown {
  import opened Wrappers
  import opened Strings
  import opened TextNodes

  /** One pass over the span list. */
  datatype Stage = Delimiter(delim: string, textType: TextType) | Images | Links

  predicate ValidStage(st: Stage) {
    st.Delimiter? ==> st.delim != ""
  }

  /** The passes of text_to_textnode, in the order it applies them. */
  const InlineStages: seq<Stage> :=
    [Delimiter("**", Bold), Delimiter("*", Italic), Delimiter("`", Code), Images, Links]

  /** The kind of span a stage creates. */
  function StageType(st: Stage): TextType {
    match st
    case Delimiter(_, t) => t
    case Images => Image
    case Links => Link
  }

  function DelimiterError(d: string): string {
    "Markdown Error: No closing '" + d + "' found."
  }

  function NotClosedError(st: Stage): string {
    if st.Images? then "Invalid markdown, image section not closed"
    else "Invalid markdown, link section not closed"
  }

  // ---------------------------------------------------------------------
  // Delimiter splitting

  /** The span made of the `k`-th piece of a split: none if the piece is
      empty, plain text at even positions, the formatted kind at odd ones. */
  function PartNode(part: string, k: nat, t: TextType): seq<TextNode> {
    if part == "" then [] else [TextNode(part, if k % 2 == 0 then Text else t, None)]
  }

  function PartNodes(parts: seq<string>, t: TextType): seq<TextNode>
    decreases |parts|
  {
    if parts == [] then []
    else PartNodes(parts[..|parts| - 1], t) + PartNode(parts[|parts| - 1], |parts| - 1, t)
  }

  // ---------------------------------------------------------------------
  // Image and link extraction: the patterns
  //   image  !\[([^\[\]]*)\]\(([^\(\)]*)\)
  //   link   (?<!!)\[([^\[\]]*)\]\(([^\(\)]*)\)
  // as a left-to-right scanner.

  /** A match: the alt text or link text, and the url. */
  datatype Match = Match(text: string, url: string)

  /** A match found in a string, with the index just past it. */
  datatype Found = Found(m: Match, end: nat)

  predicate Excludes(s: string, a: char, b: char) {
    forall k :: 0 <= k < |s| ==> s[k] != a && s[k] != b
  }

  /** What the patterns accept: no square bracket in the text and no
      parenthesis in the url. */
  predicate WellFormedMatch(m: Match) {
    Excludes(m.text, '[', ']') && Excludes(m.url, '(', ')')
  }

  /** The text the source rebuilds from a match and looks for. */
  function MatchMarkup(st: Stage, m: Match): (r: string)
    requires !st.Delimiter?
    ensures |r| > 0
  {
    if st.Images? then ImageMarkup(m.text, m.url) else LinkMarkup(m.text, m.url)
  }

  /** The index of the first `a` or `b` at or after `i`, or `|s|`. */
  function RunEnd(s: string, i: nat, a: char, b: char): (j: nat)
    requires i <= |s|
    ensures i <= j <= |s|
    ensures j < |s| ==> s[j] == a || s[j] == b
    decreases |s| - i
  {
    if i == |s| || s[i] == a || s[i] == b then i else RunEnd(s, i + 1, a, b)
  }

  /** Tries `([^\[\]]*)\]\(([^\(\)]*)\)`, the part of both patterns after the
      opening `[`, at index `open`. */
  function GroupsAt(s: string, open: nat): (r: Option<Found>)
    requires open <= |s|
    ensures r.Some? ==> open < r.value.end <= |s|
  {
    var j := RunEnd(s, open, '[', ']');
    if !(j + 1 < |s| && s[j] == ']' && s[j + 1] == '(') then None
    else
      var k := RunEnd(s, j + 2, '(', ')');
      if !(k < |s| && s[k] == ')') then None
      else Some(Found(Match(s[open..j], s[j + 2..k]), k + 1))
  }

  /** Tries the pattern of `st` at index `i` of `s`; the link pattern also
      looks at the character before `i`. */
  function MatchAt(s: string, i: nat, st: Stage): (r: Option<Found>)
    requires !st.Delimiter? && i <= |s|
    ensures r.Some? ==> i < r.value.end <= |s|
  {
    if st.Images? then
      if i + 1 < |s| && s[i] == '!' && s[i + 1] == '[' then GroupsAt(s, i + 2) else None
    else
      if i < |s| && s[i] == '[' && (i == 0 || s[i - 1] != '!') then GroupsAt(s, i + 1) else None
  }

  /** All non-overlapping matches at or after `i`, left to right, as
      Python's `re.findall` returns them. */
  function ExtractFrom(s: string, i: nat, st: Stage): (r: seq<Match>)
    requires !st.Delimiter? && i <= |s|
    ensures forall k :: 0 <= k < |r| ==> WellFormedMatch(r[k])
    decreases |s| - i
  {
    if i == |s| then []
    else
      match MatchAt(s, i, st)
      case Some(f) =>
        MatchAtSound(s, i, st);
        [f.m] + ExtractFrom(s, f.end, st)
      case None => ExtractFrom(s, i + 1, st)
  }

  /** extract_markdown_images: the (alt, url) pairs, left to right; each
      one's image markup is found in the text. */
  function ExtractMarkdownImages(text: string): (r: seq<Match>)
    ensures forall k :: 0 <= k < |r| ==>
      WellFormedMatch(r[k]) && Contains(text, ImageMarkup(r[k].text, r[k].url))
  {
    ExtractFromOccurs(text, 0, Images);
    ExtractFrom(text, 0, Images)
  }

  /** extract_markdown_links: the (text, url) pairs, left to right; each
      one's link markup is found in the text. */
  function ExtractMarkdownLinks(text: string): (r: seq<Match>)
    ensures forall k :: 0 <= k < |r| ==>
      WellFormedMatch(r[k]) && Contains(text, LinkMarkup(r[k].text, r[k].url))
  {
    ExtractFromOccurs(text, 0, Links);
    ExtractFrom(text, 0, Links)
  }

  /** Length of the `!` that opens an image and not a link. */
  function Bang(st: Stage): nat {
    if st.Images? then 1 else 0
  }

  /** `t` is laid out as `!`×o `[` text `](` url `)`. */
  predicate Shaped(t: string, o: nat, m: Match) {
    var n := |m.text|;
    && |t| == o + n + |m.url| + 4
    && (o == 1 ==> t[0] == '!')
    && t[o] == '[' && t[o + 1 + n] == ']' && t[o + 2 + n] == '(' && t[|t| - 1] == ')'
    && (forall q :: 0 <= q < n ==> t[o + 1 + q] == m.text[q])
    && (forall q :: 0 <= q < |m.url| ==> t[o + 3 + n + q] == m.url[q])
  }

  lemma MarkupLayout(st: Stage, m: Match)
    requires !st.Delimiter?
    ensures Shaped(MatchMarkup(st, m), Bang(st), m)
  {
  }

  /** The characters of `s` from `i` on are laid out as `!`×o `[` text `](`
      url `)`, with `m`'s text and url in the two groups. */
  predicate LaidOut(s: string, i: nat, o: nat, m: Match) {
    var j := i + o + 1 + |m.text|;
    var k := j + 2 + |m.url|;
    && k < |s|
    && (o == 1 ==> s[i] == '!')
    && s[i + o] == '[' && s[j] == ']' && s[j + 1] == '(' && s[k] == ')'
    && s[i + o + 1..j] == m.text && s[j + 2..k] == m.url
  }

  lemma LaidOutOccurs(s: string, i: nat, t: string, o: nat, m: Match)
    requires o <= 1 && Shaped(t, o, m) && LaidOut(s, i, o, m)
    ensures OccursAt(s, t, i)
  {
    var n := |m.text|;
    var j := i + o + 1 + n;
    var k := j + 2 + |m.url|;
    forall q | 0 <= q < |t| ensures s[i + q] == t[q] {
      if o + 1 <= q < o + 1 + n {
        assert t[q] == m.text[q - o - 1] == s[i + o + 1..j][q - o - 1];
      } else if o + 3 + n <= q < |t| - 1 {
        assert t[q] == m.url[q - o - 3 - n] == s[j + 2..k][q - o - 3 - n];
      }
    }
    assert s[i..i + |t|] == t;
  }

  lemma OccursLaidOut(s: string, i: nat, t: string, o: nat, m: Match)
    requires o <= 1 && Shaped(t, o, m) && OccursAt(s, t, i)
    ensures LaidOut(s, i, o, m)
  {
    var n := |m.text|;
    var j := i + o + 1 + n;
    var k := j + 2 + |m.url|;
    assert forall q :: 0 <= q < |t| ==> s[i + q] == t[q] by {
      assert s[i..i + |t|] == t;
    }
    assert s[i + o + 1..j] == m.text;
    assert s[j + 2..k] == m.url;
  }

  lemma GroupsAtSound(s: string, i: nat, o: nat)
    requires o <= 1 && i + o + 1 <= |s|
    requires s[i + o] == '[' && (o == 1 ==> s[i] == '!')
    ensures match GroupsAt(s, i + o + 1)
      case Some(f) => WellFormedMatch(f.m) && LaidOut(s, i, o, f.m) && f.end == i + o + |f.m.text| + |f.m.url| + 4
      case None => true
  {
    var open := i + o + 1;
    if GroupsAt(s, open).Some? {
      var j := RunEnd(s, open, '[', ']');
      var k := RunEnd(s, j + 2, '(', ')');
      RunExcludes(s, open, '[', ']');
      RunExcludes(s, j + 2, '(', ')');
      var m := Match(s[open..j], s[j + 2..k]);
      assert GroupsAt(s, open) == Some(Found(m, k + 1));
      assert WellFormedMatch(m);
      LaidOutAt(s, i, o, j, k);
    }
  }

  /** Brackets and parentheses at the right places lay out the match made
      of the two runs between them. */
  lemma LaidOutAt(s: string, i: nat, o: nat, j: nat, k: nat)
    requires i + o + 1 <= j && j + 2 <= k < |s|
    requires (o == 1 ==> s[i] == '!') && s[i + o] == '['
    requires s[j] == ']' && s[j + 1] == '(' && s[k] == ')'
    ensures var m := Match(s[i + o + 1..j], s[j + 2..k]);
      LaidOut(s, i, o, m) && k + 1 == i + o + |m.text| + |m.url| + 4
  {
    var m := Match(s[i + o + 1..j], s[j + 2..k]);
    assert i + o + 1 + |m.text| == j;
    assert j + 2 + |m.url| == k;
  }

  /** The run RunEnd skips holds neither of its two stop characters. */
  lemma {:induction false} RunExcludes(s: string, i: nat, a: char, b: char)
    requires i <= |s|
    ensures Excludes(s[i..RunEnd(s, i, a, b)], a, b)
    decreases |s| - i
  {
    var j := RunEnd(s, i, a, b);
    if i < |s| && s[i] != a && s[i] != b {
      RunExcludes(s, i + 1, a, b);
      forall q | 0 <= q < j - i ensures s[i..j][q] != a && s[i..j][q] != b {
        if q > 0 {
          assert s[i..j][q] == s[i + 1..j][q - 1];
        }
      }
    }
  }

  /** A match found by the scanner is well formed, and the text it spans is
      exactly the markup rebuilt from it. */
  lemma MatchAtSound(s: string, i: nat, st: Stage)
    requires !st.Delimiter? && i <= |s|
    ensures match MatchAt(s, i, st)
      case Some(f) =>
        && WellFormedMatch(f.m) && f.end == i + |MatchMarkup(st, f.m)| && OccursAt(s, MatchMarkup(st, f.m), i)
        && (st.Links? ==> i == 0 || s[i - 1] != '!')
      case None => true
  {
    if MatchAt(s, i, st).Some? {
      MatchAtOpens(s, i, st);
      GroupsAtMarkup(s, i, st);
    }
  }

  /** A match at `i` opens with the pattern's `[` (and `!` for an image). */
  lemma MatchAtOpens(s: string, i: nat, st: Stage)
    requires !st.Delimiter? && i <= |s| && MatchAt(s, i, st).Some?
    ensures i + Bang(st) + 1 <= |s| && s[i + Bang(st)] == '[' && (st.Images? ==> s[i] == '!')
    ensures st.Links? ==> i == 0 || s[i - 1] != '!'
    ensures MatchAt(s, i, st) == GroupsAt(s, i + Bang(st) + 1)
  {
  }

  /** What the groups after an opening `[` match is laid out as markup at `i`. */
  lemma GroupsAtMarkup(s: string, i: nat, st: Stage)
    requires !st.Delimiter? && i + Bang(st) + 1 <= |s|
    requires s[i + Bang(st)] == '[' && (st.Images? ==> s[i] == '!')
    ensures match GroupsAt(s, i + Bang(st) + 1)
      case Some(f) =>
        WellFormedMatch(f.m) && f.end == i + |MatchMarkup(st, f.m)| && OccursAt(s, MatchMarkup(st, f.m), i)
      case None => true
  {
    var o := Bang(st);
    GroupsAtSound(s, i, o);
    if GroupsAt(s, i + o + 1).Some? {
      var m := GroupsAt(s, i + o + 1).value.m;
      MarkupLayout(st, m);
      LaidOutOccurs(s, i, MatchMarkup(st, m), o, m);
    }
  }

  /** A run that avoids `a` and `b` and is closed by one of them ends where
      RunEnd says. */
  lemma {:induction false} RunEndAt(s: string, i: nat, j: nat, a: char, b: char)
    requires i <= j < |s| && Excludes(s[i..j], a, b) && (s[j] == a || s[j] == b)
    ensures RunEnd(s, i, a, b) == j
    decreases j - i
  {
    if i < j {
      assert s[i] == s[i..j][0];
      var rest := s[i + 1..j];
      assert Excludes(rest, a, b) by {
        forall q | 0 <= q < |rest| ensures rest[q] != a && rest[q] != b {
          assert rest[q] == s[i..j][q + 1];
        }
      }
      RunEndAt(s, i + 1, j, a, b);
    }
  }

  lemma GroupsAtLaidOut(s: string, i: nat, o: nat, m: Match)
    requires o <= 1 && WellFormedMatch(m) && LaidOut(s, i, o, m)
    ensures GroupsAt(s, i + o + 1) == Some(Found(m, i + o + |m.text| + |m.url| + 4))
  {
    var open := i + o + 1;
    var j := open + |m.text|;
    var k := j + 2 + |m.url|;
    RunEndAt(s, open, j, '[', ']');
    RunEndAt(s, j + 2, k, '(', ')');
  }

  lemma LaidOutOpen(s: string, i: nat, o: nat, m: Match)
    requires LaidOut(s, i, o, m)
    ensures i + o + 1 < |s| && s[i + o] == '[' && (o == 1 ==> s[i] == '!')
  {
  }

  /** Where the markup of a well-formed match stands at `i`, the groups
      after its `[` match it. */
  lemma GroupsAtOccurs(s: string, i: nat, st: Stage, m: Match)
    requires !st.Delimiter? && WellFormedMatch(m) && OccursAt(s, MatchMarkup(st, m), i)
    ensures i + Bang(st) + 1 < |s| && s[i + Bang(st)] == '[' && (st.Images? ==> s[i] == '!')
    ensures GroupsAt(s, i + Bang(st) + 1) == Some(Found(m, i + |MatchMarkup(st, m)|))
  {
    MarkupLayout(st, m);
    OccursLaidOut(s, i, MatchMarkup(st, m), Bang(st), m);
    GroupsAtLaidOut(s, i, Bang(st), m);
    LaidOutOpen(s, i, Bang(st), m);
  }

  /** Where the pattern of `st` opens at `i`, it matches what the groups match. */
  lemma MatchAtOpen(s: string, i: nat, st: Stage)
    requires !st.Delimiter? && i + Bang(st) + 1 < |s|
    requires s[i + Bang(st)] == '[' && (st.Images? ==> s[i] == '!')
    requires st.Links? ==> i == 0 || s[i - 1] != '!'
    ensures MatchAt(s, i, st) == GroupsAt(s, i + Bang(st) + 1)
  {
  }

  /** Conversely, the markup of a well-formed match standing at `i` (for a
      link: not right after a `!`) is what the scanner finds there. */
  lemma MatchAtComplete(s: string, i: nat, st: Stage, m: Match)
    requires !st.Delimiter? && i <= |s|
    requires WellFormedMatch(m) && OccursAt(s, MatchMarkup(st, m), i)
    requires st.Links? ==> i == 0 || s[i - 1] != '!'
    ensures MatchAt(s, i, st) == Some(Found(m, i + |MatchMarkup(st, m)|))
  {
    GroupsAtOccurs(s, i, st, m);
    MatchAtOpen(s, i, st);
  }

  /** The index of the first match at or after `i`, or `|s|` if there is none. */
  function NextMatch(s: string, i: nat, st: Stage): (p: nat)
    requires !st.Delimiter? && i <= |s|
    ensures i <= p <= |s|
    ensures p < |s| ==> MatchAt(s, p, st).Some?
    ensures forall q :: i <= q < p ==> MatchAt(s, q, st).None?
    decreases |s| - i
  {
    if i == |s| || MatchAt(s, i, st).Some? then i else NextMatch(s, i + 1, st)
  }

  /** Extraction finds the first match, then carries on just past it. */
  lemma {:induction false} ExtractFromNext(s: string, i: nat, st: Stage)
    requires !st.Delimiter? && i <= |s|
    ensures var p := NextMatch(s, i, st);
      ExtractFrom(s, i, st) ==
        if p == |s| then []
        else [MatchAt(s, p, st).value.m] + ExtractFrom(s, MatchAt(s, p, st).value.end, st)
    decreases |s| - i
  {
    if i < |s| && MatchAt(s, i, st).None? {
      ExtractFromNext(s, i + 1, st);
    }
  }

  /** Every extracted match is the markup of a well-formed match that stands
      in the string, at or after `i`. */
  lemma {:induction false} ExtractFromOccurs(s: string, i: nat, st: Stage)
    requires !st.Delimiter? && i <= |s|
    ensures forall k :: 0 <= k < |ExtractFrom(s, i, st)| ==>
      Contains(s, MatchMarkup(st, ExtractFrom(s, i, st)[k]))
    decreases |s| - i
  {
    ExtractFromNext(s, i, st);
    var p := NextMatch(s, i, st);
    if p < |s| {
      var f := MatchAt(s, p, st).value;
      MatchAtSound(s, p, st);
      ExtractFromOccurs(s, f.end, st);
      var rest := ExtractFrom(s, f.end, st);
      assert OccursAt(s, MatchMarkup(st, f.m), p);
      forall k | 0 <= k < |rest| + 1 ensures Contains(s, MatchMarkup(st, ([f.m] + rest)[k])) {
        if k > 0 {
          assert ([f.m] + rest)[k] == rest[k - 1];
        }
      }
    }
  }

  /** No image is extracted exactly when no well-formed image markup stands
      anywhere in the text. */
  lemma ExtractImagesNone(s: string)
    ensures ExtractMarkdownImages(s) == [] <==>
      forall i: nat, m :: WellFormedMatch(m) ==> !OccursAt(s, ImageMarkup(m.text, m.url), i)
  {
    ExtractNone(s, Images);
    forall m ensures MatchMarkup(Images, m) == ImageMarkup(m.text, m.url) { }
  }

  /** No link is extracted exactly when no well-formed link markup stands
      anywhere in the text, except right after a `!`. */
  lemma ExtractLinksNone(s: string)
    ensures ExtractMarkdownLinks(s) == [] <==>
      forall i: nat, m :: WellFormedMatch(m) && (i == 0 || (i <= |s| && s[i - 1] != '!')) ==>
        !OccursAt(s, LinkMarkup(m.text, m.url), i)
  {
    ExtractNone(s, Links);
    forall m ensures MatchMarkup(Links, m) == LinkMarkup(m.text, m.url) { }
  }

  lemma ExtractNone(s: string, st: Stage)
    requires !st.Delimiter?
    ensures ExtractFrom(s, 0, st) == [] <==>
      forall i: nat, m :: WellFormedMatch(m) && (st.Links? ==> i == 0 || (i <= |s| && s[i - 1] != '!')) ==>
        !OccursAt(s, MatchMarkup(st, m), i)
  {
    ExtractFromNext(s, 0, st);
    var p := NextMatch(s, 0, st);
    if p < |s| {
      MatchAtSound(s, p, st);
    } else {
      forall i: nat, m | WellFormedMatch(m) && (st.Links? ==> i == 0 || (i <= |s| && s[i - 1] != '!'))
        ensures !OccursAt(s, MatchMarkup(st, m), i)
      {
        if OccursAt(s, MatchMarkup(st, m), i) {
          MatchAtComplete(s, i, st, m);
        }
      }
    }
  }

  // ---------------------------------------------------------------------
  // Cutting a plain span around its matches

  /** A plain span for `s`, or nothing if `s` is empty. */
  function TextBefore(s: string): seq<TextNode> {
    if s == "" then [] else [TextNode(s, Text, None)]
  }

  /** The span a match becomes: an image (alt, url) or a link (text, url). */
  function MatchNode(st: Stage, m: Match): TextNode
    requires !st.Delimiter?
  {
    TextNode(m.text, StageType(st), Some(m.url))
  }

  /** Prefixes `xs` to a successful result. */
  function Prepend(xs: seq<TextNode>, r: Result<seq<TextNode>, string>): Result<seq<TextNode>, string> {
    match r
    case Success(ys) => Success(xs + ys)
    case Failure(e) => Failure(e)
  }

  /** The loop of split_nodes_image / split_nodes_link over the matches of
      one span: cut the remaining text at the FIRST LITERAL occurrence of
      the rebuilt markup, emit the part before it (if non-empty) and the
      match's span, and go on with the part after it. */
  function SplitAround(rest: string, ms: seq<Match>, st: Stage): Result<seq<TextNode>, string>
    requires !st.Delimiter?
    decreases |ms|
  {
    if ms == [] then Success(TextBefore(rest))
    else
      var sections := SplitOnce(rest, MatchMarkup(st, ms[0]));
      if |sections| != 2 then Failure(NotClosedError(st))
      else Prepend(TextBefore(sections[0]) + [MatchNode(st, ms[0])], SplitAround(sections[1], ms[1..], st))
  }

  /** What one stage makes of one span. */
  function SplitNode(st: Stage, node: TextNode): Result<seq<TextNode>, string>
    requires ValidStage(st)
  {
    if node.textType != Text then Success([node])
    else
      match st
      case Delimiter(d, t) =>
        var parts := Split(node.text, d);
        if |parts| % 2 == 0 then Failure(DelimiterError(d)) else Success(PartNodes(parts, t))
      case _ =>
        var ms := ExtractFrom(node.text, 0, st);
        if ms == [] then Success([node]) else SplitAround(node.text, ms, st)
  }

  /** What the stage makes of each span, in order. */
  function SplitEach(st: Stage, nodes: seq<TextNode>): seq<Result<seq<TextNode>, string>>
    requires ValidStage(st)
  {
    seq(|nodes|, k requires 0 <= k < |nodes| => SplitNode(st, nodes[k]))
  }

  /** The outputs of `rs` concatenated in order; the first error aborts. */
  function Gather(rs: seq<Result<seq<TextNode>, string>>): Result<seq<TextNode>, string>
    decreases |rs|
  {
    if rs == [] then Success([])
    else
      match Gather(rs[..|rs| - 1])
      case Failure(e) => Failure(e)
      case Success(prev) =>
        match rs[|rs| - 1]
        case Failure(e) => Failure(e)
        case Success(out) => Success(prev + out)
  }

  /** One stage over a span list: the spans each node becomes, in order;
      the first error aborts the whole stage. */
  function ApplyStage(st: Stage, nodes: seq<TextNode>): Result<seq<TextNode>, string>
    requires ValidStage(st)
  {
    Gather(SplitEach(st, nodes))
  }

  /** The stages run one after the other; the first error aborts. */
  function RunStages(stages: seq<Stage>, nodes: seq<TextNode>): Result<seq<TextNode>, string>
    requires forall k :: 0 <= k < |stages| ==> ValidStage(stages[k])
    decreases |stages|
  {
    if stages == [] then Success(nodes)
    else
      match ApplyStage(stages[0], nodes)
      case Failure(e) => Failure(e)
      case Success(next) => RunStages(stages[1..], next)
  }

  /** text_to_textnode. It fails only with one of the three delimiter
      errors: an image or link whose markup cannot be found again never
      occurs. */
  function TextToTextNodes(text: string): (r: Result<seq<TextNode>, string>)
    ensures r.Failure? ==> r.error in {DelimiterError("**"), DelimiterError("*"), DelimiterError("`")}
  {
    InlineStagesErrors([TextNode(text, Text, None)]);
    RunStages(InlineStages, [TextNode(text, Text, None)])
  }

  // ---------------------------------------------------------------------
  // What the delimiter stage does to one plain span

  /** Every span made from the pieces of a split has text, no url, and is
      plain or of the stage's kind. */
  lemma {:induction false} PartNodesSpans(parts: seq<string>, t: TextType)
    ensures forall n | n in PartNodes(parts, t) ::
      n.text != "" && n.url == None && (n.textType == Text || n.textType == t)
    decreases |parts|
  {
    if parts != [] {
      PartNodesSpans(parts[..|parts| - 1], t);
    }
  }

  /** The texts of the spans are the pieces, empty pieces dropped. */
  lemma {:induction false} PartNodesTexts(parts: seq<string>, t: TextType)
    ensures Concat(TextsOf(PartNodes(parts, t))) == Concat(parts)
    decreases |parts|
  {
    if parts != [] {
      var init := parts[..|parts| - 1];
      var last := parts[|parts| - 1];
      PartNodesTexts(init, t);
      TextsOfAppend(PartNodes(init, t), PartNode(last, |parts| - 1, t));
      ConcatAppend(TextsOf(PartNodes(init, t)), TextsOf(PartNode(last, |parts| - 1, t)));
      if last != "" {
        assert Concat([last]) == Concat([]) + last;
      }
    }
  }

  /** A piece at an odd position is a delimited section. */
  predicate OddPiecesNonEmpty(parts: seq<string>) {
    forall k :: 0 <= k < |parts| && k % 2 == 1 ==> Piece(parts, k) != ""
  }

  /** The `k`-th piece, named so that the property above is only applied
      where a proof asks for it. */
  function Piece(parts: seq<string>, k: nat): string
    requires k < |parts|
  {
    parts[k]
  }

  /** Re-marking the formatted spans of an odd number of pieces rebuilds
      the joined pieces. */
  lemma {:induction false} PartNodesMarkup(parts: seq<string>, t: TextType)
    requires t == Bold || t == Italic || t == Code
    requires OddPiecesNonEmpty(parts) && |parts| % 2 == 1
    ensures MarkupOf(PartNodes(parts, t)) == Join(parts, Marker(t))
    decreases |parts|
  {
    var n := |parts| - 1;
    PartNodesSnocMarkup(parts, t);
    PartNodeMarkup(parts[n], n, t);
    if n == 0 {
      PartNodesEmptyMarkup(parts[..n], t);
      assert Join(parts, Marker(t)) == parts[n];
    } else {
      OddPiecesPrefix(parts, n);
      Parity(n);
      PartNodesMarkupOpen(parts[..n], t);
      JoinSnoc(parts, Marker(t));
      ClosedAlgebra(MarkupOf(PartNodes(parts[..n], t)), Join(parts[..n], Marker(t)), Marker(t), parts[n]);
    }
  }

  /** After an even number of pieces, one delimiter is still open. */
  lemma {:induction false} PartNodesMarkupOpen(parts: seq<string>, t: TextType)
    requires t == Bold || t == Italic || t == Code
    requires OddPiecesNonEmpty(parts) && |parts| % 2 == 0 && parts != []
    ensures MarkupOf(PartNodes(parts, t)) == Join(parts, Marker(t)) + Marker(t)
    decreases |parts|
  {
    var n := |parts| - 1;
    PartNodesSnocMarkup(parts, t);
    assert Piece(parts, n) != "";
    PartNodeMarkup(parts[n], n, t);
    OddPiecesPrefix(parts, n);
    Parity(n);
    PartNodesMarkup(parts[..n], t);
    JoinSnoc(parts, Marker(t));
    OpenAlgebra(Join(parts[..n], Marker(t)), Marker(t), parts[n]);
  }

  lemma Parity(n: nat)
    ensures (n + 1) % 2 == 1 <==> n % 2 == 0
  {
  }

  lemma ClosedAlgebra(m: string, j: string, d: string, last: string)
    requires m == j + d
    ensures m + last == j + d + last
  {
  }

  lemma OpenAlgebra(j: string, d: string, last: string)
    ensures j + (d + last + d) == j + d + last + d
  {
    AppendAssoc(j, d + last, d);
    AppendAssoc(j, d, last);
  }

  lemma OddPiecesPrefix(parts: seq<string>, n: nat)
    requires n <= |parts| && OddPiecesNonEmpty(parts)
    ensures OddPiecesNonEmpty(parts[..n])
  {
    forall k | 0 <= k < n && k % 2 == 1 ensures Piece(parts[..n], k) != "" {
      assert Piece(parts[..n], k) == Piece(parts, k);
    }
  }

  lemma PartNodesEmptyMarkup(parts: seq<string>, t: TextType)
    requires parts == []
    ensures MarkupOf(PartNodes(parts, t)) == ""
  {
    assert MarkupOf([]) == "";
  }

  lemma PartNodesSnocMarkup(parts: seq<string>, t: TextType)
    requires parts != []
    ensures var n := |parts| - 1;
      MarkupOf(PartNodes(parts, t)) == MarkupOf(PartNodes(parts[..n], t)) + MarkupOf(PartNode(parts[n], n, t))
  {
    var n := |parts| - 1;
    MarkupOfAppend(PartNodes(parts[..n], t), PartNode(parts[n], n, t));
  }

  /** The markup of one piece's span: the piece itself at an even position,
      the piece between markers at an odd one. */
  lemma PartNodeMarkup(part: string, k: nat, t: TextType)
    requires t == Bold || t == Italic || t == Code
    requires k % 2 == 1 ==> part != ""
    ensures MarkupOf(PartNode(part, k, t)) == if k % 2 == 0 then part else Marker(t) + part + Marker(t)
  {
    if part == "" {
      assert MarkupOf([]) == "";
    } else {
      MarkupOfSingle(TextNode(part, if k % 2 == 0 then Text else t, None));
      if k % 2 == 1 {
        MarkupFormatted(part, t);
      }
    }
  }

  /** The delimiter stage on one plain span fails, with the delimiter's
      error, exactly when the delimiter occurs an odd number of times. */
  lemma SplitDelimiterFails(node: TextNode, d: string, t: TextType)
    requires node.textType == Text && d != ""
    ensures SplitNode(Delimiter(d, t), node) ==
      if Count(node.text, d) % 2 == 1 then Failure(DelimiterError(d))
      else Success(PartNodes(Split(node.text, d), t))
  {
    SplitCount(node.text, d);
  }

  /** When it succeeds, its spans have text and no url, are plain or of the
      stage's kind, and their texts glued together are the span's text with
      every delimiter removed. */
  lemma SplitDelimiterSpans(node: TextNode, d: string, t: TextType)
    requires node.textType == Text && d != ""
    requires SplitNode(Delimiter(d, t), node).Success?
    ensures var out := SplitNode(Delimiter(d, t), node).value;
      && Concat(TextsOf(out)) == RemoveAll(node.text, d)
      && forall n | n in out :: n.text != "" && n.url == None && (n.textType == Text || n.textType == t)
  {
    var parts := Split(node.text, d);
    SplitDelimiterFails(node, d, t);
    PartNodesSpans(parts, t);
    PartNodesTexts(parts, t);
    SplitConcat(node.text, d);
  }

  /** Round trip of the delimiter stage on one plain span: when the
      delimiter is the stage kind's own marker and no delimited section is
      empty, re-marking the spans gives back the text. */
  lemma SplitDelimiterMarkup(node: TextNode, t: TextType)
    requires node.textType == Text
    requires t == Bold || t == Italic || t == Code
    requires OddPiecesNonEmpty(Split(node.text, Marker(t)))
    requires SplitNode(Delimiter(Marker(t), t), node).Success?
    ensures MarkupOf(SplitNode(Delimiter(Marker(t), t), node).value) == node.text
  {
    PartNodesMarkup(Split(node.text, Marker(t)), t);
    SplitJoin(node.text, Marker(t));
  }

  /** A plain span without the delimiter comes back as it is. */
  lemma SplitDelimiterAbsent(node: TextNode, d: string, t: TextType)
    requires node.textType == Text && node.url == None && node.text != "" && d != ""
    requires !Contains(node.text, d)
    ensures SplitNode(Delimiter(d, t), node) == Success([node])
  {
    assert Split(node.text, d) == [node.text];
    assert [node.text][..0] == [];
    assert PartNodes([node.text], t) == PartNode(node.text, 0, t) == [node];
  }

  // ---------------------------------------------------------------------
  // What the image and link stages do to one plain span

  /** The spans made from the matches, in order. */
  function MatchNodes(st: Stage, ms: seq<Match>): seq<TextNode>
    requires !st.Delimiter?
  {
    seq(|ms|, k requires 0 <= k < |ms| => MatchNode(st, ms[k]))
  }

  lemma MatchNodeMarkup(st: Stage, m: Match)
    requires !st.Delimiter?
    ensures Markup(MatchNode(st, m)) == MatchMarkup(st, m)
  {
  }

  /** What follows the first occurrence of `t` in `s[o..]`, when `t` also
      occurs at `p`, is a suffix of `s` that starts no later than `p + |t|`. */
  lemma SplitOnceAt(s: string, o: nat, p: nat, t: string)
    requires |t| > 0 && o <= p && OccursAt(s, t, p)
    ensures var sections := SplitOnce(s[o..], t);
      && |sections| == 2
      && o + |sections[0]| + |t| <= p + |t|
      && sections[1] == s[o + |sections[0]| + |t|..]
  {
    assert s[o..][p - o..p - o + |t|] == s[p..p + |t|];
    assert OccursAt(s[o..], t, p - o);
    var sections := SplitOnce(s[o..], t);
    assert |sections[0]| <= p - o;
    var c := o + |sections[0]| + |t|;
    assert s[o..] == sections[0] + t + sections[1];
    assert s[o..][|sections[0]| + |t|..] == sections[1];
  }

  /** The image and link stages never fail: each match the scanner found
      is still present in the text that remains when its turn comes, at or
      before the place it was found. */
  lemma {:induction false} SplitAroundSucceeds(s: string, o: nat, i: nat, st: Stage)
    requires !st.Delimiter? && o <= i <= |s|
    ensures SplitAround(s[o..], ExtractFrom(s, i, st), st).Success?
    decreases |s| - i
  {
    ExtractFromNext(s, i, st);
    if NextMatch(s, i, st) < |s| {
      var f, o' := NextCut(s, o, i, st);
      SplitAroundSucceeds(s, o', f.end, st);
      SucceedsStep(s[o..], f.m, ExtractFrom(s, f.end, st), st, s[o'..]);
    }
  }

  /** The first match at or after `i`, and where the text resumes after
      cutting its markup out of `s[o..]`: no later than the match ends. */
  lemma NextCut(s: string, o: nat, i: nat, st: Stage) returns (f: Found, o': nat)
    requires !st.Delimiter? && o <= i <= |s| && NextMatch(s, i, st) < |s|
    ensures i < f.end <= |s| && o' <= f.end
    ensures ExtractFrom(s, i, st) == [f.m] + ExtractFrom(s, f.end, st)
    ensures var sections := SplitOnce(s[o..], MatchMarkup(st, f.m));
      |sections| == 2 && sections[1] == s[o'..]
  {
    var p;
    f, p := FirstMatch(s, i, st);
    var t := MatchMarkup(st, f.m);
    SplitOnceAt(s, o, p, t);
    o' := o + |SplitOnce(s[o..], t)[0]| + |t|;
  }

  /** The first match at or after `i`: where its markup stands, and that
      extraction starts with it. */
  lemma FirstMatch(s: string, i: nat, st: Stage) returns (f: Found, p: nat)
    requires !st.Delimiter? && i <= |s| && NextMatch(s, i, st) < |s|
    ensures i <= p && f.end == p + |MatchMarkup(st, f.m)| <= |s|
    ensures OccursAt(s, MatchMarkup(st, f.m), p)
    ensures ExtractFrom(s, i, st) == [f.m] + ExtractFrom(s, f.end, st)
  {
    ExtractFromNext(s, i, st);
    p := NextMatch(s, i, st);
    f := MatchAt(s, p, st).value;
    MatchAtSound(s, p, st);
  }

  /** The split goes through the first match when its markup is found and
      the rest of the split goes through. */
  lemma SucceedsStep(rest: string, m: Match, ms: seq<Match>, st: Stage, after: string)
    requires !st.Delimiter?
    requires |SplitOnce(rest, MatchMarkup(st, m))| == 2 && SplitOnce(rest, MatchMarkup(st, m))[1] == after
    requires SplitAround(after, ms, st).Success?
    ensures SplitAround(rest, [m] + ms, st).Success?
  {
    assert ([m] + ms)[0] == m && ([m] + ms)[1..] == ms;
  }

  /** One step of the split, when the first match's markup is found. */
  lemma SplitAroundStep(rest: string, ms: seq<Match>, st: Stage)
    requires !st.Delimiter? && ms != []
    requires |SplitOnce(rest, MatchMarkup(st, ms[0]))| == 2
    ensures var sections := SplitOnce(rest, MatchMarkup(st, ms[0]));
      SplitAround(rest, ms, st) ==
        Prepend(TextBefore(sections[0]) + [MatchNode(st, ms[0])], SplitAround(sections[1], ms[1..], st))
  {
  }

  /** Round trip of the image and link split: re-marking the spans gives
      back the text. */
  lemma {:induction false} SplitAroundMarkup(rest: string, ms: seq<Match>, st: Stage)
    requires !st.Delimiter? && SplitAround(rest, ms, st).Success?
    ensures MarkupOf(SplitAround(rest, ms, st).value) == rest
    decreases |ms|
  {
    if ms == [] {
      if rest != "" {
        MarkupOfSingle(TextNode(rest, Text, None));
      }
    } else {
      var t := MatchMarkup(st, ms[0]);
      var sections := SplitOnce(rest, t);
      var head := TextBefore(sections[0]) + [MatchNode(st, ms[0])];
      var tail := SplitAround(sections[1], ms[1..], st).value;
      SplitAroundMarkup(sections[1], ms[1..], st);
      MarkupOfAppend(head, tail);
      MarkupOfAppend(TextBefore(sections[0]), [MatchNode(st, ms[0])]);
      MarkupOfSingle(MatchNode(st, ms[0]));
      MatchNodeMarkup(st, ms[0]);
      if sections[0] != "" {
        MarkupOfSingle(TextNode(sections[0], Text, None));
      }
    }
  }

  /** The spans of the split are well formed, and plain or of the stage's kind. */
  lemma {:induction false} SplitAroundKinds(rest: string, ms: seq<Match>, st: Stage)
    requires !st.Delimiter? && SplitAround(rest, ms, st).Success?
    ensures forall n | n in SplitAround(rest, ms, st).value ::
      WellFormedSpan(n) && (n.textType == Text || n.textType == StageType(st))
    decreases |ms|
  {
    if ms == [] {
      TextBeforeSpans(rest);
    } else {
      var sections := SplitOnce(rest, MatchMarkup(st, ms[0]));
      var before := TextBefore(sections[0]);
      var node := MatchNode(st, ms[0]);
      SplitAroundStep(rest, ms, st);
      var tail := SplitAround(sections[1], ms[1..], st).value;
      assert SplitAround(rest, ms, st).value == before + [node] + tail;
      SplitAroundKinds(sections[1], ms[1..], st);
      TextBeforeSpans(sections[0]);
      assert WellFormedSpan(node);
    }
  }

  lemma TextBeforeSpans(s: string)
    ensures forall n | n in TextBefore(s) :: WellFormedSpan(n) && n.textType == Text
  {
  }

  /** The spans of the stage's kind in the split are exactly the matches, in order. */
  lemma {:induction false} SplitAroundMatches(rest: string, ms: seq<Match>, st: Stage)
    requires !st.Delimiter? && SplitAround(rest, ms, st).Success?
    ensures OfKind(SplitAround(rest, ms, st).value, StageType(st)) == MatchNodes(st, ms)
    decreases |ms|
  {
    if ms == [] {
      assert OfKind(TextBefore(rest), StageType(st)) == [];
    } else {
      var sections := SplitOnce(rest, MatchMarkup(st, ms[0]));
      SplitAroundStep(rest, ms, st);
      SplitAroundMatches(sections[1], ms[1..], st);
      MatchesStep(rest, ms, st);
    }
  }

  /** One step of the above, given what the rest of the split selects. */
  lemma MatchesStep(rest: string, ms: seq<Match>, st: Stage)
    requires !st.Delimiter? && ms != []
    requires var sections := SplitOnce(rest, MatchMarkup(st, ms[0]));
      && |sections| == 2
      && SplitAround(sections[1], ms[1..], st).Success?
      && OfKind(SplitAround(sections[1], ms[1..], st).value, StageType(st)) == MatchNodes(st, ms[1..])
    ensures SplitAround(rest, ms, st).Success?
    ensures OfKind(SplitAround(rest, ms, st).value, StageType(st)) == MatchNodes(st, ms)
  {
    var sections := SplitOnce(rest, MatchMarkup(st, ms[0]));
    var before := TextBefore(sections[0]);
    var node := MatchNode(st, ms[0]);
    SplitAroundStep(rest, ms, st);
    var tail := SplitAround(sections[1], ms[1..], st).value;
    assert SplitAround(rest, ms, st).value == before + [node] + tail;
    OfKindPastPlain(before, node, tail);
    MatchNodesCons(st, ms);
  }

  lemma MatchNodesCons(st: Stage, ms: seq<Match>)
    requires !st.Delimiter? && ms != []
    ensures MatchNodes(st, ms) == [MatchNode(st, ms[0])] + MatchNodes(st, ms[1..])
  {
  }

  /** Selecting a non-plain kind skips a plain prefix. */
  lemma OfKindPastPlain(before: seq<TextNode>, node: TextNode, tail: seq<TextNode>)
    requires node.textType != Text
    requires forall n | n in before :: n.textType == Text
    ensures OfKind(before + [node] + tail, node.textType) == [node] + OfKind(tail, node.textType)
  {
    var t := node.textType;
    OfKindAppend(before + [node], tail, t);
    OfKindAppend(before, [node], t);
    OfKindNone(before, t);
    assert OfKind([node], t) == [node] by {
      assert [node][..0] == [];
    }
  }

  /** The image and link stages never fail on a plain span. */
  lemma SplitMarkupSucceeds(node: TextNode, st: Stage)
    requires !st.Delimiter? && node.textType == Text
    ensures SplitNode(st, node).Success?
  {
    if ExtractFrom(node.text, 0, st) != [] {
      assert node.text[0..] == node.text;
      SplitAroundSucceeds(node.text, 0, 0, st);
    }
  }

  /** Round trip of the image or link stage on one plain span: re-marking
      its spans gives back the text. */
  lemma SplitMarkupRoundTrip(node: TextNode, st: Stage)
    requires !st.Delimiter? && node.textType == Text
    ensures SplitNode(st, node).Success? && MarkupOf(SplitNode(st, node).value) == node.text
  {
    SplitMarkupSucceeds(node, st);
    var ms := ExtractFrom(node.text, 0, st);
    if ms == [] {
      MarkupOfSingle(node);
    } else {
      SplitAroundMarkup(node.text, ms, st);
    }
  }

  /** The spans of the stage's kind made from one plain span are exactly
      the matches extracted from its text, in order; the other spans are
      plain. */
  lemma SplitMarkupMatches(node: TextNode, st: Stage)
    requires !st.Delimiter? && node.textType == Text
    ensures SplitNode(st, node).Success?
    ensures var out := SplitNode(st, node).value;
      && (forall n | n in out :: n.textType == Text || n.textType == StageType(st))
      && OfKind(out, StageType(st)) == MatchNodes(st, ExtractFrom(node.text, 0, st))
  {
    SplitMarkupSucceeds(node, st);
    var ms := ExtractFrom(node.text, 0, st);
    if ms == [] {
      assert OfKind([node], StageType(st)) == [] by {
        assert [node][..0] == [];
      }
    } else {
      SplitAroundKinds(node.text, ms, st);
      SplitAroundMatches(node.text, ms, st);
    }
  }

  /** A well-formed plain span yields well-formed spans. */
  lemma SplitMarkupSpans(node: TextNode, st: Stage)
    requires !st.Delimiter? && node.textType == Text && WellFormedSpan(node)
    ensures SplitNode(st, node).Success?
    ensures forall n | n in SplitNode(st, node).value :: WellFormedSpan(n)
  {
    SplitMarkupSucceeds(node, st);
    var ms := ExtractFrom(node.text, 0, st);
    if ms != [] {
      SplitAroundKinds(node.text, ms, st);
    }
  }

  // ---------------------------------------------------------------------
  // A whole stage

  /** Index of the first error in `rs` at or after `i`, or `|rs|`. */
  function FirstError(rs: seq<Result<seq<TextNode>, string>>, i: nat): (k: nat)
    requires i <= |rs|
    ensures i <= k <= |rs|
    ensures k < |rs| ==> rs[k].Failure?
    ensures forall j :: i <= j < k ==> rs[j].Success?
    decreases |rs| - i
  {
    if i == |rs| || rs[i].Failure? then i else FirstError(rs, i + 1)
  }

  /** Gathering fails exactly when some result is an error, and then with
      the first one. */
  lemma {:induction false} GatherFailure(rs: seq<Result<seq<TextNode>, string>>)
    ensures var k := FirstError(rs, 0);
      && (Gather(rs).Failure? <==> k < |rs|)
      && (k < |rs| ==> Gather(rs).error == rs[k].error)
    decreases |rs|
  {
    if rs != [] {
      var n := |rs| - 1;
      var init := rs[..n];
      GatherFailure(init);
      var k0 := FirstError(init, 0);
      var k := FirstError(rs, 0);
      if k0 < n {
        forall j | 0 <= j <= k0 ensures init[j] == rs[j] { }
        assert k == k0;
      } else {
        forall j | 0 <= j < n ensures rs[j].Success? {
          assert init[j] == rs[j];
        }
        assert k >= n;
      }
    }
  }

  lemma {:induction false} GatherSticks(rs: seq<Result<seq<TextNode>, string>>, i: nat)
    requires i <= |rs| && Gather(rs[..i]).Failure?
    ensures Gather(rs) == Gather(rs[..i])
    decreases |rs| - i
  {
    if i < |rs| {
      assert rs[..i + 1][..i] == rs[..i];
      GatherSticks(rs, i + 1);
    } else {
      assert rs[..i] == rs;
    }
  }

  lemma SplitEachPrefix(st: Stage, nodes: seq<TextNode>, i: nat)
    requires ValidStage(st) && i <= |nodes|
    ensures SplitEach(st, nodes[..i]) == SplitEach(st, nodes)[..i]
  {
  }

  /** A stage fails exactly when one of its spans cannot be split, and then
      with the error of the first such span. */
  lemma ApplyStageFailure(st: Stage, nodes: seq<TextNode>)
    requires ValidStage(st)
    ensures var k := FirstError(SplitEach(st, nodes), 0);
      && (ApplyStage(st, nodes).Failure? <==> k < |nodes|)
      && (k < |nodes| ==> SplitNode(st, nodes[k]).Failure? &&
                          ApplyStage(st, nodes).error == SplitNode(st, nodes[k]).error)
  {
    GatherFailure(SplitEach(st, nodes));
  }

  /** Once the stage has failed on a prefix, it fails on the whole list
      with the same error. */
  lemma FailureSticks(st: Stage, nodes: seq<TextNode>, i: nat)
    requires ValidStage(st) && i <= |nodes| && ApplyStage(st, nodes[..i]).Failure?
    ensures ApplyStage(st, nodes) == ApplyStage(st, nodes[..i])
  {
    SplitEachPrefix(st, nodes, i);
    GatherSticks(SplitEach(st, nodes), i);
  }

  /** What the stage makes of one more span. */
  lemma ApplyStageSnoc(st: Stage, nodes: seq<TextNode>, node: TextNode)
    requires ValidStage(st)
    ensures ApplyStage(st, nodes + [node]) ==
      match ApplyStage(st, nodes)
      case Failure(e) => Failure(e)
      case Success(prev) =>
        match SplitNode(st, node)
        case Failure(e) => Failure(e)
        case Success(out) => Success(prev + out)
  {
    var rs := SplitEach(st, nodes + [node]);
    assert rs[..|nodes|] == SplitEach(st, nodes);
    assert rs[|nodes|] == SplitNode(st, node);
  }

  /** All spans well formed. */
  predicate AllWellFormed(nodes: seq<TextNode>) {
    forall n | n in nodes :: WellFormedSpan(n)
  }

  /** A span a stage may be handed: well formed, or (for the delimiter
      stages) plain with any text, as the first stage is handed the whole
      input. */
  predicate Acceptable(st: Stage, n: TextNode) {
    WellFormedSpan(n) || (st.Delimiter? && n.textType == Text)
  }

  /** A stage turns acceptable spans into well-formed ones, provided a
      delimiter stage makes formatted spans and not links or images. */
  lemma SplitNodeSpans(st: Stage, node: TextNode)
    requires ValidStage(st) && Acceptable(st, node)
    requires st.Delimiter? ==> st.textType != Link && st.textType != Image
    requires SplitNode(st, node).Success?
    ensures AllWellFormed(SplitNode(st, node).value)
  {
    if node.textType == Text {
      if st.Delimiter? {
        SplitDelimiterSpans(node, st.delim, st.textType);
      } else {
        SplitMarkupSpans(node, st);
      }
    }
  }

  lemma {:induction false} ApplyStageSpans(st: Stage, nodes: seq<TextNode>)
    requires ValidStage(st) && (st.Delimiter? ==> st.textType != Link && st.textType != Image)
    requires forall n | n in nodes :: Acceptable(st, n)
    requires ApplyStage(st, nodes).Success?
    ensures AllWellFormed(ApplyStage(st, nodes).value)
    decreases |nodes|
  {
    if nodes != [] {
      var n := |nodes| - 1;
      assert nodes == nodes[..n] + [nodes[n]];
      ApplyStageSnoc(st, nodes[..n], nodes[n]);
      ApplyStageSpans(st, nodes[..n]);
      SplitNodeSpans(st, nodes[n]);
    }
  }

  /** A stage passes every non-plain span through, and splits a plain one
      into plain spans and spans of its own kind. */
  lemma SplitNodeKinds(st: Stage, node: TextNode)
    requires ValidStage(st) && SplitNode(st, node).Success?
    ensures node.textType != Text ==> SplitNode(st, node).value == [node]
    ensures node.textType == Text ==>
      forall n | n in SplitNode(st, node).value :: n.textType == Text || n.textType == StageType(st)
  {
    if node.textType == Text {
      if st.Delimiter? {
        SplitDelimiterSpans(node, st.delim, st.textType);
      } else {
        SplitMarkupMatches(node, st);
      }
    }
  }

  /** A stage keeps the spans of every kind other than plain text and its
      own, in order. */
  lemma {:induction false} ApplyStageKeeps(st: Stage, nodes: seq<TextNode>, t: TextType)
    requires ValidStage(st) && t != Text && t != StageType(st)
    requires ApplyStage(st, nodes).Success?
    ensures OfKind(ApplyStage(st, nodes).value, t) == OfKind(nodes, t)
    decreases |nodes|
  {
    if nodes != [] {
      var n := |nodes| - 1;
      var node := nodes[n];
      assert nodes == nodes[..n] + [node];
      ApplyStageSnoc(st, nodes[..n], node);
      ApplyStageKeeps(st, nodes[..n], t);
      var out := SplitNode(st, node).value;
      OfKindAppend(ApplyStage(st, nodes[..n]).value, out, t);
      OfKindAppend(nodes[..n], [node], t);
      SplitNodeKinds(st, node);
      if node.textType == Text {
        OfKindNone(out, t);
        OfKindNone([node], t);
      }
    }
  }

  /** Re-marking is preserved span by span, hence for the whole stage. */
  lemma {:induction false} ApplyStageMarkup(st: Stage, nodes: seq<TextNode>)
    requires ValidStage(st) && ApplyStage(st, nodes).Success?
    requires forall n | n in nodes :: SplitNode(st, n).Success? ==> MarkupOf(SplitNode(st, n).value) == Markup(n)
    ensures MarkupOf(ApplyStage(st, nodes).value) == MarkupOf(nodes)
    decreases |nodes|
  {
    if nodes != [] {
      var n := |nodes| - 1;
      var node := nodes[n];
      assert nodes == nodes[..n] + [node];
      ApplyStageSnoc(st, nodes[..n], node);
      ApplyStageMarkup(st, nodes[..n]);
      MarkupOfAppend(ApplyStage(st, nodes[..n]).value, SplitNode(st, node).value);
      MarkupOfAppend(nodes[..n], [node]);
      MarkupOfSingle(node);
    }
  }

  /** Round trip of the image and link stages: they never fail, and
      re-marking their output gives back the markdown of their input. */
  lemma MarkupStageRoundTrip(st: Stage, nodes: seq<TextNode>)
    requires !st.Delimiter?
    ensures ApplyStage(st, nodes).Success?
    ensures MarkupOf(ApplyStage(st, nodes).value) == MarkupOf(nodes)
  {
    forall n | n in nodes ensures SplitNode(st, n).Success? && MarkupOf(SplitNode(st, n).value) == Markup(n) {
      if n.textType == Text {
        SplitMarkupRoundTrip(n, st);
        MarkupPlain(n);
      } else {
        MarkupOfSingle(n);
      }
    }
    ApplyStageFailure(st, nodes);
    ApplyStageMarkup(st, nodes);
  }

  /** Round trip of a delimiter stage: when it succeeds and no plain span
      holds an empty delimited section, re-marking its output gives back
      the markdown of its input. */
  lemma DelimiterStageRoundTrip(t: TextType, nodes: seq<TextNode>)
    requires t == Bold || t == Italic || t == Code
    requires forall n | n in nodes && n.textType == Text :: OddPiecesNonEmpty(Split(n.text, Marker(t)))
    requires ApplyStage(Delimiter(Marker(t), t), nodes).Success?
    ensures MarkupOf(ApplyStage(Delimiter(Marker(t), t), nodes).value) == MarkupOf(nodes)
  {
    var st := Delimiter(Marker(t), t);
    forall n | n in nodes && SplitNode(st, n).Success?
      ensures MarkupOf(SplitNode(st, n).value) == Markup(n)
    {
      if n.textType == Text {
        SplitDelimiterMarkup(n, t);
        MarkupPlain(n);
      } else {
        MarkupOfSingle(n);
      }
    }
    ApplyStageMarkup(st, nodes);
  }

  /** Only a delimiter stage can fail, and only with its own error. */
  lemma ApplyStageError(st: Stage, nodes: seq<TextNode>)
    requires ValidStage(st) && ApplyStage(st, nodes).Failure?
    ensures st.Delimiter? && ApplyStage(st, nodes).error == DelimiterError(st.delim)
  {
    ApplyStageFailure(st, nodes);
    var node := nodes[FirstError(SplitEach(st, nodes), 0)];
    if st.Delimiter? {
      SplitDelimiterFails(node, st.delim, st.textType);
    } else {
      SplitMarkupSucceeds(node, st);
    }
  }

  lemma ApplyStageSingle(st: Stage, node: TextNode)
    requires ValidStage(st)
    ensures ApplyStage(st, [node]) == SplitNode(st, node)
  {
    assert SplitEach(st, [node]) == [SplitNode(st, node)];
    GatherSingle(SplitNode(st, node));
  }

  lemma GatherSingle(r: Result<seq<TextNode>, string>)
    ensures Gather([r]) == r
  {
    assert [r][..0] == [];
    if r.Success? {
      assert [] + r.value == r.value;
    }
  }

  // ---------------------------------------------------------------------
  // The pipeline

  /** Running `a` and then `b` is running `a + b`. */
  lemma {:induction false} RunStagesAppend(a: seq<Stage>, b: seq<Stage>, nodes: seq<TextNode>)
    requires forall k :: 0 <= k < |a| ==> ValidStage(a[k])
    requires forall k :: 0 <= k < |b| ==> ValidStage(b[k])
    ensures forall k :: 0 <= k < |a + b| ==> ValidStage((a + b)[k])
    ensures RunStages(a + b, nodes) ==
      match RunStages(a, nodes)
      case Failure(e) => Failure(e)
      case Success(mid) => RunStages(b, mid)
    decreases |a|
  {
    assert forall k :: 0 <= k < |a + b| ==> ValidStage((a + b)[k]) by {
      forall k | 0 <= k < |a + b| ensures ValidStage((a + b)[k]) {
        if k >= |a| {
          assert (a + b)[k] == b[k - |a|];
        }
      }
    }
    if a == [] {
      assert a + b == b;
    } else {
      assert (a + b)[1..] == a[1..] + b;
      var r := ApplyStage(a[0], nodes);
      if r.Success? {
        RunStagesAppend(a[1..], b, r.value);
      }
    }
  }

  /** Every error of the stages is the error of a delimiter stage among them. */
  lemma {:induction false} RunStagesError(stages: seq<Stage>, nodes: seq<TextNode>)
    requires forall k :: 0 <= k < |stages| ==> ValidStage(stages[k])
    requires RunStages(stages, nodes).Failure?
    ensures exists k :: (0 <= k < |stages| && stages[k].Delimiter? &&
      RunStages(stages, nodes).error == DelimiterError(stages[k].delim))
    decreases |stages|
  {
    var r := ApplyStage(stages[0], nodes);
    if r.Failure? {
      ApplyStageError(stages[0], nodes);
    } else {
      RunStagesError(stages[1..], r.value);
      var k :| 0 <= k < |stages[1..]| && stages[1..][k].Delimiter? &&
        RunStages(stages[1..], r.value).error == DelimiterError(stages[1..][k].delim);
      assert stages[k + 1] == stages[1..][k];
    }
  }

  /** The stages keep well-formed spans well formed. */
  lemma {:induction false} RunStagesSpans(stages: seq<Stage>, nodes: seq<TextNode>)
    requires forall k :: 0 <= k < |stages| ==> ValidStage(stages[k])
    requires forall k :: 0 <= k < |stages| && stages[k].Delimiter? ==>
      stages[k].textType != Link && stages[k].textType != Image
    requires AllWellFormed(nodes) && RunStages(stages, nodes).Success?
    ensures AllWellFormed(RunStages(stages, nodes).value)
    decreases |stages|
  {
    if stages != [] {
      ApplyStageSpans(stages[0], nodes);
      var next := ApplyStage(stages[0], nodes).value;
      assert forall k :: 0 <= k < |stages[1..]| ==> stages[1..][k] == stages[k + 1];
      RunStagesSpans(stages[1..], next);
    }
  }

  /** The stages keep, in order, the spans of a kind none of them makes. */
  lemma {:induction false} RunStagesKeeps(stages: seq<Stage>, nodes: seq<TextNode>, t: TextType)
    requires forall k :: 0 <= k < |stages| ==> ValidStage(stages[k]) && StageType(stages[k]) != t
    requires t != Text && RunStages(stages, nodes).Success?
    ensures OfKind(RunStages(stages, nodes).value, t) == OfKind(nodes, t)
    decreases |stages|
  {
    if stages != [] {
      ApplyStageKeeps(stages[0], nodes, t);
      var next := ApplyStage(stages[0], nodes).value;
      assert forall k :: 0 <= k < |stages[1..]| ==> stages[1..][k] == stages[k + 1];
      RunStagesKeeps(stages[1..], next, t);
    }
  }

  lemma InlineStagesErrors(nodes: seq<TextNode>)
    ensures var r := RunStages(InlineStages, nodes);
      r.Failure? ==> r.error in {DelimiterError("**"), DelimiterError("*"), DelimiterError("`")}
  {
    if RunStages(InlineStages, nodes).Failure? {
      RunStagesError(InlineStages, nodes);
      var k :| 0 <= k < |InlineStages| && InlineStages[k].Delimiter? &&
        RunStages(InlineStages, nodes).error == DelimiterError(InlineStages[k].delim);
      assert k < 3;
    }
  }

  /** Every span text_to_textnode returns is well formed: links and images
      carry a url, nothing else does, and no non-link span is empty. */
  lemma TextToTextNodesSpans(text: string)
    requires TextToTextNodes(text).Success?
    ensures AllWellFormed(TextToTextNodes(text).value)
  {
    var init := [TextNode(text, Text, None)];
    var later := InlineStages[1..];
    LaterStagesSpans(later);
    RunStagesCons(InlineStages, init);
    var mid := ApplyStage(InlineStages[0], init).value;
    ApplyStageSpans(InlineStages[0], init);
    RunStagesSpans(later, mid);
  }

  /** Running a non-empty list of stages is running its first stage and
      then the rest. */
  lemma RunStagesCons(stages: seq<Stage>, nodes: seq<TextNode>)
    requires stages != [] && forall k :: 0 <= k < |stages| ==> ValidStage(stages[k])
    ensures forall k :: 0 <= k < |stages[1..]| ==> ValidStage(stages[1..][k])
    ensures RunStages(stages, nodes) ==
      match ApplyStage(stages[0], nodes)
      case Failure(e) => Failure(e)
      case Success(next) => RunStages(stages[1..], next)
  {
  }

  /** The stages after the first are valid, and none makes links or images
      by delimiters. */
  lemma LaterStagesSpans(later: seq<Stage>)
    requires later == InlineStages[1..]
    ensures forall k :: 0 <= k < |later| ==> ValidStage(later[k])
    ensures forall k :: 0 <= k < |later| && later[k].Delimiter? ==>
      later[k].textType != Link && later[k].textType != Image
  {
  }

  /** The first `k` stages of text_to_textnode. */
  function InlinePrefix(k: nat): (r: seq<Stage>)
    requires k <= |InlineStages|
    ensures |r| == k && forall j :: 0 <= j < k ==> r[j] == InlineStages[j] && ValidStage(r[j])
  {
    InlineStages[..k]
  }

  /** Each stage of text_to_textnode makes a kind no later stage makes. */
  lemma LaterStagesDiffer(k: nat, later: seq<Stage>)
    requires k < |InlineStages| && later == InlineStages[k + 1..]
    ensures forall j :: 0 <= j < |later| ==>
      ValidStage(later[j]) && StageType(later[j]) != StageType(InlineStages[k])
  {
    forall j | 0 <= j < |later|
      ensures ValidStage(later[j]) && StageType(later[j]) != StageType(InlineStages[k])
    {
      assert later[j] == InlineStages[k + 1 + j];
    }
  }

  /** The stages of text_to_textnode, cut after the `k`-th. */
  lemma InlineSplit(k: nat, a: seq<Stage>, b: seq<Stage>)
    requires k < |InlineStages| && a == InlinePrefix(k + 1) && b == InlineStages[k + 1..]
    ensures a + b == InlineStages
    ensures forall j :: 0 <= j < |a| ==> ValidStage(a[j])
    ensures forall j :: 0 <= j < |b| ==> ValidStage(b[j])
  {
    assert a == InlineStages[..k + 1];
    forall j | 0 <= j < |b| ensures ValidStage(b[j]) {
      assert b[j] == InlineStages[k + 1 + j];
    }
  }

  /** Once a stage of text_to_textnode has made a span of its kind, the
      later stages hand those spans on untouched and in order. */
  lemma TextToTextNodesKeeps(text: string, k: nat)
    requires k < |InlineStages| && TextToTextNodes(text).Success?
    ensures var mid := RunStages(InlinePrefix(k + 1), [TextNode(text, Text, None)]);
      && mid.Success?
      && OfKind(TextToTextNodes(text).value, StageType(InlineStages[k])) == OfKind(mid.value, StageType(InlineStages[k]))
  {
    var init := [TextNode(text, Text, None)];
    var a := InlinePrefix(k + 1);
    var b := InlineStages[k + 1..];
    InlineSplit(k, a, b);
    LaterStagesDiffer(k, b);
    RunStagesSplitKeeps(a, b, init, StageType(InlineStages[k]));
  }

  /** If stages `a` then `b` succeed, and no stage of `b` makes kind `t`,
      the spans of kind `t` are those after `a`. */
  lemma RunStagesSplitKeeps(a: seq<Stage>, b: seq<Stage>, nodes: seq<TextNode>, t: TextType)
    requires forall j :: 0 <= j < |a| ==> ValidStage(a[j])
    requires forall j :: 0 <= j < |b| ==> ValidStage(b[j]) && StageType(b[j]) != t
    requires t != Text && RunStages(a + b, nodes).Success?
    ensures RunStages(a, nodes).Success?
    ensures OfKind(RunStages(a + b, nodes).value, t) == OfKind(RunStages(a, nodes).value, t)
  {
    RunStagesAppend(a, b, nodes);
    RunStagesKeeps(b, RunStages(a, nodes).value, t);
  }

  /** A text without the delimiter's first character has no occurrence of it. */
  lemma Absent(s: string, d: string)
    requires d != "" && forall i :: 0 <= i < |s| ==> s[i] != d[0]
    ensures !Contains(s, d)
  {
    forall i | 0 <= i <= |s| ensures !OccursAt(s, d, i) {
      if i + |d| <= |s| {
        assert s[i..i + |d|][0] == s[i] != d[0];
      }
    }
  }

  /** A delimiter stage that does not occur in the text turns its plain span
      into TextBefore(text), and leaves TextBefore(text) as it is. */
  lemma DelimiterStageIdle(text: string, d: string, t: TextType)
    requires d != "" && !Contains(text, d)
    ensures ApplyStage(Delimiter(d, t), [TextNode(text, Text, None)]) == Success(TextBefore(text))
    ensures ApplyStage(Delimiter(d, t), TextBefore(text)) == Success(TextBefore(text))
  {
    var node := TextNode(text, Text, None);
    ApplyStageSingle(Delimiter(d, t), node);
    if text == "" {
      assert FindFrom(text, d, 0) == -1;
      assert Split(text, d) == [""];
      assert PartNodes([""], t) == PartNodes([], t) + PartNode("", 0, t) == [];
    } else {
      SplitDelimiterAbsent(node, d, t);
    }
  }

  lemma {:induction false} IdleStages(stages: seq<Stage>, text: string)
    requires forall k :: 0 <= k < |stages| ==>
      stages[k].Delimiter? && stages[k].delim != "" && !Contains(text, stages[k].delim)
    ensures forall k :: 0 <= k < |stages| ==> ValidStage(stages[k])
    ensures RunStages(stages, TextBefore(text)) == Success(TextBefore(text))
    decreases |stages|
  {
    if stages != [] {
      DelimiterStageIdle(text, stages[0].delim, stages[0].textType);
      assert forall k :: 0 <= k < |stages[1..]| ==> stages[1..][k] == stages[k + 1];
      IdleStages(stages[1..], text);
    }
  }

  /** The delimiter stages of text_to_textnode, on a text none of whose
      delimiters occur. */
  lemma DelimiterStagesIdle(text: string)
    requires forall i :: 0 <= i < |text| ==> text[i] != '*' && text[i] != '`'
    ensures RunStages(InlineStages[..3], [TextNode(text, Text, None)]) == Success(TextBefore(text))
  {
    Absent(text, "**");
    Absent(text, "*");
    Absent(text, "`");
    var stages := InlineStages[..3];
    assert stages == [Delimiter("**", Bold), Delimiter("*", Italic), Delimiter("`", Code)];
    assert stages[1..] == [Delimiter("*", Italic), Delimiter("`", Code)];
    DelimiterStageIdle(text, "**", Bold);
    IdleStages(stages[1..], text);
  }

  /** The image and link stages, run in turn, keep the markup of any spans. */
  lemma MarkupStagesRoundTrip(nodes: seq<TextNode>)
    ensures RunStages(InlineStages[3..], nodes).Success?
    ensures MarkupOf(RunStages(InlineStages[3..], nodes).value) == MarkupOf(nodes)
  {
    var b := InlineStages[3..];
    assert b == [Images, Links] && b[1..] == [Links];
    MarkupStageRoundTrip(Images, nodes);
    var afterImages := ApplyStage(Images, nodes).value;
    MarkupStageRoundTrip(Links, afterImages);
    assert RunStages(b[1..], afterImages) == ApplyStage(Links, afterImages);
  }

  lemma IdleMarkup(text: string)
    ensures MarkupOf(TextBefore(text)) == text
  {
    if text == "" {
      assert MarkupOf([]) == "";
    } else {
      MarkupOfSingle(TextNode(text, Text, None));
    }
  }

  /** Round trip of text_to_textnode on a text with no `*` and no backtick:
      it succeeds, and re-marking the spans gives back the text. */
  lemma TextToTextNodesRoundTrip(text: string)
    requires forall i :: 0 <= i < |text| ==> text[i] != '*' && text[i] != '`'
    ensures TextToTextNodes(text).Success?
    ensures MarkupOf(TextToTextNodes(text).value) == text
  {
    var init := [TextNode(text, Text, None)];
    var a := InlineStages[..3];
    var b := InlineStages[3..];
    InlineSplit(2, a, b);
    RunStagesAppend(a, b, init);
    DelimiterStagesIdle(text);
    IdleMarkup(text);
    MarkupStagesRoundTrip(TextBefore(text));
  }

  /** Image and link markup both contain `[`: a text without one has no match. */
  lemma NoBracketNoMatch(s: string, st: Stage)
    requires !st.Delimiter? && forall k :: 0 <= k < |s| ==> s[k] != '['
    ensures ExtractFrom(s, 0, st) == []
  {
    ExtractNone(s, st);
    forall i: nat, m | WellFormedMatch(m) ensures !OccursAt(s, MatchMarkup(st, m), i) {
      var mk := MatchMarkup(st, m);
      var off := if st.Images? then 1 else 0;
      assert mk[off] == '[';
      if i + |mk| <= |s| {
        assert s[i..i + |mk|][off] == s[i + off];
      }
    }
  }

  /** A non-empty text with no `*`, no backtick and no `[` comes back as the
      one plain span it was. */
  lemma TextToTextNodesPlain(text: string)
    requires text != ""
    requires forall i :: 0 <= i < |text| ==> text[i] != '*' && text[i] != '`' && text[i] != '['
    ensures TextToTextNodes(text) == Success([TextNode(text, Text, None)])
  {
    var node := TextNode(text, Text, None);
    var init := [node];
    var a := InlineStages[..3];
    var b := InlineStages[3..];
    InlineSplit(2, a, b);
    RunStagesAppend(a, b, init);
    DelimiterStagesIdle(text);
    NoBracketNoMatch(text, Images);
    NoBracketNoMatch(text, Links);
    MarkupStagesIdle(node);
  }

  /** The image and link stages hand on a plain span without matches. */
  lemma MarkupStagesIdle(node: TextNode)
    requires ExtractFrom(node.text, 0, Images) == [] && ExtractFrom(node.text, 0, Links) == []
    ensures RunStages(InlineStages[3..], [node]) == Success([node])
  {
    var b := InlineStages[3..];
    assert b == [Images, Links] && b[1..] == [Links];
    ApplyStageSingle(Images, node);
    ApplyStageSingle(Links, node);
    assert RunStages(b[1..], [node]) == ApplyStage(Links, [node]);
  }

  // ---------------------------------------------------------------------
  // The source's loops

  /** split_nodes_delimiter: the stage's loop over the spans. */
  method SplitNodesDelimiter(oldNodes: seq<TextNode>, delimiter: string, textType: TextType)
    returns (r: Result<seq<TextNode>, string>)
    requires delimiter != ""
    ensures r == ApplyStage(Delimiter(delimiter, textType), oldNodes)
  {
    var st := Delimiter(delimiter, textType);
    var newNodes: seq<TextNode> := [];
    var n := 0;
    while n < |oldNodes|
      invariant 0 <= n <= |oldNodes|
      invariant ApplyStage(st, oldNodes[..n]) == Success(newNodes)
    {
      var node := oldNodes[n];
      StageLoopStep(st, oldNodes, n, newNodes);
      if node.textType != Text {
        newNodes := newNodes + [node];
      } else {
        var parts := Split(node.text, delimiter);
        if |parts| % 2 == 0 {
          return Failure(DelimiterError(delimiter));
        }
        newNodes := AppendParts(newNodes, parts, textType);
      }
      n := n + 1;
    }
    assert oldNodes[..|oldNodes|] == oldNodes;
    return Success(newNodes);
  }

  /** The inner loop of split_nodes_delimiter over the pieces of one span:
      each non-empty piece is appended, plain at even positions and of the
      stage's kind at odd ones. */
  method AppendParts(newNodes: seq<TextNode>, parts: seq<string>, textType: TextType)
    returns (out: seq<TextNode>)
    ensures out == newNodes + PartNodes(parts, textType)
  {
    out := newNodes;
    var i := 0;
    while i < |parts|
      invariant 0 <= i <= |parts|
      invariant out == newNodes + PartNodes(parts[..i], textType)
    {
      PartNodesStep(parts, i, textType, newNodes, out);
      ghost var acc := out;
      if parts[i] != "" {
        if i % 2 == 0 {
          out := out + [TextNode(parts[i], Text, None)];
        } else {
          out := out + [TextNode(parts[i], textType, None)];
        }
      }
      assert out == acc + PartNode(parts[i], i, textType);
      i := i + 1;
    }
    assert parts[..|parts|] == parts;
  }

  /** The loop split_nodes_image and split_nodes_link share, over the spans. */
  method SplitNodesMarkup(oldNodes: seq<TextNode>, st: Stage) returns (r: Result<seq<TextNode>, string>)
    requires !st.Delimiter?
    ensures r == ApplyStage(st, oldNodes)
  {
    var newNodes: seq<TextNode> := [];
    var n := 0;
    while n < |oldNodes|
      invariant 0 <= n <= |oldNodes|
      invariant ApplyStage(st, oldNodes[..n]) == Success(newNodes)
    {
      var node := oldNodes[n];
      StageLoopStep(st, oldNodes, n, newNodes);
      var next := SplitMarkupSpan(newNodes, node, st);
      if next.Failure? {
        return next;
      }
      newNodes := next.value;
      n := n + 1;
    }
    assert oldNodes[..|oldNodes|] == oldNodes;
    return Success(newNodes);
  }

  /** The body of that loop for one span: a non-plain span or one without
      matches is appended as it is; otherwise its matches are cut out. */
  method SplitMarkupSpan(newNodes: seq<TextNode>, node: TextNode, st: Stage)
    returns (r: Result<seq<TextNode>, string>)
    requires !st.Delimiter?
    ensures r == Prepend(newNodes, SplitNode(st, node))
  {
    if node.textType != Text {
      return Success(newNodes + [node]);
    }
    var matches := ExtractFrom(node.text, 0, st);
    if |matches| == 0 {
      return Success(newNodes + [node]);
    }
    r := AppendMatches(newNodes, node.text, matches, st);
  }

  /** The inner loop of split_nodes_image / split_nodes_link over the
      matches of one span, and the remainder appended after it. */
  method AppendMatches(newNodes: seq<TextNode>, text: string, matches: seq<Match>, st: Stage)
    returns (r: Result<seq<TextNode>, string>)
    requires !st.Delimiter?
    ensures r == Prepend(newNodes, SplitAround(text, matches, st))
  {
    var out := newNodes;
    var originalText := text;
    var j := 0;
    while j < |matches|
      invariant 0 <= j <= |matches|
      invariant Prepend(out, SplitAround(originalText, matches[j..], st)) ==
        Prepend(newNodes, SplitAround(text, matches, st))
    {
      var sections := SplitOnce(originalText, MatchMarkup(st, matches[j]));
      if |sections| != 2 {
        NotClosedStep(out, originalText, matches, j, st);
        return Failure(NotClosedError(st));
      }
      MatchLoopStep(out, originalText, matches, j, st);
      ghost var acc := out;
      if sections[0] != "" {
        out := out + [TextNode(sections[0], Text, None)];
      }
      out := out + [MatchNode(st, matches[j])];
      assert out == acc + TextBefore(sections[0]) + [MatchNode(st, matches[j])];
      originalText := sections[1];
      j := j + 1;
    }
    assert matches[j..] == [];
    assert SplitAround(originalText, matches[j..], st) == Success(TextBefore(originalText));
    ghost var pre := out;
    if originalText != "" {
      out := out + [TextNode(originalText, Text, None)];
    }
    assert out == pre + TextBefore(originalText);
    return Success(out);
  }

  lemma PartNodesStep(parts: seq<string>, i: nat, t: TextType, before: seq<TextNode>, acc: seq<TextNode>)
    requires i < |parts| && acc == before + PartNodes(parts[..i], t)
    ensures before + PartNodes(parts[..i + 1], t) == acc + PartNode(parts[i], i, t)
  {
    assert parts[..i + 1][..i] == parts[..i];
    AppendAssoc(before, PartNodes(parts[..i], t), PartNode(parts[i], i, t));
  }

  /** One turn of the loop over the spans: the stage over one more span
      adds what that span becomes, and an error there is the stage's. */
  lemma StageLoopStep(st: Stage, nodes: seq<TextNode>, n: nat, prev: seq<TextNode>)
    requires ValidStage(st) && n < |nodes| && ApplyStage(st, nodes[..n]) == Success(prev)
    ensures ApplyStage(st, nodes[..n + 1]) == Prepend(prev, SplitNode(st, nodes[n]))
    ensures ApplyStage(st, nodes[..n + 1]).Failure? ==> ApplyStage(st, nodes) == ApplyStage(st, nodes[..n + 1])
  {
    assert nodes[..n + 1] == nodes[..n] + [nodes[n]];
    ApplyStagePrepend(st, nodes[..n], nodes[n], prev);
    if ApplyStage(st, nodes[..n + 1]).Failure? {
      FailureSticks(st, nodes, n + 1);
    }
  }

  lemma ApplyStagePrepend(st: Stage, nodes: seq<TextNode>, node: TextNode, prev: seq<TextNode>)
    requires ValidStage(st) && ApplyStage(st, nodes) == Success(prev)
    ensures ApplyStage(st, nodes + [node]) == Prepend(prev, SplitNode(st, node))
  {
    ApplyStageSnoc(st, nodes, node);
  }

  /** One turn of the loop over the matches: the part before the markup and
      the match's span are emitted, and the rest is what is left to split. */
  lemma MatchLoopStep(acc: seq<TextNode>, rest: string, ms: seq<Match>, j: nat, st: Stage)
    requires !st.Delimiter? && j < |ms|
    requires |SplitOnce(rest, MatchMarkup(st, ms[j]))| == 2
    ensures var sections := SplitOnce(rest, MatchMarkup(st, ms[j]));
      Prepend(acc, SplitAround(rest, ms[j..], st)) ==
      Prepend(acc + TextBefore(sections[0]) + [MatchNode(st, ms[j])], SplitAround(sections[1], ms[j + 1..], st))
  {
    var sections := SplitOnce(rest, MatchMarkup(st, ms[j]));
    var emitted := TextBefore(sections[0]) + [MatchNode(st, ms[j])];
    assert ms[j..][1..] == ms[j + 1..];
    assert SplitAround(rest, ms[j..], st) == Prepend(emitted, SplitAround(sections[1], ms[j + 1..], st));
    PrependPrepend(acc, emitted, SplitAround(sections[1], ms[j + 1..], st));
    AppendAssoc(acc, TextBefore(sections[0]), [MatchNode(st, ms[j])]);
  }

  /** A markup the remaining text does not contain fails the whole span. */
  lemma NotClosedStep(acc: seq<TextNode>, rest: string, ms: seq<Match>, j: nat, st: Stage)
    requires !st.Delimiter? && j < |ms|
    requires |SplitOnce(rest, MatchMarkup(st, ms[j]))| != 2
    ensures Prepend(acc, SplitAround(rest, ms[j..], st)) == Failure(NotClosedError(st))
  {
  }

  lemma PrependPrepend(xs: seq<TextNode>, ys: seq<TextNode>, r: Result<seq<TextNode>, string>)
    ensures Prepend(xs, Prepend(ys, r)) == Prepend(xs + ys, r)
  {
    if r.Success? {
      AppendAssoc(xs, ys, r.value);
    }
  }

  /** split_nodes_image */
  method SplitNodesImage(oldNodes: seq<TextNode>) returns (r: Result<seq<TextNode>, string>)
    ensures r == ApplyStage(Images, oldNodes)
  {
    r := SplitNodesMarkup(oldNodes, Images);
  }

  /** split_nodes_link */
  method SplitNodesLink(oldNodes: seq<TextNode>) returns (r: Result<seq<TextNode>, string>)
    ensures r == ApplyStage(Links, oldNodes)
  {
    r := SplitNodesMarkup(oldNodes, Links);
  }

  /** text_to_textnode: the five stages in turn; the first error is raised. */
  method TextToTextNode(text: string) returns (r: Result<seq<TextNode>, string>)
    ensures r == TextToTextNodes(text)
  {
    var s := InlineStages;
    assert s[1..] == [Delimiter("*", Italic), Delimiter("`", Code), Images, Links];
    assert s[1..][1..] == [Delimiter("`", Code), Images, Links];
    assert s[1..][1..][1..] == [Images, Links];
    assert s[1..][1..][1..][1..] == [Links];
    assert s[1..][1..][1..][1..][1..] == [];
    var nodes := [TextNode(text, Text, None)];
    r := SplitNodesDelimiter(nodes, "**", Bold);
    if r.Failure? { return; }
    r := SplitNodesDelimiter(r.value, "*", Italic);
    if r.Failure? { return; }
    r := SplitNodesDelimiter(r.value, "`", Code);
    if r.Failure? { return; }
    r := SplitNodesImage(r.value);
    if r.Failure? { return; }
    r := SplitNodesLink(r.value);
  }
}
