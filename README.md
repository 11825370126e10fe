# Python-SSG core, modelled in Dafny

This project models the core of a small static-site generator that turns
markdown into HTML:

- **Inline parsing** (`src/inline_markdown.py`). A string becomes a list of
  typed text spans (`TextNode`). A span is plain text, bold, italic, code, a
  link or an image. `text_to_textnode` runs five stages in order: split the
  plain spans on `**`, then on `*`, then on a backtick, then cut out images,
  then cut out links. Every stage passes non-plain spans through unchanged.
  A delimiter that is not closed raises an error, and that error aborts the
  whole parse.
- **The HTML node tree** (`src/htmlnode.py`). This covers the `HTMLNode`
  base, the `LeafNode` and `ParentNode` constructors and their checks,
  attribute serialisation (`props_to_html`), and the recursive `to_html`.
- **Block splitting** (`src/markdown_blocks.py`). A document is cut at every
  blank line (`"\n\n"`). Pieces that are exactly empty are skipped. The other
  pieces are stripped of surrounding whitespace.

## Files

- `wrappers.dfy`: the `Option` and `Result` datatypes. `Result` stands for
  Python's raised exceptions, and `Option` stands for `None` arguments.
- `strings.dfy`: the Python string operations the core relies on:
  - `str.split(d)`, as `Split`;
  - `str.split(d, 1)`, as `SplitOnce`;
  - `str.join`;
  - `str.strip()`, as `Strip`;
  - substring search.

  Each comes with the algebra the proofs need.
- `textnode.dfy`: the span datatype. It also defines `MarkupOf`, which
  writes a span list back out as markdown, and is the partner of the
  parser's round-trip lemmas.
- `inline_markdown.dfy`: the inline stages, both as functions and as the
  source's loops (methods proved equal to those functions). It also holds
  the scanners for the two regular expressions, and the lemmas.
- `htmlnode.dfy`: the HTML node tree and its rendering. Rendering is a
  function, `Render`. The methods `ToHtml` and `ChildrenToHtml` (the loop
  over the children) are proved equal to it.
- `markdown_blocks.dfy`: the block splitter. The function `Blocks` gives
  the result, and the method `MarkdownToBlocks` (the source's loop) is
  proved equal to it.

## How the model reads

### Errors

An exception becomes a `Failure`.

- **Inline parsing.** The error value is the exception's message, for
  example `Markdown Error: No closing '*' found.`.
- **HTML rendering.** The error is `NotImplemented`, or `ValueError` with
  the source's message.

### The regular expressions

The two `re.findall` patterns become a left-to-right scanner. `MatchAt`
recognises `![alt](url)` at a position, or `[text](url)` for a link.
`ExtractFrom` collects non-overlapping matches and resumes after each one.

- The alt or link text may not contain `[` or `]`.
- The url may not contain `(` or `)`.
- Both may be empty.
- The link pattern's lookbehind is modelled: a `[` directly after `!` does
  not start a link.
- Soundness and completeness are proved against the markup itself:
  `MatchAtSound`, `MatchAtComplete`, `ExtractImagesNone` and
  `ExtractLinksNone`.

### The image and link stages

These stages re-find each match by a literal `split(markup, 1)` of the
remaining text (`SplitAround`), as the source does. The model proves that
the source's `section not closed` error can never be raised for matches the
scanner produced (`SplitAroundSucceeds`).

### Emptiness tests before stripping

`markdown_to_blocks` tests a piece for emptiness *before* stripping it.
As a result, a piece made only of whitespace (for example the `"  "` in
`"a\n\n  \n\nb"`) yields an empty block `""` instead of being dropped.

- The model follows the code. `BlocksBlankMiddle` proves the
  `a + "\n\n" + w + "\n\n" + b` case for a whitespace-only `w`, and
  `BlocksBlankPiece` proves the case of a document that is whitespace only.
- Only a piece that is exactly `""` is skipped. Between blocks that takes
  four or more consecutive newlines (`BlocksSkipEmpty`): `"a\n\n\nb"`
  splits into `"a"` and `"\nb"`, with no empty piece. A leading or
  trailing `"\n\n"` also leaves an empty piece (`BlocksLeadingSeparator`,
  `BlocksTrailingSeparator`).

### Constructor messages

`LeafNode`'s constructor message says "non-empty value", but the check
only refuses `None`. An empty string is accepted, and the model does the
same (`NewLeafNode`).

## Model

| member | source | states |
|---|---|---|
| InlineMarkdown.SplitNodesDelimiter | src/inline_markdown.py:4-23 | The loop over the spans returns exactly the stage function `ApplyStage(Delimiter(d, t), nodes)`. That function passes non-plain spans through, splits each plain span into its pieces in order, and fails with the first unclosed-delimiter error. |
| InlineMarkdown.AppendParts | src/inline_markdown.py:16-22 | The inner loop appends one span per non-empty piece to the list. Pieces at even positions become plain spans and pieces at odd positions become spans of the stage's kind. |
| InlineMarkdown.SplitDelimiterFails | src/inline_markdown.py:11-14 | On a plain span, the stage fails with `Markdown Error: No closing 'd' found.` exactly when the delimiter occurs an odd number of times. Otherwise it yields the spans of the split pieces. |
| InlineMarkdown.SplitDelimiterSpans | src/inline_markdown.py:16-22 | Every output span has non-empty text and no url, and is either plain or of the stage's kind. The spans' texts, concatenated, equal the input text with every delimiter occurrence removed. |
| InlineMarkdown.SplitDelimiterMarkup | src/inline_markdown.py:11-22 | Round trip: writing the output spans back as markdown gives the input text, whenever no delimited section is empty. |
| InlineMarkdown.SplitDelimiterAbsent | src/inline_markdown.py:11-20 | A non-empty plain span that does not contain the delimiter comes back as itself, alone. |
| InlineMarkdown.ExtractMarkdownImages | src/inline_markdown.py:97-99 | extract_markdown_images: every returned (alt, url) pair has no `[`/`]` in the alt text and no `(`/`)` in the url, and its `![alt](url)` occurs in the text. |
| InlineMarkdown.ExtractMarkdownLinks | src/inline_markdown.py:101-103 | extract_markdown_links: every returned (text, url) pair has no `[`/`]` in the text and no `(`/`)` in the url, and its `[text](url)` occurs in the text. |
| InlineMarkdown.ExtractFrom | src/inline_markdown.py:97-103 | Every extracted match has text without `[`/`]` and a url without `(`/`)`. |
| InlineMarkdown.MatchAtSound | src/inline_markdown.py:97-103 | A match found at position i is well formed, and its markup occurs at i. A link match is never preceded by `!`. |
| InlineMarkdown.MatchAtComplete | src/inline_markdown.py:97-103 | Conversely, the scanner matches the markup of any well-formed match standing at i (for links, when i is not preceded by `!`), and the match ends right after that markup. |
| InlineMarkdown.ExtractFromNext | src/inline_markdown.py:97-103 | findall order: the matches are the first match at or after the start, then the matches after its end. So they are non-overlapping and run left to right. |
| InlineMarkdown.ExtractFromOccurs | src/inline_markdown.py:97-103 | The markup of every extracted match occurs in the text. |
| InlineMarkdown.ExtractImagesNone | src/inline_markdown.py:97-99 | No image is extracted if and only if no well-formed `![alt](url)` occurs anywhere in the text. |
| InlineMarkdown.ExtractLinksNone | src/inline_markdown.py:101-103 | No link is extracted if and only if no well-formed `[text](url)` occurs at the start or after a character other than `!`. |
| InlineMarkdown.SplitNodesMarkup | src/inline_markdown.py:26-37 | The shared outer loop of the image and link stages returns exactly `ApplyStage(st, nodes)`. Non-plain spans and spans without matches are kept as they are. |
| InlineMarkdown.SplitMarkupSpan | src/inline_markdown.py:32-57 | Handling one span appends exactly what the stage makes of that span to the list, or fails with the stage's error. |
| InlineMarkdown.AppendMatches | src/inline_markdown.py:39-57 | The loop over the matches cuts the rest of the text at the first literal occurrence of each rebuilt markup. It emits the non-empty text before the markup, then the match's span, and finally the non-empty remainder. If the markup is missing, it fails with `Invalid markdown, ... section not closed`. |
| InlineMarkdown.SplitNodesImage | src/inline_markdown.py:25-59 | split_nodes_image returns exactly the image stage `ApplyStage(Images, nodes)`. |
| InlineMarkdown.SplitNodesLink | src/inline_markdown.py:61-95 | split_nodes_link returns exactly the link stage `ApplyStage(Links, nodes)`. |
| InlineMarkdown.SplitAroundSucceeds | src/inline_markdown.py:40-43 | Cutting a text around the matches extracted from it (or from any suffix of it) never fails. |
| InlineMarkdown.SplitMarkupSucceeds | src/inline_markdown.py:78-79 | The image and link stages never raise `section not closed` on a plain span. |
| InlineMarkdown.SplitMarkupRoundTrip | src/inline_markdown.py:39-57 | Round trip: writing the output spans of an image or link stage back as markdown gives the span's text. |
| InlineMarkdown.SplitMarkupMatches | src/inline_markdown.py:39-54 | Output spans are plain or of the stage's kind. The image (or link) spans are exactly the extracted matches, in order, with url set. |
| InlineMarkdown.SplitMarkupSpans | src/inline_markdown.py:45-57 | A well-formed plain span becomes well-formed spans: plain spans with non-empty text and no url, and image or link spans with a url. |
| InlineMarkdown.SplitNodeKinds | src/inline_markdown.py:7-9 | A non-plain span comes back unchanged. A plain span becomes spans that are plain or of the stage's kind. |
| InlineMarkdown.ApplyStageFailure | src/inline_markdown.py:6-14 | A stage fails if and only if some span fails. The error is that of the first failing span. |
| InlineMarkdown.ApplyStageError | src/inline_markdown.py:13-14 | Only a delimiter stage can fail, and only with its own unclosed-delimiter message. |
| InlineMarkdown.ApplyStageKeeps | src/inline_markdown.py:28-30 | A stage keeps the spans of every other formatted kind, in order and unchanged. |
| InlineMarkdown.ApplyStageSpans | src/inline_markdown.py:6-23 | A stage handed well-formed spans (or, for a delimiter stage, plain spans) returns only well-formed spans. |
| InlineMarkdown.ApplyStageMarkup | src/inline_markdown.py:6-8 | If every span's own output writes back to that span's markup, then the whole stage preserves the markup of the list. |
| InlineMarkdown.MarkupStageRoundTrip | src/inline_markdown.py:25-59 | An image or link stage always succeeds and preserves the markup of the whole span list. |
| InlineMarkdown.DelimiterStageRoundTrip | src/inline_markdown.py:4-23 | A successful bold, italic or code stage preserves the markup of the span list, when no delimited section is empty. |
| InlineMarkdown.TextToTextNode | src/inline_markdown.py:105-112 | The five calls in order return exactly `TextToTextNodes(text)`, and the first error aborts. |
| InlineMarkdown.TextToTextNodes | src/inline_markdown.py:105-112 | text_to_textnode: the five stages in source order, the first error aborting. It fails only with the unclosed `**`, `*` or backtick error; the image and link errors never reach it. |
| InlineMarkdown.TextToTextNodesSpans | src/inline_markdown.py:105-112 | Every span of a successful parse is well formed: plain spans have text and no url, bold, italic and code spans have text, and links and images have a url. |
| InlineMarkdown.TextToTextNodesKeeps | src/inline_markdown.py:107-112 | The spans a stage creates are never re-split by the later stages. The final spans of a kind are those present right after that kind's stage. |
| InlineMarkdown.TextToTextNodesRoundTrip | src/inline_markdown.py:105-112 | A text with no `*` and no backtick always parses, and writing its spans back as markdown gives the text. |
| InlineMarkdown.TextToTextNodesPlain | src/inline_markdown.py:105-112 | A non-empty text with no `*`, backtick or `[` parses to the single plain span of that text. |
| HtmlNodes.NewHtmlNode | src/htmlnode.py:2-6 | Tag and value are kept. Omitted children become the empty list, and omitted props become the empty mapping. |
| HtmlNodes.NewHtmlNodeRaises | src/htmlnode.py:8-9 | A base node's to_html raises NotImplementedError, however it was built. |
| HtmlNodes.PropsToHtml | src/htmlnode.py:10-14 | props_to_html: the attribute string is empty exactly when there are no props, and otherwise starts with a space. |
| HtmlNodes.PropsToHtmlSpaced | src/htmlnode.py:10-14 | The attribute string is the concatenation of ` key="value"` for each prop, in insertion order. |
| HtmlNodes.PropsToHtmlSnoc | src/htmlnode.py:13-14 | Adding a prop at the end appends ` key="value"` to the attribute string. |
| HtmlNodes.PropsToHtmlHas | src/htmlnode.py:13-14 | Every prop's ` key="value"` occurs in the attribute string. |
| HtmlNodes.NewLeafNode | src/htmlnode.py:20-24 | The constructor fails with `LeafNode must have a non-empty value` exactly when the value is None. An empty value is accepted. A leaf keeps its tag, value and props (the empty mapping when omitted) and has no children. |
| HtmlNodes.NewLeafRenders | src/htmlnode.py:26-32 | A constructed leaf always renders: its value verbatim when there is no tag, otherwise `<tag attrs>value</tag>` with the props passed to the constructor. |
| HtmlNodes.NewParentNode | src/htmlnode.py:38-42 | The constructor fails with `All parent nodes must have non-empty tag and children` exactly when the tag is None or empty, or the children are None or empty. A parent keeps its tag, children and props (the empty mapping when omitted) and has no value. |
| HtmlNodes.NewParentRenders | src/htmlnode.py:44-52 | A constructed parent renders exactly when every child is renderable. |
| HtmlNodes.Render | src/htmlnode.py:8-52 | to_html of the three classes: every error it raises, at any depth, is one of its four: NotImplementedError, or one of the three `ValueError` messages. |
| HtmlNodes.ToHtml | src/htmlnode.py:26-52 | The recursive method returns exactly `Render(n)`, the rendering function. |
| HtmlNodes.ChildrenToHtml | src/htmlnode.py:49-51 | The loop over the children concatenates their HTML in order. The first child that raises aborts with that child's error. |
| HtmlNodes.RenderSucceeds | src/htmlnode.py:26-52 | to_html succeeds exactly on renderable nodes. A leaf is renderable when it has a value. A parent is renderable when it has a tag, a list of children, and every child is renderable. A base node is never renderable. |
| HtmlNodes.ParentHtml | src/htmlnode.py:49-52 | A renderable parent renders as `<tag attrs>` followed by each child's HTML in order, then `</tag>`. |
| MarkdownBlocks.MarkdownToBlocks | src/markdown_blocks.py:1-10 | The loop returns exactly `Blocks(markdown)`. That function splits on `"\n\n"`, skips pieces that are exactly empty, and strips the rest, keeping the order. |
| MarkdownBlocks.Blocks | src/markdown_blocks.py:1-10 | markdown_to_blocks: no block has leading or trailing whitespace, and no block contains a blank line `"\n\n"`. |
| MarkdownBlocks.CleanAppend | src/markdown_blocks.py:4-9 | Pieces are handled one by one: cleaning two runs of pieces gives the two results one after the other. |
| MarkdownBlocks.CleanOne | src/markdown_blocks.py:5-8 | A single piece is skipped if it is empty, and is stripped otherwise. |
| MarkdownBlocks.BlocksCount | src/markdown_blocks.py:2-9 | There are at most (number of `"\n\n"` separators) + 1 blocks. |
| MarkdownBlocks.BlocksJoin | src/markdown_blocks.py:1-10 | Round trip: when every piece between separators is non-empty and already stripped, joining the blocks with `"\n\n"` gives back the document. |
| MarkdownBlocks.BlocksSingle | src/markdown_blocks.py:1-10 | A non-empty, stripped document without a blank line is one block: itself. |
| MarkdownBlocks.BlocksBlankPiece | src/markdown_blocks.py:5-9 | A non-empty document of whitespace only, without a blank line, is not skipped. It yields the single empty block `""`. |
| MarkdownBlocks.BlocksBlankMiddle | src/markdown_blocks.py:5-8 | A whitespace-only piece between two separators is not skipped: `a + "\n\n" + w + "\n\n" + b` has the blocks of `a`, then `""`, then the blocks of `b`. |
| MarkdownBlocks.BlocksSkipEmpty | src/markdown_blocks.py:2-6 | The empty piece between two consecutive separators is skipped: `a + "\n\n\n\n" + b` has the blocks of `a` followed by those of `b`. |
| MarkdownBlocks.BlocksLeadingSeparator | src/markdown_blocks.py:2-6 | A leading `"\n\n"` leaves an empty first piece, which is skipped: `"\n\n" + b` has the blocks of `b`. |
| MarkdownBlocks.BlocksTrailingSeparator | src/markdown_blocks.py:2-6 | A trailing `"\n\n"` leaves an empty last piece, which is skipped: `a + "\n\n"` has the blocks of `a`. |
| Strings.SplitJoin | src/inline_markdown.py:11 | Joining the pieces of `split(d)` with `d` gives back the string. |
| Strings.SplitCount | src/inline_markdown.py:11-13 | `split(d)` yields one piece more than there are occurrences of `d`. |
| Strings.SplitPiecesFree | src/markdown_blocks.py:2 | No piece of `split(d)` contains `d`. |
| Strings.SplitConcat | src/inline_markdown.py:11 | The pieces of `split(d)`, concatenated, give the string with every occurrence of `d` removed. |
| Strings.SplitOnce | src/inline_markdown.py:40 | `split(d, 1)` gives one piece when `d` is absent. Otherwise it gives the text before the first occurrence and the text after it, and those two with `d` between them rebuild the string. |
| Strings.Strip | src/markdown_blocks.py:8 | `strip()` gives a stripped slice of the string, obtained by removing only whitespace from both ends. The result is empty exactly when the string is all whitespace. |
| Strings.StripIdempotent | src/markdown_blocks.py:8 | Stripping twice is stripping once. |

## Left out

- `src/main.py` is not part of this model. It is file-system I/O and
  printing: it deletes `./public`, copies `./static` there, and reports
  each step on the console.
- `src/markdown_html.py` is not part of this model. It holds only a stub
  with no behaviour.
- `src/textnode.py` is not part of this model. The span's fields and
  equality are modelled after the way the rest of the source uses them.
  `text_node_to_html` is not modelled.
- The `__repr__` methods of the HTML nodes are not modelled. They only
  produce debugging strings.
- The general regular-expression engine is not modelled. Only the two fixed
  patterns of `extract_markdown_images` and `extract_markdown_links` are
  modelled, as scanners.
- Whitespace is the ASCII set (space, `\t`, `\n`, `\r`, `\v`, `\f`).
  `str.strip()`'s other Unicode whitespace is not modelled.
- Props are a sequence of `(key, value)` pairs in insertion order, not a
  dict, so distinct keys are not enforced. Values are inserted without
  escaping, as in the source.
- HTML nodes are values. Object identity, aliasing and reassignment of a
  node's fields after construction are not modelled. The `None` checks in
  `to_html` are modelled by letting the fields hold `None`.
- Exceptions are `Result` values. Exception classes other than
  NotImplementedError and ValueError, and tracebacks, are not modelled.
- InlineMarkdown.SplitNodesDelimiter: an empty delimiter is excluded by the
  precondition. Python's `split("")` raises, and every caller passes
  `**`, `*` or a backtick.
- InlineMarkdown.TextToTextNodesRoundTrip: the round trip is proved only
  for texts without `*` or a backtick. With them, an empty delimited
  section such as `****` is dropped, so the whole-pipeline round trip does
  not hold in general. The per-stage round trips state the exact
  conditions instead.
- InlineMarkdown.DelimiterStageRoundTrip: proved only when no delimited
  section is empty, for the same reason.
