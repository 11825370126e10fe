/** The block splitter: a document is cut at every blank line ("\n\n"),
    pieces that are exactly empty are skipped, and the others are stripped
    of surrounding whitespace. The emptiness test comes before the strip,
    so a piece of whitespace alone yields an empty block. */
module MarkdownBlocks {
  import opened Strings

  const Separator := "\n\n"

  /** The clean-up of the pieces, in order: an empty piece is skipped,
      any other is stripped. */
  function Clean(pieces: seq<string>): seq<string>
    decreases |pieces|
  {
    if pieces == [] then []
    else
      var last := pieces[|pieces| - 1];
      Clean(pieces[..|pieces| - 1]) + (if last == "" then [] else [Strip(last)])
  }

  /** markdown_to_blocks. No block has surrounding whitespace, and none
      spans a blank line: blocks never contain "\n\n" (single newlines
      inside a block stay). */
  function Blocks(markdown: string): (blocks: seq<string>)
    ensures forall b | b in blocks :: IsStripped(b) && !Contains(b, Separator)
  {
    SplitPiecesFree(markdown, Separator);
    CleanStripped(Split(markdown, Separator));
    CleanFree(Split(markdown, Separator), Separator);
    Clean(Split(markdown, Separator))
  }

  method MarkdownToBlocks(markdown: string) returns (cleanedBlocks: seq<string>)
    ensures cleanedBlocks == Blocks(markdown)
  {
    var blocks := Split(markdown, Separator);
    cleanedBlocks := [];
    for i := 0 to |blocks|
      invariant cleanedBlocks == Clean(blocks[..i])
    {
      var block := blocks[i];
      assert blocks[..i + 1][..i] == blocks[..i];
      if block == "" {
        continue;
      }
      block := Strip(block);
      cleanedBlocks := cleanedBlocks + [block];
    }
    assert blocks[..|blocks|] == blocks;
  }

  // ---------------------------------------------------------------------
  // Clean, piece by piece

  /** Cleaning is done piece by piece: cleaning two runs of pieces is
      cleaning each and putting the results one after the other. */
  lemma {:induction false} CleanAppend(a: seq<string>, b: seq<string>)
    ensures Clean(a + b) == Clean(a) + Clean(b)
    decreases |b|
  {
    if b == [] {
      assert a + b == a;
    } else {
      var n := |b| - 1;
      assert (a + b)[..|a + b| - 1] == a + b[..n];
      CleanAppend(a, b[..n]);
    }
  }

  /** One piece: skipped if empty, stripped otherwise. */
  lemma CleanOne(p: string)
    ensures Clean([p]) == if p == "" then [] else [Strip(p)]
  {
    assert [p][..0] == [];
  }

  /** No more blocks than pieces. */
  lemma {:induction false} CleanLength(pieces: seq<string>)
    ensures |Clean(pieces)| <= |pieces|
    decreases |pieces|
  {
    if pieces != [] {
      CleanLength(pieces[..|pieces| - 1]);
    }
  }

  /** Every block is stripped. */
  lemma {:induction false} CleanStripped(pieces: seq<string>)
    ensures forall b | b in Clean(pieces) :: IsStripped(b)
    decreases |pieces|
  {
    if pieces != [] {
      CleanStripped(pieces[..|pieces| - 1]);
    }
  }

  /** A block lies inside one piece, so it holds no text the pieces lack. */
  lemma {:induction false} CleanFree(pieces: seq<string>, d: string)
    requires forall p | p in pieces :: !Contains(p, d)
    ensures forall b | b in Clean(pieces) :: !Contains(b, d)
    decreases |pieces|
  {
    if pieces != [] {
      var last := pieces[|pieces| - 1];
      CleanFree(pieces[..|pieces| - 1], d);
      if last != "" {
        var i := LeadingSpace(last);
        SliceFree(last, d, i, i + |Strip(last)|);
      }
    }
  }

  /** Pieces that are non-empty and already stripped come through as they are. */
  lemma {:induction false} CleanKeeps(pieces: seq<string>)
    requires forall k :: 0 <= k < |pieces| ==> pieces[k] != "" && IsStripped(pieces[k])
    ensures Clean(pieces) == pieces
    decreases |pieces|
  {
    if pieces != [] {
      var n := |pieces| - 1;
      var init := pieces[..n];
      assert forall k :: 0 <= k < n ==> init[k] == pieces[k];
      CleanKeeps(init);
      KeepLast(pieces);
    }
  }

  lemma KeepLast(pieces: seq<string>)
    requires pieces != []
    requires var n := |pieces| - 1;
      pieces[n] != "" && IsStripped(pieces[n]) && Clean(pieces[..n]) == pieces[..n]
    ensures Clean(pieces) == pieces
  {
    var n := |pieces| - 1;
    StripStripped(pieces[n]);
    assert pieces[..n] + [pieces[n]] == pieces;
  }

  // ---------------------------------------------------------------------
  // markdown_to_blocks

  /** There are at most as many blocks as blank-line separators plus one. */
  lemma BlocksCount(markdown: string)
    ensures |Blocks(markdown)| <= Count(markdown, Separator) + 1
  {
    SplitCount(markdown, Separator);
    CleanLength(Split(markdown, Separator));
  }

  /** Round trip: when every piece between separators is non-empty and
      carries no surrounding whitespace, joining the blocks with "\n\n"
      gives back the document. */
  lemma BlocksJoin(markdown: string)
    requires forall k :: 0 <= k < |Split(markdown, Separator)| ==>
      Split(markdown, Separator)[k] != "" && IsStripped(Split(markdown, Separator)[k])
    ensures Join(Blocks(markdown), Separator) == markdown
  {
    CleanKeeps(Split(markdown, Separator));
    SplitJoin(markdown, Separator);
  }

  /** A non-empty document with no blank line and no surrounding
      whitespace is one block: itself. */
  lemma BlocksSingle(markdown: string)
    requires markdown != "" && !Contains(markdown, Separator) && IsStripped(markdown)
    ensures Blocks(markdown) == [markdown]
  {
    SplitAbsent(markdown, Separator);
    CleanOne(markdown);
    StripStripped(markdown);
  }

  /** A piece of whitespace alone is not skipped: the emptiness test
      comes before the strip, and it yields an empty block. */
  lemma BlocksBlankPiece(markdown: string)
    requires markdown != "" && !Contains(markdown, Separator) && AllSpace(markdown)
    ensures Blocks(markdown) == [""]
  {
    SplitAbsent(markdown, Separator);
    CleanOne(markdown);
  }

  /** A piece that does not end in a newline, so that a separator right
      after it is the first one found. */
  predicate EndsClear(p: string) {
    p == "" || p[|p| - 1] != '\n'
  }

  /** An exactly empty piece between two separators is skipped: the
      blocks of `a + "\n\n\n\n" + b` are those of `a` and then of `b`. */
  lemma BlocksSkipEmpty(a: string, b: string)
    requires !Contains(a, Separator) && !Contains(b, Separator) && EndsClear(a)
    ensures Blocks(a + Separator + Separator + b) == Blocks(a) + Blocks(b)
  {
    assert a + Separator + Separator + b == a + Separator + "" + Separator + b;
    SplitThree(a, "", b);
    SplitAbsent(a, Separator);
    SplitAbsent(b, Separator);
    CleanSkips(a, b);
  }

  /** A piece of whitespace alone between two separators is not skipped:
      the emptiness test comes before the strip, so it yields an empty
      block between the blocks of `a` and those of `b`. */
  lemma BlocksBlankMiddle(a: string, w: string, b: string)
    requires !Contains(a, Separator) && !Contains(b, Separator) && EndsClear(a)
    requires w != "" && AllSpace(w) && !Contains(w, Separator) && EndsClear(w)
    ensures Blocks(a + Separator + w + Separator + b) == Blocks(a) + [""] + Blocks(b)
  {
    SplitThree(a, w, b);
    SplitAbsent(a, Separator);
    SplitAbsent(b, Separator);
    CleanBlank(a, w, b);
  }

  /** A blank line at the very start leaves an empty first piece, which is
      skipped. */
  lemma BlocksLeadingSeparator(b: string)
    requires !Contains(b, Separator)
    ensures Blocks(Separator + b) == Blocks(b)
  {
    assert Separator + b == "" + Separator + b;
    SplitTwo("", b);
    SplitAbsent(b, Separator);
    CleanAppend([""], [b]);
    CleanOne("");
    assert [""] + [b] == ["", b];
  }

  /** A blank line at the very end leaves an empty last piece, which is
      skipped. */
  lemma BlocksTrailingSeparator(a: string)
    requires !Contains(a, Separator) && EndsClear(a)
    ensures Blocks(a + Separator) == Blocks(a)
  {
    assert a + Separator == a + Separator + "";
    SplitTwo(a, "");
    SplitAbsent(a, Separator);
    assert [a, ""][..1] == [a];
  }

  lemma CleanSkips(a: string, b: string)
    ensures Clean([a, "", b]) == Clean([a]) + Clean([b])
  {
    assert [a, "", b][..2] == [a, ""];
    assert [a, ""][..1] == [a];
    assert [a][..0] == [] && [b][..0] == [];
  }

  lemma CleanBlank(a: string, w: string, b: string)
    requires w != "" && AllSpace(w)
    ensures Clean([a, w, b]) == Clean([a]) + [""] + Clean([b])
  {
    assert [a, w, b][..2] == [a, w];
    assert [a, w][..1] == [a];
    assert [a][..0] == [] && [b][..0] == [];
  }

  /** `a`, a separator and `b` split into `a` and `b`. */
  lemma SplitTwo(a: string, b: string)
    requires !Contains(a, Separator) && EndsClear(a) && !Contains(b, Separator)
    ensures Split(a + Separator + b, Separator) == [a, b]
  {
    var s := a + Separator + b;
    var n := |a|;
    assert s[0..n] == a && s[n..n + 2] == Separator && s[n + 2..] == b;
    LastTwoPieces(s, 0, a, b);
  }

  /** `a`, a separator, `w`, a separator and `b` split into `a`, `w` and `b`. */
  lemma SplitThree(a: string, w: string, b: string)
    requires !Contains(a, Separator) && EndsClear(a)
    requires !Contains(w, Separator) && EndsClear(w)
    requires !Contains(b, Separator)
    ensures Split(a + Separator + w + Separator + b, Separator) == [a, w, b]
  {
    ThreeSlices(a, w, b);
    ThreePieces(a + Separator + w + Separator + b, a, w, b);
  }

  lemma ThreeSlices(a: string, w: string, b: string)
    ensures var s := a + Separator + w + Separator + b;
      && |s| == |a| + 2 + |w| + 2 + |b|
      && s[0..|a|] == a && s[|a|..|a| + 2] == Separator
      && s[|a| + 2..|a| + 2 + |w|] == w
      && s[|a| + 2 + |w|..|a| + 2 + |w| + 2] == Separator
      && s[|a| + 2 + |w| + 2..] == b
  {
  }

  /** A string laid out as `a`, a separator, `w`, a separator and `b`. */
  lemma ThreePieces(s: string, a: string, w: string, b: string)
    requires !Contains(a, Separator) && EndsClear(a)
    requires !Contains(w, Separator) && EndsClear(w)
    requires !Contains(b, Separator)
    requires |s| == |a| + 2 + |w| + 2 + |b|
    requires s[0..|a|] == a && s[|a|..|a| + 2] == Separator
    requires s[|a| + 2..|a| + 2 + |w|] == w
    requires s[|a| + 2 + |w|..|a| + 2 + |w| + 2] == Separator
    requires s[|a| + 2 + |w| + 2..] == b
    ensures Split(s, Separator) == [a, w, b]
  {
    assert SplitFrom(s, Separator, 0) == [a] + SplitFrom(s, Separator, |a| + 2) by {
      PieceThenSeparator(s, 0, a);
    }
    assert SplitFrom(s, Separator, |a| + 2) == [w, b] by {
      LastTwoPieces(s, |a| + 2, w, b);
    }
    assert [a] + [w, b] == [a, w, b];
  }

  /** Where a piece stands followed by a separator and then text without
      one, the split from there yields that piece and that text. */
  lemma LastTwoPieces(s: string, from: nat, p: string, rest: string)
    requires !Contains(p, Separator) && EndsClear(p) && !Contains(rest, Separator)
    requires from + |p| + 2 <= |s| && s[from..from + |p|] == p
    requires s[from + |p|..from + |p| + 2] == Separator && s[from + |p| + 2..] == rest
    ensures SplitFrom(s, Separator, from) == [p, rest]
  {
    PieceThenSeparator(s, from, p);
    SplitFromAbsent(s, from + |p| + 2);
  }

  /** Where a piece stands followed by a separator, the split from there
      yields that piece and goes on after the separator. */
  lemma PieceThenSeparator(s: string, from: nat, p: string)
    requires !Contains(p, Separator) && EndsClear(p)
    requires from + |p| + 2 <= |s| && s[from..from + |p|] == p
    requires s[from + |p|..from + |p| + 2] == Separator
    ensures SplitFrom(s, Separator, from) == [p] + SplitFrom(s, Separator, from + |p| + 2)
  {
    SeparatorAt(s, from, p);
    SplitFromStep(s, Separator, from);
  }

  /** The first separator at or after `from`, where `a` stands followed by
      a separator, is right after `a`. */
  lemma SeparatorAt(s: string, from: nat, a: string)
    requires !Contains(a, Separator) && EndsClear(a)
    requires from + |a| + 2 <= |s| && s[from..from + |a|] == a
    requires s[from + |a|..from + |a| + 2] == Separator
    ensures FindFrom(s, Separator, from) == from + |a|
  {
    forall j | from <= j < from + |a| ensures !OccursAt(s, Separator, j) {
      if j + 2 <= from + |a| {
        assert s[j] == a[j - from] && s[j + 1] == a[j - from + 1];
        assert s[j..j + 2] == a[j - from..j - from + 2];
        assert !OccursAt(a, Separator, j - from);
      } else {
        assert s[j] == a[|a| - 1] != '\n';
      }
    }
    assert OccursAt(s, Separator, from + |a|);
  }

  /** The text after the last separator splits into itself. */
  lemma SplitFromAbsent(s: string, from: nat)
    requires from <= |s| && !Contains(s[from..], Separator)
    ensures SplitFrom(s, Separator, from) == [s[from..]]
  {
    NoSeparatorAfter(s, from);
  }

  lemma NoSeparatorAfter(s: string, from: nat)
    requires from <= |s| && !Contains(s[from..], Separator)
    ensures forall j :: from <= j ==> !OccursAt(s, Separator, j)
  {
    var t := s[from..];
    forall j | from <= j ensures !OccursAt(s, Separator, j) {
      if OccursAt(s, Separator, j) {
        assert t[j - from..j - from + 2] == s[j..j + 2];
        assert OccursAt(t, Separator, j - from);
      }
    }
  }
}
