/** The handful of Python `str` operations the converter relies on:
    `find`, `split(sep)`, `split(sep, 1)`, `sep.join(parts)` and `strip()`.
    Separators are never empty in the converter, so every operation here
    requires a non-empty separator (Python raises on an empty one). */
module Strings {

  /** `d` occurs in `s` starting at index `i`. */
  predicate OccursAt(s: string, d: string, i: int) {
    0 <= i && i + |d| <= |s| && s[i..i + |d|] == d
  }

  predicate Contains(s: string, d: string) {
    exists i :: 0 <= i <= |s| && OccursAt(s, d, i)
  }

  /** Index of the leftmost occurrence of `d` at or after `from`, or -1. */
  function FindFrom(s: string, d: string, from: nat): (r: int)
    requires |d| > 0 && from <= |s|
    ensures r == -1 || (from <= r && OccursAt(s, d, r))
    ensures forall j :: from <= j && (r == -1 || j < r) ==> !OccursAt(s, d, j)
    decreases |s| - from
  {
    if from + |d| > |s| then -1
    else if s[from..from + |d|] == d then from
    else FindFrom(s, d, from + 1)
  }

  /** Python's `s.find(d)`. */
  function Find(s: string, d: string): (r: int)
    requires |d| > 0
    ensures r == -1 <==> !Contains(s, d)
    ensures r != -1 ==> OccursAt(s, d, r) && forall j :: 0 <= j < r ==> !OccursAt(s, d, j)
  {
    FindFrom(s, d, 0)
  }

  /** The pieces of `s[from..]` between the non-overlapping occurrences of
      `d`, found left to right. */
  function SplitFrom(s: string, d: string, from: nat): (parts: seq<string>)
    requires |d| > 0 && from <= |s|
    ensures |parts| >= 1
    decreases |s| - from
  {
    var j := FindFrom(s, d, from);
    if j < 0 then [s[from..]] else [s[from..j]] + SplitFrom(s, d, j + |d|)
  }

  /** Python's `s.split(d)`. */
  function Split(s: string, d: string): (parts: seq<string>)
    requires |d| > 0
    ensures |parts| >= 1
  {
    SplitFrom(s, d, 0)
  }

  /** Python's `s.split(d, 1)`: cut at the leftmost occurrence only. */
  function SplitOnce(s: string, d: string): (sections: seq<string>)
    requires |d| > 0
    ensures |sections| == 1 <==> !Contains(s, d)
    ensures |sections| == 1 ==> sections[0] == s
    ensures |sections| == 2 ==> s == sections[0] + d + sections[1] && OccursAt(s, d, |sections[0]|)
    ensures |sections| == 2 ==> forall j :: 0 <= j < |sections[0]| ==> !OccursAt(s, d, j)
    ensures 1 <= |sections| <= 2
  {
    var i := Find(s, d);
    if i < 0 then [s]
    else
      OccurrenceCuts(s, d, i);
      [s[..i], s[i + |d|..]]
  }

  /** Python's `d.join(parts)`. */
  function Join(parts: seq<string>, d: string): string
    decreases |parts|
  {
    if |parts| == 0 then ""
    else if |parts| == 1 then parts[0]
    else Join(parts[..|parts| - 1], d) + d + parts[|parts| - 1]
  }

  /** Python's `"".join(parts)`. */
  function Concat(parts: seq<string>): string
    decreases |parts|
  {
    if parts == [] then "" else Concat(parts[..|parts| - 1]) + parts[|parts| - 1]
  }

  /** Number of non-overlapping occurrences of `d` in `s[i..]`, scanning
      left to right one character at a time. */
  function CountFrom(s: string, d: string, i: nat): nat
    requires |d| > 0 && i <= |s|
    decreases |s| - i
  {
    if i + |d| > |s| then 0
    else if OccursAt(s, d, i) then 1 + CountFrom(s, d, i + |d|)
    else CountFrom(s, d, i + 1)
  }

  function Count(s: string, d: string): nat
    requires |d| > 0
  {
    CountFrom(s, d, 0)
  }

  /** `s[i..]` with every non-overlapping occurrence of `d` (left to right)
      deleted, scanning one character at a time. */
  function RemoveFrom(s: string, d: string, i: nat): string
    requires |d| > 0 && i <= |s|
    decreases |s| - i
  {
    if i + |d| > |s| then s[i..]
    else if OccursAt(s, d, i) then RemoveFrom(s, d, i + |d|)
    else [s[i]] + RemoveFrom(s, d, i + 1)
  }

  function RemoveAll(s: string, d: string): string
    requires |d| > 0
  {
    RemoveFrom(s, d, 0)
  }

  lemma AppendAssoc<T>(a: seq<T>, b: seq<T>, c: seq<T>)
    ensures a + (b + c) == (a + b) + c
  {
  }

  lemma JoinSnoc(parts: seq<string>, d: string)
    requires |parts| >= 2
    ensures Join(parts, d) == Join(parts[..|parts| - 1], d) + d + parts[|parts| - 1]
  {
  }

  lemma {:induction false} JoinCons(a: string, rest: seq<string>, d: string)
    requires rest != []
    ensures Join([a] + rest, d) == a + d + Join(rest, d)
    decreases |rest|
  {
    if |rest| > 1 {
      assert ([a] + rest)[..|rest|] == [a] + rest[..|rest| - 1];
      JoinCons(a, rest[..|rest| - 1], d);
    }
  }

  lemma {:induction false} ConcatCons(a: string, rest: seq<string>)
    ensures Concat([a] + rest) == a + Concat(rest)
    decreases |rest|
  {
    if rest != [] {
      assert ([a] + rest)[..|rest|] == [a] + rest[..|rest| - 1];
      ConcatCons(a, rest[..|rest| - 1]);
    } else {
      assert [a][..0] == [];
    }
  }

  lemma ConcatSingle(a: string)
    ensures Concat([a]) == a
  {
    assert [a][..0] == [];
  }

  lemma {:induction false} ConcatAppend(xs: seq<string>, ys: seq<string>)
    ensures Concat(xs + ys) == Concat(xs) + Concat(ys)
    decreases |ys|
  {
    if ys == [] {
      assert xs + ys == xs;
    } else {
      var n := |ys| - 1;
      var zs := xs + ys;
      assert zs[..|zs| - 1] == xs + ys[..n];
      assert zs[|zs| - 1] == ys[n];
      ConcatAppend(xs, ys[..n]);
    }
  }

  /** An occurrence of `d` cuts `s` into what precedes it, `d`, and what follows. */
  lemma OccurrenceCuts(s: string, d: string, i: int)
    requires OccursAt(s, d, i)
    ensures s == s[..i] + d + s[i + |d|..]
  {
    assert s[i..i + |d|] == d;
    assert s == s[..i] + s[i..i + |d|] + s[i + |d|..];
  }

  /** The same cut, of a suffix `s[from..]`. */
  lemma SuffixCuts(s: string, d: string, from: nat, i: nat)
    requires from <= i && OccursAt(s, d, i)
    ensures s[from..] == s[from..i] + d + s[i + |d|..]
  {
    assert s[i..i + |d|] == d;
    assert s[from..] == s[from..i] + s[i..i + |d|] + s[i + |d|..];
  }

  /** One split step: the piece before the first occurrence, then the rest. */
  lemma SplitFromStep(s: string, d: string, from: nat)
    requires |d| > 0 && from <= |s| && FindFrom(s, d, from) >= 0
    ensures var j := FindFrom(s, d, from);
      SplitFrom(s, d, from) == [s[from..j]] + SplitFrom(s, d, j + |d|)
  {
  }

  /** Round trip: joining the pieces of a split with the separator gives
      back the original string. */
  lemma SplitJoin(s: string, d: string)
    requires |d| > 0
    ensures Join(Split(s, d), d) == s
  {
    SplitFromJoin(s, d, 0);
  }

  lemma {:induction false} SplitFromJoin(s: string, d: string, from: nat)
    requires |d| > 0 && from <= |s|
    ensures Join(SplitFrom(s, d, from), d) == s[from..]
    decreases |s| - from
  {
    var j := FindFrom(s, d, from);
    if j >= 0 {
      SplitFromJoin(s, d, j + |d|);
      JoinStep(s, d, from);
    }
  }

  lemma JoinStep(s: string, d: string, from: nat)
    requires |d| > 0 && from <= |s| && FindFrom(s, d, from) >= 0
    requires var j := FindFrom(s, d, from);
      Join(SplitFrom(s, d, j + |d|), d) == s[j + |d|..]
    ensures Join(SplitFrom(s, d, from), d) == s[from..]
  {
    var j := FindFrom(s, d, from);
    SplitFromStep(s, d, from);
    JoinCons(s[from..j], SplitFrom(s, d, j + |d|), d);
    SuffixCuts(s, d, from, j);
  }

  /** An occurrence inside a slice is an occurrence in the whole string. */
  lemma OccursInSlice(s: string, d: string, i: nat, j: nat, k: int)
    requires i <= j <= |s| && OccursAt(s[i..j], d, k)
    ensures OccursAt(s, d, i + k) && i + k + |d| <= j
  {
    var a := s[i..j][k..k + |d|];
    var b := s[i + k..i + k + |d|];
    forall m | 0 <= m < |d| ensures a[m] == b[m] { }
    assert a == b;
  }

  /** No piece of a split contains the separator. */
  lemma SplitPiecesFree(s: string, d: string)
    requires |d| > 0
    ensures forall p | p in Split(s, d) :: !Contains(p, d)
  {
    SplitFromPiecesFree(s, d, 0);
  }

  lemma {:induction false} SplitFromPiecesFree(s: string, d: string, from: nat)
    requires |d| > 0 && from <= |s|
    ensures forall p | p in SplitFrom(s, d, from) :: !Contains(p, d)
    decreases |s| - from
  {
    FirstPieceFree(s, d, from);
    var j := FindFrom(s, d, from);
    if j >= 0 {
      SplitFromPiecesFree(s, d, j + |d|);
      SplitFromStep(s, d, from);
    }
  }

  /** The first piece runs up to the first occurrence, so it has none. */
  lemma FirstPieceFree(s: string, d: string, from: nat)
    requires |d| > 0 && from <= |s|
    ensures !Contains(SplitFrom(s, d, from)[0], d)
  {
    var j := FindFrom(s, d, from);
    var end := if j < 0 then |s| else j;
    assert s[from..end] == SplitFrom(s, d, from)[0];
    forall k | OccursAt(s[from..end], d, k) ensures false {
      OccursInSlice(s, d, from, end, k);
    }
  }

  /** Counting up to and past the first occurrence at or after `i`. */
  lemma {:induction false} CountToFirst(s: string, d: string, i: nat, j: nat)
    requires |d| > 0 && i <= j && OccursAt(s, d, j)
    requires forall k :: i <= k < j ==> !OccursAt(s, d, k)
    ensures CountFrom(s, d, i) == 1 + CountFrom(s, d, j + |d|)
    decreases j - i
  {
    if i < j {
      CountToFirst(s, d, i + 1, j);
    }
  }

  /** Deleting up to and past the first occurrence at or after `i`. */
  lemma {:induction false} RemoveToFirst(s: string, d: string, i: nat, j: nat)
    requires |d| > 0 && i <= j && OccursAt(s, d, j)
    requires forall k :: i <= k < j ==> !OccursAt(s, d, k)
    ensures RemoveFrom(s, d, i) == s[i..j] + RemoveFrom(s, d, j + |d|)
    decreases j - i
  {
    if i < j {
      RemoveToFirst(s, d, i + 1, j);
      AppendAssoc([s[i]], s[i + 1..j], RemoveFrom(s, d, j + |d|));
      assert [s[i]] + s[i + 1..j] == s[i..j];
    } else {
      assert s[i..j] == [];
    }
  }

  /** A suffix with no occurrence counts none ... */
  lemma {:induction false} CountNone(s: string, d: string, i: nat)
    requires |d| > 0 && i <= |s|
    requires forall k :: i <= k ==> !OccursAt(s, d, k)
    ensures CountFrom(s, d, i) == 0
    decreases |s| - i
  {
    if i + |d| <= |s| {
      CountNone(s, d, i + 1);
    }
  }

  /** ... and loses nothing. */
  lemma {:induction false} RemoveNone(s: string, d: string, i: nat)
    requires |d| > 0 && i <= |s|
    requires forall k :: i <= k ==> !OccursAt(s, d, k)
    ensures RemoveFrom(s, d, i) == s[i..]
    decreases |s| - i
  {
    if i + |d| <= |s| {
      RemoveNone(s, d, i + 1);
      assert [s[i]] + s[i + 1..] == s[i..];
    }
  }

  /** A split yields one more piece than there are non-overlapping
      occurrences of the separator. */
  lemma SplitCount(s: string, d: string)
    requires |d| > 0
    ensures |Split(s, d)| == Count(s, d) + 1
  {
    SplitFromCount(s, d, 0);
  }

  lemma {:induction false} SplitFromCount(s: string, d: string, from: nat)
    requires |d| > 0 && from <= |s|
    ensures |SplitFrom(s, d, from)| == CountFrom(s, d, from) + 1
    decreases |s| - from
  {
    var j := FindFrom(s, d, from);
    if j < 0 {
      CountNone(s, d, from);
    } else {
      SplitFromCount(s, d, j + |d|);
      CountStep(s, d, from);
    }
  }

  lemma CountStep(s: string, d: string, from: nat)
    requires |d| > 0 && from <= |s| && FindFrom(s, d, from) >= 0
    requires var j := FindFrom(s, d, from);
      |SplitFrom(s, d, j + |d|)| == CountFrom(s, d, j + |d|) + 1
    ensures |SplitFrom(s, d, from)| == CountFrom(s, d, from) + 1
  {
    var j := FindFrom(s, d, from);
    SplitFromStep(s, d, from);
    CountToFirst(s, d, from, j);
  }

  /** Gluing the pieces of a split back together without the separator is
      the string with every occurrence of the separator deleted. */
  lemma SplitConcat(s: string, d: string)
    requires |d| > 0
    ensures Concat(Split(s, d)) == RemoveAll(s, d)
  {
    SplitFromConcat(s, d, 0);
  }

  lemma {:induction false} SplitFromConcat(s: string, d: string, from: nat)
    requires |d| > 0 && from <= |s|
    ensures Concat(SplitFrom(s, d, from)) == RemoveFrom(s, d, from)
    decreases |s| - from
  {
    var j := FindFrom(s, d, from);
    if j < 0 {
      RemoveNone(s, d, from);
      ConcatSingle(s[from..]);
    } else {
      SplitFromConcat(s, d, j + |d|);
      ConcatStep(s, d, from);
    }
  }

  lemma ConcatStep(s: string, d: string, from: nat)
    requires |d| > 0 && from <= |s| && FindFrom(s, d, from) >= 0
    requires var j := FindFrom(s, d, from);
      Concat(SplitFrom(s, d, j + |d|)) == RemoveFrom(s, d, j + |d|)
    ensures Concat(SplitFrom(s, d, from)) == RemoveFrom(s, d, from)
  {
    var j := FindFrom(s, d, from);
    SplitFromStep(s, d, from);
    RemoveToFirst(s, d, from, j);
    ConcatCons(s[from..j], SplitFrom(s, d, j + |d|));
  }

  // ---------------------------------------------------------------------
  // Python's `str.strip()`, over a fixed ASCII whitespace set.

  /** Space, tab, line feed, carriage return, vertical tab, form feed. */
  predicate IsSpace(c: char) {
    c == ' ' || c == '\t' || c == '\n' || c == '\r' || c == '\U{B}' || c == '\U{C}'
  }

  predicate AllSpace(s: string) {
    forall i :: 0 <= i < |s| ==> IsSpace(s[i])
  }

  /** Neither the first nor the last character is whitespace. */
  predicate IsStripped(s: string) {
    s == [] || (!IsSpace(s[0]) && !IsSpace(s[|s| - 1]))
  }

  /** Length of the whitespace run at the start of `s`. */
  function LeadingSpace(s: string): (k: nat)
    ensures k <= |s| && AllSpace(s[..k])
    ensures k < |s| ==> !IsSpace(s[k])
  {
    if s != [] && IsSpace(s[0]) then 1 + LeadingSpace(s[1..]) else 0
  }

  /** Length of the whitespace run at the end of `s`. */
  function TrailingSpace(s: string): (k: nat)
    ensures k <= |s| && AllSpace(s[|s| - k..])
    ensures k < |s| ==> !IsSpace(s[|s| - k - 1])
  {
    if s != [] && IsSpace(s[|s| - 1]) then 1 + TrailingSpace(s[..|s| - 1]) else 0
  }

  /** Python's `s.strip()`: the result is `s` with its leading and its
      trailing whitespace runs cut off, and nothing else. */
  function Strip(s: string): (r: string)
    ensures IsStripped(r)
    ensures LeadingSpace(s) + |r| <= |s|
    ensures r == s[LeadingSpace(s)..LeadingSpace(s) + |r|]
    ensures AllSpace(s[LeadingSpace(s) + |r|..])
    ensures AllSpace(s) <==> r == []
  {
    var i := LeadingSpace(s);
    if i == |s| then
      assert s[..i] == s;
      ""
    else
      var t := TrailingSpace(s);
      assert |s| - t > i;
      assert !AllSpace(s) by {
        assert !IsSpace(s[i]);
      }
      s[i..|s| - t]
  }

  /** strip() leaves a string without surrounding whitespace as it is. */
  lemma StripStripped(s: string)
    requires IsStripped(s)
    ensures Strip(s) == s
  {
    if s != [] {
      assert LeadingSpace(s) == 0;
      assert TrailingSpace(s) == 0;
      assert s[0..|s|] == s;
    }
  }

  /** strip() is idempotent. */
  lemma StripIdempotent(s: string)
    ensures Strip(Strip(s)) == Strip(s)
  {
    StripStripped(Strip(s));
  }

  /** A slice of a string without `d` has no `d` either. */
  lemma SliceFree(s: string, d: string, i: nat, j: nat)
    requires i <= j <= |s| && !Contains(s, d)
    ensures !Contains(s[i..j], d)
  {
    forall k | 0 <= k <= j - i ensures !OccursAt(s[i..j], d, k) {
      if OccursAt(s[i..j], d, k) {
        OccursInSlice(s, d, i, j, k);
      }
    }
  }

  /** A string without `d` splits into itself alone. */
  lemma SplitAbsent(s: string, d: string)
    requires |d| > 0 && !Contains(s, d)
    ensures Split(s, d) == [s]
  {
    assert s[0..] == s;
  }
}
