/** `re.split(r"(Ministerio[^\n]+)", full_text)`: the issue text cut at every
    ministry heading, the headings kept as pieces of their own. */
module Sections {
  import opened Text
  import opened Patterns

  /** What a heading piece looks like: the literal, at least one more character,
      and nothing from the next line. */
  predicate IsHeadingText(h: string) {
    |MINISTERIO| < |h| && StartsWith(h, MINISTERIO) && '\n' !in h
  }

  /** A piece between headings: no heading starts anywhere inside it. */
  predicate HasNoHeading(t: string) {
    forall k :: 0 <= k <= |t| ==> !MatchesAt(t, k, Heading)
  }

  /** The pieces joined back together. */
  function Concat(parts: seq<string>): (joined: string) {
    if parts == [] then [] else parts[0] + Concat(parts[1..])
  }

  /** The end of the heading that starts at `p`: `[^\n]+` is greedy, so the heading
      runs to the next line break or to the end of the text. */
  function HeadingEnd(s: string, p: nat): (e: nat)
    requires p < |s| && MatchesAt(s, p, Heading)
    ensures p + |MINISTERIO| < e <= |s|
    ensures e < |s| ==> s[e] == '\n'
    ensures forall k :: p <= k < e ==> s[k] != '\n'
  {
    var e := Find(s, p + |MINISTERIO|, LineBreak);
    assert s[p..][..|MINISTERIO|] == MINISTERIO;
    assert '\n' !in MINISTERIO;
    assert forall k :: p <= k < p + |MINISTERIO| ==> s[k] == MINISTERIO[k - p];
    assert forall k :: p + |MINISTERIO| <= k < e ==> s[k] == s[k..][0] && !MatchesAt(s, k, LineBreak);
    assert s[p + |MINISTERIO|] == s[p..][|MINISTERIO|];
    e
  }

  /** The split of `t`, a text that starts where a piece between headings starts:
      the text up to the first heading, the heading, and the split of the rest. */
  function Pieces(t: string): (parts: seq<string>)
    ensures |parts| % 2 == 1
    ensures parts[0] == t[..Find(t, 0, Heading)]
    decreases |t|
  {
    var p := Find(t, 0, Heading);
    if p == |t| then assert t[..p] == t; [t]
    else
      var e := HeadingEnd(t, p);
      [t[..p], t[p..e]] + Pieces(t[e..])
  }

  /** The heading `h` is found leftmost after the piece `a`: no heading of `a + h`
      starts inside `a`. */
  predicate LeftmostCut(a: string, h: string) {
    forall j :: 0 <= j < |a| ==> !MatchesAt(a + h, j, Heading)
  }

  /** What follows a heading shows that the heading was taken greedily: the next
      piece starts with the line break that ends the heading, or it is the last
      piece and empty (the heading ran to the end of the text). */
  predicate AfterHeading(rest: seq<string>)
    requires rest != []
  {
    if rest[0] == [] then |rest| == 1 else rest[0][0] == '\n'
  }

  /** The shape of a split, piece pair by piece pair: a piece without heading, then
      (if there is more) the leftmost heading after it, taken greedily, and the split
      of the rest. */
  predicate WellSplit(parts: seq<string>)
    decreases |parts|
  {
    && parts != []
    && HasNoHeading(parts[0])
    && (|parts| > 1 ==>
          && |parts| > 2
          && IsHeadingText(parts[1])
          && LeftmostCut(parts[0], parts[1])
          && AfterHeading(parts[2..])
          && WellSplit(parts[2..]))
  }

  /** The list `re.split` returns: text, heading, text, heading, ..., text. */
  function SplitOnHeadings(s: string): (parts: seq<string>)
    ensures |parts| % 2 == 1
    ensures WellSplit(parts) && Concat(parts) == s
  {
    PiecesWellSplit(s);
    PiecesConcat(s);
    Pieces(s)
  }

  /** What `re.split` with a capturing group promises about its result. */
  lemma SplitOnHeadingsShape(s: string)
    // joining the pieces gives back the text
    ensures Concat(SplitOnHeadings(s)) == s
    // pieces 1, 3, 5, ... are headings, pieces 0, 2, 4, ... contain none
    ensures var parts := SplitOnHeadings(s);
            forall k :: 0 <= k && 2 * k + 1 < |parts| ==> IsHeadingText(parts[2 * k + 1])
    ensures var parts := SplitOnHeadings(s);
            forall k :: 0 <= k && 2 * k < |parts| ==> HasNoHeading(parts[2 * k])
    // each heading is the leftmost one after the piece before it
    ensures var parts := SplitOnHeadings(s);
            forall k :: 0 <= k && 2 * k + 1 < |parts| ==> LeftmostCut(parts[2 * k], parts[2 * k + 1])
    // a heading runs to the end of its line: the next piece starts with the line
    // break, or the heading ends the text
    ensures var parts := SplitOnHeadings(s);
            forall k :: 0 < k && 2 * k < |parts| ==>
              if parts[2 * k] == [] then 2 * k + 1 == |parts| else parts[2 * k][0] == '\n'
  {
    WellSplitIndexed(SplitOnHeadings(s));
  }

  /** The split is the only well-formed one: any list of pieces that joins to `s` and
      has the shape of `WellSplit` is the list `re.split` returns. */
  lemma {:induction false} SplitUnique(s: string, parts: seq<string>)
    requires WellSplit(parts) && Concat(parts) == s
    ensures parts == SplitOnHeadings(s)
    decreases |parts|
  {
    if |parts| == 1 {
      assert parts[1..] == [];
      assert s == parts[0];
      assert Find(s, 0, Heading) == |s|;
    } else {
      var a, h, rest := parts[0], parts[1], parts[2..];
      var u := Concat(rest);
      assert parts == [a, h] + rest;
      ConcatCons(a, h, rest);
      AfterHeadingStart(rest);
      FirstHeadingAt(a, h, u);
      HeadingEndAt(a, h, u);
      SplitUnique(u, rest);
      PiecesStep(s);
      SplitSlices(a, h, u);
    }
  }

  /** A cut after a heading that is not the leftmost one is not a split: in
      "MinisterioMinisterio X" the heading starts at 0 and takes the whole line. */
  lemma LaterCutRejected()
    ensures !WellSplit(["Ministerio", "Ministerio X", ""])
  {
    var a, h := "Ministerio", "Ministerio X";
    assert (a + h)[0..][..|MINISTERIO|] == MINISTERIO;
    assert MatchesAt(a + h, 0, Heading);
  }

  /** The join of a split that satisfies `AfterHeading` is empty or starts with a line break. */
  lemma AfterHeadingStart(rest: seq<string>)
    requires rest != [] && AfterHeading(rest)
    ensures Concat(rest) == [] || Concat(rest)[0] == '\n'
  {
    if rest[0] == [] {
      assert rest[1..] == [];
    }
  }

  /** A piece without any heading inside its join with the next heading puts the
      first heading of the text right after the piece. */
  lemma FirstHeadingAt(a: string, h: string, u: string)
    requires HasNoHeading(a) && IsHeadingText(h) && LeftmostCut(a, h)
    ensures Find(a + h + u, 0, Heading) == |a|
  {
    var s := a + h + u;
    assert s[|a|..][..|h|] == h;
    assert Starts(s[|a|..], Heading);
    forall j | 0 <= j < |a|
      ensures !MatchesAt(s, j, Heading)
    {
      assert s[..|a| + |h|] == a + h;
      if MatchesAt(s, j, Heading) {
        HeadingTruncate(s, j, |a| + |h|);
      }
    }
    FindLeftmostAt(s, |a|, Heading);
  }

  /** A heading match needs only the literal and one more character. */
  lemma HeadingTruncate(s: string, j: nat, to: nat)
    requires j + |MINISTERIO| < to <= |s| && MatchesAt(s, j, Heading)
    ensures MatchesAt(s[..to], j, Heading)
  {
    assert s[..to][j..][..|MINISTERIO|] == s[j..][..|MINISTERIO|];
    assert s[..to][j..][|MINISTERIO|] == s[j..][|MINISTERIO|];
  }

  /** `Find` stops at the first match. */
  lemma {:induction false} FindLeftmostAt(s: string, p: nat, pat: Pattern)
    requires p < |s| && MatchesAt(s, p, pat)
    requires forall j :: 0 <= j < p ==> !MatchesAt(s, j, pat)
    ensures Find(s, 0, pat) == p
  {
  }

  /** The greedy heading that starts after `a` is exactly `h` when what follows `h`
      is empty or starts with a line break. */
  lemma HeadingEndAt(a: string, h: string, u: string)
    requires IsHeadingText(h) && (u == [] || u[0] == '\n')
    requires MatchesAt(a + h + u, |a|, Heading)
    ensures HeadingEnd(a + h + u, |a|) == |a| + |h|
  {
    var s := a + h + u;
    var from := |a| + |MINISTERIO|;
    var e := |a| + |h|;
    forall k | from <= k < e
      ensures !MatchesAt(s, k, LineBreak)
    {
      assert s[k] == h[k - |a|];
      assert s[k..][0] == s[k];
    }
    if e < |s| {
      assert s[e] == u[0];
      assert s[e..][0] == s[e];
    }
    var r := Find(s, from, LineBreak);
    assert r >= e;
  }

  /** The slices of a text made of a piece, a heading and the rest. Dafny knows
      this without proof; the lemma only keeps the solver's work small where it is needed. */
  lemma SplitSlices(a: string, h: string, u: string)
    ensures var s := a + h + u; s[..|a|] == a && s[|a|..|a| + |h|] == h && s[|a| + |h|..] == u
  {
  }

  /** A heading found in a prefix of the text is a heading of the text. */
  lemma HeadingInPrefix(s: string, to: nat, k: nat)
    requires k <= to <= |s|
    requires MatchesAt(s[..to], k, Heading)
    ensures MatchesAt(s, k, Heading)
  {
    assert s[..to][k..] == s[k..][..to - k];
    MarkerExtends(s[k..], to - k, Heading);
  }

  /** The text before position `to` has no heading when none starts before `to`. */
  lemma GapHasNoHeading(s: string, to: nat)
    requires to <= |s|
    requires forall k :: 0 <= k < to ==> !MatchesAt(s, k, Heading)
    ensures HasNoHeading(s[..to])
  {
    forall k | 0 <= k <= to
      ensures !MatchesAt(s[..to], k, Heading)
    {
      if k == to {
        assert s[..to][k..] == [];
      } else if MatchesAt(s[..to], k, Heading) {
        HeadingInPrefix(s, to, k);
      }
    }
  }

  lemma HeadingPieceShape(s: string, p: nat)
    requires p < |s| && MatchesAt(s, p, Heading)
    ensures IsHeadingText(s[p..HeadingEnd(s, p)])
  {
    var e := HeadingEnd(s, p);
    assert s[p..e][..|MINISTERIO|] == s[p..][..|MINISTERIO|];
    assert forall k :: 0 <= k < e - p ==> s[p..e][k] == s[p + k];
  }

  lemma ConcatCons(a: string, b: string, rest: seq<string>)
    ensures Concat([a, b] + rest) == a + b + Concat(rest)
  {
    var parts := [a, b] + rest;
    assert parts[1..] == [b] + rest;
    assert parts[1..][1..] == rest;
  }

  /** A text is its three slices around `p` and `e`. Dafny knows this without
      proof; the lemma only keeps the solver's work small where it is needed. */
  lemma ThreeParts(t: string, p: nat, e: nat)
    requires p <= e <= |t|
    ensures t == t[..p] + t[p..e] + t[e..]
  {
  }

  lemma {:induction false} PiecesConcat(t: string)
    ensures Concat(Pieces(t)) == t
    decreases |t|
  {
    var p := Find(t, 0, Heading);
    if p == |t| {
      assert Concat([t]) == t + Concat([]);
    } else {
      var e := HeadingEnd(t, p);
      PiecesStep(t);
      PiecesConcat(t[e..]);
      ConcatCons(t[..p], t[p..e], Pieces(t[e..]));
      ThreeParts(t, p, e);
    }
  }

  /** One step of a split: a piece without heading, the leftmost heading after it,
      taken greedily, and the split of what follows. */
  lemma WellSplitCons(a: string, b: string, rest: seq<string>)
    requires HasNoHeading(a) && IsHeadingText(b) && LeftmostCut(a, b)
    requires WellSplit(rest) && AfterHeading(rest)
    ensures WellSplit([a, b] + rest)
  {
    var parts := [a, b] + rest;
    assert parts[0] == a && parts[1] == b;
    assert parts[2..] == rest;
  }

  lemma {:induction false} PiecesWellSplit(t: string)
    ensures WellSplit(Pieces(t))
    decreases |t|
  {
    var p := Find(t, 0, Heading);
    GapHasNoHeading(t, p);
    if p < |t| {
      var e := HeadingEnd(t, p);
      var rest := Pieces(t[e..]);
      PiecesWellSplit(t[e..]);
      HeadingPieceShape(t, p);
      FoundLeftmost(t, p, e);
      RestAfterHeading(t, p);
      WellSplitCons(t[..p], t[p..e], rest);
    }
  }

  /** No heading of the text up to the end of the first heading starts before it. */
  lemma FoundLeftmost(t: string, p: nat, e: nat)
    requires p <= e <= |t|
    requires forall j :: 0 <= j < p ==> !MatchesAt(t, j, Heading)
    ensures LeftmostCut(t[..p], t[p..e])
  {
    var c := t[..p] + t[p..e];
    assert c == t[..e];
    forall j | 0 <= j < p
      ensures !MatchesAt(c, j, Heading)
    {
      if MatchesAt(c, j, Heading) {
        HeadingInPrefix(t, e, j);
      }
    }
  }

  /** The split of what follows a heading starts with the line break that ends the
      heading, or is the single empty piece when the heading ends the text. */
  lemma RestAfterHeading(t: string, p: nat)
    requires p < |t| && MatchesAt(t, p, Heading)
    ensures AfterHeading(Pieces(t[HeadingEnd(t, p)..]))
  {
    var e := HeadingEnd(t, p);
    var u := t[e..];
    if e < |t| {
      assert u[0] == '\n';
      assert !MatchesAt(u, 0, Heading);
      assert Pieces(u)[0] == u[..Find(u, 0, Heading)];
      assert Pieces(u)[0][0] == u[0];
    } else {
      assert u == [];
      assert Find(u, 0, Heading) == 0;
    }
  }

  /** Pair `k` of a split: a piece without heading, the leftmost heading after it,
      and (past the first pair) the piece starts on the line after the previous
      heading, or is the empty last piece. */
  lemma {:induction false} WellSplitAt(parts: seq<string>, k: nat)
    requires WellSplit(parts) && 2 * k < |parts|
    ensures HasNoHeading(parts[2 * k])
    ensures 2 * k + 1 < |parts| ==> IsHeadingText(parts[2 * k + 1]) && LeftmostCut(parts[2 * k], parts[2 * k + 1])
    ensures 0 < k ==> if parts[2 * k] == [] then 2 * k + 1 == |parts| else parts[2 * k][0] == '\n'
    decreases k
  {
    if 0 < k {
      var rest := parts[2..];
      var j := k - 1;
      WellSplitAt(rest, j);
      assert rest[2 * j] == parts[2 * k];
      assert 2 * k + 1 < |parts| ==> rest[2 * j + 1] == parts[2 * k + 1];
    }
  }

  lemma WellSplitIndexed(parts: seq<string>)
    requires WellSplit(parts)
    ensures forall k :: 0 <= k && 2 * k + 1 < |parts| ==> IsHeadingText(parts[2 * k + 1])
    ensures forall k :: 0 <= k && 2 * k + 1 < |parts| ==> LeftmostCut(parts[2 * k], parts[2 * k + 1])
    ensures forall k :: 0 <= k && 2 * k < |parts| ==> HasNoHeading(parts[2 * k])
    ensures forall k :: 0 < k && 2 * k < |parts| ==>
              if parts[2 * k] == [] then 2 * k + 1 == |parts| else parts[2 * k][0] == '\n'
  {
    forall k | 0 <= k && 2 * k + 1 < |parts|
      ensures IsHeadingText(parts[2 * k + 1]) && LeftmostCut(parts[2 * k], parts[2 * k + 1])
    {
      WellSplitAt(parts, k);
    }
    forall k | 0 <= k && 2 * k < |parts|
      ensures HasNoHeading(parts[2 * k])
      ensures 0 < k ==> if parts[2 * k] == [] then 2 * k + 1 == |parts| else parts[2 * k][0] == '\n'
    {
      WellSplitAt(parts, k);
    }
  }

  /** A heading keeps its end, shifted, when the text before it is cut off. */
  lemma HeadingEndShift(s: string, h: nat)
    requires h < |s| && MatchesAt(s, h, Heading)
    ensures MatchesAt(s[h..], 0, Heading)
    ensures HeadingEnd(s[h..], 0) == HeadingEnd(s, h) - h
  {
    MatchesAtShift(s, h, h, Heading);
    FindShift(s, h, h + |MINISTERIO|, LineBreak);
  }

  /** One step of the split, for a text that has a heading. */
  lemma PiecesStep(t: string)
    requires Find(t, 0, Heading) < |t|
    ensures var p := Find(t, 0, Heading); var e := HeadingEnd(t, p);
            Pieces(t) == [t[..p], t[p..e]] + Pieces(t[e..])
  {
  }

  /** Slicing after cutting off a prefix is slicing the whole text. Dafny knows this without
      proof; the lemma only keeps the solver's work small where it is needed. */
  lemma ShiftSlices(s: string, h: nat, e: nat)
    requires h <= e <= |s|
    ensures s[h..][e - h..] == s[e..] && s[h..][..e - h] == s[h..e]
  {
  }

  /** Two splits that differ only in their first piece. Dafny knows this without
      proof; the lemma only keeps the solver's work small where it is needed. */
  lemma SameTail(a: seq<string>, b: seq<string>, x: string, y: string, r: seq<string>)
    requires a == [x, y] + r && b == [[], y] + r
    ensures |a| == |b| && a[1..] == b[1..] && b[0] == []
  {
    assert a[1..] == [y] + r;
    assert b[1..] == [y] + r;
  }

  /** The split of the text from its first heading on: an empty piece, the heading,
      and the split of what follows the heading. */
  lemma PiecesFromHeading(s: string, h: nat)
    requires h < |s| && Find(s, 0, Heading) == h
    ensures var e := HeadingEnd(s, h); Pieces(s[h..]) == [[], s[h..e]] + Pieces(s[e..])
  {
    var u := s[h..];
    var e := HeadingEnd(s, h);
    HeadingEndShift(s, h);
    PiecesAtHeading(u);
    ShiftSlices(s, h, e);
  }

  /** The split of a text that opens with a heading. */
  lemma PiecesAtHeading(u: string)
    requires 0 < |u| && MatchesAt(u, 0, Heading)
    ensures var e := HeadingEnd(u, 0); Pieces(u) == [[], u[..e]] + Pieces(u[e..])
  {
    FindLeftmostAt(u, 0, Heading);
    var e := HeadingEnd(u, 0);
    assert u[..0] == [] && u[0..e] == u[..e];
    PiecesStep(u);
  }

  /** Cutting off the text before the first heading changes only the first piece,
      which becomes empty. */
  lemma SplitAfterPreamble(s: string)
    ensures var h := Find(s, 0, Heading);
            var a, b := SplitOnHeadings(s), SplitOnHeadings(s[h..]);
            |a| == |b| && a[1..] == b[1..] && b[0] == []
  {
    var h := Find(s, 0, Heading);
    var u := s[h..];
    if h < |s| {
      var e := HeadingEnd(s, h);
      PiecesStep(s);
      PiecesFromHeading(s, h);
      SameTail(Pieces(s), Pieces(u), s[..h], s[h..e], Pieces(s[e..]));
    } else {
      assert u == [] && Find(u, 0, Heading) == 0;
    }
  }
}
