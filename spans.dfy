/** `re.findall(r"(DECRETO NÚMERO.*?)(?=(?:DECRETO NÚMERO|RESOLUCIÓ?N NÚMERO|$))", content, flags=re.S)`
    and its resolution twin: the blocks of a ministry section that each start at
    a marker and run, lazily, up to the next marker of either kind or the end. */
module Spans {
  import opened Text
  import opened Patterns

  /** The two kinds of act the segmenter extracts. */
  datatype Kind = Decree | Resolution {
    /** The marker that opens an act of this kind. */
    function Marker(): Pattern {
      match this
      case Decree => DecreeMarker
      case Resolution => ResolutionMarker
    }

    /** The `tipo_documento` value written for an act of this kind. */
    function Label(): string {
      match this
      case Decree => "DECRETO"
      case Resolution => "RESOLUCIÓN"
    }
  }

  /** A block `s[start..end]` of the section text. */
  datatype Span = Span(start: nat, end: nat)

  /** What one block found by `findall` satisfies: it opens with a marker of its kind,
      the whole marker is inside it, the lookahead holds at its end, and the lookahead
      holds nowhere strictly inside it. */
  predicate SpanOk(s: string, sp: Span, kind: Kind) {
    && sp.start < sp.end <= |s|
    && MatchesAt(s, sp.start, kind.Marker())
    && sp.start + MarkerLength(s[sp.start..]) <= sp.end
    && MatchesAt(s, sp.end, SpanStop)
    && forall k :: sp.start < k < sp.end ==> !MatchesAt(s, k, SpanStop)
  }

  /** Nothing stops the lazy match inside the marker it started with. */
  lemma NoStopInMarker(s: string, p: nat, kind: Kind)
    requires p < |s| && MatchesAt(s, p, kind.Marker())
    ensures forall k :: p < k < p + MarkerLength(s[p..]) ==> !MatchesAt(s, k, SpanStop)
  {
    forall k | p < k < p + MarkerLength(s[p..])
      ensures !MatchesAt(s, k, SpanStop)
    {
      MarkerNoOverlap(s[p..], k - p);
      assert s[p..][k - p..] == s[k..];
    }
  }

  /** The first match of `findall` at or after `from`, when there is a marker left:
      the leftmost marker, then the shortest stretch after the whole marker that ends
      where the lookahead holds. */
  function NextSpan(s: string, from: nat, kind: Kind): (sp: Span)
    requires from <= |s| && Find(s, from, kind.Marker()) < |s|
    ensures from <= sp.start && SpanOk(s, sp, kind)
    ensures forall k :: from <= k < sp.start ==> !MatchesAt(s, k, kind.Marker())
  {
    var p := Find(s, from, kind.Marker());
    var e := Find(s, p + MarkerLength(s[p..]), SpanStop);
    NoStopInMarker(s, p, kind);
    assert e == |s| ==> s[e..] == [];
    Span(p, e)
  }

  /** The blocks `findall` returns when it scans `s` from `from`: after each match the
      scan resumes where that match ended. */
  function MarkerSpans(s: string, from: nat, kind: Kind): (spans: seq<Span>)
    requires from <= |s|
    ensures |spans| <= |s| - from
    ensures forall i :: 0 <= i < |spans| ==> from <= spans[i].start < spans[i].end <= |s|
    decreases |s| - from
  {
    if Find(s, from, kind.Marker()) == |s| then []
    else
      var sp := NextSpan(s, from, kind);
      [sp] + MarkerSpans(s, sp.end, kind)
  }

  /** Every block of `spans` is well formed and lies after `from`. */
  predicate AllOk(s: string, spans: seq<Span>, from: nat, kind: Kind) {
    forall i :: 0 <= i < |spans| ==> from <= spans[i].start && SpanOk(s, spans[i], kind)
  }

  /** The blocks come in text order without overlapping. */
  predicate Ordered(spans: seq<Span>) {
    forall i, j :: 0 <= i < j < |spans| ==> spans[i].end <= spans[j].start
  }

  lemma AllOkCons(s: string, sp: Span, rest: seq<Span>, from: nat, kind: Kind)
    requires from <= sp.start && SpanOk(s, sp, kind)
    requires AllOk(s, rest, sp.end, kind)
    ensures AllOk(s, [sp] + rest, from, kind)
  {
    var ok := (t: Span) => from <= t.start && SpanOk(s, t, kind);
    assert forall i :: 0 <= i < |rest| ==> ok(rest[i]);
    AllCons(ok, sp, rest);
  }

  /** A property of an element and of every element of a list holds of every element
      of the longer list. */
  lemma AllCons<T>(p: T -> bool, x: T, rest: seq<T>)
    requires p(x) && forall i :: 0 <= i < |rest| ==> p(rest[i])
    ensures forall i :: 0 <= i < |[x] + rest| ==> p(([x] + rest)[i])
  {
    var xs := [x] + rest;
    assert forall i :: 0 < i < |xs| ==> xs[i] == rest[i - 1];
  }

  lemma OrderedCons(sp: Span, rest: seq<Span>)
    requires forall i :: 0 <= i < |rest| ==> sp.end <= rest[i].start
    requires Ordered(rest)
    ensures Ordered([sp] + rest)
  {
    var spans := [sp] + rest;
    assert forall i :: 0 < i < |spans| ==> spans[i] == rest[i - 1];
  }

  /** Every block is well formed, lies after `from`, and the blocks come in text order
      without overlapping. */
  lemma {:induction false} SpansOk(s: string, from: nat, kind: Kind)
    requires from <= |s|
    ensures AllOk(s, MarkerSpans(s, from, kind), from, kind)
    ensures Ordered(MarkerSpans(s, from, kind))
    decreases |s| - from
  {
    if Find(s, from, kind.Marker()) < |s| {
      var sp := NextSpan(s, from, kind);
      SpansOk(s, sp.end, kind);
      var rest := MarkerSpans(s, sp.end, kind);
      AllOkCons(s, sp, rest, from, kind);
      assert forall i :: 0 <= i < |rest| ==> sp.end <= rest[i].start;
      OrderedCons(sp, rest);
    }
  }

  /** A block contains no other marker of its own kind. */
  lemma NoMarkerInside(s: string, sp: Span, kind: Kind)
    requires SpanOk(s, sp, kind)
    ensures forall k :: sp.start < k < sp.end ==> !MatchesAt(s, k, kind.Marker())
  {
    forall k | sp.start < k < sp.end
      ensures !MatchesAt(s, k, kind.Marker())
    {
      assert !MatchesAt(s, k, SpanStop);
      MarkerIsStop(s[k..], kind.Marker());
    }
  }

  /** The markers counted from `from` are the one that opens the next block and those
      after that block. */
  lemma CountOverSpan(s: string, from: nat, kind: Kind)
    requires from <= |s| && Find(s, from, kind.Marker()) < |s|
    ensures Count(s, from, kind.Marker()) == 1 + Count(s, NextSpan(s, from, kind).end, kind.Marker())
  {
    var p := Find(s, from, kind.Marker());
    var sp := NextSpan(s, from, kind);
    CountSkip(s, from, p, kind.Marker());
    CountHit(s, p, kind.Marker());
    NoMarkerInside(s, sp, kind);
    CountSkip(s, p + 1, sp.end, kind.Marker());
  }

  /** `findall` returns one block per marker of its kind in the text. */
  lemma {:induction false} SpansCount(s: string, from: nat, kind: Kind)
    requires from <= |s|
    ensures |MarkerSpans(s, from, kind)| == Count(s, from, kind.Marker())
    decreases |s| - from
  {
    var p := Find(s, from, kind.Marker());
    if p < |s| {
      var sp := NextSpan(s, from, kind);
      CountOverSpan(s, from, kind);
      SpansCount(s, sp.end, kind);
    } else {
      CountSkip(s, from, p, kind.Marker());
    }
  }

  /** Every marker of its kind at or after `from` opens one of the blocks. */
  lemma {:induction false} SpansCover(s: string, from: nat, kind: Kind, k: nat)
    requires from <= k < |s| && MatchesAt(s, k, kind.Marker())
    ensures exists i :: 0 <= i < |MarkerSpans(s, from, kind)| && MarkerSpans(s, from, kind)[i].start == k
    decreases |s| - from
  {
    var sp := NextSpan(s, from, kind);
    var spans := MarkerSpans(s, from, kind);
    assert spans[0] == sp;
    if sp.start < k {
      NoMarkerInside(s, sp, kind);
      var rest := MarkerSpans(s, sp.end, kind);
      SpansCover(s, sp.end, kind, k);
      var i :| 0 <= i < |rest| && rest[i].start == k;
      assert spans[i + 1] == rest[i];
    }
  }

  /** The texts of the blocks, in the order `findall` returns them. */
  function FindAll(s: string, kind: Kind): (blocks: seq<string>)
    ensures |blocks| == |MarkerSpans(s, 0, kind)|
  {
    var spans := MarkerSpans(s, 0, kind);
    SpansOk(s, 0, kind);
    seq(|spans|, i requires 0 <= i < |spans| => s[spans[i].start..spans[i].end])
  }

  /** A marker seen in a piece `s[a..b]` of the text is a marker of the text. */
  lemma MarkerInPiece(s: string, a: nat, b: nat, k: nat, pat: Pattern)
    requires a + k <= b <= |s|
    requires pat == DecreeMarker || pat == ResolutionMarker
    ensures Starts(s[a..b][k..], pat) ==> MatchesAt(s, a + k, pat)
  {
    if Starts(s[a..b][k..], pat) {
      assert s[a..b][k..] == s[a + k..][..b - a - k];
      MarkerExtends(s[a + k..], b - a - k, pat);
    }
  }

  /** A prefix of `t` that holds its whole opening marker still opens with it. */
  lemma MarkerInPrefix(t: string, m: nat, kind: Kind)
    requires Starts(t, kind.Marker()) && MarkerLength(t) <= m <= |t|
    ensures Starts(t[..m], kind.Marker())
  {
    var n := MarkerLength(t);
    assert t[..m][..n] == t[..n];
  }

  /** No marker starts in a piece `s[a..b]` where the lookahead does not hold. */
  lemma NoMarkerInBlock(s: string, a: nat, b: nat, k: nat, pat: Pattern)
    requires a + k < b <= |s| && !MatchesAt(s, a + k, SpanStop)
    requires pat == DecreeMarker || pat == ResolutionMarker
    ensures !Starts(s[a..b][k..], pat)
  {
    MarkerInPiece(s, a, b, k, pat);
    MarkerIsStop(s[a + k..], pat);
  }

  /** No marker of either kind starts in `t` past its first character. */
  predicate NoInnerMarker(t: string) {
    forall k :: 0 < k < |t| ==> !Starts(t[k..], DecreeMarker) && !Starts(t[k..], ResolutionMarker)
  }

  /** The text of a block starts with a marker of its kind, and no marker of either
      kind starts anywhere else in it. */
  lemma BlockShape(s: string, sp: Span, kind: Kind)
    requires SpanOk(s, sp, kind)
    ensures Starts(s[sp.start..sp.end], kind.Marker())
    ensures NoInnerMarker(s[sp.start..sp.end])
  {
    var t := s[sp.start..sp.end];
    forall k | 0 < k < |t|
      ensures !Starts(t[k..], DecreeMarker) && !Starts(t[k..], ResolutionMarker)
    {
      assert !MatchesAt(s, sp.start + k, SpanStop);
      NoMarkerInBlock(s, sp.start, sp.end, k, DecreeMarker);
      NoMarkerInBlock(s, sp.start, sp.end, k, ResolutionMarker);
    }
    assert t == s[sp.start..][..sp.end - sp.start];
    MarkerInPrefix(s[sp.start..], sp.end - sp.start, kind);
  }

  /** Each text `findall` returns is a block of the section as described above, and
      there are as many as there are markers of that kind. */
  lemma FindAllShape(s: string, kind: Kind)
    ensures |FindAll(s, kind)| == Count(s, 0, kind.Marker())
    ensures forall i :: 0 <= i < |FindAll(s, kind)| ==> Starts(FindAll(s, kind)[i], kind.Marker())
    ensures forall i :: 0 <= i < |FindAll(s, kind)| ==> NoInnerMarker(FindAll(s, kind)[i])
  {
    SpansCount(s, 0, kind);
    SpansOk(s, 0, kind);
    var spans := MarkerSpans(s, 0, kind);
    var blocks := FindAll(s, kind);
    forall i | 0 <= i < |spans|
      ensures Starts(blocks[i], kind.Marker()) && NoInnerMarker(blocks[i])
    {
      BlockShape(s, spans[i], kind);
    }
  }
}
