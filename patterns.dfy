/** The fixed regular expressions of the segmenter, as predicates on the text
    that follows a position, and the leftmost-match search that `re.search`,
    `re.split` and `re.findall` all perform. */
module Patterns {
  import opened Text

  const MINISTERIO: string := "Ministerio"
  const DECRETO_NUMERO: string := "DECRETO NÚMERO"
  const RESOLUCION_NUMERO: string := "RESOLUCIÓN NÚMERO"
  const RESOLUCIN_NUMERO: string := "RESOLUCIN NÚMERO"
  const POR_LA_CUAL: string := "por la cual"
  const ACUERDO: string := "acuerdo"

  /** The places one of the segmenter's regular expressions can match. */
  datatype Pattern =
    | Heading           // Ministerio[^\n]+ : the literal and at least one more character on its line
    | LineBreak         // \n
    | DecreeMarker      // DECRETO NÚMERO
    | ResolutionMarker  // RESOLUCIÓ?N NÚMERO : only the Ó is optional
    | SpanStop          // the lookahead (?=DECRETO NÚMERO|RESOLUCIÓ?N NÚMERO|$), DOTALL, no MULTILINE
    | PurposeOpen       // por la cual, ignoring case
    | PurposeClose      // ACUERDO, ignoring case

  /** Pattern `pat` matches at the very start of `t`. */
  predicate Starts(t: string, pat: Pattern) {
    match pat
    case Heading => |MINISTERIO| < |t| && StartsWith(t, MINISTERIO) && t[|MINISTERIO|] != '\n'
    case LineBreak => t != [] && t[0] == '\n'
    case DecreeMarker => StartsWith(t, DECRETO_NUMERO)
    case ResolutionMarker => StartsWith(t, RESOLUCION_NUMERO) || StartsWith(t, RESOLUCIN_NUMERO)
    // without MULTILINE, $ matches at the end and just before a final line break
    case SpanStop =>
      || StartsWith(t, DECRETO_NUMERO) || StartsWith(t, RESOLUCION_NUMERO) || StartsWith(t, RESOLUCIN_NUMERO)
      || t == "" || t == "\n"
    case PurposeOpen => CiStartsWith(t, POR_LA_CUAL)
    case PurposeClose => CiStartsWith(t, ACUERDO)
  }

  /** Pattern `pat` matches in `s` at position `p`. A match depends only on `s[p..]`. */
  predicate MatchesAt(s: string, p: nat, pat: Pattern) {
    p <= |s| && Starts(s[p..], pat)
  }

  /** The leftmost position at or after `from` where `pat` matches, or `|s|` if there is none. */
  function Find(s: string, from: nat, pat: Pattern): (r: nat)
    requires from <= |s|
    ensures from <= r <= |s|
    ensures r < |s| ==> MatchesAt(s, r, pat)
    ensures forall k :: from <= k < r ==> !MatchesAt(s, k, pat)
    decreases |s| - from
  {
    if from == |s| || MatchesAt(s, from, pat) then from else Find(s, from + 1, pat)
  }

  /** The number of positions at or after `from` where `pat` matches inside `s`. */
  function Count(s: string, from: nat, pat: Pattern): (n: nat)
    requires from <= |s|
    ensures n <= |s| - from
    decreases |s| - from
  {
    if from == |s| then 0
    else (if MatchesAt(s, from, pat) then 1 else 0) + Count(s, from + 1, pat)
  }

  /** There is no match left exactly when the search finds none. */
  lemma {:induction false} CountZeroIff(s: string, from: nat, pat: Pattern)
    requires from <= |s|
    ensures Count(s, from, pat) == 0 <==> Find(s, from, pat) == |s|
    decreases |s| - from
  {
    if from < |s| && !MatchesAt(s, from, pat) {
      CountZeroIff(s, from + 1, pat);
    }
  }

  /** No match between `from` and `to` leaves the count unchanged. */
  lemma {:induction false} CountSkip(s: string, from: nat, to: nat, pat: Pattern)
    requires from <= to <= |s|
    requires forall k :: from <= k < to ==> !MatchesAt(s, k, pat)
    ensures Count(s, from, pat) == Count(s, to, pat)
    decreases |s| - from
  {
    if from < to {
      CountSkip(s, from + 1, to, pat);
    }
  }

  /** A match at `p` adds one to the count. */
  lemma CountHit(s: string, p: nat, pat: Pattern)
    requires p < |s| && MatchesAt(s, p, pat)
    ensures Count(s, p, pat) == 1 + Count(s, p + 1, pat)
  {
  }

  /** Cutting a prefix off the text moves every match and every search result by its length. */
  lemma MatchesAtShift(s: string, h: nat, k: nat, pat: Pattern)
    requires h <= k <= |s|
    ensures MatchesAt(s[h..], k - h, pat) == MatchesAt(s, k, pat)
  {
    assert s[h..][k - h..] == s[k..];
  }

  lemma {:induction false} FindShift(s: string, h: nat, from: nat, pat: Pattern)
    requires h <= from <= |s|
    ensures Find(s[h..], from - h, pat) == Find(s, from, pat) - h
    decreases |s| - from
  {
    MatchesAtShift(s, h, from, pat);
    if from < |s| && !MatchesAt(s, from, pat) {
      FindShift(s, h, from + 1, pat);
    }
  }

  /** A marker that matches at the start of a prefix of `t` matches at the start of `t`. */
  lemma MarkerExtends(t: string, m: nat, pat: Pattern)
    requires m <= |t|
    requires pat == Heading || pat == DecreeMarker || pat == ResolutionMarker || pat == PurposeOpen || pat == PurposeClose
    requires Starts(t[..m], pat)
    ensures Starts(t, pat)
  {
    if pat == Heading {
      assert t[..m][..|MINISTERIO|] == t[..|MINISTERIO|];
    } else if pat == DecreeMarker {
      assert t[..m][..|DECRETO_NUMERO|] == t[..|DECRETO_NUMERO|];
    } else if pat == ResolutionMarker {
      if StartsWith(t[..m], RESOLUCION_NUMERO) {
        assert t[..m][..|RESOLUCION_NUMERO|] == t[..|RESOLUCION_NUMERO|];
      } else {
        assert t[..m][..|RESOLUCIN_NUMERO|] == t[..|RESOLUCIN_NUMERO|];
      }
    }
  }

  /** A marker is a stop: the lazy match of a block never runs past the start of another marker. */
  lemma MarkerIsStop(t: string, pat: Pattern)
    requires pat == DecreeMarker || pat == ResolutionMarker
    ensures Starts(t, pat) ==> Starts(t, SpanStop)
  {
  }

  /** The length of the marker at the start of `t`, or 0 if `t` does not begin with a marker. */
  function MarkerLength(t: string): (n: nat)
    ensures n <= |t|
    ensures Starts(t, DecreeMarker) ==> n == |DECRETO_NUMERO| && t[..n] == DECRETO_NUMERO
    ensures Starts(t, ResolutionMarker) ==>
              || (n == |RESOLUCION_NUMERO| && t[..n] == RESOLUCION_NUMERO)
              || (n == |RESOLUCIN_NUMERO| && t[..n] == RESOLUCIN_NUMERO)
    ensures n == 0 <==> !Starts(t, DecreeMarker) && !Starts(t, ResolutionMarker)
  {
    if StartsWith(t, DECRETO_NUMERO) then
      assert t[0] == t[..|DECRETO_NUMERO|][0] == 'D';
      |DECRETO_NUMERO|
    else if StartsWith(t, RESOLUCION_NUMERO) then |RESOLUCION_NUMERO|
    else if StartsWith(t, RESOLUCIN_NUMERO) then |RESOLUCIN_NUMERO|
    else 0
  }

  /** The facts about the characters of a marker literal past its first one that
      keep any other marker from starting inside it. */
  predicate NoStopInside(lit: string, d: nat) {
    && d < |lit| && lit[d] != 'D' && lit[d] != '\n'
    && (lit[d] == 'R' ==> d + 1 < |lit| && (lit[d + 1] != 'E' || (d + 2 < |lit| && lit[d + 2] != 'S')))
  }

  lemma DecretoNoStopInside(d: nat)
    requires 0 < d < |DECRETO_NUMERO|
    ensures NoStopInside(DECRETO_NUMERO, d)
  {
  }

  lemma ResolucionNoStopInside(d: nat)
    requires 0 < d < |RESOLUCION_NUMERO|
    ensures NoStopInside(RESOLUCION_NUMERO, d)
  {
  }

  lemma ResolucinNoStopInside(d: nat)
    requires 0 < d < |RESOLUCIN_NUMERO|
    ensures NoStopInside(RESOLUCIN_NUMERO, d)
  {
  }

  lemma StopNotInside(t: string, lit: string, d: nat)
    requires StartsWith(t, lit) && 0 < d && NoStopInside(lit, d)
    ensures !Starts(t[d..], SpanStop)
  {
    var u := t[d..];
    assert u[0] == t[..|lit|][d] == lit[d];
    assert d + 1 < |lit| ==> u[1] == t[..|lit|][d + 1] == lit[d + 1];
    assert d + 2 < |lit| ==> u[2] == t[..|lit|][d + 2] == lit[d + 2];
    assert |DECRETO_NUMERO| <= |u| ==> u[..|DECRETO_NUMERO|][0] == u[0];
    assert |RESOLUCIN_NUMERO| <= |u| ==>
      var v := u[..|RESOLUCIN_NUMERO|]; v[0] == u[0] && v[1] == u[1] && v[2] == u[2];
    assert |RESOLUCION_NUMERO| <= |u| ==>
      var v := u[..|RESOLUCION_NUMERO|]; v[0] == u[0] && v[1] == u[1] && v[2] == u[2];
  }

  /** Past its first character, no marker (and no end of text) begins inside a marker:
      the two marker words cannot overlap themselves or each other. */
  lemma MarkerNoOverlap(t: string, d: nat)
    requires Starts(t, DecreeMarker) || Starts(t, ResolutionMarker)
    requires 0 < d < MarkerLength(t)
    ensures !Starts(t[d..], SpanStop)
  {
    if StartsWith(t, DECRETO_NUMERO) {
      DecretoNoStopInside(d);
      StopNotInside(t, DECRETO_NUMERO, d);
    } else if StartsWith(t, RESOLUCION_NUMERO) {
      ResolucionNoStopInside(d);
      StopNotInside(t, RESOLUCION_NUMERO, d);
    } else {
      ResolucinNoStopInside(d);
      StopNotInside(t, RESOLUCIN_NUMERO, d);
    }
  }
}
