/** `extract_purpose`: the statement of purpose of an act, the text that begins
    with "por la cual" and runs up to the word "ACUERDO", both matched without
    regard to case (`re.search(r'por la cual.*?(?=ACUERDO)', text, re.DOTALL | re.IGNORECASE)`). */
module Purpose {
  import opened Text
  import opened Patterns

  /** The result of `re.search`: no match, or the match `s[start..end]`. */
  datatype Match = NoMatch | Match(start: nat, end: nat)

  /** Somewhere in `s` an opening "por la cual" is followed, at or after its end, by "acuerdo". */
  ghost predicate HasPurpose(s: string) {
    exists p: nat, q: nat :: p + |POR_LA_CUAL| <= q <= |s| && MatchesAt(s, p, PurposeOpen) && MatchesAt(s, q, PurposeClose)
  }

  /** The match `re.search` finds: the leftmost opening, then (the lazy `.*?`) the
      first closing word at or after the end of the opening. If the leftmost opening
      has no closing word after it, no later opening has one either. */
  function PurposeMatch(s: string): (m: Match)
    ensures m.Match? ==>
              && m.start + |POR_LA_CUAL| <= m.end < |s|
              && MatchesAt(s, m.start, PurposeOpen)
              && MatchesAt(s, m.end, PurposeClose)
    // lazy: the match stops at the first closing word after the opening
    ensures m.Match? ==> forall k :: m.start + |POR_LA_CUAL| <= k < m.end ==> !MatchesAt(s, k, PurposeClose)
    // leftmost: no opening starts before the match
    ensures m.Match? ==> forall k :: 0 <= k < m.start ==> !MatchesAt(s, k, PurposeOpen)
  {
    var p := Find(s, 0, PurposeOpen);
    if p == |s| then NoMatch
    else
      var q := Find(s, p + |POR_LA_CUAL|, PurposeClose);
      if q == |s| then NoMatch else Match(p, q)
  }

  /** `re.search` fails exactly when there is no opening followed by a closing word. */
  lemma PurposeMatchComplete(s: string)
    ensures PurposeMatch(s).NoMatch? <==> !HasPurpose(s)
  {
    var m := PurposeMatch(s);
    var p := Find(s, 0, PurposeOpen);
    if HasPurpose(s) {
      var p': nat, q': nat :| p' + |POR_LA_CUAL| <= q' <= |s| && MatchesAt(s, p', PurposeOpen) && MatchesAt(s, q', PurposeClose);
      assert s[|s|..] == [];
      assert p <= p';
      var q := Find(s, p + |POR_LA_CUAL|, PurposeClose);
      assert q <= q';
    }
    if m.Match? {
      assert MatchesAt(s, m.start, PurposeOpen) && MatchesAt(s, m.end, PurposeClose);
    }
  }

  /** `extract_purpose`: the match without its surrounding whitespace, or "" without a match. */
  function ExtractPurpose(s: string): (r: string)
    ensures PurposeMatch(s).NoMatch? ==> r == []
  {
    match PurposeMatch(s)
    case NoMatch => []
    case Match(p, q) => Strip(s[p..q])
  }

  /** No closing word can start inside the opening "por la cual". */
  lemma OpenHasNoClose(t: string, k: nat)
    requires CiStartsWith(t, POR_LA_CUAL) && k < |POR_LA_CUAL|
    ensures !CiStartsWith(t[k..], ACUERDO)
  {
    assert Lower(t[k]) == POR_LA_CUAL[k];
    assert k + 1 < |POR_LA_CUAL| ==> Lower(t[k + 1]) == POR_LA_CUAL[k + 1];
    PorLaCualLetters(k);
    assert |ACUERDO| <= |t| - k ==> t[k..][0] == t[k] && t[k..][1] == t[k + 1];
  }

  /** The letters of "por la cual" never spell the start of "acuerdo". */
  lemma PorLaCualLetters(k: nat)
    requires k < |POR_LA_CUAL|
    ensures POR_LA_CUAL[k] != ACUERDO[0] || (k + 1 < |POR_LA_CUAL| && POR_LA_CUAL[k + 1] != ACUERDO[1])
  {
  }

  /** A text that opens with "por la cual" loses only trailing whitespace to `strip`,
      and never any of the opening. */
  lemma StripOpened(x: string)
    requires CiStartsWith(x, POR_LA_CUAL)
    ensures |POR_LA_CUAL| <= |Strip(x)|
    ensures Strip(x) == x[..|Strip(x)|]
    ensures forall k :: |Strip(x)| <= k < |x| ==> IsSpace(x[k])
  {
    assert Lower(x[0]) == 'p' && Lower(x[|POR_LA_CUAL| - 1]) == 'l';
    StripKeepsStart(x);
    assert !IsSpace(x[|POR_LA_CUAL| - 1]);
  }

  /** The opening of the match is an opening of the matched text. */
  lemma MatchOpens(s: string, p: nat, q: nat)
    requires p + |POR_LA_CUAL| <= q <= |s| && MatchesAt(s, p, PurposeOpen)
    ensures CiStartsWith(s[p..q], POR_LA_CUAL)
  {
    assert forall k :: 0 <= k < |POR_LA_CUAL| ==> s[p..q][k] == s[p..][k];
  }

  /** Stripping a text that opens with "por la cual" removes only trailing whitespace. */
  lemma StripFrom(s: string, p: nat, q: nat)
    requires p + |POR_LA_CUAL| <= q <= |s| && MatchesAt(s, p, PurposeOpen)
    ensures var r := Strip(s[p..q]);
            && |POR_LA_CUAL| <= |r| <= q - p
            && s[p..p + |r|] == r
            && forall k :: p + |r| <= k < q ==> IsSpace(s[k])
  {
    var x := s[p..q];
    MatchOpens(s, p, q);
    StripOpened(x);
    var r := Strip(x);
    assert x[..|r|] == s[p..p + |r|];
    forall k | p + |r| <= k < q
      ensures IsSpace(s[k])
    {
      assert s[k] == x[k - p];
    }
  }

  /** The purpose found is the match up to its trailing whitespace: it ends in a
      character that is not whitespace, and only whitespace follows it in the match. */
  lemma StripMatch(s: string)
    requires PurposeMatch(s).Match?
    ensures var m := PurposeMatch(s); var r := ExtractPurpose(s);
            && |POR_LA_CUAL| <= |r| <= m.end - m.start
            && s[m.start..m.start + |r|] == r
            && !IsSpace(r[|r| - 1])
            && forall k :: m.start + |r| <= k < m.end ==> IsSpace(s[k])
  {
    var m := PurposeMatch(s);
    var p, q := m.start, m.end;
    StripFrom(s, p, q);
    StripEnds(s[p..q]);
    assert ExtractPurpose(s) == Strip(s[p..q]);
  }

  /** A purpose that was found is non-empty, begins with "por la cual" in some case, is
      a piece of the text, is followed by only whitespace up to the closing word, and
      contains no "acuerdo" in any case. */
  lemma PurposeShape(s: string)
    requires PurposeMatch(s).Match?
    ensures var r := ExtractPurpose(s);
            && CiStartsWith(r, POR_LA_CUAL)
            && IsSubstring(r, s)
            && forall k :: 0 <= k <= |r| ==> !MatchesAt(r, k, PurposeClose)
  {
    var m := PurposeMatch(s);
    var r := ExtractPurpose(s);
    StripMatch(s);
    var t := s[m.start..];
    assert forall k :: 0 <= k < |r| ==> r[k] == t[k];
    assert MatchesAt(s, m.start, PurposeOpen);
    forall k | 0 <= k <= |r|
      ensures !MatchesAt(r, k, PurposeClose)
    {
      NoCloseInPurpose(s, k);
    }
  }

  /** A closing word in a piece `r` of `s` that starts at `a` is a closing word of `s`. */
  lemma CloseInPiece(s: string, a: nat, r: string, k: nat)
    requires a + |r| <= |s| && s[a..a + |r|] == r && k <= |r|
    ensures MatchesAt(r, k, PurposeClose) ==> MatchesAt(s, a + k, PurposeClose)
  {
    assert r[k..] == s[a + k..][..|r| - k];
    if MatchesAt(r, k, PurposeClose) {
      MarkerExtends(s[a + k..], |r| - k, PurposeClose);
    }
  }

  /** One position of the purpose at a time: no "acuerdo" starts there. */
  lemma NoCloseInPurpose(s: string, k: nat)
    requires PurposeMatch(s).Match?
    requires k <= |ExtractPurpose(s)|
    ensures !MatchesAt(ExtractPurpose(s), k, PurposeClose)
  {
    var m := PurposeMatch(s);
    var r := ExtractPurpose(s);
    StripMatch(s);
    CloseInPiece(s, m.start, r, k);
    if k < |POR_LA_CUAL| {
      OpenHasNoClose(s[m.start..], k);
      assert s[m.start..][k..] == s[m.start + k..];
    }
  }

  /** `extract_purpose` returns "" exactly when the text holds no purpose. */
  lemma PurposeEmptyIff(s: string)
    ensures ExtractPurpose(s) == [] <==> !HasPurpose(s)
  {
    PurposeMatchComplete(s);
    if PurposeMatch(s).Match? {
      StripMatch(s);
    }
  }
}
