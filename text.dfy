/** String helpers shared by the model: whitespace stripping in the manner of
    Python's `str.strip`, ASCII case folding, and substrings. */
module Text {

  /** A subset of the whitespace characters `strip` removes: space, tab, line feed,
      carriage return, vertical tab and form feed. */
  predicate IsSpace(c: char) {
    c == ' ' || c == '\t' || c == '\n' || c == '\r' || c == '\U{B}' || c == '\U{C}'
  }

  /** Index of the first non-whitespace character of `s`, or `|s|` if there is none. */
  function StripStart(s: string): (i: nat)
    ensures i <= |s|
    ensures forall k :: 0 <= k < i ==> IsSpace(s[k])
    ensures i < |s| ==> !IsSpace(s[i])
  {
    if s == [] || !IsSpace(s[0]) then 0 else 1 + StripStart(s[1..])
  }

  /** Index just after the last non-whitespace character of `s`, or 0 if there is none. */
  function StripEnd(s: string): (j: nat)
    ensures j <= |s|
    ensures forall k :: j <= k < |s| ==> IsSpace(s[k])
    ensures 0 < j ==> !IsSpace(s[j - 1])
  {
    if s == [] || !IsSpace(s[|s| - 1]) then |s| else StripEnd(s[..|s| - 1])
  }

  /** `s.strip()`: `s` without its leading and trailing whitespace. */
  function Strip(s: string): (r: string)
    // r is the block of s that starts at the first non-space character ...
    ensures StripStart(s) + |r| <= |s| && s[StripStart(s)..StripStart(s) + |r|] == r
    // ... and everything of s outside that block is whitespace
    ensures forall k :: 0 <= k < |s| && (k < StripStart(s) || StripStart(s) + |r| <= k) ==> IsSpace(s[k])
    // r neither begins nor ends with whitespace
    ensures r != [] ==> !IsSpace(r[0]) && !IsSpace(r[|r| - 1])
  {
    var i := StripStart(s);
    if i == |s| then [] else s[i..StripEnd(s)]
  }

  /** A text is any of its prefixes followed by the rest. Dafny knows this without
      proof; the lemma only keeps the solver's work small where it is needed. */
  lemma PrefixThenRest(s: string, n: nat)
    requires n <= |s|
    ensures s == s[..n] + s[n..]
  {
  }

  /** A stripped text begins and ends with a character that is not whitespace. */
  lemma StripEnds(s: string)
    ensures Strip(s) == [] || (!IsSpace(Strip(s)[0]) && !IsSpace(Strip(s)[|Strip(s)| - 1]))
  {
  }

  /** A string that does not begin with whitespace loses only trailing whitespace. */
  lemma StripKeepsStart(s: string)
    requires s != [] && !IsSpace(s[0])
    ensures Strip(s) == s[..|Strip(s)|]
    ensures |Strip(s)| == StripEnd(s)
  {
  }

  /** Stripping a text that opens with `lit`, a literal without whitespace at either
      end, keeps the whole of `lit` and removes only trailing whitespace. */
  lemma StripKeepsLiteral(x: string, lit: string)
    requires StartsWith(x, lit) && lit != [] && !IsSpace(lit[0]) && !IsSpace(lit[|lit| - 1])
    ensures Strip(x) == x[..|Strip(x)|]
    ensures StartsWith(Strip(x), lit)
  {
    assert x[0] == x[..|lit|][0] && x[|lit| - 1] == x[..|lit|][|lit| - 1];
    StripKeepsStart(x);
    assert !IsSpace(x[|lit| - 1]);
    assert Strip(x)[..|lit|] == x[..|lit|];
  }

  /** ASCII lower-casing, the folding that case-insensitive matching uses here. */
  function Lower(c: char): (d: char)
    // an upper-case ASCII letter becomes its lower-case letter
    ensures 'A' <= c <= 'Z' ==> 'a' <= d <= 'z' && d as int - 'a' as int == c as int - 'A' as int
    // only those change, and no upper-case ASCII letter is left
    ensures d == c <==> !('A' <= c <= 'Z')
    ensures !('A' <= d <= 'Z')
  {
    if 'A' <= c <= 'Z' then (c as int + 32) as char else c
  }

  /** `t` begins with the lower-case literal `lit`, ignoring the case of `t`. */
  predicate CiStartsWith(t: string, lit: string) {
    |lit| <= |t| && forall k :: 0 <= k < |lit| ==> Lower(t[k]) == lit[k]
  }

  /** `t` begins with `lit`, exactly. */
  predicate StartsWith(t: string, lit: string) {
    |lit| <= |t| && t[..|lit|] == lit
  }

  /** `a` occurs somewhere in `b` as a contiguous block. */
  ghost predicate IsSubstring(a: string, b: string) {
    exists i, j :: 0 <= i <= j <= |b| && b[i..j] == a
  }

  /** What `strip` leaves is a block of the text. */
  lemma StripIsSubstring(x: string)
    ensures IsSubstring(Strip(x), x)
  {
    var i := StripStart(x);
    assert x[i..i + |Strip(x)|] == Strip(x);
  }

  /** A suffix is a block of the text. */
  lemma SuffixIsSubstring(x: string, i: nat)
    requires i <= |x|
    ensures IsSubstring(x[i..], x)
  {
    assert x[i..|x|] == x[i..];
  }

  /** A block of a block of `c` is a block of `c`. */
  lemma SubstringTrans(a: string, b: string, c: string)
    requires IsSubstring(a, b) && IsSubstring(b, c)
    ensures IsSubstring(a, c)
  {
    var i, j :| 0 <= i <= j <= |b| && b[i..j] == a;
    var i', j' :| 0 <= i' <= j' <= |c| && c[i'..j'] == b;
    assert forall k :: i <= k < j ==> c[i' + k] == b[k];
    assert c[i' + i..i' + j] == a;
  }
}
