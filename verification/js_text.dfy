/**
  Small pieces of JavaScript value semantics the widget relies on: an optional
  value (for `undefined`) and `String.prototype.trim`.
 */
module JsText {

  /** A value that may be `undefined`. */
  datatype Option<+T> = None | Some(value: T)

  /** The characters `String.prototype.trim` strips: ECMAScript WhiteSpace
      (TAB, VT, FF, SP, NBSP, ZWNBSP and the Zs category) and LineTerminator
      (LF, CR, LS, PS). */
  predicate IsWhitespace(c: char) {
    || c == '\U{0009}' || c == '\U{000B}' || c == '\U{000C}' || c == ' '
    || c == '\U{00A0}' || c == '\U{FEFF}'
    || c == '\U{1680}' || ('\U{2000}' <= c <= '\U{200A}')
    || c == '\U{202F}' || c == '\U{205F}' || c == '\U{3000}'
    || c == '\n' || c == '\r' || c == '\U{2028}' || c == '\U{2029}'
  }

  predicate AllWhitespace(s: string) {
    forall i :: 0 <= i < |s| ==> IsWhitespace(s[i])
  }

  /** The position of the first non-whitespace character at or after `from`,
      or `|s|` if there is none. */
  function SkipLeading(s: string, from: nat): (k: nat)
    requires from <= |s|
    ensures from <= k <= |s|
    ensures forall j :: from <= j < k ==> IsWhitespace(s[j])
    ensures k < |s| ==> !IsWhitespace(s[k])
    decreases |s| - from
  {
    if from < |s| && IsWhitespace(s[from]) then SkipLeading(s, from + 1) else from
  }

  /** The position just after the last non-whitespace character before
      `upto`, but not below `lo`. */
  function SkipTrailing(s: string, lo: nat, upto: nat): (k: nat)
    requires lo <= upto <= |s|
    ensures lo <= k <= upto
    ensures forall j :: k <= j < upto ==> IsWhitespace(s[j])
    ensures k > lo ==> !IsWhitespace(s[k - 1])
    decreases upto
  {
    if lo < upto && IsWhitespace(s[upto - 1]) then SkipTrailing(s, lo, upto - 1) else upto
  }

  /** `s.trim()`: neither starts nor ends with whitespace. */
  function Trim(s: string): (r: string)
    ensures |r| <= |s|
    ensures r == [] || (!IsWhitespace(r[0]) && !IsWhitespace(r[|r| - 1]))
  {
    var lo := SkipLeading(s, 0);
    var hi := SkipTrailing(s, lo, |s|);
    s[lo..hi]
  }

  /** What `Trim` removes is whitespace only: the result is the slice of `s`
      that starts at its first non-whitespace character, and everything
      after that slice is whitespace. */
  lemma TrimIsSlice(s: string)
    ensures var lo := SkipLeading(s, 0);
            && lo + |Trim(s)| <= |s|
            && Trim(s) == s[lo..lo + |Trim(s)|]
            && (forall j :: 0 <= j < lo ==> IsWhitespace(s[j]))
            && (forall j :: lo + |Trim(s)| <= j < |s| ==> IsWhitespace(s[j]))
  {
  }

  /** A string trims to "" exactly when it holds nothing but whitespace. */
  lemma TrimBlankIff(s: string)
    ensures Trim(s) == "" <==> AllWhitespace(s)
  {
    var lo := SkipLeading(s, 0);
    var hi := SkipTrailing(s, lo, |s|);
    if Trim(s) == "" {
      assert hi == lo;
    }
  }

  /** Trimming is idempotent: a trimmed string has nothing left to strip. */
  lemma TrimIdempotent(s: string)
    ensures Trim(Trim(s)) == Trim(s)
  {
    var r := Trim(s);
    assert SkipLeading(r, 0) == 0;
    assert SkipTrailing(r, 0, |r|) == |r|;
  }
}
