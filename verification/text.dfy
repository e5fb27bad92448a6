/**
 The two string built-ins the router relies on: `String.prototype.startsWith`
 for the root prefix check and `String.prototype.toLowerCase` for choosing a
 method handler. Case mapping is modelled for ASCII letters only, which is
 all an HTTP method token can contain.
 */
module Text {

  /** `s.startsWith(prefix)`: `prefix` is an initial segment of `s`. */
  predicate StartsWith(s: string, prefix: string)
    ensures StartsWith(s, prefix) <==>
      |prefix| <= |s| && forall i :: 0 <= i < |prefix| ==> s[i] == prefix[i]
  {
    prefix <= s
  }

  predicate IsAsciiUpper(c: char)
  {
    'A' <= c <= 'Z'
  }

  /** `c` and `d` are the same character, or the two cases of one ASCII letter. */
  predicate CharEqualIgnoringCase(c: char, d: char)
  {
    || c == d
    || (IsAsciiUpper(c) && d as int == c as int + 32)
    || (IsAsciiUpper(d) && c as int == d as int + 32)
  }

  /** Case-insensitive string equality, stated position by position. */
  predicate EqualIgnoringCase(a: string, b: string)
  {
    |a| == |b| && forall i :: 0 <= i < |a| ==> CharEqualIgnoringCase(a[i], b[i])
  }

  function LowerChar(c: char): (d: char)
    ensures !IsAsciiUpper(d)
    ensures CharEqualIgnoringCase(c, d)
  {
    if IsAsciiUpper(c) then (c as int + 32) as char else c
  }

  /** `s.toLowerCase()` on ASCII letters. */
  function ToLower(s: string): (t: string)
    ensures |t| == |s|
    ensures forall i :: 0 <= i < |t| ==> !IsAsciiUpper(t[i])
    ensures EqualIgnoringCase(s, t)
  {
    if s == [] then [] else [LowerChar(s[0])] + ToLower(s[1..])
  }

  lemma {:induction false} ToLowerAt(s: string, i: int)
    requires 0 <= i < |s|
    ensures ToLower(s)[i] == LowerChar(s[i])
    decreases |s|
  {
    if i > 0 {
      ToLowerAt(s[1..], i - 1);
    }
  }

  /** Two characters lower-case to the same character exactly when they
      differ at most in ASCII case. */
  lemma LowerCharIff(c: char, d: char)
    ensures LowerChar(c) == LowerChar(d) <==> CharEqualIgnoringCase(c, d)
  {
  }

  /** Lower-casing identifies exactly the strings that are equal ignoring case. */
  lemma ToLowerIff(a: string, b: string)
    ensures ToLower(a) == ToLower(b) <==> EqualIgnoringCase(a, b)
  {
    if |a| == |b| {
      forall i | 0 <= i < |a|
        ensures ToLower(a)[i] == ToLower(b)[i] <==> CharEqualIgnoringCase(a[i], b[i])
      {
        ToLowerAt(a, i);
        ToLowerAt(b, i);
        LowerCharIff(a[i], b[i]);
      }
    }
  }
}
