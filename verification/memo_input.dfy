/**
 * The dashboard's memo submission guard (frontend/src/LoadBalanceDashboard.jsx,
 * `saveMemo`): nothing is sent when the trimmed input is empty; otherwise the
 * untrimmed input is posted as the memo's content.
 */
module MemoInput {
  import opened Wrappers

  /**
   * The characters `String.prototype.trim` removes: the WhiteSpace and
   * LineTerminator code points of sections 12.2 and 12.3 of ECMA-262
   * (tab, vertical tab, form feed, space, no-break space, the byte order
   * mark, the other Unicode space separators, line feed, carriage return,
   * line separator and paragraph separator). All of them lie in the Basic
   * Multilingual Plane, so each is a single UTF-16 code unit.
   */
  predicate IsTrimSpace(c: char)
    ensures IsTrimSpace(c) ==> c as int <= 0xFEFF
  {
    || c == '\t' || c == '\U{B}' || c == '\U{C}' || c == ' ' || c == '\U{A0}' || c == '\U{FEFF}'
    || c == '\U{1680}' || ('\U{2000}' <= c <= '\U{200A}') || c == '\U{202F}' || c == '\U{205F}' || c == '\U{3000}'
    || c == '\n' || c == '\r' || c == '\U{2028}' || c == '\U{2029}'
  }

  /** How many characters `trim` strips from the front of `s`. */
  function LeadingSpace(s: string): (n: nat)
    ensures n <= |s|
    ensures forall i :: 0 <= i < n ==> IsTrimSpace(s[i])
    ensures n < |s| ==> !IsTrimSpace(s[n])
  {
    if s == [] || !IsTrimSpace(s[0]) then 0 else 1 + LeadingSpace(s[1..])
  }

  /** How many characters `trim` strips from the back of `s`. */
  function TrailingSpace(s: string): (n: nat)
    ensures n <= |s|
    ensures forall i :: |s| - n <= i < |s| ==> IsTrimSpace(s[i])
    ensures n < |s| ==> !IsTrimSpace(s[|s| - 1 - n])
  {
    if s == [] || !IsTrimSpace(s[|s| - 1]) then 0 else 1 + TrailingSpace(s[..|s| - 1])
  }

  /** `s.trim()`: `s` without its leading and trailing white space. */
  function Trim(s: string): (r: string)
    ensures |r| <= |s|
    ensures r == [] <==> forall i :: 0 <= i < |s| ==> IsTrimSpace(s[i])
    ensures r != [] ==> !IsTrimSpace(r[0]) && !IsTrimSpace(r[|r| - 1])
    ensures exists a {:trigger s[a..a + |r|]} ::
              && 0 <= a <= |s| - |r| && r == s[a..a + |r|]
              && (forall i :: 0 <= i < a ==> IsTrimSpace(s[i]))
              && (forall i :: a + |r| <= i < |s| ==> IsTrimSpace(s[i]))
  {
    var a := LeadingSpace(s);
    var t := s[a..];
    var r := t[..|t| - TrailingSpace(t)];
    assert r != [] ==> r[0] == t[0];
    assert r == s[a..a + |r|];
    forall i | a + |r| <= i < |s| ensures IsTrimSpace(s[i]) {
      assert s[i] == t[i - a];
    }
    r
  }

  /**
   * What `saveMemo` posts for `input`: nothing when the input is empty or
   * white space only, otherwise the input itself, untrimmed.
   */
  function SaveMemo(input: string): (posted: Option<string>)
    ensures posted.None? <==> forall i :: 0 <= i < |input| ==> IsTrimSpace(input[i])
    ensures posted.Some? ==> posted.value == input
  {
    if Trim(input) == [] then None else Some(input)
  }

}
