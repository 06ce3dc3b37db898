/**
 The JavaScript string built-ins the colour picker relies on, stated over
 `seq<char>`: `indexOf` and `replace` with a one-character string pattern,
 and `trim`.
 */
module JsString {

  /** `s.indexOf(c)`: the position of the first occurrence of `c`, or -1
      when `s` does not contain it. */
  function IndexOf(s: string, c: char): (i: int)
    ensures -1 <= i < |s|
    ensures 0 <= i ==> s[i] == c
  {
    if s == [] then -1
    else if s[0] == c then 0
    else
      var i := IndexOf(s[1..], c);
      if i == -1 then -1 else i + 1
  }

  /** -1 exactly when `c` does not occur; otherwise no earlier position
      holds `c`. */
  lemma {:induction false} IndexOfFirst(s: string, c: char)
    ensures IndexOf(s, c) == -1 <==> forall j :: 0 <= j < |s| ==> s[j] != c
    ensures forall j :: 0 <= j < IndexOf(s, c) ==> s[j] != c
  {
    if s != [] && s[0] != c {
      IndexOfFirst(s[1..], c);
      assert forall j :: 1 <= j < |s| ==> s[j] == s[1..][j - 1];
    }
  }

  /** `s.replace(c, '')` with a one-character string pattern, as ECMA-262
      defines `String.prototype.replace` for a string pattern: find the first
      occurrence with `indexOf` and splice it out. Only that FIRST `c` goes,
      wherever it stands; a string without `c` comes back unchanged. */
  function RemoveFirst(s: string, c: char): (r: string)
    ensures |s| - 1 <= |r| <= |s|
    ensures |r| == |s| ==> r == s
  {
    var i := IndexOf(s, c);
    if i == -1 then s else s[..i] + s[i + 1..]
  }

  /** Text that starts with `c` loses just that first character; text
      without `c` is left as it is. */
  lemma RemoveFirstCases(s: string, c: char)
    ensures s != [] && s[0] == c ==> RemoveFirst(s, c) == s[1..]
    ensures (forall j :: 0 <= j < |s| ==> s[j] != c) ==> RemoveFirst(s, c) == s
  {
    IndexOfFirst(s, c);
    if IndexOf(s, c) >= 0 {
      assert s[IndexOf(s, c)] == c;
    }
  }

  /** Whatever position the first `c` stands at, that character and no
      other is spliced out: `"ab#c#"` loses its first `#` only. */
  lemma {:induction false} RemoveFirstSplice(s: string, c: char, i: int)
    requires 0 <= i < |s| && s[i] == c
    requires forall j :: 0 <= j < i ==> s[j] != c
    ensures RemoveFirst(s, c) == s[..i] + s[i + 1..]
  {
    IndexOfFirst(s, c);
    var k := IndexOf(s, c);
    assert k != -1;
    assert s[k] == c;
    assert k == i;
  }

  /** The characters `String.prototype.trim` removes: the ECMAScript
      WhiteSpace code points (tab, vertical tab, form feed, space, no-break
      space, byte order mark and the other space separators) and the
      LineTerminator code points (line feed, carriage return, line and
      paragraph separators); U+0009 to U+000D is tab, line feed, vertical
      tab, form feed and carriage return. */
  predicate IsJsWhitespace(c: char)
  {
    ('\t' <= c <= '\r') || c == ' ' || c == '\U{00A0}' || c == '\U{1680}' ||
    ('\U{2000}' <= c <= '\U{200A}') || ('\U{2028}' <= c <= '\U{2029}') ||
    c == '\U{202F}' || c == '\U{205F}' || c == '\U{3000}' || c == '\U{FEFF}'
  }

  /** The number of whitespace characters `s` starts with. */
  function LeadingWhitespace(s: string): (n: nat)
    ensures n <= |s|
    ensures forall i :: 0 <= i < n ==> IsJsWhitespace(s[i])
    ensures n < |s| ==> !IsJsWhitespace(s[n])
  {
    if s != [] && IsJsWhitespace(s[0]) then 1 + LeadingWhitespace(s[1..]) else 0
  }

  /** The number of whitespace characters `s` ends with. */
  function TrailingWhitespace(s: string): (n: nat)
    ensures n <= |s|
    ensures forall i :: |s| - n <= i < |s| ==> IsJsWhitespace(s[i])
    ensures n < |s| ==> !IsJsWhitespace(s[|s| - n - 1])
  {
    if s != [] && IsJsWhitespace(s[|s| - 1]) then 1 + TrailingWhitespace(s[..|s| - 1]) else 0
  }

  /** `s.trim()`: `s` without its leading and trailing whitespace. Nothing
      is left exactly when `s` is all whitespace; otherwise what is left is
      the slice between the two runs of whitespace, and it neither starts
      nor ends with whitespace. */
  function Trim(s: string): (r: string)
    ensures r == [] <==> forall i :: 0 <= i < |s| ==> IsJsWhitespace(s[i])
    ensures r != [] ==> LeadingWhitespace(s) + TrailingWhitespace(s) < |s|
    ensures r != [] ==> r == s[LeadingWhitespace(s)..|s| - TrailingWhitespace(s)]
    ensures r != [] ==> !IsJsWhitespace(r[0]) && !IsJsWhitespace(r[|r| - 1])
  {
    var a := LeadingWhitespace(s);
    if a == |s| then []
    else
      var b := TrailingWhitespace(s);
      assert a + b < |s|;
      s[a..|s| - b]
  }


}
