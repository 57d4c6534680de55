/** The parts of java.lang.String and java.util.regex that the comparator relies on,
    restricted to ASCII case folding (see README, "Left out"). */
module JavaStrings {

  /** Membership in Java's regex class `\s`: space, tab, line feed, vertical tab,
      form feed and carriage return. */
  predicate IsJavaWhitespace(c: char) {
    c == ' ' || c == '\t' || c == '\n' || c == '\U{000B}' || c == '\U{000C}' || c == '\r'
  }

  /** ASCII lower-casing of one character. */
  function LowerChar(c: char): char {
    if 'A' <= c <= 'Z' then (c as int + 32) as char else c
  }

  /** `String.toLowerCase()`, restricted to ASCII letters. */
  function ToLower(s: string): (r: string)
    ensures |r| == |s|
  {
    if s == [] then [] else [LowerChar(s[0])] + ToLower(s[1..])
  }

  /** Lower-casing works character by character. */
  lemma {:induction false} ToLowerAt(s: string)
    ensures forall i :: 0 <= i < |s| ==> ToLower(s)[i] == LowerChar(s[i])
  {
    if s != [] {
      ToLowerAt(s[1..]);
    }
  }

  /** Two characters that `String.equalsIgnoreCase` treats as equal. */
  predicate CharsEqualIgnoreCase(a: char, b: char) {
    a == b || LowerChar(a) == LowerChar(b)
  }

  /** `String.equalsIgnoreCase`: equal lengths and pairwise equal characters up to case. */
  predicate EqualsIgnoreCase(a: string, b: string) {
    |a| == |b| && forall i :: 0 <= i < |a| ==> CharsEqualIgnoreCase(a[i], b[i])
  }

  /** Comparing ignoring case is the same as comparing the lower-cased strings. */
  lemma EqualsIgnoreCaseIffLowerEqual(a: string, b: string)
    ensures EqualsIgnoreCase(a, b) <==> ToLower(a) == ToLower(b)
  {
    ToLowerAt(a);
    ToLowerAt(b);
    if ToLower(a) == ToLower(b) {
      assert |a| == |b|;
      forall i | 0 <= i < |a| ensures CharsEqualIgnoreCase(a[i], b[i]) {
        assert ToLower(a)[i] == ToLower(b)[i];
      }
    }
  }

  /** Comparing ignoring case is an equivalence relation. */
  lemma EqualsIgnoreCaseIsEquivalence(a: string, b: string, c: string)
    ensures EqualsIgnoreCase(a, a)
    ensures EqualsIgnoreCase(a, b) ==> EqualsIgnoreCase(b, a)
    ensures EqualsIgnoreCase(a, b) && EqualsIgnoreCase(b, c) ==> EqualsIgnoreCase(a, c)
  {
    EqualsIgnoreCaseIffLowerEqual(a, a);
    EqualsIgnoreCaseIffLowerEqual(a, b);
    EqualsIgnoreCaseIffLowerEqual(b, a);
    EqualsIgnoreCaseIffLowerEqual(b, c);
    EqualsIgnoreCaseIffLowerEqual(a, c);
  }

  /** Number of leading characters that `String.trim` strips (code point at most U+0020). */
  function LeadingBlanks(s: string): (k: nat)
    ensures k <= |s|
    ensures forall i :: 0 <= i < k ==> s[i] <= ' '
    ensures k < |s| ==> s[k] > ' '
  {
    if |s| > 0 && s[0] <= ' ' then 1 + LeadingBlanks(s[1..]) else 0
  }

  /** Number of trailing characters that `String.trim` strips. */
  function TrailingBlanks(s: string): (k: nat)
    ensures k <= |s|
    ensures forall i :: |s| - k <= i < |s| ==> s[i] <= ' '
    ensures k < |s| ==> s[|s| - 1 - k] > ' '
  {
    if |s| > 0 && s[|s| - 1] <= ' ' then 1 + TrailingBlanks(s[..|s| - 1]) else 0
  }

  /** `String.trim`: drop the leading and the trailing characters at most U+0020. */
  function Trim(s: string): string
  {
    var lead := LeadingBlanks(s);
    if lead == |s| then []
    else
      var trail := TrailingBlanks(s);
      assert s[lead] > ' ';
      s[lead..|s| - trail]
  }

  /** What `String.trim` returns: the infix of `s` that neither starts nor ends with a
      character at most U+0020, everything around it being such characters. */
  lemma TrimIsBlankFreeInfix(s: string)
    ensures Trim(s) == [] || (Trim(s)[0] > ' ' && Trim(s)[|Trim(s)| - 1] > ' ')
    ensures Trim(s) == [] <==> forall i :: 0 <= i < |s| ==> s[i] <= ' '
    ensures LeadingBlanks(s) + |Trim(s)| <= |s|
    ensures Trim(s) == s[LeadingBlanks(s)..LeadingBlanks(s) + |Trim(s)|]
    ensures forall i :: LeadingBlanks(s) + |Trim(s)| <= i < |s| ==> s[i] <= ' '
  {
    var lead := LeadingBlanks(s);
    var t := Trim(s);
    if lead == |s| {
      assert t == [];
    } else {
      var trail := TrailingBlanks(s);
      assert s[lead] > ' ';
      assert lead < |s| - trail;
      assert t == s[lead..|s| - trail];
      assert |t| == |s| - trail - lead;
      assert t[0] == s[lead];
      assert t[|t| - 1] == s[|s| - 1 - trail];
      assert !(forall i :: 0 <= i < |s| ==> s[i] <= ' ') by {
        assert !(s[lead] <= ' ');
      }
    }
  }

  /** Text that neither starts nor ends with a character at most U+0020 is its own trim. */
  lemma TrimUntouched(s: string)
    requires s == [] || (s[0] > ' ' && s[|s| - 1] > ' ')
    ensures Trim(s) == s
  {
    assert LeadingBlanks(s) == 0;
    if s != [] {
      assert TrailingBlanks(s) == 0;
      assert s[0..|s|] == s;
    }
  }

  /** `String.startsWith`. */
  predicate StartsWith(s: string, prefix: string) {
    |prefix| <= |s| && s[..|prefix|] == prefix
  }
}
