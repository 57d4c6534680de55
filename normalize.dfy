/** The string pipeline applied to a serialized document before comparison:
    `replaceAll("\\s+", " ")`, then `replace("\r", "")`, `replace("\n", "")`,
    then `replace("> <", "><")`. */
module Normalize {
  import opened JavaStrings

  /** Positions `i` and `i + 1` both hold a space. */
  predicate SpacePairAt(s: string, i: int) {
    0 <= i && i + 1 < |s| && s[i] == ' ' && s[i + 1] == ' '
  }

  /** The three characters from `i` on are `"> <"`. */
  predicate TagGapAt(s: string, i: int) {
    0 <= i && i + 2 < |s| && s[i] == '>' && s[i + 1] == ' ' && s[i + 2] == '<'
  }

  /** The only `\s` character in `s` is the space. */
  predicate OnlySpaces(s: string) {
    forall i :: 0 <= i < |s| && IsJavaWhitespace(s[i]) ==> s[i] == ' '
  }

  predicate NoAdjacentSpaces(s: string) {
    forall i :: 0 <= i < |s| ==> !SpacePairAt(s, i)
  }

  predicate NoTagGap(s: string) {
    forall i :: 0 <= i < |s| ==> !TagGapAt(s, i)
  }

  /** The shape every normalized serialization has. */
  predicate Normalized(s: string) {
    && '\r' !in s && '\n' !in s
    && OnlySpaces(s)
    && NoAdjacentSpaces(s)
    && NoTagGap(s)
  }

  /** `replaceAll("\\s+", " ")`: a `\s` character followed by another contributes
      nothing, the last one of a run contributes a single space. */
  function CollapseWhitespace(s: string): (r: string)
    ensures OnlySpaces(r)
    ensures NoAdjacentSpaces(r)
    ensures |r| > 0 <==> |s| > 0
    ensures |r| > 0 ==> (r[0] == ' ' <==> IsJavaWhitespace(s[0]))
  {
    if s == [] then []
    else
      var rest := CollapseWhitespace(s[1..]);
      if IsJavaWhitespace(s[0]) && |s| > 1 && IsJavaWhitespace(s[1]) then rest
      else
        var r := [if IsJavaWhitespace(s[0]) then ' ' else s[0]] + rest;
        PrefixShift(r[..1], rest);
        r
  }

  /** Past a prefix, adjacent spaces and tag gaps are those of the suffix. */
  lemma PrefixShift(p: string, t: string)
    ensures forall i :: |p| <= i ==> (SpacePairAt(p + t, i) <==> SpacePairAt(t, i - |p|))
    ensures forall i :: |p| <= i ==> (TagGapAt(p + t, i) <==> TagGapAt(t, i - |p|))
  {
  }

  /** `replace(c, "")`. */
  function DeleteChar(s: string, c: char): (r: string)
    ensures |r| <= |s|
  {
    if s == [] then [] else (if s[0] == c then [] else [s[0]]) + DeleteChar(s[1..], c)
  }

  /** A character is kept exactly when it occurs and is not the one deleted. */
  lemma {:induction false} InDeleteChar(s: string, c: char, x: char)
    ensures x in DeleteChar(s, c) <==> x in s && x != c
  {
    if s != [] {
      InDeleteChar(s[1..], c, x);
      assert s == [s[0]] + s[1..];
    }
  }

  /** `replace("> <", "><")`: a single left-to-right pass over non-overlapping occurrences. */
  function ReplaceTagGaps(s: string): (r: string)
    ensures |r| <= |s|
    ensures |s| > 0 ==> |r| > 0 && r[0] == s[0]
  {
    if |s| >= 3 && s[0] == '>' && s[1] == ' ' && s[2] == '<' then "><" + ReplaceTagGaps(s[3..])
    else if s == [] then []
    else [s[0]] + ReplaceTagGaps(s[1..])
  }

  /** Deletion works piece by piece, so the kept characters keep their order and
      their number. */
  lemma {:induction false} DeleteCharAppend(a: string, b: string, c: char)
    ensures DeleteChar(a + b, c) == DeleteChar(a, c) + DeleteChar(b, c)
  {
    if a == [] {
      assert a + b == b;
    } else {
      assert (a + b)[1..] == a[1..] + b;
      DeleteCharAppend(a[1..], b, c);
    }
  }

  /** One step of the replacement where the text starts with `"> <"`. */
  lemma ReplaceTagGapsGapFirst(t: string)
    ensures ReplaceTagGaps("> <" + t) == "><" + ReplaceTagGaps(t)
  {
    assert ("> <" + t)[3..] == t;
  }

  /** At the first `"> <"`, the replacement writes `"><"` and carries on after the
      `'<'`: the text before it and the text after it are replaced on their own. */
  lemma {:induction false} ReplaceTagGapsAtGap(x: string, y: string)
    ensures ReplaceTagGaps(x + "> <" + y) == ReplaceTagGaps(x) + "><" + ReplaceTagGaps(y)
    decreases |x|
  {
    var s := x + "> <" + y;
    if x == [] {
      assert s == "> <" + y;
      ReplaceTagGapsGapFirst(y);
    } else {
      var k := if TagGapAt(x, 0) then 3 else 1;
      var t := x[k..];
      var head := if k == 3 then "><" else [x[0]];
      assert s[k..] == t + "> <" + y;
      if k == 3 {
        assert TagGapAt(s, 0) by { assert s[1] == x[1] && s[2] == x[2]; }
      } else {
        assert !TagGapAt(s, 0) by {
          if |x| == 1 { assert s[1] == '>'; }
          else if |x| == 2 { assert s[2] == '>'; }
          else { assert s[1] == x[1] && s[2] == x[2]; }
        }
      }
      ReplaceTagGapsUnfold(x);
      ReplaceTagGapsUnfold(s);
      ReplaceTagGapsAtGap(t, y);
      var a, b := ReplaceTagGaps(t), ReplaceTagGaps(y);
      calc {
        ReplaceTagGaps(s);
        head + ReplaceTagGaps(t + "> <" + y);
        head + (a + "><" + b);
        { ConcatAssoc(head, a + "><", b); ConcatAssoc(head, a, "><"); }
        (head + a) + "><" + b;
        ReplaceTagGaps(x) + "><" + b;
      }
    }
  }

  /** Where no `"> <"` can straddle the seam, the replacement works piece by piece:
      every space outside a tag gap stays where it is. */
  lemma {:induction false} ReplaceTagGapsAppend(x: string, y: string)
    requires SafeSeam(x)
    ensures ReplaceTagGaps(x + y) == ReplaceTagGaps(x) + ReplaceTagGaps(y)
    decreases |x|
  {
    if x == [] {
      assert x + y == y;
    } else {
      var k := if TagGapAt(x, 0) then 3 else 1;
      SafeSeamSuffix(x, k);
      ReplaceTagGapsAppend(x[k..], y);
      ReplaceTagGapsStepAppend(x, y, k);
    }
  }

  /** The step of `ReplaceTagGapsAppend`: after the first `k` characters of `x`, the
      text goes on with `x[k..] + y`. */
  lemma ReplaceTagGapsStepAppend(x: string, y: string, k: nat)
    requires SafeSeam(x) && x != [] && k == (if TagGapAt(x, 0) then 3 else 1)
    requires ReplaceTagGaps(x[k..] + y) == ReplaceTagGaps(x[k..]) + ReplaceTagGaps(y)
    ensures ReplaceTagGaps(x + y) == ReplaceTagGaps(x) + ReplaceTagGaps(y)
  {
    var t := x[k..];
    var head := if k == 3 then "><" else [x[0]];
    assert (x + y)[k..] == t + y;
    if k == 3 {
      assert TagGapAt(x + y, 0) by { assert (x + y)[1] == x[1] && (x + y)[2] == x[2]; }
    } else {
      SafeSeamNoGap(x, y);
    }
    ReplaceTagGapsUnfold(x);
    ReplaceTagGapsUnfold(x + y);
    var a, b := ReplaceTagGaps(t), ReplaceTagGaps(y);
    calc {
      ReplaceTagGaps(x + y);
      head + ReplaceTagGaps(t + y);
      head + (a + b);
      { ConcatAssoc(head, a, b); }
      (head + a) + b;
      ReplaceTagGaps(x) + b;
    }
  }

  lemma ConcatAssoc(a: string, b: string, c: string)
    ensures a + (b + c) == (a + b) + c
  {
  }

  /** One step of the replacement. */
  lemma ReplaceTagGapsUnfold(s: string)
    requires s != []
    ensures TagGapAt(s, 0) ==> ReplaceTagGaps(s) == "><" + ReplaceTagGaps(s[3..])
    ensures !TagGapAt(s, 0) ==> ReplaceTagGaps(s) == [s[0]] + ReplaceTagGaps(s[1..])
  {
  }

  /** No `"> <"` can start in the last two characters of `x`, whatever follows. */
  predicate SafeSeam(x: string) {
    x == [] || (x[|x| - 1] != '>' && !(|x| >= 2 && x[|x| - 2] == '>' && x[|x| - 1] == ' '))
  }

  /** Text with a safe seam that does not start with `"> <"` does not start with it
      whatever follows. */
  lemma SafeSeamNoGap(x: string, y: string)
    requires SafeSeam(x) && x != [] && !TagGapAt(x, 0)
    ensures !TagGapAt(x + y, 0)
  {
    var s := x + y;
    assert s[0] == x[0];
    if |x| >= 3 {
      assert s[1] == x[1] && s[2] == x[2];
    } else if |x| == 2 {
      assert s[1] == x[1];
    }
  }

  lemma SafeSeamSuffix(x: string, k: nat)
    requires SafeSeam(x) && k <= |x|
    ensures SafeSeam(x[k..])
  {
    var t := x[k..];
    if t != [] {
      assert t[|t| - 1] == x[|x| - 1];
      if |t| >= 2 {
        assert t[|t| - 2] == x[|x| - 2];
      }
    }
  }

  /** The normalization of `serializeAndNormalize`. */
  function NormalizeSerialization(serialized: string): string {
    ReplaceTagGaps(DeleteChar(DeleteChar(CollapseWhitespace(serialized), '\r'), '\n'))
  }

  /** Replacing tag gaps leaves none behind, removes only spaces, and keeps the
      other properties of a collapsed string. */
  lemma {:induction false} ReplaceTagGapsShape(s: string)
    ensures NoTagGap(ReplaceTagGaps(s))
    ensures forall x :: x in ReplaceTagGaps(s) ==> x in s
    ensures OnlySpaces(s) ==> OnlySpaces(ReplaceTagGaps(s))
    ensures NoAdjacentSpaces(s) ==> NoAdjacentSpaces(ReplaceTagGaps(s))
    decreases |s|
  {
    var r := ReplaceTagGaps(s);
    if |s| >= 3 && s[0] == '>' && s[1] == ' ' && s[2] == '<' {
      var t := s[3..];
      ReplaceTagGapsShape(t);
      PrefixShift("><", ReplaceTagGaps(t));
      PrefixShift(s[..3], t);
      assert s == s[..3] + t;
      assert r == "><" + ReplaceTagGaps(t);
      if NoAdjacentSpaces(s) {
        forall j | 0 <= j < |t| ensures !SpacePairAt(t, j) {
          assert !SpacePairAt(s, j + 3);
        }
        assert !SpacePairAt(r, 0) && !SpacePairAt(r, 1);
      }
    } else if s != [] {
      var t := s[1..];
      ReplaceTagGapsShape(t);
      PrefixShift([s[0]], ReplaceTagGaps(t));
      PrefixShift([s[0]], t);
      assert s == [s[0]] + t;
      assert r == [s[0]] + ReplaceTagGaps(t);
      if |t| >= 2 && t[0] == ' ' {
        assert ReplaceTagGaps(t) == [t[0]] + ReplaceTagGaps(t[1..]);
        assert r[2] == t[1];
      }
      if |t| == 1 {
        assert ReplaceTagGaps(t) == [t[0]];
      }
      assert !TagGapAt(r, 0);
      if NoAdjacentSpaces(s) {
        forall j | 0 <= j < |t| ensures !SpacePairAt(t, j) {
          assert !SpacePairAt(s, j + 1);
        }
        if |t| > 0 {
          assert !SpacePairAt(s, 0) && r[1] == s[1];
        }
        assert !SpacePairAt(r, 0);
      }
    }
  }

  /** A string already free of runs and of `\s` characters other than the space is left as it is. */
  lemma {:induction false} CollapseWhitespaceFixpoint(s: string)
    requires OnlySpaces(s) && NoAdjacentSpaces(s)
    ensures CollapseWhitespace(s) == s
  {
    if s != [] {
      var t := s[1..];
      forall j | 0 <= j < |t| ensures !SpacePairAt(t, j) && (IsJavaWhitespace(t[j]) ==> t[j] == ' ') {
        assert !SpacePairAt(s, j + 1) && s[j + 1] == t[j];
      }
      CollapseWhitespaceFixpoint(t);
      if |s| > 1 && IsJavaWhitespace(s[0]) {
        assert !SpacePairAt(s, 0);
      }
      assert s == [s[0]] + t;
    }
  }

  /** Deleting a character that does not occur changes nothing. */
  lemma {:induction false} DeleteAbsentChar(s: string, c: char)
    requires c !in s
    ensures DeleteChar(s, c) == s
  {
    if s != [] {
      assert c !in s[1..];
      DeleteAbsentChar(s[1..], c);
      assert s == [s[0]] + s[1..];
    }
  }

  /** A string without `"> <"` is left as it is. */
  lemma {:induction false} ReplaceTagGapsFixpoint(s: string)
    requires NoTagGap(s)
    ensures ReplaceTagGaps(s) == s
  {
    if s != [] {
      assert !TagGapAt(s, 0);
      var t := s[1..];
      forall j | 0 <= j < |t| ensures !TagGapAt(t, j) {
        assert !TagGapAt(s, j + 1);
      }
      ReplaceTagGapsFixpoint(t);
      assert s == [s[0]] + t;
    }
  }

  /** Every normalized serialization has no line breaks, no `\s` character but the
      space, no two adjacent spaces and no `"> <"`. The two deletions of `\r` and `\n`
      never remove anything, since the collapsing step already replaced them. */
  lemma NormalizeSerializationIsNormalized(serialized: string)
    ensures Normalized(NormalizeSerialization(serialized))
    ensures DeleteChar(DeleteChar(CollapseWhitespace(serialized), '\r'), '\n')
            == CollapseWhitespace(serialized)
  {
    var collapsed := CollapseWhitespace(serialized);
    assert '\r' !in collapsed && '\n' !in collapsed by {
      if '\r' in collapsed || '\n' in collapsed {
        var i :| 0 <= i < |collapsed| && (collapsed[i] == '\r' || collapsed[i] == '\n');
        assert IsJavaWhitespace(collapsed[i]);
      }
    }
    DeleteAbsentChar(collapsed, '\r');
    DeleteAbsentChar(collapsed, '\n');
    ReplaceTagGapsShape(collapsed);
  }

  /** Normalizing a normalized string returns it unchanged. */
  lemma NormalizedIsFixpoint(s: string)
    requires Normalized(s)
    ensures NormalizeSerialization(s) == s
  {
    CollapseWhitespaceFixpoint(s);
    DeleteAbsentChar(s, '\r');
    DeleteAbsentChar(s, '\n');
    ReplaceTagGapsFixpoint(s);
  }

  /** Normalization is idempotent. */
  lemma NormalizeSerializationIdempotent(serialized: string)
    ensures NormalizeSerialization(NormalizeSerialization(serialized))
            == NormalizeSerialization(serialized)
  {
    NormalizeSerializationIsNormalized(serialized);
    NormalizedIsFixpoint(NormalizeSerialization(serialized));
  }

  /** The characters of `s` that are not `\s`, in order. */
  function NonWhitespace(s: string): string {
    if s == [] then [] else (if IsJavaWhitespace(s[0]) then [] else [s[0]]) + NonWhitespace(s[1..])
  }

  lemma {:induction false} NonWhitespaceAppend(a: string, b: string)
    ensures NonWhitespace(a + b) == NonWhitespace(a) + NonWhitespace(b)
  {
    if a == [] {
      assert a + b == b;
    } else {
      assert (a + b)[1..] == a[1..] + b;
      NonWhitespaceAppend(a[1..], b);
    }
  }

  /** Collapsing whitespace keeps every other character, in order. */
  lemma {:induction false} CollapseWhitespaceKeepsText(s: string)
    ensures NonWhitespace(CollapseWhitespace(s)) == NonWhitespace(s)
  {
    if s != [] {
      CollapseWhitespaceKeepsText(s[1..]);
      var rest := CollapseWhitespace(s[1..]);
      if !(IsJavaWhitespace(s[0]) && |s| > 1 && IsJavaWhitespace(s[1])) {
        var c := if IsJavaWhitespace(s[0]) then ' ' else s[0];
        NonWhitespaceAppend([c], rest);
        assert [c][1..] == [];
      }
    }
  }

  /** Replacing tag gaps removes spaces only: every other character stays, in order. */
  lemma {:induction false} ReplaceTagGapsKeepsText(s: string)
    ensures NonWhitespace(ReplaceTagGaps(s)) == NonWhitespace(s)
    decreases |s|
  {
    if |s| >= 3 && s[0] == '>' && s[1] == ' ' && s[2] == '<' {
      ReplaceTagGapsKeepsText(s[3..]);
      NonWhitespaceAppend("><", ReplaceTagGaps(s[3..]));
      NonWhitespaceAppend(s[..3], s[3..]);
      assert s == s[..3] + s[3..];
      assert NonWhitespace(s[..3]) == "><" by {
        assert s[..3][1..] == " <" && s[..3][1..][1..] == "<" && "<"[1..] == [];
      }
      assert NonWhitespace("><") == "><" by {
        assert "><"[1..] == "<" && "<"[1..] == [];
      }
    } else if s != [] {
      ReplaceTagGapsKeepsText(s[1..]);
      NonWhitespaceAppend([s[0]], ReplaceTagGaps(s[1..]));
      assert [s[0]][1..] == [];
    }
  }

  /** Normalization only touches whitespace: the other characters survive, in order. */
  lemma NormalizeSerializationKeepsText(serialized: string)
    ensures NonWhitespace(NormalizeSerialization(serialized)) == NonWhitespace(serialized)
  {
    NormalizeSerializationIsNormalized(serialized);
    CollapseWhitespaceKeepsText(serialized);
    ReplaceTagGapsKeepsText(CollapseWhitespace(serialized));
  }

  /** Every character of `w` is a `\s` character. */
  predicate AllWhitespace(w: string) {
    forall i :: 0 <= i < |w| ==> IsJavaWhitespace(w[i])
  }

  /** A run of whitespace collapses like a single space. */
  lemma {:induction false} CollapseRun(w: string, y: string)
    requires |w| > 0 && AllWhitespace(w)
    ensures CollapseWhitespace(w + y) == CollapseWhitespace([' '] + y)
    decreases |w|
  {
    if |w| == 1 {
      assert (w + y)[1..] == y == ([' '] + y)[1..];
    } else {
      assert (w + y)[1..] == w[1..] + y;
      CollapseRun(w[1..], y);
    }
  }

  /** Collapsing is a congruence for a common prefix, given suffixes that collapse alike
      and agree on whether they start with whitespace. */
  lemma {:induction false} CollapsePrefixCongruence(x: string, t1: string, t2: string)
    requires |t1| > 0 && |t2| > 0 && IsJavaWhitespace(t1[0]) == IsJavaWhitespace(t2[0])
    requires CollapseWhitespace(t1) == CollapseWhitespace(t2)
    ensures CollapseWhitespace(x + t1) == CollapseWhitespace(x + t2)
  {
    if x != [] {
      assert (x + t1)[1..] == x[1..] + t1;
      assert (x + t2)[1..] == x[1..] + t2;
      CollapsePrefixCongruence(x[1..], t1, t2);
    } else {
      assert x + t1 == t1 && x + t2 == t2;
    }
  }

  /** Two serializations that differ only in which non-empty run of whitespace stands at
      one place normalize to the same string. */
  lemma WhitespaceRunsAreInterchangeable(x: string, w1: string, w2: string, y: string)
    requires |w1| > 0 && AllWhitespace(w1) && |w2| > 0 && AllWhitespace(w2)
    ensures NormalizeSerialization(x + w1 + y) == NormalizeSerialization(x + w2 + y)
  {
    CollapseRun(w1, y);
    CollapseRun(w2, y);
    CollapsePrefixCongruence(x, w1 + y, w2 + y);
    assert x + w1 + y == x + (w1 + y) && x + w2 + y == x + (w2 + y);
  }
}
