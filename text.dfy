/**
 * The Python string operations the target resolver uses, on `seq<char>`:
 * ASCII `str.lower`, `str.replace` (left-to-right, non-overlapping, one pass),
 * the substring test `pat in s`, and `str.strip(c)` for a single character.
 * Their properties are lemmas, so that they are brought in only where a proof
 * needs them.
 */
module Text {

  predicate IsUpper(ch: char) {
    'A' <= ch <= 'Z'
  }

  function LowerChar(ch: char): char {
    if IsUpper(ch) then (ch as int + 32) as char else ch
  }

  /** `s.lower()` restricted to ASCII. */
  function Lower(s: string): string {
    if s == [] then [] else [LowerChar(s[0])] + Lower(s[1..])
  }

  /** `pat in s`: `pat` occurs in `s` as a contiguous substring. */
  predicate Occurs(s: string, pat: string) {
    pat <= s || (s != [] && Occurs(s[1..], pat))
  }

  /**
   * `s.replace(pat, rep)`: scanning left to right, each occurrence of `pat`
   * that does not overlap an earlier replaced one becomes `rep`; the result
   * is not scanned again.
   */
  function Replace(s: string, pat: string, rep: string): string
    requires |pat| > 0
  {
    if s == [] then []
    else if pat <= s then rep + Replace(s[|pat|..], pat, rep)
    else [s[0]] + Replace(s[1..], pat, rep)
  }

  /** `s.lstrip(c)`. */
  function StripLeft(s: string, c: char): string {
    if s != [] && s[0] == c then StripLeft(s[1..], c) else s
  }

  /** `s.rstrip(c)`. */
  function StripRight(s: string, c: char): string {
    if s != [] && s[|s| - 1] == c then StripRight(s[..|s| - 1], c) else s
  }

  /** `s.strip(c)` for a one-character argument. */
  function Strip(s: string, c: char): string {
    StripRight(StripLeft(s, c), c)
  }

  /**
   * Lower-casing keeps the length, turns each upper-case ASCII letter into its
   * lower-case counterpart (32 code points on), leaves no upper-case ASCII
   * letter, and changes no character that was not one.
   */
  lemma {:induction false} LowerSpec(s: string)
    ensures |Lower(s)| == |s|
    ensures forall ch :: ch in Lower(s) ==> !IsUpper(ch)
    ensures forall i :: 0 <= i < |s| && IsUpper(s[i]) ==>
              'a' <= Lower(s)[i] <= 'z' && Lower(s)[i] as int == s[i] as int + 32
    ensures forall i :: 0 <= i < |s| && !IsUpper(s[i]) ==> Lower(s)[i] == s[i]
  {
    if s != [] {
      LowerSpec(s[1..]);
      assert Lower(s) == [LowerChar(s[0])] + Lower(s[1..]);
    }
  }

  /** Every character of a replacement's result comes from the text or from the replacement. */
  lemma {:induction false} ReplaceChars(s: string, pat: string, rep: string)
    requires |pat| > 0
    ensures forall ch :: ch in Replace(s, pat, rep) ==> ch in s || ch in rep
  {
    if s != [] {
      if pat <= s {
        ReplaceChars(s[|pat|..], pat, rep);
        assert forall ch :: ch in s[|pat|..] ==> ch in s;
      } else {
        ReplaceChars(s[1..], pat, rep);
        assert forall ch :: ch in s[1..] ==> ch in s;
      }
    }
  }

  /** Stripping leaves a contiguous piece of the text, with only `c` cut off and no `c` at either end. */
  lemma {:induction false} StripSpec(s: string, c: char)
    ensures exists i, j ::
              && 0 <= i <= j <= |s|
              && Strip(s, c) == s[i..j]
              && (forall k :: 0 <= k < i ==> s[k] == c)
              && (forall k :: j <= k < |s| ==> s[k] == c)
    ensures Strip(s, c) == [] || (Strip(s, c)[0] != c && Strip(s, c)[|Strip(s, c)| - 1] != c)
    ensures c !in s ==> Strip(s, c) == s
  {
    var i := StripLeftSpec(s, c);
    var l := StripLeft(s, c);
    var j := StripRightSpec(l, c);
    assert Strip(s, c) == l[..j] == s[i..i + j];
    forall k | i + j <= k < |s| ensures s[k] == c {
      assert s[k] == l[k - i];
    }
  }

  lemma {:induction false} StripLeftSpec(s: string, c: char) returns (i: nat)
    ensures i <= |s| && StripLeft(s, c) == s[i..]
    ensures forall k :: 0 <= k < i ==> s[k] == c
    ensures StripLeft(s, c) == [] || StripLeft(s, c)[0] != c
  {
    if s != [] && s[0] == c {
      var i' := StripLeftSpec(s[1..], c);
      i := i' + 1;
      assert s[1..][i'..] == s[i..];
    } else {
      i := 0;
    }
  }

  lemma {:induction false} StripRightSpec(s: string, c: char) returns (j: nat)
    ensures j <= |s| && StripRight(s, c) == s[..j]
    ensures forall k :: j <= k < |s| ==> s[k] == c
    ensures StripRight(s, c) == [] || StripRight(s, c)[j - 1] != c
  {
    if s != [] && s[|s| - 1] == c {
      j := StripRightSpec(s[..|s| - 1], c);
      assert s[..|s| - 1][..j] == s[..j];
    } else {
      j := |s|;
    }
  }

  /** Replacing a one-character pattern by text that lacks it leaves none of it behind. */
  lemma {:induction false} ReplaceRemovesChar(s: string, c: char, rep: string)
    requires c !in rep
    ensures c !in Replace(s, [c], rep)
  {
    if s != [] {
      if [c] <= s {
        ReplaceRemovesChar(s[1..], c, rep);
      } else {
        assert s[0] != c;
        ReplaceRemovesChar(s[1..], c, rep);
      }
    }
  }

  /** With no occurrence of the pattern, replacement changes nothing. */
  lemma {:induction false} ReplaceWithoutOccurrence(s: string, pat: string, rep: string)
    requires |pat| > 0
    requires !Occurs(s, pat)
    ensures Replace(s, pat, rep) == s
  {
    if s != [] {
      ReplaceWithoutOccurrence(s[1..], pat, rep);
      assert [s[0]] + s[1..] == s;
    }
  }

  /** Removing a pattern never lengthens the text. */
  lemma {:induction false} RemoveNeverGrows(s: string, pat: string)
    requires |pat| > 0
    ensures |Replace(s, pat, "")| <= |s|
  {
    if s != [] {
      if pat <= s {
        RemoveNeverGrows(s[|pat|..], pat);
      } else {
        RemoveNeverGrows(s[1..], pat);
      }
    }
  }

  /** Removing a pattern that occurs shortens the text by at least the pattern's length. */
  lemma {:induction false} RemoveShrinks(s: string, pat: string)
    requires |pat| > 0
    requires Occurs(s, pat)
    ensures |Replace(s, pat, "")| <= |s| - |pat|
  {
    if pat <= s {
      RemoveNeverGrows(s[|pat|..], pat);
    } else {
      RemoveShrinks(s[1..], pat);
    }
  }

  /** `s.replace(pat, "") == s` exactly when `pat` does not occur in `s`. */
  lemma RemoveChangesIffOccurs(s: string, pat: string)
    requires |pat| > 0
    ensures Replace(s, pat, "") == s <==> !Occurs(s, pat)
    ensures |Replace(s, pat, "")| <= |s|
  {
    RemoveNeverGrows(s, pat);
    if Occurs(s, pat) {
      RemoveShrinks(s, pat);
    } else {
      ReplaceWithoutOccurrence(s, pat, "");
    }
  }

  /** For a one-character pattern, `pat in s` is membership of that character. */
  lemma {:induction false} OccursChar(s: string, c: char)
    ensures Occurs(s, [c]) <==> c in s
  {
    if s != [] {
      OccursChar(s[1..], c);
      assert s == [s[0]] + s[1..];
    }
  }

  /** A one-character pattern never spans a seam, so its replacement distributes over concatenation. */
  lemma {:induction false} ReplaceCharConcat(a: string, b: string, c: char, rep: string)
    ensures Replace(a + b, [c], rep) == Replace(a, [c], rep) + Replace(b, [c], rep)
  {
    if a == [] {
      assert a + b == b;
    } else {
      var ab := a + b;
      assert ab[0] == a[0] && ab[1..] == a[1..] + b;
      ReplaceCharConcat(a[1..], b, c, rep);
      if a[0] == c {
        assert [c] <= ab && [c] <= a;
        assert Replace(ab, [c], rep) == rep + Replace(ab[1..], [c], rep);
      } else {
        assert !([c] <= ab) && !([c] <= a);
        assert Replace(ab, [c], rep) == [a[0]] + Replace(ab[1..], [c], rep);
      }
    }
  }

  /** Replacing a character the text lacks changes nothing. */
  lemma ReplaceAbsentChar(s: string, c: char, rep: string)
    requires c !in s
    ensures Replace(s, [c], rep) == s
  {
    OccursChar(s, c);
    ReplaceWithoutOccurrence(s, [c], rep);
  }
  /** The first occurrence of a one-character pattern is replaced and scanning resumes after it. */
  lemma ReplaceFirstChar(a: string, c: char, b: string, rep: string)
    requires c !in a
    ensures Replace(a + [c] + b, [c], rep) == a + rep + Replace(b, [c], rep)
  {
    ReplaceCharConcat(a, [c] + b, c, rep);
    ReplaceCharConcat([c], b, c, rep);
    ReplaceAbsentChar(a, c, rep);
    assert a + [c] + b == a + ([c] + b);
    assert Replace([c], [c], rep) == rep + Replace([], [c], rep);
  }
}
