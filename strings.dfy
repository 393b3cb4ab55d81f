/** Literal substring replacement, as Python's `str.replace` performs it:
    occurrences are found left to right and do not overlap. */
module Strings {

  /** `pat` occurs in `s` starting at index `i`. */
  predicate OccursAt(s: string, pat: string, i: int)
  {
    0 <= i && i + |pat| <= |s| && s[i..i + |pat|] == pat
  }

  /** `pat` occurs somewhere in `s`. */
  predicate Occurs(s: string, pat: string)
  {
    exists i | 0 <= i <= |s| :: OccursAt(s, pat, i)
  }

  /** Replace every occurrence of `pat` in `s` by `rep`, scanning left to
      right; an empty pattern inserts `rep` before every character and at the
      end, as Python does. */
  function ReplaceAll(s: string, pat: string, rep: string): string
    decreases |s|
  {
    if pat == [] then
      if s == [] then rep else rep + [s[0]] + ReplaceAll(s[1..], pat, rep)
    else if |s| < |pat| then s
    else if s[..|pat|] == pat then rep + ReplaceAll(s[|pat|..], pat, rep)
    else [s[0]] + ReplaceAll(s[1..], pat, rep)
  }

  /** A string in which a non-empty pattern does not occur is left unchanged. */
  lemma {:induction false} ReplaceAllAbsent(s: string, pat: string, rep: string)
    requires pat != [] && !Occurs(s, pat)
    ensures ReplaceAll(s, pat, rep) == s
    decreases |s|
  {
    if |s| >= |pat| {
      assert !OccursAt(s, pat, 0);
      assert !Occurs(s[1..], pat) by {
        forall i | OccursAt(s[1..], pat, i) ensures false {
          assert s[1..][i..i + |pat|] == s[i + 1..i + 1 + |pat|];
          assert OccursAt(s, pat, i + 1);
        }
      }
      ReplaceAllAbsent(s[1..], pat, rep);
    }
  }

  /** Replacing a pattern by itself changes nothing. */
  lemma {:induction false} ReplaceAllSelf(s: string, pat: string)
    ensures ReplaceAll(s, pat, pat) == s
    decreases |s|
  {
    if pat == [] {
      if s != [] {
        ReplaceAllSelf(s[1..], pat);
        assert [s[0]] + s[1..] == s;
      }
    } else if |s| >= |pat| {
      if s[..|pat|] == pat {
        ReplaceAllSelf(s[|pat|..], pat);
        assert s[..|pat|] + s[|pat|..] == s;
      } else {
        ReplaceAllSelf(s[1..], pat);
        assert [s[0]] + s[1..] == s;
      }
    }
  }

  /** A non-empty pattern whose first character is not in `s` does not occur in `s`. */
  lemma FirstCharAbsent(s: string, pat: string)
    requires pat != [] && pat[0] !in s
    ensures !Occurs(s, pat)
  {
  }

  /** A prefix that holds no copy of the pattern's first character is copied
      through unchanged, and the scan resumes after it. */
  lemma {:induction false} ReplaceAllCopiesPrefix(x: string, y: string, pat: string, rep: string)
    requires pat != [] && pat[0] !in x
    ensures ReplaceAll(x + y, pat, rep) == x + ReplaceAll(y, pat, rep)
    decreases |x|
  {
    if x != [] {
      var s := x + y;
      if |s| >= |pat| {
        assert s[..|pat|][0] == x[0] != pat[0];
        assert s[1..] == x[1..] + y;
        ReplaceAllCopiesPrefix(x[1..], y, pat, rep);
        assert x == [x[0]] + x[1..];
      } else {
        assert ReplaceAll(y, pat, rep) == y;
      }
    } else {
      assert x + y == y;
    }
  }

  /** The pattern alone becomes the replacement alone. */
  lemma ReplaceAllWhole(pat: string, rep: string)
    requires pat != []
    ensures ReplaceAll(pat, pat, rep) == rep
  {
    assert pat[|pat|..] == [];
  }

  /** A pattern after a prefix that lacks its first character is replaced,
      and the prefix is kept. */
  lemma ReplaceAfterPrefix(prefix: string, pat: string, rep: string)
    requires pat != [] && pat[0] !in prefix
    ensures ReplaceAll(prefix + pat, pat, rep) == prefix + rep
  {
    ReplaceAllCopiesPrefix(prefix, pat, pat, rep);
    ReplaceAllWhole(pat, rep);
  }
}
