/**
 * String primitives used by the main window: ASCII lower-casing, ordinal
 * `IndexOf` / `LastIndexOf`, and ordinal replace-all as `string.Replace`
 * performs it (left to right, non-overlapping).
 */
module Text {

  /** Lower-cases one ASCII letter; every other character is left as it is. */
  function LowerChar(c: char): char {
    if 'A' <= c <= 'Z' then (c as int + 32) as char else c
  }

  /** `ToLower()` restricted to ASCII letters. */
  function Lower(s: string): string {
    if s == [] then [] else [LowerChar(s[0])] + Lower(s[1..])
  }

  /** Lower-casing works character by character and leaves no upper-case letter. */
  lemma {:induction false} LowerSpec(s: string)
    ensures |Lower(s)| == |s|
    ensures forall i :: 0 <= i < |s| ==> Lower(s)[i] == LowerChar(s[i])
    ensures forall i :: 0 <= i < |s| ==> !('A' <= Lower(s)[i] <= 'Z')
  {
    if s != [] {
      LowerSpec(s[1..]);
    }
  }

  /** `sub` occurs in `s` starting at position `i`. */
  ghost predicate OccursAt(s: string, sub: string, i: int) {
    0 <= i && i + |sub| <= |s| && s[i..i + |sub|] == sub
  }

  /** The first position at or after `from` at which `sub` occurs in `s`, or -1. */
  function IndexFrom(s: string, sub: string, from: nat): int
    decreases |s| - from
  {
    if from + |sub| > |s| then -1
    else if s[from..from + |sub|] == sub then from
    else IndexFrom(s, sub, from + 1)
  }

  lemma {:induction false} IndexFromSpec(s: string, sub: string, from: nat)
    ensures var r := IndexFrom(s, sub, from);
      && (r == -1 || (from <= r && OccursAt(s, sub, r)))
      && (r == -1 ==> forall i :: from <= i ==> !OccursAt(s, sub, i))
      && (r != -1 ==> forall i :: from <= i < r ==> !OccursAt(s, sub, i))
    decreases |s| - from
  {
    if from + |sub| <= |s| && s[from..from + |sub|] != sub {
      IndexFromSpec(s, sub, from + 1);
    }
  }

  /** `s.IndexOf(sub)`: the first occurrence of `sub` in `s`, or -1 when there is none. */
  function IndexOf(s: string, sub: string): int {
    IndexFrom(s, sub, 0)
  }

  /** `IndexOf` finds the first occurrence, and answers -1 exactly when there is none. */
  lemma IndexOfSpec(s: string, sub: string)
    ensures IndexOf(s, sub) == -1 <==> forall i :: !OccursAt(s, sub, i)
    ensures IndexOf(s, sub) != -1 ==>
      OccursAt(s, sub, IndexOf(s, sub)) && forall i :: 0 <= i < IndexOf(s, sub) ==> !OccursAt(s, sub, i)
  {
    IndexFromSpec(s, sub, 0);
  }

  /** The empty string occurs at position 0 of every string. */
  lemma IndexOfEmpty(s: string)
    ensures IndexOf(s, "") == 0
  {
    assert OccursAt(s, "", 0);
    IndexOfSpec(s, "");
  }

  /** `s.LastIndexOf(c)`: the last position holding `c`, or -1. */
  function LastIndexOf(s: string, c: char): (r: int)
    ensures -1 <= r < |s|
  {
    if s == [] then -1
    else if s[|s| - 1] == c then |s| - 1
    else LastIndexOf(s[..|s| - 1], c)
  }

  /** `LastIndexOf` answers -1 exactly when `c` is absent, and otherwise a position of `c` with none after it. */
  lemma {:induction false} LastIndexOfSpec(s: string, c: char)
    ensures LastIndexOf(s, c) == -1 <==> c !in s
    ensures LastIndexOf(s, c) != -1 ==> s[LastIndexOf(s, c)] == c && c !in s[LastIndexOf(s, c) + 1..]
  {
    if s != [] && s[|s| - 1] != c {
      var init := s[..|s| - 1];
      LastIndexOfSpec(init, c);
      assert s == init + [s[|s| - 1]];
      var r := LastIndexOf(init, c);
      if r != -1 {
        assert s[r + 1..] == init[r + 1..] + [s[|s| - 1]];
      }
    }
  }

  /**
   * `s.Replace(pat, rep)`: every occurrence of `pat`, found left to right and
   * without overlap, is replaced by `rep`. `pat` must be non-empty, as .NET
   * demands.
   */
  function ReplaceAll(s: string, pat: string, rep: string): string
    requires |pat| > 0
    decreases |s|
  {
    if |s| < |pat| then s
    else if s[..|pat|] == pat then rep + ReplaceAll(s[|pat|..], pat, rep)
    else [s[0]] + ReplaceAll(s[1..], pat, rep)
  }

  /** A string lacking some character of the pattern is left unchanged by a replace. */
  lemma {:induction false} ReplaceAllAbsent(s: string, pat: string, rep: string, ch: char)
    requires |pat| > 0 && ch in pat && ch !in s
    ensures ReplaceAll(s, pat, rep) == s
    decreases |s|
  {
    if |s| < |pat| {
    } else if s[..|pat|] == pat {
      assert false;
    } else {
      assert ch !in s[1..] by {
        forall i | 0 <= i < |s[1..]| ensures s[1..][i] != ch {
          assert s[1..][i] == s[i + 1];
        }
      }
      ReplaceAllAbsent(s[1..], pat, rep, ch);
      assert s == [s[0]] + s[1..];
    }
  }

  /** Replacing a pattern that starts the string, and does not recur, leaves the rest. */
  lemma ReplaceLeadingOnce(prefix: string, tail: string, rep: string, ch: char)
    requires ch in prefix && ch !in tail
    ensures ReplaceAll(prefix + tail, prefix, rep) == rep + tail
  {
    var s := prefix + tail;
    assert s[..|prefix|] == prefix;
    assert s[|prefix|..] == tail;
    ReplaceAllAbsent(tail, prefix, rep, ch);
  }
}
