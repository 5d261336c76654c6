/** The Python string operations the file-naming code relies on. */
module Strings {

  /** Python's `s[k:]` for a non-negative `k`: empty when `s` is too short. */
  function Drop(s: string, k: nat): string
  {
    if |s| <= k then "" else s[k..]
  }

  /** `pat` starts at index `i` of `s`. */
  predicate OccursAt(s: string, pat: string, i: int)
  {
    0 <= i && i + |pat| <= |s| && s[i..i + |pat|] == pat
  }

  /** Python's `pat in s`. */
  predicate Contains(s: string, pat: string)
  {
    exists i :: 0 <= i <= |s| && OccursAt(s, pat, i)
  }

  /** `s` with every `c` removed: the reference meaning of `s.replace(c, '')`. */
  function RemoveChar(s: string, c: char): (r: string)
  {
    if |s| == 0 then ""
    else (if s[0] == c then "" else [s[0]]) + RemoveChar(s[1..], c)
  }

  /** Python's `s.replace('', rep)`: `rep` before, between and after every character. */
  function InsertAround(s: string, rep: string): string
  {
    if |s| == 0 then rep else rep + [s[0]] + InsertAround(s[1..], rep)
  }

  /** Python's `s.replace(pat, rep)`: every occurrence of `pat`, scanned left to right
      without overlap, is replaced by `rep`. */
  function ReplaceAll(s: string, pat: string, rep: string): (r: string)
    decreases |s|
  {
    if |pat| == 0 then InsertAround(s, rep)
    else if |s| < |pat| then s
    else if s[..|pat|] == pat then rep + ReplaceAll(s[|pat|..], pat, rep)
    else [s[0]] + ReplaceAll(s[1..], pat, rep)
  }

  /** Python's `sep.join(xs)`. */
  function Join(xs: seq<string>, sep: string): string
  {
    if |xs| == 0 then ""
    else if |xs| == 1 then xs[0]
    else xs[0] + sep + Join(xs[1..], sep)
  }

  lemma ContainsLeft(a: string, b: string, pat: string)
    requires Contains(a, pat)
    ensures Contains(a + b, pat)
  {
    var i :| 0 <= i <= |a| && OccursAt(a, pat, i);
    assert (a + b)[i..i + |pat|] == a[i..i + |pat|];
    assert OccursAt(a + b, pat, i);
  }

  lemma ContainsRight(a: string, b: string, pat: string)
    requires Contains(b, pat)
    ensures Contains(a + b, pat)
  {
    var i :| 0 <= i <= |b| && OccursAt(b, pat, i);
    assert (a + b)[|a| + i..|a| + i + |pat|] == b[i..i + |pat|];
    assert OccursAt(a + b, pat, |a| + i);
  }

  /** Every element of a joined list can be found in the joined string. */
  lemma {:induction false} JoinContainsEach(xs: seq<string>, sep: string, k: nat)
    requires k < |xs|
    ensures Contains(Join(xs, sep), xs[k])
  {
    if |xs| == 1 {
      assert OccursAt(xs[0], xs[0], 0);
    } else if k == 0 {
      assert OccursAt(xs[0], xs[0], 0);
      ContainsLeft(xs[0], sep + Join(xs[1..], sep), xs[0]);
      assert xs[0] + sep + Join(xs[1..], sep) == xs[0] + (sep + Join(xs[1..], sep));
    } else {
      JoinContainsEach(xs[1..], sep, k - 1);
      ContainsRight(xs[0] + sep, Join(xs[1..], sep), xs[k]);
    }
  }

  /** After removal the character no longer occurs. */
  lemma {:induction false} RemovedCharIsGone(s: string, c: char)
    ensures c !in RemoveChar(s, c)
  {
    if |s| != 0 {
      RemovedCharIsGone(s[1..], c);
    }
  }

  /** Removing a character that does not occur changes nothing. */
  lemma {:induction false} RemoveAbsentChar(s: string, c: char)
    requires c !in s
    ensures RemoveChar(s, c) == s
  {
    if |s| != 0 {
      RemoveAbsentChar(s[1..], c);
      assert s == [s[0]] + s[1..];
    }
  }

  /** Removing a character distributes over concatenation. */
  lemma {:induction false} RemoveCharAppend(a: string, b: string, c: char)
    ensures RemoveChar(a + b, c) == RemoveChar(a, c) + RemoveChar(b, c)
  {
    if |a| == 0 {
      assert a + b == b;
    } else {
      assert (a + b)[1..] == a[1..] + b;
      RemoveCharAppend(a[1..], b, c);
    }
  }

  /** Removing the character drops each single occurrence between pieces that lack it. */
  lemma {:induction false} RemoveBetween(a: string, b: string, c: char)
    requires c !in a && c !in b
    ensures RemoveChar(a + [c] + b, c) == a + b
    decreases |a|
  {
    if |a| == 0 {
      assert (a + [c] + b)[1..] == b;
      RemoveAbsentChar(b, c);
    } else {
      assert (a + [c] + b)[1..] == a[1..] + [c] + b;
      RemoveBetween(a[1..], b, c);
      assert a + b == [a[0]] + (a[1..] + b);
    }
  }

  /** `s.replace(c, '')` removes exactly the occurrences of `c`. */
  lemma {:induction false} ReplaceCharByNothing(s: string, c: char)
    ensures ReplaceAll(s, [c], "") == RemoveChar(s, c)
  {
    if |s| != 0 {
      ReplaceCharByNothing(s[1..], c);
    }
  }

  /** Replacing a pattern by itself leaves every string as it was. */
  lemma {:induction false} ReplaceAllBySelf(s: string, pat: string)
    ensures ReplaceAll(s, pat, pat) == s
    decreases |s|
  {
    if |pat| == 0 {
      InsertNothing(s);
    } else if |s| < |pat| {
    } else if s[..|pat|] == pat {
      ReplaceAllBySelf(s[|pat|..], pat);
      assert s == s[..|pat|] + s[|pat|..];
    } else {
      ReplaceAllBySelf(s[1..], pat);
      assert s == [s[0]] + s[1..];
    }
  }

  lemma {:induction false} InsertNothing(s: string)
    ensures InsertAround(s, "") == s
  {
    if |s| != 0 {
      InsertNothing(s[1..]);
      assert s == [s[0]] + s[1..];
    }
  }

  lemma OccursAtShift(s: string, d: nat, pat: string, i: int)
    requires d <= |s|
    ensures OccursAt(s[d..], pat, i) ==> OccursAt(s, pat, i + d)
  {
    if OccursAt(s[d..], pat, i) {
      assert s[d..][i..i + |pat|] == s[i + d..i + d + |pat|];
    }
  }

  /** A string in which a non-empty pattern never occurs is left unchanged. */
  lemma {:induction false} ReplaceAllAbsent(s: string, pat: string, rep: string)
    requires |pat| > 0
    requires !Contains(s, pat)
    ensures ReplaceAll(s, pat, rep) == s
    decreases |s|
  {
    if |s| < |pat| {
    } else {
      assert !OccursAt(s, pat, 0);
      forall i ensures !OccursAt(s[1..], pat, i) {
        OccursAtShift(s, 1, pat, i);
      }
      ReplaceAllAbsent(s[1..], pat, rep);
      assert s == [s[0]] + s[1..];
    }
  }

  /** Replacement works piecewise when the first piece ends in a character the pattern does
      not contain, so that no occurrence can straddle the seam. */
  lemma {:induction false} ReplaceAllSplit(a: string, b: string, pat: string, rep: string)
    requires |pat| > 0
    requires |a| == 0 || a[|a| - 1] !in pat
    ensures ReplaceAll(a + b, pat, rep) == ReplaceAll(a, pat, rep) + ReplaceAll(b, pat, rep)
    decreases |a|, 2
  {
    if |a| == 0 {
      assert a + b == b;
    } else if |a| < |pat| {
      SplitShort(a, b, pat, rep);
    } else if a[..|pat|] == pat {
      SplitMatch(a, b, pat, rep);
    } else {
      SplitSkip(a, b, pat, rep);
    }
  }

  /** The seam case of ReplaceAllSplit: `a` is shorter than the pattern. */
  lemma {:induction false} SplitShort(a: string, b: string, pat: string, rep: string)
    requires 0 < |a| < |pat|
    requires a[|a| - 1] !in pat
    ensures ReplaceAll(a + b, pat, rep) == ReplaceAll(a, pat, rep) + ReplaceAll(b, pat, rep)
    decreases |a|, 1
  {
    var ab := a + b;
    ReplaceAllShort(a, pat, rep);
    if |ab| < |pat| {
      ReplaceAllShort(ab, pat, rep);
      ReplaceAllShort(b, pat, rep);
    } else {
      SeamBlocksMatch(a, b, pat);
      ReplaceAllSkip(ab, pat, rep);
      SplitTail(a, b, pat, rep, 1);
      ReplaceAllShort(a[1..], pat, rep);
      var rb := ReplaceAll(b, pat, rep);
      assert ab[0] == a[0];
      assert ReplaceAll(ab, pat, rep) == [a[0]] + (a[1..] + rb);
      assert [a[0]] + (a[1..] + rb) == ([a[0]] + a[1..]) + rb;
      assert [a[0]] + a[1..] == a;
    }
  }

  /** A window that covers the end of `a` cannot equal a pattern lacking `a`'s last character. */
  lemma SeamBlocksMatch(a: string, b: string, pat: string)
    requires 0 < |a| < |pat| <= |a + b|
    requires a[|a| - 1] !in pat
    ensures (a + b)[..|pat|] != pat
  {
    var k := |a| - 1;
    assert pat[k] in pat;
    assert (a + b)[..|pat|][k] == a[k];
    assert (a + b)[..|pat|][k] != pat[k];
  }

  /** A string shorter than the pattern is left as it is. */
  lemma ReplaceAllShort(s: string, pat: string, rep: string)
    requires 0 < |pat| && |s| < |pat|
    ensures ReplaceAll(s, pat, rep) == s
  {
  }

  /** The case of ReplaceAllSplit where `a` starts with the pattern. */
  lemma {:induction false} SplitMatch(a: string, b: string, pat: string, rep: string)
    requires 0 < |pat| <= |a| && a[..|pat|] == pat
    requires a[|a| - 1] !in pat
    ensures ReplaceAll(a + b, pat, rep) == ReplaceAll(a, pat, rep) + ReplaceAll(b, pat, rep)
    decreases |a|, 1
  {
    assert (a + b)[..|pat|] == pat;
    ReplaceAllMatch(a + b, pat, rep);
    ReplaceAllMatch(a, pat, rep);
    SplitTail(a, b, pat, rep, |pat|);
  }

  /** The case of ReplaceAllSplit where `a` is long enough but does not start with the pattern. */
  lemma {:induction false} SplitSkip(a: string, b: string, pat: string, rep: string)
    requires 0 < |pat| <= |a| && a[..|pat|] != pat
    requires a[|a| - 1] !in pat
    ensures ReplaceAll(a + b, pat, rep) == ReplaceAll(a, pat, rep) + ReplaceAll(b, pat, rep)
    decreases |a|, 1
  {
    var ab := a + b;
    assert ab[..|pat|] == a[..|pat|];
    ReplaceAllSkip(ab, pat, rep);
    ReplaceAllSkip(a, pat, rep);
    SplitTail(a, b, pat, rep, 1);
    var ra := ReplaceAll(a[1..], pat, rep);
    var rb := ReplaceAll(b, pat, rep);
    assert ab[0] == a[0];
    assert ReplaceAll(ab, pat, rep) == [a[0]] + (ra + rb);
    assert [a[0]] + (ra + rb) == ([a[0]] + ra) + rb;
  }

  /** One step of the scan: an occurrence at the front is replaced. */
  lemma ReplaceAllMatch(s: string, pat: string, rep: string)
    requires 0 < |pat| <= |s| && s[..|pat|] == pat
    ensures ReplaceAll(s, pat, rep) == rep + ReplaceAll(s[|pat|..], pat, rep)
  {
  }

  /** One step of the scan: a front character that starts no occurrence is kept. */
  lemma ReplaceAllSkip(s: string, pat: string, rep: string)
    requires 0 < |pat| <= |s| && s[..|pat|] != pat
    ensures ReplaceAll(s, pat, rep) == [s[0]] + ReplaceAll(s[1..], pat, rep)
  {
  }

  /** The induction step of ReplaceAllSplit, after consuming `d` characters of `a`. */
  lemma {:induction false} SplitTail(a: string, b: string, pat: string, rep: string, d: nat)
    requires 0 < d <= |a|
    requires |pat| > 0
    requires a[|a| - 1] !in pat
    ensures ReplaceAll(a[d..] + b, pat, rep) == ReplaceAll(a[d..], pat, rep) + ReplaceAll(b, pat, rep)
    ensures (a + b)[d..] == a[d..] + b
    decreases |a|, 0
  {
    assert (a + b)[d..] == a[d..] + b;
    if d < |a| {
      assert a[d..][|a[d..]| - 1] == a[|a| - 1];
    }
    ReplaceAllSplit(a[d..], b, pat, rep);
  }

  /** A string that starts with a non-empty pattern has that occurrence replaced first. */
  lemma ReplaceAllLeading(pat: string, rest: string, rep: string)
    requires |pat| > 0
    ensures ReplaceAll(pat + rest, pat, rep) == rep + ReplaceAll(rest, pat, rep)
  {
    assert (pat + rest)[..|pat|] == pat;
    assert (pat + rest)[|pat|..] == rest;
  }

  /** Replacing a pattern by a replacement of the same length keeps the length. */
  lemma {:induction false} ReplaceAllKeepsLength(s: string, pat: string, rep: string)
    requires 0 < |pat| == |rep|
    ensures |ReplaceAll(s, pat, rep)| == |s|
    decreases |s|
  {
    if |s| < |pat| {
      ReplaceAllShort(s, pat, rep);
    } else if s[..|pat|] == pat {
      ReplaceAllMatch(s, pat, rep);
      ReplaceAllKeepsLength(s[|pat|..], pat, rep);
    } else {
      ReplaceAllSkip(s, pat, rep);
      ReplaceAllKeepsLength(s[1..], pat, rep);
    }
  }

  /** Two strings built as prefix, field and suffix, with prefixes of equal length and
      fields of equal length, are equal only if their fields are. */
  lemma FieldsOfEqualNames(p: string, x: string, q: string, y: string, e: string)
    requires |p| == |q| && |x| == |y|
    requires p + x + e == q + y + e
    ensures x == y
  {
    assert (p + x + e)[|p|..|p| + |x|] == x;
    assert (q + y + e)[|q|..|q| + |y|] == y;
  }
}
