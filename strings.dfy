/** The few JavaScript string operations the migration relies on, over `seq<char>`. */
module Strings {

  /** `s.startsWith(p)`. */
  predicate StartsWith(s: string, p: string)
  {
    |p| <= |s| && s[..|p|] == p
  }

  /** `s.endsWith(p)`. */
  predicate EndsWith(s: string, p: string)
  {
    |p| <= |s| && s[|s| - |p|..] == p
  }

  /** `s.slice(1)`: everything but the first character ("" stays ""). */
  function DropFirst(s: string): (r: string)
    ensures s == [] ==> r == []
    ensures s != [] ==> s == [s[0]] + r
  {
    if s == [] then [] else s[1..]
  }

  /** `s.split(c)[0]`: the text before the first occurrence of `c`, or all of `s`. */
  function TakeUntil(s: string, c: char): (r: string)
    ensures |r| <= |s| && r == s[..|r|]
    ensures c !in r
    ensures |r| < |s| ==> s[|r|] == c
  {
    if s == [] || s[0] == c then [] else [s[0]] + TakeUntil(s[1..], c)
  }

  /** `s.lastIndexOf(c)` for a one-character `c`: the last position holding `c`, or -1. */
  function LastIndexOf(s: string, c: char): (i: int)
    ensures -1 <= i < |s|
    ensures 0 <= i ==> s[i] == c
    ensures forall j :: i < j < |s| ==> s[j] != c
  {
    if s == [] then -1
    else if s[|s| - 1] == c then |s| - 1
    else LastIndexOf(s[..|s| - 1], c)
  }

  /** `pat` occurs in `s` starting at position `j`. */
  predicate OccursAt(s: string, pat: string, j: int)
  {
    0 <= j && j + |pat| <= |s| && s[j..j + |pat|] == pat
  }

  /** `pat` occurs somewhere in `s`. */
  predicate Contains(s: string, pat: string)
  {
    exists j :: 0 <= j <= |s| && OccursAt(s, pat, j)
  }

  /** `s.indexOf(pat)`: the first position at which `pat` occurs, or -1. */
  function IndexOf(s: string, pat: string): (i: int)
    ensures -1 <= i
    ensures 0 <= i ==> OccursAt(s, pat, i)
    ensures forall j :: 0 <= j && (i < 0 || j < i) ==> !OccursAt(s, pat, j)
    decreases |s|
  {
    if |s| < |pat| then -1
    else if s[..|pat|] == pat then 0
    else
      var k := IndexOf(s[1..], pat);
      assert !OccursAt(s, pat, 0);
      forall j | 1 <= j && (k < 0 || j < k + 1) ensures !OccursAt(s, pat, j) {
        OccursAtTail(s, pat, j - 1);
      }
      if k < 0 then -1 else OccursAtTail(s, pat, k); k + 1
  }

  /** Dropping the first character of `s` moves every occurrence one place left. */
  lemma OccursAtTail(s: string, pat: string, j: nat)
    requires s != []
    ensures OccursAt(s[1..], pat, j) <==> OccursAt(s, pat, j + 1)
  {
    if j + 1 + |pat| <= |s| {
      assert s[1..][j..j + |pat|] == s[j + 1..j + 1 + |pat|];
    }
  }

  /** `IndexOf` is the first occurrence. */
  lemma IndexOfIs(s: string, pat: string, i: nat)
    requires OccursAt(s, pat, i)
    requires forall j :: 0 <= j < i ==> !OccursAt(s, pat, j)
    ensures IndexOf(s, pat) == i
  {
  }

  /** Every first occurrence is the one `IndexOf` finds. */
  lemma IndexOfFirst(s: string, pat: string)
    ensures forall i :: OccursAt(s, pat, i) && (forall j :: 0 <= j < i ==> !OccursAt(s, pat, j))
                        ==> IndexOf(s, pat) == i
  {
    forall i | OccursAt(s, pat, i) && (forall j :: 0 <= j < i ==> !OccursAt(s, pat, j))
      ensures IndexOf(s, pat) == i
    {
      IndexOfIs(s, pat, i);
    }
  }

  /** `s.replace(pat, rep)` with a string pattern: only the FIRST occurrence is replaced,
      and a text in which `pat` never occurs is returned as it is. */
  function ReplaceFirst(s: string, pat: string, rep: string): (r: string)
    ensures (forall j :: !OccursAt(s, pat, j)) ==> r == s
    ensures forall i :: OccursAt(s, pat, i) && (forall j :: 0 <= j < i ==> !OccursAt(s, pat, j))
                        ==> r == s[..i] + rep + s[i + |pat|..]
  {
    IndexOfFirst(s, pat);
    var i := IndexOf(s, pat);
    if i < 0 then s else s[..i] + rep + s[i + |pat|..]
  }
}
