/** The searches of std::string. A position is an index into the string; npos is NPOS. */
module StringSearch {
  import opened Basics

  const NPOS: int := -1

  // ---------- substrings ----------

  /** from occurs in s at index i. */
  predicate OccursAt(s: string, from: string, i: nat) {
    i + |from| <= |s| && s[i..i + |from|] == from
  }

  /** find: the first occurrence at or after pos. */
  function Find(s: string, from: string, pos: nat): (i: int)
    ensures i == NPOS || (pos <= i && OccursAt(s, from, i))
    ensures forall k :: pos <= k && (i == NPOS || k < i) ==> !OccursAt(s, from, k)
    decreases |s| - pos
  {
    if pos + |from| > |s| then NPOS
    else if OccursAt(s, from, pos) then pos
    else Find(s, from, pos + 1)
  }

  lemma OccursConcat(s: string, a: nat, x: string, y: string)
    requires OccursAt(s, x + y, a)
    ensures OccursAt(s, x, a) && OccursAt(s, y, a + |x|)
  {
    assert s[a..a + |x|] == (x + y)[..|x|];
    assert s[a + |x|..a + |x| + |y|] == (x + y)[|x|..];
  }

  /** substr: from pos on, at most count characters. A difference that wrapped around is a count past any end. */
  function Substr(s: string, pos: int, count: int): Option<string> {
    if pos == NPOS || pos > |s| || pos < 0 then None
    else if count < 0 || pos + count > |s| then Some(s[pos..])
    else Some(s[pos..pos + count])
  }

  // ---------- sets of characters ----------

  /** The last index below hi whose character is in cs, or is not. */
  function LastWhere(s: string, cs: string, member: bool, hi: nat): (k: int)
    requires hi <= |s|
    ensures -1 <= k < hi
    ensures k >= 0 ==> (s[k] in cs) == member
    ensures forall j :: k < j < hi ==> (s[j] in cs) != member
  {
    if hi == 0 then NPOS
    else if (s[hi - 1] in cs) == member then hi - 1
    else LastWhere(s, cs, member, hi - 1)
  }

  /** The first index from lo on whose character is in cs, or is not. */
  function FirstWhere(s: string, cs: string, member: bool, lo: nat): (k: int)
    requires lo <= |s|
    ensures k == NPOS || lo <= k < |s|
    ensures k >= 0 ==> (s[k] in cs) == member
    ensures forall j :: lo <= j < (if k == NPOS then |s| else k) ==> (s[j] in cs) != member
    decreases |s| - lo
  {
    if lo == |s| then NPOS
    else if (s[lo] in cs) == member then lo
    else FirstWhere(s, cs, member, lo + 1)
  }

  /** A backward search from pos looks at the indices below this. */
  function Reach(s: string, pos: int): nat {
    if 0 <= pos < |s| then pos + 1 else |s|
  }

  function FindLastOf(s: string, cs: string, pos: int): (k: int)
    ensures -1 <= k < Reach(s, pos)
  {
    LastWhere(s, cs, true, Reach(s, pos))
  }

  function FindLastNotOf(s: string, cs: string, pos: int): (k: int)
    ensures -1 <= k < Reach(s, pos)
  {
    LastWhere(s, cs, false, Reach(s, pos))
  }

  function RFind(s: string, c: char, pos: int): (k: int)
    ensures -1 <= k < Reach(s, pos)
  {
    LastWhere(s, [c], true, Reach(s, pos))
  }

  function FindFirstOf(s: string, cs: string, pos: nat): int
    requires pos <= |s|
  {
    FirstWhere(s, cs, true, pos)
  }

  function FindFirstNotOf(s: string, cs: string, pos: nat): int
    requires pos <= |s|
  {
    FirstWhere(s, cs, false, pos)
  }

  lemma LastWhereIs(s: string, cs: string, member: bool, hi: nat, k: int)
    requires -1 <= k < hi <= |s|
    requires k >= 0 ==> (s[k] in cs) == member
    requires forall j :: k < j < hi ==> (s[j] in cs) != member
    ensures LastWhere(s, cs, member, hi) == k
  {
  }

  lemma FirstWhereIs(s: string, cs: string, member: bool, lo: nat, k: nat)
    requires lo <= k < |s| && (s[k] in cs) == member
    requires forall j :: lo <= j < k ==> (s[j] in cs) != member
    ensures FirstWhere(s, cs, member, lo) == k
  {
  }

  lemma FindIs(s: string, from: string, k: nat)
    requires OccursAt(s, from, k) && forall j :: 0 <= j < k ==> !OccursAt(s, from, j)
    ensures Find(s, from, 0) == k
  {
  }
}
