/**
 What SpookyHash keeps apart before it cuts its state down to 128 bits: messages that differ only in
 the bytes after their whole blocks (or groups) always reach different internal states, and a difference
 between two states is never lost by mixing in the same bytes.
*/
module SpookySeparation {
  import opened Basics
  import opened Words
  import opened SpookyMixers
  import opened SpookyHash

  // ---------- long messages ----------

  lemma PadInjective(a: seq<Byte>, b: seq<Byte>)
    requires |a| < 96 && |b| < 96 && Pad(a) == Pad(b)
    ensures a == b
  {
    assert Pad(a)[95] == |a| && Pad(b)[95] == |b|;
    assert a == Pad(a)[..|a|] && b == Pad(b)[..|b|];
  }

  /** Same whole blocks, different tails: the twelve final words differ. */
  lemma LongTailsSeparate(seed1: Word, seed2: Word, m: seq<Byte>, n: seq<Byte>)
    requires |m| >= 192 && |n| >= 192
    requires var w := WholeBlocks(|m|); w == WholeBlocks(|n|) && m[..w] == n[..w]
    requires LongState(seed1, seed2, m) == LongState(seed1, seed2, n)
    ensures m == n
  {
    hide Absorb, EndAll, BlockWords, Pad;
    var w := WholeBlocks(|m|);
    var s := Absorb(Start(seed1, seed2), m[..w]);
    EndInjectiveInBlock(s, BlockWords(Pad(m[w..])), BlockWords(Pad(n[w..])));
    BlockWordsInjective(Pad(m[w..]), Pad(n[w..]));
    PadInjective(m[w..], n[w..]);
    assert m == m[..w] + m[w..] && n == n[..w] + n[w..];
  }

  /** Mixing in the same blocks keeps different states different. */
  lemma {:induction false} AbsorbKeepsApart(s: State, t: State, m: seq<Byte>)
    requires Absorb(s, m) == Absorb(t, m)
    ensures s == t
    decreases |m|
  {
    hide MixAll, BlockWords;
    if |m| >= 96 {
      var d := BlockWords(m[..96]);
      AbsorbKeepsApart(MixAll(s, d), MixAll(t, d), m[96..]);
      MixInjective(s, t, d);
    }
  }

  lemma MixInjective(s: State, t: State, data: seq<Word>)
    requires |data| == 12 && MixAll(s, data) == MixAll(t, data)
    ensures s == t
  {
    MixIsPermutation(s, data, FIRST_ROW);
    MixIsPermutation(t, data, FIRST_ROW);
  }

  /** Two openings of whole blocks that leave different states still differ at the end of any common rest. */
  lemma LongOpeningsSeparate(seed1: Word, seed2: Word, seed1': Word, seed2': Word,
                             m: seq<Byte>, n: seq<Byte>, rest: seq<Byte>)
    requires |m| % 96 == 0 && |n| % 96 == 0 && |m| + |rest| >= 192 && |n| + |rest| >= 192
    requires LongState(seed1, seed2, m + rest) == LongState(seed1', seed2', n + rest)
    ensures Absorb(Start(seed1, seed2), m) == Absorb(Start(seed1', seed2'), n)
  {
    hide Absorb, EndAll, BlockWords, Pad, Start;
    var w := WholeBlocks(|rest|);
    FinishedAfter(Start(seed1, seed2), |m| / 96, m, rest);
    FinishedAfter(Start(seed1', seed2'), |n| / 96, n, rest);
    var s, t := Absorb(Start(seed1, seed2), m), Absorb(Start(seed1', seed2'), n);
    EndInjectiveInState(Absorb(s, rest[..w]), Absorb(t, rest[..w]), BlockWords(Pad(rest[w..])));
    AbsorbKeepsApart(s, t, rest[..w]);
  }

  lemma FinishedAfter(s: State, k: nat, m: seq<Byte>, rest: seq<Byte>)
    requires |m| == 96 * k
    ensures Finished(s, m + rest) == Finished(Absorb(s, m), rest)
  {
    hide Absorb, EndAll, BlockWords, Pad, WholeBlocks;
    var w := WholeBlocks(|rest|);
    WholeBlocksAdd(k, |rest|, |m + rest|);
    SplitAfter(m, rest, w);
    AbsorbConcat(s, k, m, rest[..w]);
  }

  lemma SplitAfter(m: seq<Byte>, rest: seq<Byte>, w: nat)
    requires w <= |rest|
    ensures (m + rest)[..|m| + w] == m + rest[..w]
    ensures (m + rest)[|m| + w..] == rest[w..]
  {
  }

  lemma WholeBlocksAdd(k: nat, b: nat, c: nat)
    requires c == 96 * k + b
    ensures WholeBlocks(c) == 96 * k + WholeBlocks(b)
  {
  }

  // ---------- short messages ----------

  /** Only the complete groups matter to ShortAbsorb. */
  lemma {:induction false} ShortAbsorbGroups(q: Quad, m: seq<Byte>, n: seq<Byte>)
    requires Groups(|m|) == Groups(|n|) && m[..Groups(|m|)] == n[..Groups(|n|)]
    ensures ShortAbsorb(q, m) == ShortAbsorb(q, n)
    decreases |m|
  {
    hide ShortMixAll, WordAt, Add;
    var g := Groups(|m|);
    if |m| >= 32 {
      StepPrefix(q, m, n);
      assert m[32..][..g - 32] == m[..g][32..];
      assert n[32..][..g - 32] == n[..g][32..];
      ShortAbsorbGroups(ShortStep(q, m), m[32..], n[32..]);
    } else if |m| >= 16 {
      WordPrefix(m, n, g, 0);
      WordPrefix(m, n, g, 8);
    }
  }

  lemma WordPrefix(m: seq<Byte>, n: seq<Byte>, g: nat, i: nat)
    requires i + 8 <= g <= |m| && g <= |n| && m[..g] == n[..g]
    ensures WordAt(m, i) == WordAt(n, i)
  {
    assert m[i..i + 8] == m[..g][i..i + 8];
    assert n[i..i + 8] == n[..g][i..i + 8];
  }

  lemma StepPrefix(q: Quad, m: seq<Byte>, n: seq<Byte>)
    requires |m| >= 32 && |n| >= 32 && m[..32] == n[..32]
    ensures ShortStep(q, m) == ShortStep(q, n)
  {
    hide ShortMixAll, WordAt, Add;
    WordPrefix(m, n, 32, 0);
    WordPrefix(m, n, 32, 8);
    WordPrefix(m, n, 32, 16);
    WordPrefix(m, n, 32, 24);
  }

  /** What the tail and the length add to d, as one number: the length on top, at most seven bytes below. */
  lemma TailWord(u: seq<Byte>)
    requires |u| < 16
    ensures WordAt(ZeroPadded(u), 8) < 0x100_0000_0000_0000
  {
    PaddedWord(u, 8);
  }

  /** Same complete groups, different tails: ShortEnd is given different (c, d). */
  lemma ShortTailsSeparate(seed1: Word, seed2: Word, m: seq<Byte>, n: seq<Byte>)
    requires |m| < 192 && |n| < 192
    requires Groups(|m|) == Groups(|n|) && m[..Groups(|m|)] == n[..Groups(|n|)]
    requires ShortBeforeEnd(seed1, seed2, m).c == ShortBeforeEnd(seed1, seed2, n).c
    requires ShortBeforeEnd(seed1, seed2, m).d == ShortBeforeEnd(seed1, seed2, n).d
    ensures m == n
  {
    hide ShortAbsorb, ShortTail;
    var g := Groups(|m|);
    var q := Quad(seed1, seed2, SC_CONST, SC_CONST);
    ShortAbsorbGroups(q, m, n);
    TailsSeparate(ShortAbsorb(q, m), m[g..], n[g..], |m|, |n|);
    assert m == m[..g] + m[g..] && n == n[..g] + n[g..];
  }

  lemma TailsSeparate(q: Quad, u: seq<Byte>, v: seq<Byte>, lu: nat, lv: nat)
    requires |u| < 16 && |v| < 16 && lu < 192 && lv < 192 && lu - |u| == lv - |v| >= 0
    requires ShortTail(q, u, lu).c == ShortTail(q, v, lv).c
    requires ShortTail(q, u, lu).d == ShortTail(q, v, lv).d
    ensures u == v
  {
    hide WordAt, ZeroPadded;
    if u == [] && v != [] {
      TailWord(v);
      EmptyOrNot(q.d, WordAt(ZeroPadded(v), 8), lu, lv);
    } else if u != [] && v == [] {
      TailWord(u);
      EmptyOrNot(q.d, WordAt(ZeroPadded(u), 8), lv, lu);
    } else if u != [] && v != [] {
      AddInjective(q.c, WordAt(ZeroPadded(u), 0), WordAt(ZeroPadded(v), 0));
      TailWord(u);
      TailWord(v);
      LengthAndBytes(q.d, WordAt(ZeroPadded(u), 8), WordAt(ZeroPadded(v), 8), lu, lv);
      PaddedInjective(u, v);
    }
  }

  lemma PaddedInjective(u: seq<Byte>, v: seq<Byte>)
    requires |u| == |v| < 16
    requires WordAt(ZeroPadded(u), 0) == WordAt(ZeroPadded(v), 0)
    requires WordAt(ZeroPadded(u), 8) == WordAt(ZeroPadded(v), 8)
    ensures u == v
  {
    hide WordAt;
    var p, r := ZeroPadded(u), ZeroPadded(v);
    WordAtInjective(p, r, 0);
    WordAtInjective(p, r, 8);
    assert p == p[0..8] + p[8..16] && r == r[0..8] + r[8..16];
    assert u == p[..|u|] && v == r[..|v|];
  }

  lemma LengthAndBytes(d: Word, x: Word, y: Word, lu: nat, lv: nat)
    requires lu < 192 && lv < 192 && x < 0x100_0000_0000_0000 && y < 0x100_0000_0000_0000
    requires Add(Add(d, lu % 256 * 0x100_0000_0000_0000), x) == Add(Add(d, lv % 256 * 0x100_0000_0000_0000), y)
    ensures lu == lv && x == y
  {
    hide Add;
    var a, b := lu * 0x100_0000_0000_0000, lv * 0x100_0000_0000_0000;
    AddSum(d, a, x);
    AddSum(d, b, y);
    AddInjective(d, a + x, b + y);
  }

  /** The constant that stands in for an empty tail cannot be mistaken for any tail. */
  lemma EmptyOrNot(d: Word, x: Word, l: nat, k: nat)
    requires l < k < 192 && k < l + 16 && x < 0x100_0000_0000_0000
    ensures Add(Add(d, l % 256 * 0x100_0000_0000_0000), SC_CONST) != Add(Add(d, k % 256 * 0x100_0000_0000_0000), x)
  {
    hide Add;
    var a, b := l * 0x100_0000_0000_0000, k * 0x100_0000_0000_0000;
    AddAssoc(d, a, SC_CONST);
    AddSum(d, b, x);
    TopByte(l, k, x);
    AddDiffer(d, Add(a, SC_CONST), b + x);
  }

  lemma TopByte(l: nat, k: nat, x: Word)
    requires l < k < 192 && k < l + 16 && x < 0x100_0000_0000_0000
    ensures Add(l * 0x100_0000_0000_0000, SC_CONST) != k * 0x100_0000_0000_0000 + x
  {
  }

  lemma AddDiffer(x: Word, y: Word, z: Word)
    requires y != z
    ensures Add(x, y) != Add(x, z)
  {
    if Add(x, y) == Add(x, z) {
      AddInjective(x, y, z);
    }
  }

  /** Hence the four words after ShortEnd differ as well. */
  lemma ShortTailsSeparateAtEnd(seed1: Word, seed2: Word, m: seq<Byte>, n: seq<Byte>)
    requires |m| < 192 && |n| < 192
    requires Groups(|m|) == Groups(|n|) && m[..Groups(|m|)] == n[..Groups(|n|)]
    requires ShortEndAll(ShortBeforeEnd(seed1, seed2, m)) == ShortEndAll(ShortBeforeEnd(seed1, seed2, n))
    ensures m == n
  {
    ShortEndInjective(ShortBeforeEnd(seed1, seed2, m), ShortBeforeEnd(seed1, seed2, n));
    ShortTailsSeparate(seed1, seed2, m, n);
  }

  lemma AddKeepsApart(x: Word, y: Word, z: Word)
    requires Add(x, z) == Add(y, z)
    ensures x == y
  {
    AddSub(x, z);
    AddSub(y, z);
  }

  lemma ShortMixInjective(q: Quad, r: Quad)
    requires ShortMixAll(q) == ShortMixAll(r)
    ensures q == r
  {
    ShortMixIsPermutation(q, FIRST_ROW);
    ShortMixIsPermutation(r, FIRST_ROW);
  }

  /** The same two words added to c and d, and mixed. */
  lemma GroupKeepsApart(q: Quad, r: Quad, x: Word, y: Word)
    requires ShortMixAll(q.(c := Add(q.c, x), d := Add(q.d, y))) == ShortMixAll(r.(c := Add(r.c, x), d := Add(r.d, y)))
    ensures q == r
  {
    hide Add, ShortMixAll;
    ShortMixInjective(q.(c := Add(q.c, x), d := Add(q.d, y)), r.(c := Add(r.c, x), d := Add(r.d, y)));
    AddKeepsApart(q.c, r.c, x);
    AddKeepsApart(q.d, r.d, y);
  }

  lemma StepKeepsApart(q: Quad, r: Quad, m: seq<Byte>)
    requires |m| >= 32 && ShortStep(q, m) == ShortStep(r, m)
    ensures q == r
  {
    hide Add, ShortMixAll, WordAt;
    var x, y := WordAt(m, 0), WordAt(m, 8);
    var q1 := ShortMixAll(q.(c := Add(q.c, x), d := Add(q.d, y)));
    var r1 := ShortMixAll(r.(c := Add(r.c, x), d := Add(r.d, y)));
    AddKeepsApart(q1.a, r1.a, WordAt(m, 16));
    AddKeepsApart(q1.b, r1.b, WordAt(m, 24));
    GroupKeepsApart(q, r, x, y);
  }

  /** Mixing in the same groups keeps different states different. */
  lemma {:induction false} ShortAbsorbKeepsApart(q: Quad, r: Quad, m: seq<Byte>)
    requires ShortAbsorb(q, m) == ShortAbsorb(r, m)
    ensures q == r
    decreases |m|
  {
    hide ShortStep, ShortMixAll, WordAt, Add;
    if |m| >= 32 {
      ShortAbsorbKeepsApart(ShortStep(q, m), ShortStep(r, m), m[32..]);
      StepKeepsApart(q, r, m);
    } else if |m| >= 16 {
      GroupKeepsApart(q, r, WordAt(m, 0), WordAt(m, 8));
    }
  }

  /** So does adding the same tail and length. */
  lemma ShortTailKeepsApart(q: Quad, r: Quad, tail: seq<Byte>, length: nat)
    requires |tail| < 16 && ShortTail(q, tail, length) == ShortTail(r, tail, length)
    ensures q == r
  {
    hide Add, WordAt, ZeroPadded;
    var l := length % 256 * 0x100_0000_0000_0000;
    var x := if tail == [] then SC_CONST else WordAt(ZeroPadded(tail), 0);
    var y := if tail == [] then SC_CONST else WordAt(ZeroPadded(tail), 8);
    AddKeepsApart(q.c, r.c, x);
    AddKeepsApart(Add(q.d, l), Add(r.d, l), y);
    AddKeepsApart(q.d, r.d, l);
  }

  lemma {:induction false} ShortAbsorbConcat(q: Quad, k: nat, m: seq<Byte>, n: seq<Byte>)
    requires |m| == 32 * k
    ensures ShortAbsorb(q, m + n) == ShortAbsorb(ShortAbsorb(q, m), n)
    decreases k
  {
    hide ShortStep, ShortMixAll, WordAt, Add;
    if k == 0 {
      assert m + n == n;
    } else {
      assert (m + n)[..32] == m[..32] && (m + n)[32..] == m[32..] + n;
      StepPrefix(q, m + n, m);
      ShortAbsorbConcat(ShortStep(q, m), k - 1, m[32..], n);
    }
  }

  /** Two openings of equal length that leave different states still differ at the end of any common rest. */
  lemma ShortOpeningsSeparate(seed1: Word, seed2: Word, seed1': Word, seed2': Word,
                              m: seq<Byte>, n: seq<Byte>, rest: seq<Byte>)
    requires |m| == |n| && |m| % 32 == 0
    requires ShortEndAll(ShortBeforeEnd(seed1, seed2, m + rest))
          == ShortEndAll(ShortBeforeEnd(seed1', seed2', n + rest))
    ensures ShortAbsorb(Quad(seed1, seed2, SC_CONST, SC_CONST), m)
         == ShortAbsorb(Quad(seed1', seed2', SC_CONST, SC_CONST), n)
  {
    hide *;
    var q, r := Quad(seed1, seed2, SC_CONST, SC_CONST), Quad(seed1', seed2', SC_CONST, SC_CONST);
    var s, t, tail := m + rest, n + rest, (m + rest)[Groups(|m + rest|)..];
    BehindGroups(m, n, rest);
    BeforeEnd(seed1, seed2, s);
    BeforeEnd(seed1', seed2', t);
    ShortEndInjective(ShortBeforeEnd(seed1, seed2, s), ShortBeforeEnd(seed1', seed2', t));
    ShortTailKeepsApart(ShortAbsorb(q, s), ShortAbsorb(r, t), tail, |s|);
    ShortAbsorbConcat(q, |m| / 32, m, rest);
    ShortAbsorbConcat(r, |m| / 32, n, rest);
    ShortAbsorbKeepsApart(ShortAbsorb(q, m), ShortAbsorb(r, n), rest);
  }

  lemma BeforeEnd(seed1: Word, seed2: Word, m: seq<Byte>)
    ensures ShortBeforeEnd(seed1, seed2, m)
         == ShortTail(ShortAbsorb(Quad(seed1, seed2, SC_CONST, SC_CONST), m), m[Groups(|m|)..], |m|)
  {
  }

  /** The bytes behind the complete groups are the rest's. */
  lemma BehindGroups(m: seq<Byte>, n: seq<Byte>, rest: seq<Byte>)
    requires |m| == |n| && |m| % 32 == 0
    ensures (var g := Groups(|m + rest|); g == Groups(|n + rest|) && (m + rest)[g..] == (n + rest)[g..])
  {
    assert Groups(|m + rest|) >= |m|;
  }

  // ---------- seeds ----------

  /** For no message do different seeds reach the same state. */
  lemma SeedsSeparate(seed1: Word, seed2: Word, seed1': Word, seed2': Word, m: seq<Byte>)
    requires if |m| < 192
             then ShortEndAll(ShortBeforeEnd(seed1, seed2, m)) == ShortEndAll(ShortBeforeEnd(seed1', seed2', m))
             else LongState(seed1, seed2, m) == LongState(seed1', seed2', m)
    ensures seed1 == seed1' && seed2 == seed2'
  {
    hide ShortBeforeEnd, ShortEndAll, LongState;
    assert [] + m == m;
    if |m| < 192 {
      ShortOpeningsSeparate(seed1, seed2, seed1', seed2', [], [], m);
    } else {
      LongOpeningsSeparate(seed1, seed2, seed1', seed2', [], [], m);
    }
  }

  // ---------- every word counts ----------

  /** The messages may differ in their j-th eight bytes, and nowhere else. */
  predicate AgreeBut(m: seq<Byte>, n: seq<Byte>, j: nat)
    requires |m| == |n|
  {
    forall k :: 0 <= k < |m| && !(8 * j <= k < 8 * j + 8) ==> m[k] == n[k]
  }

  lemma AgreeBehind(m: seq<Byte>, n: seq<Byte>, j: nat, k: nat)
    requires |m| == |n| && AgreeBut(m, n, j) && 8 * k <= |m|
    ensures j < k ==> m[8 * k..] == n[8 * k..]
    ensures j >= k ==> m[..8 * k] == n[..8 * k] && AgreeBut(m[8 * k..], n[8 * k..], j - k)
    ensures j >= k && m != n ==> m[8 * k..] != n[8 * k..]
  {
    assert m == m[..8 * k] + m[8 * k..] && n == n[..8 * k] + n[8 * k..];
  }

  lemma WordsAgree(m: seq<Byte>, n: seq<Byte>, j: nat, i: nat)
    requires |m| == |n| && AgreeBut(m, n, j) && 8 * i + 8 <= |m|
    ensures i != j ==> WordAt(m, 8 * i) == WordAt(n, 8 * i)
    ensures i == j && m != n ==> WordAt(m, 8 * i) != WordAt(n, 8 * i)
  {
    hide WordAt;
    if i != j {
      assert m[8 * i..8 * i + 8] == n[8 * i..8 * i + 8];
      SameWord(m, n, 8 * i);
    } else if WordAt(m, 8 * i) == WordAt(n, 8 * i) {
      WordAtInjective(m, n, 8 * i);
      forall k | 0 <= k < |m|
        ensures m[k] == n[k]
      {
        if 8 * i <= k < 8 * i + 8 {
          assert m[k] == m[8 * i..8 * i + 8][k - 8 * i] == n[8 * i..8 * i + 8][k - 8 * i];
        }
      }
    }
  }

  lemma SameWord(m: seq<Byte>, n: seq<Byte>, i: nat)
    requires i + 8 <= |m| && i + 8 <= |n| && m[i..i + 8] == n[i..i + 8]
    ensures WordAt(m, i) == WordAt(n, i)
  {
  }

  lemma BlockCounts(s: State, b: seq<Byte>, c: seq<Byte>, j: nat)
    requires |b| == |c| == 96 && AgreeBut(b, c, j) && b != c
    ensures MixAll(s, BlockWords(b)) != MixAll(s, BlockWords(c))
  {
    hide MixAll, WordAt, AgreeBut;
    if j >= 12 {
      Beyond(b, c, j);
    }
    var d, e := BlockWords(b), BlockWords(c);
    forall i | 0 <= i < 12
      ensures i != j ==> d[i] == e[i]
      ensures i == j ==> d[i] != e[i]
    {
      WordsAgree(b, c, j, i);
    }
    OneWordCounts(s, d, e, j);
  }

  lemma Beyond(m: seq<Byte>, n: seq<Byte>, j: nat)
    requires |m| == |n| && AgreeBut(m, n, j) && 8 * j >= |m|
    ensures m == n
  {
  }

  lemma FirstBlocks(m: seq<Byte>, n: seq<Byte>, j: nat, size: nat)
    requires |m| == |n| && AgreeBut(m, n, j) && 8 * j < 8 * size <= |m| && m != n
    ensures AgreeBut(m[..8 * size], n[..8 * size], j) && m[..8 * size] != n[..8 * size]
    ensures m[8 * size..] == n[8 * size..]
  {
    assert m == m[..8 * size] + m[8 * size..] && n == n[..8 * size] + n[8 * size..];
  }

  lemma AbsorbUnfolds(s: State, m: seq<Byte>)
    requires |m| >= 96
    ensures Absorb(s, m) == Absorb(MixAll(s, BlockWords(m[..96])), m[96..])
  {
    hide MixAll, BlockWords;
  }

  /** A difference in one word of the whole blocks reaches the state behind them. */
  lemma {:induction false} AbsorbCounts(s: State, m: seq<Byte>, n: seq<Byte>, j: nat)
    requires |m| == |n| && AgreeBut(m, n, j) && m != n && 8 * j < WholeBlocks(|m|)
    ensures Absorb(s, m) != Absorb(s, n)
    decreases |m|
  {
    hide MixAll, BlockWords, AgreeBut, Absorb;
    AbsorbUnfolds(s, m);
    AbsorbUnfolds(s, n);
    var d, e := BlockWords(m[..96]), BlockWords(n[..96]);
    if j < 12 {
      FirstBlocks(m, n, j, 12);
      BlockCounts(s, m[..96], n[..96], j);
      if Absorb(s, m) == Absorb(s, n) {
        AbsorbKeepsApart(MixAll(s, d), MixAll(s, e), m[96..]);
      }
    } else {
      AgreeBehind(m, n, j, 12);
      AbsorbCounts(MixAll(s, d), m[96..], n[96..], j - 12);
    }
  }

  lemma GroupCounts(q: Quad, x: Word, y: Word, x': Word, y': Word)
    requires ShortMixAll(q.(c := Add(q.c, x), d := Add(q.d, y)))
          == ShortMixAll(q.(c := Add(q.c, x'), d := Add(q.d, y')))
    ensures x == x' && y == y'
  {
    hide Add, ShortMixAll;
    ShortMixInjective(q.(c := Add(q.c, x), d := Add(q.d, y)), q.(c := Add(q.c, x'), d := Add(q.d, y')));
    AddInjective(q.c, x, x');
    AddInjective(q.d, y, y');
  }

  lemma StepCounts(q: Quad, m: seq<Byte>, n: seq<Byte>, j: nat)
    requires |m| == |n| >= 32 && AgreeBut(m, n, j) && m != n && j < 4
    ensures ShortStep(q, m) != ShortStep(q, n)
  {
    hide Add, ShortMixAll, WordAt, AgreeBut;
    WordsAgree(m, n, j, 0);
    WordsAgree(m, n, j, 1);
    WordsAgree(m, n, j, 2);
    WordsAgree(m, n, j, 3);
    var q1 := ShortMixAll(q.(c := Add(q.c, WordAt(m, 0)), d := Add(q.d, WordAt(m, 8))));
    if ShortStep(q, m) == ShortStep(q, n) {
      if j < 2 {
        var r1 := ShortMixAll(q.(c := Add(q.c, WordAt(n, 0)), d := Add(q.d, WordAt(n, 8))));
        AddKeepsApart(q1.a, r1.a, WordAt(m, 16));
        AddKeepsApart(q1.b, r1.b, WordAt(m, 24));
        GroupCounts(q, WordAt(m, 0), WordAt(m, 8), WordAt(n, 0), WordAt(n, 8));
      } else {
        AddInjective(q1.a, WordAt(m, 16), WordAt(n, 16));
        AddInjective(q1.b, WordAt(m, 24), WordAt(n, 24));
      }
    }
  }

  lemma {:induction false} ShortAbsorbCounts(q: Quad, m: seq<Byte>, n: seq<Byte>, j: nat)
    requires |m| == |n| && AgreeBut(m, n, j) && m != n && 8 * j < Groups(|m|)
    ensures ShortAbsorb(q, m) != ShortAbsorb(q, n)
    decreases |m|
  {
    hide ShortStep, ShortMixAll, ShortAbsorb, WordAt, Add, AgreeBut;
    AbsorbParts(q, m);
    AbsorbParts(q, n);
    if |m| >= 32 {
      if j < 4 {
        FirstBlocks(m, n, j, 4);
        StepCounts(q, m, n, j);
        if ShortAbsorb(q, m) == ShortAbsorb(q, n) {
          ShortAbsorbKeepsApart(ShortStep(q, m), ShortStep(q, n), m[32..]);
        }
      } else {
        AgreeBehind(m, n, j, 4);
        StepPrefix(q, m, n);
        ShortAbsorbCounts(ShortStep(q, m), m[32..], n[32..], j - 4);
      }
    } else {
      WordsAgree(m, n, j, 0);
      WordsAgree(m, n, j, 1);
      if ShortAbsorb(q, m) == ShortAbsorb(q, n) {
        GroupCounts(q, WordAt(m, 0), WordAt(m, 8), WordAt(n, 0), WordAt(n, 8));
      }
    }
  }

  /** Where the state ends up behind the last step, for messages of any length. */
  predicate SameEnd(seed1: Word, seed2: Word, m: seq<Byte>, n: seq<Byte>)
    requires |m| == |n|
  {
    if |m| < 192 then ShortEndAll(ShortBeforeEnd(seed1, seed2, m)) == ShortEndAll(ShortBeforeEnd(seed1, seed2, n))
    else LongState(seed1, seed2, m) == LongState(seed1, seed2, n)
  }

  lemma LongStateIs(seed1: Word, seed2: Word, m: seq<Byte>)
    ensures (var w := WholeBlocks(|m|);
             LongState(seed1, seed2, m) == EndAll(Absorb(Start(seed1, seed2), m[..w]), BlockWords(Pad(m[w..]))))
  {
    hide Absorb, EndAll, BlockWords, Pad, Start;
  }

  lemma WholeWords(n: nat) returns (k: nat)
    ensures WholeBlocks(n) == 8 * k
  {
    k := n / 96 * 12;
  }

  lemma LongWordCounts(seed1: Word, seed2: Word, m: seq<Byte>, n: seq<Byte>, j: nat)
    requires |m| == |n| >= 192 && AgreeBut(m, n, j) && m != n
    ensures LongState(seed1, seed2, m) != LongState(seed1, seed2, n)
  {
    hide *;
    var k := WholeWords(|m|);
    if LongState(seed1, seed2, m) == LongState(seed1, seed2, n) {
      if j >= k {
        AgreeBehind(m, n, j, k);
        LongTailsSeparate(seed1, seed2, m, n);
      } else {
        BlocksSeparate(seed1, seed2, m, n, j, k);
      }
    }
  }

  lemma BlocksSeparate(seed1: Word, seed2: Word, m: seq<Byte>, n: seq<Byte>, j: nat, k: nat)
    requires |m| == |n| >= 192 && AgreeBut(m, n, j) && m != n && WholeBlocks(|m|) == 8 * k && j < k
    ensures LongState(seed1, seed2, m) != LongState(seed1, seed2, n)
  {
    hide *;
    var w, s := 8 * k, Start(seed1, seed2);
    FirstBlocks(m, n, j, k);
    LongStateIs(seed1, seed2, m);
    LongStateIs(seed1, seed2, n);
    WholeTwice(|m|);
    AbsorbCounts(s, m[..w], n[..w], j);
    if LongState(seed1, seed2, m) == LongState(seed1, seed2, n) {
      EndInjectiveInState(Absorb(s, m[..w]), Absorb(s, n[..w]), BlockWords(Pad(m[w..])));
    }
  }

  lemma WholeTwice(n: nat)
    ensures WholeBlocks(WholeBlocks(n)) == WholeBlocks(n)
  {
  }

  lemma ShortWordCounts(seed1: Word, seed2: Word, m: seq<Byte>, n: seq<Byte>, j: nat)
    requires |m| == |n| < 192 && AgreeBut(m, n, j) && m != n
    ensures ShortEndAll(ShortBeforeEnd(seed1, seed2, m)) != ShortEndAll(ShortBeforeEnd(seed1, seed2, n))
  {
    hide ShortAbsorb, ShortTail, ShortEndAll, ShortBeforeEnd, AgreeBut;
    var g := Groups(|m|);
    var q := Quad(seed1, seed2, SC_CONST, SC_CONST);
    if ShortEndAll(ShortBeforeEnd(seed1, seed2, m)) == ShortEndAll(ShortBeforeEnd(seed1, seed2, n)) {
      if 8 * j >= g {
        AgreeBehind(m, n, j, g / 8);
        ShortTailsSeparateAtEnd(seed1, seed2, m, n);
      } else {
        FirstBlocks(m, n, j, g / 8);
        BeforeEnd(seed1, seed2, m);
        BeforeEnd(seed1, seed2, n);
        ShortEndInjective(ShortBeforeEnd(seed1, seed2, m), ShortBeforeEnd(seed1, seed2, n));
        ShortTailKeepsApart(ShortAbsorb(q, m), ShortAbsorb(q, n), m[g..], |m|);
        ShortAbsorbCounts(q, m, n, j);
      }
    }
  }

  /** Two messages of one length that differ in just one word of eight bytes never reach the same last state. */
  lemma EveryWordCounts(seed1: Word, seed2: Word, m: seq<Byte>, n: seq<Byte>, j: nat)
    requires |m| == |n| && m != n && forall k :: 0 <= k < |m| && k / 8 != j ==> m[k] == n[k]
    ensures !SameEnd(seed1, seed2, m, n)
  {
    hide ShortEndAll, ShortBeforeEnd, LongState;
    assert forall k :: 0 <= k < |m| && !(8 * j <= k < 8 * j + 8) ==> k / 8 != j;
    if |m| < 192 {
      ShortWordCounts(seed1, seed2, m, n, j);
    } else {
      LongWordCounts(seed1, seed2, m, n, j);
    }
  }

  /** In particular, no single byte can be changed without changing that state. */
  lemma EveryByteCounts(seed1: Word, seed2: Word, m: seq<Byte>, i: nat, b: Byte)
    requires i < |m| && m[i] != b
    ensures !SameEnd(seed1, seed2, m, m[i := b])
  {
    hide SameEnd;
    var n := m[i := b];
    assert n[i] != m[i];
    EveryWordCounts(seed1, seed2, m, n, i / 8);
  }
}
