/**
 The mixers of SpookyHash (pxr/base/arch/hash.cpp). Each is a cascade of rows, and every row applies
 the same few operations one word further on. So a row is described once, on a state that is turned
 by one word after each row; a whole round of rows brings every word back to its place. Rows have
 inverses, hence so have the mixers.
*/
module SpookyMixers {
  import opened Words

  /** The twelve words of the long-message state. */
  datatype State = State(s0: Word, s1: Word, s2: Word, s3: Word, s4: Word, s5: Word,
                         s6: Word, s7: Word, s8: Word, s9: Word, s10: Word, s11: Word)

  /** Where every mixer starts. */
  const FIRST_ROW: nat := 0

  // ---------- Mix ----------

  function MixRotation(i: nat): (k: nat)
    requires i < 12
    ensures 0 < k < 64
  {
    [11, 32, 43, 31, 17, 28, 39, 57, 55, 54, 22, 46][i]
  }

  /** One row of Mix on word 0, after which the state is turned by one word. */
  function MixRow(s: State, d: Word, k: nat): State
    requires 0 < k < 64
  {
    var s0 := Add(s.s0, d);
    State(s.s1, Xor(s.s2, s.s10), s.s3, s.s4, s.s5, s.s6, s.s7, s.s8, s.s9, s.s10,
          Add(Xor(s.s11, s0), s.s1), Rot64(s0, k))
  }

  function UnmixRow(t: State, d: Word, k: nat): State
    requires 0 < k < 64
  {
    var s0 := Rot64(t.s11, 64 - k);
    State(Sub(s0, d), t.s0, Xor(t.s1, t.s9), t.s2, t.s3, t.s4, t.s5, t.s6, t.s7, t.s8, t.s9,
          Xor(Sub(t.s10, t.s0), s0))
  }

  lemma MixRowUndo(s: State, d: Word, k: nat)
    requires 0 < k < 64
    ensures UnmixRow(MixRow(s, d, k), d, k) == s
    ensures MixRow(UnmixRow(s, d, k), d, k) == s
  {
    var x := Add(s.s0, d);
    RotUndo(x, k);
    AddSub(s.s0, d);
    XorXor(s.s2, s.s10);
    AddSub(Xor(s.s11, x), s.s1);
    XorXor(s.s11, x);
    var y := Rot64(s.s11, 64 - k);
    RotUndo(s.s11, 64 - k);
    AddSub(y, d);
    XorXor(s.s1, s.s9);
    AddSub(s.s10, s.s0);
    XorXor(Sub(s.s10, s.s0), y);
  }

  /** Rows i, i+1, ..., 11 of Mix. */
  function MixFrom(s: State, data: seq<Word>, i: nat): State
    requires |data| == 12 && i <= 12
    decreases 12 - i
  {
    if i == 12 then s else MixFrom(MixRow(s, data[i], MixRotation(i)), data, i + 1)
  }

  function UnmixFrom(t: State, data: seq<Word>, i: nat): State
    requires |data| == 12 && i <= 12
    decreases 12 - i
  {
    if i == 12 then t else UnmixRow(UnmixFrom(t, data, i + 1), data[i], MixRotation(i))
  }

  /** For fixed data, Mix is a permutation of the state. */
  lemma {:induction false} MixIsPermutation(s: State, data: seq<Word>, i: nat)
    requires |data| == 12 && i <= 12
    ensures UnmixFrom(MixFrom(s, data, i), data, i) == s
    ensures MixFrom(UnmixFrom(s, data, i), data, i) == s
    decreases 12 - i
  {
    if i < 12 {
      MixRowUndo(s, data[i], MixRotation(i));
      MixIsPermutation(MixRow(s, data[i], MixRotation(i)), data, i + 1);
      MixIsPermutation(s, data, i + 1);
      MixRowUndo(UnmixFrom(s, data, i + 1), data[i], MixRotation(i));
    }
  }

  function MixAll(s: State, data: seq<Word>): State
    requires |data| == 12
  {
    MixFrom(s, data, FIRST_ROW)
  }

  /** From different states, the same data leave different states. */
  lemma MixFromInjective(s: State, t: State, data: seq<Word>, i: nat)
    requires |data| == 12 && i <= 12 && MixFrom(s, data, i) == MixFrom(t, data, i)
    ensures s == t
  {
    hide MixFrom, UnmixFrom;
    MixIsPermutation(s, data, i);
    MixIsPermutation(t, data, i);
  }

  lemma RowTakesWord(s: State, d: Word, e: Word, k: nat)
    requires 0 < k < 64 && MixRow(s, d, k) == MixRow(s, e, k)
    ensures d == e
  {
    RotUndo(Add(s.s0, d), k);
    RotUndo(Add(s.s0, e), k);
    AddInjective(s.s0, d, e);
  }

  /** Rows of the same words, then a row of different ones, then again rows of the same words. */
  lemma {:induction false} OneWordMixed(s: State, d: seq<Word>, e: seq<Word>, i: nat, k: nat)
    requires |d| == |e| == 12 && i <= k < 12 && (forall j :: 0 <= j < 12 && j != k ==> d[j] == e[j])
    requires MixFrom(s, d, i) == MixFrom(s, e, i)
    ensures d[k] == e[k]
    decreases k - i
  {
    hide MixRow, MixRotation;
    var t, u := MixRow(s, d[i], MixRotation(i)), MixRow(s, e[i], MixRotation(i));
    if i < k {
      OneWordMixed(t, d, e, i + 1, k);
    } else {
      SameRest(u, d, e, i + 1);
      MixFromInjective(t, u, d, i + 1);
      RowTakesWord(s, d[i], e[i], MixRotation(i));
    }
  }

  lemma {:induction false} SameRest(s: State, d: seq<Word>, e: seq<Word>, i: nat)
    requires |d| == |e| == 12 && i <= 12 && (forall j :: i <= j < 12 ==> d[j] == e[j])
    ensures MixFrom(s, d, i) == MixFrom(s, e, i)
    decreases 12 - i
  {
    hide MixRow, MixRotation;
    if i < 12 {
      SameRest(MixRow(s, d[i], MixRotation(i)), d, e, i + 1);
    }
  }

  /** Blocks that differ in exactly one word leave different states. */
  lemma OneWordCounts(s: State, d: seq<Word>, e: seq<Word>, k: nat)
    requires |d| == |e| == 12 && k < 12 && d[k] != e[k] && (forall j :: 0 <= j < 12 && j != k ==> d[j] == e[j])
    ensures MixAll(s, d) != MixAll(s, e)
  {
    hide MixFrom;
    if MixAll(s, d) == MixAll(s, e) {
      OneWordMixed(s, d, e, FIRST_ROW, k);
    }
  }

  /** The straight-line code of Mix, on twelve words updated by reference. */
  method Mix(data: seq<Word>, t: State) returns (s: State)
    requires |data| == 12
    ensures s == MixAll(t, data)
  {
    hide Add, Xor, Rot64;
    var s0, s1, s2, s3, s4, s5 := t.s0, t.s1, t.s2, t.s3, t.s4, t.s5;
    var s6, s7, s8, s9, s10, s11 := t.s6, t.s7, t.s8, t.s9, t.s10, t.s11;
    s0 := Add(s0, data[0]);   s2 := Xor(s2, s10); s11 := Xor(s11, s0); s0 := Rot64(s0, 11);   s11 := Add(s11, s1);
    s1 := Add(s1, data[1]);   s3 := Xor(s3, s11); s0 := Xor(s0, s1);   s1 := Rot64(s1, 32);   s0 := Add(s0, s2);
    s2 := Add(s2, data[2]);   s4 := Xor(s4, s0);  s1 := Xor(s1, s2);   s2 := Rot64(s2, 43);   s1 := Add(s1, s3);
    s3 := Add(s3, data[3]);   s5 := Xor(s5, s1);  s2 := Xor(s2, s3);   s3 := Rot64(s3, 31);   s2 := Add(s2, s4);
    s4 := Add(s4, data[4]);   s6 := Xor(s6, s2);  s3 := Xor(s3, s4);   s4 := Rot64(s4, 17);   s3 := Add(s3, s5);
    s5 := Add(s5, data[5]);   s7 := Xor(s7, s3);  s4 := Xor(s4, s5);   s5 := Rot64(s5, 28);   s4 := Add(s4, s6);
    s6 := Add(s6, data[6]);   s8 := Xor(s8, s4);  s5 := Xor(s5, s6);   s6 := Rot64(s6, 39);   s5 := Add(s5, s7);
    s7 := Add(s7, data[7]);   s9 := Xor(s9, s5);  s6 := Xor(s6, s7);   s7 := Rot64(s7, 57);   s6 := Add(s6, s8);
    s8 := Add(s8, data[8]);   s10 := Xor(s10, s6); s7 := Xor(s7, s8);  s8 := Rot64(s8, 55);   s7 := Add(s7, s9);
    s9 := Add(s9, data[9]);   s11 := Xor(s11, s7); s8 := Xor(s8, s9);  s9 := Rot64(s9, 54);   s8 := Add(s8, s10);
    s10 := Add(s10, data[10]); s0 := Xor(s0, s8); s9 := Xor(s9, s10);  s10 := Rot64(s10, 22); s9 := Add(s9, s11);
    s11 := Add(s11, data[11]); s1 := Xor(s1, s9); s10 := Xor(s10, s11); s11 := Rot64(s11, 46); s10 := Add(s10, s0);
    s := State(s0, s1, s2, s3, s4, s5, s6, s7, s8, s9, s10, s11);
    assert s == MixFrom(t, data, 0);
  }

  // ---------- EndPartial and End ----------

  function EndRotation(i: nat): (k: nat)
    requires i < 12
    ensures 0 < k < 64
  {
    [44, 15, 34, 21, 38, 33, 10, 13, 38, 53, 42, 54][i]
  }

  function EndRow(s: State, k: nat): State
    requires 0 < k < 64
  {
    var s11 := Add(s.s11, s.s1);
    State(Rot64(s.s1, k), Xor(s.s2, s11), s.s3, s.s4, s.s5, s.s6, s.s7, s.s8, s.s9, s.s10, s11, s.s0)
  }

  function UnendRow(t: State, k: nat): State
    requires 0 < k < 64
  {
    var s1 := Rot64(t.s0, 64 - k);
    State(t.s11, s1, Xor(t.s1, t.s10), t.s2, t.s3, t.s4, t.s5, t.s6, t.s7, t.s8, t.s9, Sub(t.s10, s1))
  }

  lemma EndRowUndo(s: State, k: nat)
    requires 0 < k < 64
    ensures UnendRow(EndRow(s, k), k) == s
    ensures EndRow(UnendRow(s, k), k) == s
  {
    RotUndo(s.s1, k);
    AddSub(s.s11, s.s1);
    XorXor(s.s2, Add(s.s11, s.s1));
    RotUndo(s.s0, 64 - k);
    AddSub(s.s10, Rot64(s.s0, 64 - k));
    XorXor(s.s1, s.s10);
  }

  /** Rows i, i+1, ..., 11 of EndPartial. */
  function EndFrom(s: State, i: nat): State
    requires i <= 12
    decreases 12 - i
  {
    if i == 12 then s else EndFrom(EndRow(s, EndRotation(i)), i + 1)
  }

  function UnendFrom(t: State, i: nat): State
    requires i <= 12
    decreases 12 - i
  {
    if i == 12 then t else UnendRow(UnendFrom(t, i + 1), EndRotation(i))
  }

  lemma {:induction false} EndPartialIsPermutation(s: State, i: nat)
    requires i <= 12
    ensures UnendFrom(EndFrom(s, i), i) == s
    ensures EndFrom(UnendFrom(s, i), i) == s
    decreases 12 - i
  {
    if i < 12 {
      EndRowUndo(s, EndRotation(i));
      EndPartialIsPermutation(EndRow(s, EndRotation(i)), i + 1);
      EndPartialIsPermutation(s, i + 1);
      EndRowUndo(UnendFrom(s, i + 1), EndRotation(i));
    }
  }

  function EndRound(s: State): State {
    EndFrom(s, FIRST_ROW)
  }

  method EndPartial(t: State) returns (h: State)
    ensures h == EndRound(t)
  {
    hide Add, Xor, Rot64;
    var h0, h1, h2, h3, h4, h5 := t.s0, t.s1, t.s2, t.s3, t.s4, t.s5;
    var h6, h7, h8, h9, h10, h11 := t.s6, t.s7, t.s8, t.s9, t.s10, t.s11;
    h11 := Add(h11, h1); h2 := Xor(h2, h11);  h1 := Rot64(h1, 44);
    h0 := Add(h0, h2);   h3 := Xor(h3, h0);   h2 := Rot64(h2, 15);
    h1 := Add(h1, h3);   h4 := Xor(h4, h1);   h3 := Rot64(h3, 34);
    h2 := Add(h2, h4);   h5 := Xor(h5, h2);   h4 := Rot64(h4, 21);
    h3 := Add(h3, h5);   h6 := Xor(h6, h3);   h5 := Rot64(h5, 38);
    h4 := Add(h4, h6);   h7 := Xor(h7, h4);   h6 := Rot64(h6, 33);
    h5 := Add(h5, h7);   h8 := Xor(h8, h5);   h7 := Rot64(h7, 10);
    h6 := Add(h6, h8);   h9 := Xor(h9, h6);   h8 := Rot64(h8, 13);
    h7 := Add(h7, h9);   h10 := Xor(h10, h7); h9 := Rot64(h9, 38);
    h8 := Add(h8, h10);  h11 := Xor(h11, h8); h10 := Rot64(h10, 53);
    h9 := Add(h9, h11);  h0 := Xor(h0, h9);   h11 := Rot64(h11, 42);
    h10 := Add(h10, h0); h1 := Xor(h1, h10);  h0 := Rot64(h0, 54);
    h := State(h0, h1, h2, h3, h4, h5, h6, h7, h8, h9, h10, h11);
    assert h == EndFrom(t, 0);
  }

  /** The block added to the state, word by word. */
  function AddBlock(s: State, d: seq<Word>): State
    requires |d| == 12
  {
    State(Add(s.s0, d[0]), Add(s.s1, d[1]), Add(s.s2, d[2]), Add(s.s3, d[3]),
          Add(s.s4, d[4]), Add(s.s5, d[5]), Add(s.s6, d[6]), Add(s.s7, d[7]),
          Add(s.s8, d[8]), Add(s.s9, d[9]), Add(s.s10, d[10]), Add(s.s11, d[11]))
  }

  /** End: the last block is added, then three rounds of EndPartial. */
  function EndAll(s: State, d: seq<Word>): State
    requires |d| == 12
  {
    EndRound(EndRound(EndRound(AddBlock(s, d))))
  }

  method End(data: seq<Word>, t: State) returns (h: State)
    requires |data| == 12
    ensures h == EndAll(t, data)
  {
    h := State(Add(t.s0, data[0]), Add(t.s1, data[1]), Add(t.s2, data[2]), Add(t.s3, data[3]),
               Add(t.s4, data[4]), Add(t.s5, data[5]), Add(t.s6, data[6]), Add(t.s7, data[7]),
               Add(t.s8, data[8]), Add(t.s9, data[9]), Add(t.s10, data[10]), Add(t.s11, data[11]));
    h := EndPartial(h);
    h := EndPartial(h);
    h := EndPartial(h);
  }

  lemma EndPartialInjective(s: State, t: State)
    requires EndRound(s) == EndRound(t)
    ensures s == t
  {
    EndPartialIsPermutation(s, FIRST_ROW);
    EndPartialIsPermutation(t, FIRST_ROW);
  }

  /** Subtracting the state again gives the block. */
  function SubState(t: State, s: State): (d: seq<Word>)
    ensures |d| == 12
  {
    [Sub(t.s0, s.s0), Sub(t.s1, s.s1), Sub(t.s2, s.s2), Sub(t.s3, s.s3),
     Sub(t.s4, s.s4), Sub(t.s5, s.s5), Sub(t.s6, s.s6), Sub(t.s7, s.s7),
     Sub(t.s8, s.s8), Sub(t.s9, s.s9), Sub(t.s10, s.s10), Sub(t.s11, s.s11)]
  }

  lemma AddBlockUndo(s: State, d: seq<Word>)
    requires |d| == 12
    ensures SubState(AddBlock(s, d), s) == d
  {
    AddSub'(s.s0, d[0]);
    AddSub'(s.s1, d[1]);
    AddSub'(s.s2, d[2]);
    AddSub'(s.s3, d[3]);
    AddSub'(s.s4, d[4]);
    AddSub'(s.s5, d[5]);
    AddSub'(s.s6, d[6]);
    AddSub'(s.s7, d[7]);
    AddSub'(s.s8, d[8]);
    AddSub'(s.s9, d[9]);
    AddSub'(s.s10, d[10]);
    AddSub'(s.s11, d[11]);
  }

  lemma AddSub'(x: Word, y: Word)
    ensures Sub(Add(x, y), x) == y
  {
    AddAssoc(x, y, 0);
    AddSub(y, x);
  }

  /** Different last blocks leave different twelve-word states. */
  lemma EndInjectiveInBlock(s: State, d: seq<Word>, e: seq<Word>)
    requires |d| == |e| == 12 && EndAll(s, d) == EndAll(s, e)
    ensures d == e
  {
    EndPartialInjective(EndRound(EndRound(AddBlock(s, d))), EndRound(EndRound(AddBlock(s, e))));
    EndPartialInjective(EndRound(AddBlock(s, d)), EndRound(AddBlock(s, e)));
    EndPartialInjective(AddBlock(s, d), AddBlock(s, e));
    AddBlockUndo(s, d);
    AddBlockUndo(s, e);
  }

  /** For a fixed last block, End is injective in the state it is given. */
  lemma EndInjectiveInState(s: State, t: State, d: seq<Word>)
    requires |d| == 12 && EndAll(s, d) == EndAll(t, d)
    ensures s == t
  {
    EndPartialInjective(EndRound(EndRound(AddBlock(s, d))), EndRound(EndRound(AddBlock(t, d))));
    EndPartialInjective(EndRound(AddBlock(s, d)), EndRound(AddBlock(t, d)));
    EndPartialInjective(AddBlock(s, d), AddBlock(t, d));
    AddSub(s.s0, d[0]); AddSub(t.s0, d[0]);
    AddSub(s.s1, d[1]); AddSub(t.s1, d[1]);
    AddSub(s.s2, d[2]); AddSub(t.s2, d[2]);
    AddSub(s.s3, d[3]); AddSub(t.s3, d[3]);
    AddSub(s.s4, d[4]); AddSub(t.s4, d[4]);
    AddSub(s.s5, d[5]); AddSub(t.s5, d[5]);
    AddSub(s.s6, d[6]); AddSub(t.s6, d[6]);
    AddSub(s.s7, d[7]); AddSub(t.s7, d[7]);
    AddSub(s.s8, d[8]); AddSub(t.s8, d[8]);
    AddSub(s.s9, d[9]); AddSub(t.s9, d[9]);
    AddSub(s.s10, d[10]); AddSub(t.s10, d[10]);
    AddSub(s.s11, d[11]); AddSub(t.s11, d[11]);
  }

  // ---------- ShortMix and ShortEnd ----------

  /** The four words of the short-message state. */
  datatype Quad = Quad(a: Word, b: Word, c: Word, d: Word)

  function ShortMixRotation(i: nat): (k: nat)
    requires i < 12
    ensures 0 < k < 64
  {
    [50, 52, 30, 41, 54, 48, 38, 37, 62, 34, 5, 36][i]
  }

  function ShortMixRow(q: Quad, k: nat): Quad
    requires 0 < k < 64
  {
    var c := Add(Rot64(q.c, k), q.d);
    Quad(q.b, c, q.d, Xor(q.a, c))
  }

  function UnshortMixRow(t: Quad, k: nat): Quad
    requires 0 < k < 64
  {
    Quad(Xor(t.d, t.b), t.a, Rot64(Sub(t.b, t.c), 64 - k), t.c)
  }

  lemma ShortMixRowUndo(q: Quad, k: nat)
    requires 0 < k < 64
    ensures UnshortMixRow(ShortMixRow(q, k), k) == q
    ensures ShortMixRow(UnshortMixRow(q, k), k) == q
  {
    RotUndo(q.c, k);
    AddSub(Rot64(q.c, k), q.d);
    XorXor(q.a, Add(Rot64(q.c, k), q.d));
    RotUndo(Sub(q.b, q.c), 64 - k);
    AddSub(q.b, q.c);
    XorXor(q.d, q.b);
  }

  /** Rows i, i+1, ..., 11 of ShortMix. */
  function ShortMixFrom(q: Quad, i: nat): Quad
    requires i <= 12
    decreases 12 - i
  {
    if i == 12 then q else ShortMixFrom(ShortMixRow(q, ShortMixRotation(i)), i + 1)
  }

  function UnshortMixFrom(t: Quad, i: nat): Quad
    requires i <= 12
    decreases 12 - i
  {
    if i == 12 then t else UnshortMixRow(UnshortMixFrom(t, i + 1), ShortMixRotation(i))
  }

  lemma {:induction false} ShortMixIsPermutation(q: Quad, i: nat)
    requires i <= 12
    ensures UnshortMixFrom(ShortMixFrom(q, i), i) == q
    ensures ShortMixFrom(UnshortMixFrom(q, i), i) == q
    decreases 12 - i
  {
    if i < 12 {
      ShortMixRowUndo(q, ShortMixRotation(i));
      ShortMixIsPermutation(ShortMixRow(q, ShortMixRotation(i)), i + 1);
      ShortMixIsPermutation(q, i + 1);
      ShortMixRowUndo(UnshortMixFrom(q, i + 1), ShortMixRotation(i));
    }
  }

  function ShortMixAll(q: Quad): Quad {
    ShortMixFrom(q, FIRST_ROW)
  }

  method ShortMix(t: Quad) returns (h: Quad)
    ensures h == ShortMixAll(t)
  {
    hide Add, Xor, Rot64;
    var h0, h1, h2, h3 := t.a, t.b, t.c, t.d;
    ghost var g := t;
    h2 := Rot64(h2, 50); h2 := Add(h2, h3); h0 := Xor(h0, h2);
    g := ShortMixRow(g, 50); assert g == Quad(h1, h2, h3, h0);
    h3 := Rot64(h3, 52); h3 := Add(h3, h0); h1 := Xor(h1, h3);
    g := ShortMixRow(g, 52); assert g == Quad(h2, h3, h0, h1);
    h0 := Rot64(h0, 30); h0 := Add(h0, h1); h2 := Xor(h2, h0);
    g := ShortMixRow(g, 30); assert g == Quad(h3, h0, h1, h2);
    h1 := Rot64(h1, 41); h1 := Add(h1, h2); h3 := Xor(h3, h1);
    g := ShortMixRow(g, 41); assert g == Quad(h0, h1, h2, h3);
    h2 := Rot64(h2, 54); h2 := Add(h2, h3); h0 := Xor(h0, h2);
    g := ShortMixRow(g, 54); assert g == Quad(h1, h2, h3, h0);
    h3 := Rot64(h3, 48); h3 := Add(h3, h0); h1 := Xor(h1, h3);
    g := ShortMixRow(g, 48); assert g == Quad(h2, h3, h0, h1);
    h0 := Rot64(h0, 38); h0 := Add(h0, h1); h2 := Xor(h2, h0);
    g := ShortMixRow(g, 38); assert g == Quad(h3, h0, h1, h2);
    h1 := Rot64(h1, 37); h1 := Add(h1, h2); h3 := Xor(h3, h1);
    g := ShortMixRow(g, 37); assert g == Quad(h0, h1, h2, h3);
    h2 := Rot64(h2, 62); h2 := Add(h2, h3); h0 := Xor(h0, h2);
    g := ShortMixRow(g, 62); assert g == Quad(h1, h2, h3, h0);
    h3 := Rot64(h3, 34); h3 := Add(h3, h0); h1 := Xor(h1, h3);
    g := ShortMixRow(g, 34); assert g == Quad(h2, h3, h0, h1);
    h0 := Rot64(h0, 5);  h0 := Add(h0, h1); h2 := Xor(h2, h0);
    g := ShortMixRow(g, 5); assert g == Quad(h3, h0, h1, h2);
    h1 := Rot64(h1, 36); h1 := Add(h1, h2); h3 := Xor(h3, h1);
    g := ShortMixRow(g, 36); assert g == Quad(h0, h1, h2, h3);
    h := Quad(h0, h1, h2, h3);
    assert h == ShortMixFrom(t, 0);
  }

  function ShortEndRotation(i: nat): (k: nat)
    requires i < 11
    ensures 0 < k < 64
  {
    [15, 52, 26, 51, 28, 9, 47, 54, 32, 25, 63][i]
  }

  function ShortEndRow(q: Quad, k: nat): Quad
    requires 0 < k < 64
  {
    var c := Rot64(q.c, k);
    Quad(q.b, c, Add(Xor(q.d, q.c), c), q.a)
  }

  function UnshortEndRow(t: Quad, k: nat): Quad
    requires 0 < k < 64
  {
    var c := Rot64(t.b, 64 - k);
    Quad(t.d, t.a, c, Xor(Sub(t.c, t.b), c))
  }

  lemma ShortEndRowUndo(q: Quad, k: nat)
    requires 0 < k < 64
    ensures UnshortEndRow(ShortEndRow(q, k), k) == q
    ensures ShortEndRow(UnshortEndRow(q, k), k) == q
  {
    RotUndo(q.c, k);
    AddSub(Xor(q.d, q.c), Rot64(q.c, k));
    XorXor(q.d, q.c);
    RotUndo(q.b, 64 - k);
    XorXor(Sub(q.c, q.b), Rot64(q.b, 64 - k));
    AddSub(q.c, q.b);
  }

  /** Rows i, i+1, ..., 10 of ShortEnd. */
  function ShortEndFrom(q: Quad, i: nat): Quad
    requires i <= 11
    decreases 11 - i
  {
    if i == 11 then q else ShortEndFrom(ShortEndRow(q, ShortEndRotation(i)), i + 1)
  }

  function UnshortEndFrom(t: Quad, i: nat): Quad
    requires i <= 11
    decreases 11 - i
  {
    if i == 11 then t else UnshortEndRow(UnshortEndFrom(t, i + 1), ShortEndRotation(i))
  }

  lemma {:induction false} ShortEndIsPermutation(q: Quad, i: nat)
    requires i <= 11
    ensures UnshortEndFrom(ShortEndFrom(q, i), i) == q
    ensures ShortEndFrom(UnshortEndFrom(q, i), i) == q
    decreases 11 - i
  {
    if i < 11 {
      ShortEndRowUndo(q, ShortEndRotation(i));
      ShortEndIsPermutation(ShortEndRow(q, ShortEndRotation(i)), i + 1);
      ShortEndIsPermutation(q, i + 1);
      ShortEndRowUndo(UnshortEndFrom(q, i + 1), ShortEndRotation(i));
    }
  }

  /** ShortEnd; eleven rows leave the state one turn short of four, so the words are turned back. */
  function ShortEndAll(q: Quad): Quad {
    var t := ShortEndFrom(q, FIRST_ROW);
    Quad(t.b, t.c, t.d, t.a)
  }

  method ShortEnd(t: Quad) returns (h: Quad)
    ensures h == ShortEndAll(t)
  {
    hide Add, Xor, Rot64;
    var h0, h1, h2, h3 := t.a, t.b, t.c, t.d;
    ghost var g := t;
    h3 := Xor(h3, h2); h2 := Rot64(h2, 15); h3 := Add(h3, h2);
    g := ShortEndRow(g, 15); assert g == Quad(h1, h2, h3, h0);
    h0 := Xor(h0, h3); h3 := Rot64(h3, 52); h0 := Add(h0, h3);
    g := ShortEndRow(g, 52); assert g == Quad(h2, h3, h0, h1);
    h1 := Xor(h1, h0); h0 := Rot64(h0, 26); h1 := Add(h1, h0);
    g := ShortEndRow(g, 26); assert g == Quad(h3, h0, h1, h2);
    h2 := Xor(h2, h1); h1 := Rot64(h1, 51); h2 := Add(h2, h1);
    g := ShortEndRow(g, 51); assert g == Quad(h0, h1, h2, h3);
    h3 := Xor(h3, h2); h2 := Rot64(h2, 28); h3 := Add(h3, h2);
    g := ShortEndRow(g, 28); assert g == Quad(h1, h2, h3, h0);
    h0 := Xor(h0, h3); h3 := Rot64(h3, 9);  h0 := Add(h0, h3);
    g := ShortEndRow(g, 9); assert g == Quad(h2, h3, h0, h1);
    h1 := Xor(h1, h0); h0 := Rot64(h0, 47); h1 := Add(h1, h0);
    g := ShortEndRow(g, 47); assert g == Quad(h3, h0, h1, h2);
    h2 := Xor(h2, h1); h1 := Rot64(h1, 54); h2 := Add(h2, h1);
    g := ShortEndRow(g, 54); assert g == Quad(h0, h1, h2, h3);
    h3 := Xor(h3, h2); h2 := Rot64(h2, 32); h3 := Add(h3, h2);
    g := ShortEndRow(g, 32); assert g == Quad(h1, h2, h3, h0);
    h0 := Xor(h0, h3); h3 := Rot64(h3, 25); h0 := Add(h0, h3);
    g := ShortEndRow(g, 25); assert g == Quad(h2, h3, h0, h1);
    h1 := Xor(h1, h0); h0 := Rot64(h0, 63); h1 := Add(h1, h0);
    g := ShortEndRow(g, 63); assert g == Quad(h3, h0, h1, h2);
    h := Quad(h0, h1, h2, h3);
    assert g == ShortEndFrom(t, 0);
  }

  lemma ShortEndInjective(q: Quad, r: Quad)
    requires ShortEndAll(q) == ShortEndAll(r)
    ensures q == r
  {
    ShortEndIsPermutation(q, FIRST_ROW);
    ShortEndIsPermutation(r, FIRST_ROW);
  }
}
