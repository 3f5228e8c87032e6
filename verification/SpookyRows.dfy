/**
 The mixers of SpookyHash as loops over an array of words, with indices taken modulo its length
 (pxr/base/arch/hash.cpp): one row for all, where the code has them written out. The state that turns under the rows
 is the same thing.
*/
module SpookyRows {
  import opened Words
  import opened SpookyMixers

  // ---------- twelve words ----------

  type Array = h: seq<Word> | |h| == 12 witness [0, 0, 0, 0, 0, 0, 0, 0, 0, 0, 0, 0]

  function ToArray(s: State): Array {
    [s.s0, s.s1, s.s2, s.s3, s.s4, s.s5, s.s6, s.s7, s.s8, s.s9, s.s10, s.s11]
  }

  /** The index i + a, modulo 12. */
  function At(i: nat, a: nat): (j: nat)
    requires a < 12
    ensures j < 12 && j == (i + a) % 12
  {
    var r := i % 12;
    if r + a < 12 then r + a else r + a - 12
  }

  /** s_i += data_i; s_i+2 ^= s_i+10; s_i+11 ^= s_i; s_i is rotated; s_i+11 += s_i+1. */
  function MixRowAt(h: Array, data: seq<Word>, i: nat): Array
    requires |data| == 12 && i < 12
  {
    var x := Add(h[At(i, 0)], data[i]);
    var h2 := Xor(h[At(i, 2)], h[At(i, 10)]);
    var h11 := Add(Xor(h[At(i, 11)], x), h[At(i, 1)]);
    h[At(i, 0) := Rot64(x, MixRotation(i))][At(i, 2) := h2][At(i, 11) := h11]
  }

  function MixRows(h: Array, data: seq<Word>, i: nat): Array
    requires |data| == 12 && i <= 12
    decreases 12 - i
  {
    if i == 12 then h else MixRows(MixRowAt(h, data, i), data, i + 1)
  }

  /** h_i+11 += h_i+1; h_i+2 ^= h_i+11; h_i+1 is rotated. */
  function EndRowAt(h: Array, i: nat): Array {
    var x := Add(h[At(i, 11)], h[At(i, 1)]);
    var h1 := Rot64(h[At(i, 1)], EndRotation(At(i, 0)));
    h[At(i, 11) := x][At(i, 2) := Xor(h[At(i, 2)], x)][At(i, 1) := h1]
  }

  /** The rows from i up to n. */
  function EndRows(h: Array, i: nat, n: nat): Array
    requires i <= n
    decreases n - i
  {
    if i == n then h else EndRows(EndRowAt(h, i), i + 1, n)
  }

  /** The state is the array, read from index i on. */
  predicate Reads(s: State, h: Array, i: nat) {
    && s.s0 == h[At(i, 0)] && s.s1 == h[At(i, 1)] && s.s2 == h[At(i, 2)] && s.s3 == h[At(i, 3)]
    && s.s4 == h[At(i, 4)] && s.s5 == h[At(i, 5)] && s.s6 == h[At(i, 6)] && s.s7 == h[At(i, 7)]
    && s.s8 == h[At(i, 8)] && s.s9 == h[At(i, 9)] && s.s10 == h[At(i, 10)] && s.s11 == h[At(i, 11)]
  }

  /** The index moves on by one. */
  lemma AtMoves(i: nat, a: nat)
    requires 0 < a < 12
    ensures At(i + 1, a - 1) == At(i, a) && At(i + 1, 11) == At(i, 0)
  {
  }

  lemma AllMove(i: nat)
    ensures forall a :: 0 < a < 12 ==> At(i + 1, a - 1) == At(i, a)
    ensures At(i + 1, 11) == At(i, 0)
    ensures forall a, b :: 0 <= a < b < 12 ==> At(i, a) != At(i, b)
  {
    forall a | 0 < a < 12
      ensures At(i + 1, a - 1) == At(i, a)
    {
      AtMoves(i, a);
    }
    AtMoves(i, 1);
  }

  lemma MixRowReads(s: State, h: Array, data: seq<Word>, i: nat)
    requires |data| == 12 && i < 12 && Reads(s, h, i)
    ensures Reads(MixRow(s, data[i], MixRotation(i)), MixRowAt(h, data, i), i + 1)
  {
    AllMove(i);
    hide Add, Xor, Rot64, MixRotation, At;
  }

  lemma {:induction false} MixFromReads(s: State, h: Array, data: seq<Word>, i: nat)
    requires |data| == 12 && i <= 12 && Reads(s, h, i)
    ensures Reads(MixFrom(s, data, i), MixRows(h, data, i), 12)
    decreases 12 - i
  {
    hide MixRow, MixRowAt, Reads, MixRotation;
    if i < 12 {
      MixRowReads(s, h, data, i);
      MixFromReads(MixRow(s, data[i], MixRotation(i)), MixRowAt(h, data, i), data, i + 1);
    }
  }

  lemma ReadsAll(s: State, h: Array, k: nat)
    ensures Reads(s, h, 12 * k) <==> h == ToArray(s)
  {
  }

  /** Mix is the loop over the rows. */
  lemma MixIsRows(s: State, data: seq<Word>)
    requires |data| == 12
    ensures ToArray(MixAll(s, data)) == MixRows(ToArray(s), data, 0)
  {
    hide MixFrom, MixRows, Reads, ToArray;
    ReadsAll(s, ToArray(s), 0);
    MixFromReads(s, ToArray(s), data, 0);
    ReadsAll(MixFrom(s, data, 0), MixRows(ToArray(s), data, 0), 1);
  }

  lemma EndRowReads(s: State, h: Array, i: nat)
    requires Reads(s, h, i)
    ensures Reads(EndRow(s, EndRotation(At(i, 0))), EndRowAt(h, i), i + 1)
  {
    AllMove(i);
    hide Add, Xor, Rot64, EndRotation, At;
  }

  /** Round k, from row r on. */
  lemma {:induction false} EndFromReads(s: State, h: Array, k: nat, r: nat)
    requires r <= 12 && Reads(s, h, 12 * k + r)
    ensures Reads(EndFrom(s, r), EndRows(h, 12 * k + r, 12 * k + 12), 12 * k + 12)
    decreases 12 - r
  {
    hide EndRow, EndRowAt, Reads, EndRotation;
    if r < 12 {
      var i := 12 * k + r;
      assert At(i, 0) == r;
      hide At;
      EndRowReads(s, h, i);
      EndFromReads(EndRow(s, EndRotation(r)), EndRowAt(h, i), k, r + 1);
    }
  }

  lemma RoundIsRows(s: State, k: nat)
    ensures ToArray(EndRound(s)) == EndRows(ToArray(s), 12 * k, 12 * (k + 1))
  {
    hide EndFrom, EndRows, Reads, ToArray;
    ReadsAll(s, ToArray(s), k);
    EndFromReads(s, ToArray(s), k, 0);
    ReadsAll(EndFrom(s, 0), EndRows(ToArray(s), 12 * k, 12 * k + 12), k + 1);
  }

  lemma {:induction false} EndRowsSplit(h: Array, i: nat, m: nat, n: nat)
    requires i <= m <= n
    ensures EndRows(h, i, n) == EndRows(EndRows(h, i, m), m, n)
    decreases m - i
  {
    hide EndRowAt;
    if i < m {
      EndRowsSplit(EndRowAt(h, i), i + 1, m, n);
    }
  }

  /** The data added, word by word. */
  function Added(h: Array, data: seq<Word>): Array
    requires |data| == 12
  {
    seq(12, j requires 0 <= j < 12 => Add(h[j], data[j]))
  }

  lemma BlockAdded(s: State, data: seq<Word>)
    requires |data| == 12
    ensures ToArray(AddBlock(s, data)) == Added(ToArray(s), data)
  {
    hide Add;
  }

  /** Three rounds are thirty-six rows. */
  lemma RoundsAreRows(t: State)
    ensures ToArray(EndRound(EndRound(EndRound(t)))) == EndRows(ToArray(t), 0, 36)
  {
    hide EndRound, EndRows, ToArray;
    RoundIsRows(t, 0);
    RoundIsRows(EndRound(t), 1);
    RoundIsRows(EndRound(EndRound(t)), 2);
    EndRowsSplit(ToArray(t), 0, 12, 36);
    EndRowsSplit(ToArray(EndRound(t)), 12, 24, 36);
  }

  /** End is the sum with the last block and the loop over thirty-six rows. */
  lemma EndIsRows(s: State, data: seq<Word>)
    requires |data| == 12
    ensures ToArray(EndAll(s, data)) == EndRows(Added(ToArray(s), data), 0, 36)
  {
    hide EndRound, EndRows, ToArray, AddBlock, Added;
    BlockAdded(s, data);
    RoundsAreRows(AddBlock(s, data));
  }

  // ---------- four words ----------

  type Four = h: seq<Word> | |h| == 4 witness [0, 0, 0, 0]

  function ToFour(q: Quad): Four {
    [q.a, q.b, q.c, q.d]
  }

  /** The index i + a, modulo 4. */
  function In(i: nat, a: nat): (j: nat)
    requires a < 4
    ensures j < 4 && j == (i + a) % 4
  {
    var r := i % 4;
    if r + a < 4 then r + a else r + a - 4
  }

  /** h_i+2 is rotated; h_i+2 += h_i+3; h_i ^= h_i+2. */
  function ShortMixRowAt(h: Four, i: nat): Four
    requires i < 12
  {
    var x := Add(Rot64(h[In(i, 2)], ShortMixRotation(i)), h[In(i, 3)]);
    h[In(i, 2) := x][In(i, 0) := Xor(h[In(i, 0)], x)]
  }

  function ShortMixRows(h: Four, i: nat): Four
    requires i <= 12
    decreases 12 - i
  {
    if i == 12 then h else ShortMixRows(ShortMixRowAt(h, i), i + 1)
  }

  /** h_i+3 ^= h_i+2; h_i+2 is rotated; h_i+3 += h_i+2. */
  function ShortEndRowAt(h: Four, i: nat): Four
    requires i < 11
  {
    var x := Rot64(h[In(i, 2)], ShortEndRotation(i));
    h[In(i, 2) := x][In(i, 3) := Add(Xor(h[In(i, 3)], h[In(i, 2)]), x)]
  }

  function ShortEndRows(h: Four, i: nat): Four
    requires i <= 11
    decreases 11 - i
  {
    if i == 11 then h else ShortEndRows(ShortEndRowAt(h, i), i + 1)
  }

  predicate ReadsFour(q: Quad, h: Four, i: nat) {
    q.a == h[In(i, 0)] && q.b == h[In(i, 1)] && q.c == h[In(i, 2)] && q.d == h[In(i, 3)]
  }

  lemma FourMove(i: nat)
    ensures In(i + 1, 0) == In(i, 1) && In(i + 1, 1) == In(i, 2) && In(i + 1, 2) == In(i, 3) && In(i + 1, 3) == In(i, 0)
    ensures forall a, b :: 0 <= a < b < 4 ==> In(i, a) != In(i, b)
  {
  }

  lemma {:induction false} ShortMixFromReads(q: Quad, h: Four, i: nat)
    requires i <= 12 && ReadsFour(q, h, i)
    ensures ReadsFour(ShortMixFrom(q, i), ShortMixRows(h, i), 12)
    decreases 12 - i
  {
    hide Add, Xor, Rot64, ShortMixRotation, In;
    if i < 12 {
      FourMove(i);
      ShortMixFromReads(ShortMixRow(q, ShortMixRotation(i)), ShortMixRowAt(h, i), i + 1);
    }
  }

  lemma FourRead(q: Quad, h: Four)
    ensures ReadsFour(q, h, 0) <==> h == ToFour(q)
    ensures ReadsFour(q, h, 12) <==> h == ToFour(q)
    ensures ReadsFour(q, h, 11) <==> h == ToFour(Quad(q.b, q.c, q.d, q.a))
  {
  }

  /** ShortMix is the loop over twelve rows. */
  lemma ShortMixIsRows(q: Quad)
    ensures ToFour(ShortMixAll(q)) == ShortMixRows(ToFour(q), 0)
  {
    hide ShortMixFrom, ShortMixRows, ReadsFour, ToFour;
    FourRead(q, ToFour(q));
    ShortMixFromReads(q, ToFour(q), 0);
    FourRead(ShortMixFrom(q, 0), ShortMixRows(ToFour(q), 0));
  }

  lemma {:induction false} ShortEndFromReads(q: Quad, h: Four, i: nat)
    requires i <= 11 && ReadsFour(q, h, i)
    ensures ReadsFour(ShortEndFrom(q, i), ShortEndRows(h, i), 11)
    decreases 11 - i
  {
    hide Add, Xor, Rot64, ShortEndRotation, In;
    if i < 11 {
      FourMove(i);
      ShortEndFromReads(ShortEndRow(q, ShortEndRotation(i)), ShortEndRowAt(h, i), i + 1);
    }
  }

  /** ShortEnd is the loop over eleven rows. */
  lemma ShortEndIsRows(q: Quad)
    ensures ToFour(ShortEndAll(q)) == ShortEndRows(ToFour(q), 0)
  {
    hide ShortEndFrom, ShortEndRows, ReadsFour, ToFour;
    FourRead(q, ToFour(q));
    ShortEndFromReads(q, ToFour(q), 0);
    FourRead(ShortEndFrom(q, 0), ShortEndRows(ToFour(q), 0));
  }
}
