/**
 SpookyHash over whole messages: the byte-level description of Hash128, its one-shot code (two paths,
 switching at 192 bytes), and what keeps different messages apart. Words are read little-endian, as
 the code assumes of its processor.
*/
module SpookyHash {
  import opened Basics
  import opened Words
  import opened SpookyMixers

  // The block size is 96 bytes (twelve words), and the buffer holds two blocks, 192 bytes.

  const SC_CONST: Word := 0xdead_beef_dead_beef

  // ---------- bytes as words ----------

  function LittleEndian(bs: seq<Byte>): nat {
    if bs == [] then 0 else bs[0] + 256 * LittleEndian(bs[1..])
  }

  function Pow256(n: nat): (p: nat)
    ensures p >= 1
  {
    if n == 0 then 1 else 256 * Pow256(n - 1)
  }

  lemma {:induction false} LittleEndianBound(bs: seq<Byte>)
    ensures LittleEndian(bs) < Pow256(|bs|)
  {
    if bs != [] {
      LittleEndianBound(bs[1..]);
    }
  }

  lemma {:induction false} LittleEndianInjective(bs: seq<Byte>, cs: seq<Byte>)
    requires |bs| == |cs| && LittleEndian(bs) == LittleEndian(cs)
    ensures bs == cs
  {
    if bs != [] {
      LittleEndianInjective(bs[1..], cs[1..]);
      assert bs == [bs[0]] + bs[1..] && cs == [cs[0]] + cs[1..];
    }
  }

  /** The 64-bit word stored at bs[i..i+8]. */
  function WordAt(bs: seq<Byte>, i: nat): Word
    requires i + 8 <= |bs|
  {
    var w := bs[i..i + 8];
    LittleEndianBound(w);
    assert Pow256(8) == TWO64;
    LittleEndian(w)
  }

  lemma WordAtInjective(bs: seq<Byte>, cs: seq<Byte>, i: nat)
    requires i + 8 <= |bs| && i + 8 <= |cs| && WordAt(bs, i) == WordAt(cs, i)
    ensures bs[i..i + 8] == cs[i..i + 8]
  {
    LittleEndianInjective(bs[i..i + 8], cs[i..i + 8]);
  }

  function BlockWords(block: seq<Byte>): (ws: seq<Word>)
    requires |block| == 96
    ensures |ws| == 12 && forall i :: 0 <= i < 12 ==> ws[i] == WordAt(block, 8 * i)
  {
    seq(12, i requires 0 <= i < 12 => WordAt(block, 8 * i))
  }

  lemma BlockWordsInjective(b: seq<Byte>, c: seq<Byte>)
    requires |b| == |c| == 96 && BlockWords(b) == BlockWords(c)
    ensures b == c
  {
    forall k | 0 <= k < 96
      ensures b[k] == c[k]
    {
      var i := k / 8;
      assert BlockWords(b)[i] == BlockWords(c)[i];
      WordAtInjective(b, c, 8 * i);
      assert b[k] == b[8 * i..8 * i + 8][k - 8 * i] == c[8 * i..8 * i + 8][k - 8 * i];
    }
  }

  // ---------- long messages ----------

  function Start(seed1: Word, seed2: Word): State {
    State(seed1, seed2, SC_CONST, seed1, seed2, SC_CONST, seed1, seed2, SC_CONST, seed1, seed2, SC_CONST)
  }

  /** The whole 96-byte blocks of m mixed into the state, first to last. */
  function Absorb(s: State, m: seq<Byte>): State
    decreases |m|
  {
    if |m| < 96 then s else Absorb(MixAll(s, BlockWords(m[..96])), m[96..])
  }

  lemma AbsorbFirst(s: State, m: seq<Byte>, n: seq<Byte>) returns (t: State)
    requires |m| >= 96
    ensures Absorb(s, m) == Absorb(t, m[96..])
    ensures Absorb(s, m + n) == Absorb(t, m[96..] + n)
  {
    hide MixAll, BlockWords;
    t := MixAll(s, BlockWords(m[..96]));
    assert (m + n)[..96] == m[..96];
    assert (m + n)[96..] == m[96..] + n;
  }

  lemma {:induction false} AbsorbConcat(s: State, k: nat, m: seq<Byte>, n: seq<Byte>)
    requires |m| == 96 * k
    ensures Absorb(s, m + n) == Absorb(Absorb(s, m), n)
    decreases k
  {
    hide MixAll, BlockWords;
    if k == 0 {
      assert m + n == n;
    } else {
      var rest := m[96..];
      var t := AbsorbFirst(s, m, n);
      AbsorbConcat(t, k - 1, rest, n);
    }
  }

  /** The last partial block: zeros up to the last byte, which holds the number of bytes. */
  function Pad(tail: seq<Byte>): (block: seq<Byte>)
    requires |tail| < 96
    ensures |block| == 96
  {
    tail + seq(95 - |tail|, _ => 0) + [|tail|]
  }

  function WholeBlocks(n: nat): (w: nat)
    ensures w <= n < w + 96
  {
    n / 96 * 96
  }

  /** The whole blocks of m mixed into s, then the partial block. */
  function Finished(s: State, m: seq<Byte>): State {
    var w := WholeBlocks(|m|);
    EndAll(Absorb(s, m[..w]), BlockWords(Pad(m[w..])))
  }

  /** The twelve words that the hash of a long message is taken from. */
  function LongState(seed1: Word, seed2: Word, m: seq<Byte>): State {
    Finished(Start(seed1, seed2), m)
  }

  // ---------- short messages ----------

  /** The complete 16-byte groups, taken two at a time. */
  function ShortAbsorb(q: Quad, m: seq<Byte>): Quad
    decreases |m|
  {
    if |m| >= 32 then ShortAbsorb(ShortStep(q, m), m[32..])
    else if |m| >= 16 then
      ShortMixAll(q.(c := Add(q.c, WordAt(m, 0)), d := Add(q.d, WordAt(m, 8))))
    else q
  }

  function ZeroPadded(tail: seq<Byte>): (bs: seq<Byte>)
    requires |tail| < 16
    ensures |bs| == 16
  {
    tail + seq(16 - |tail|, _ => 0)
  }

  /** The state after 32 more bytes. */
  function ShortStep(q: Quad, m: seq<Byte>): Quad
    requires |m| >= 32
  {
    var t := ShortMixAll(q.(c := Add(q.c, WordAt(m, 0)), d := Add(q.d, WordAt(m, 8))));
    t.(a := Add(t.a, WordAt(m, 16)), b := Add(t.b, WordAt(m, 24)))
  }

  /** The length, and the zero-padded tail as two words; a constant stands in for an empty tail. */
  function ShortTail(q: Quad, tail: seq<Byte>, length: nat): Quad
    requires |tail| < 16
  {
    var d := Add(q.d, length % 256 * 0x100_0000_0000_0000);
    if tail == [] then q.(c := Add(q.c, SC_CONST), d := Add(d, SC_CONST))
    else q.(c := Add(q.c, WordAt(ZeroPadded(tail), 0)), d := Add(d, WordAt(ZeroPadded(tail), 8)))
  }

  function Groups(n: nat): (g: nat)
    ensures g <= n < g + 16
  {
    n / 16 * 16
  }

  /** The state that ShortEnd is given. */
  function ShortBeforeEnd(seed1: Word, seed2: Word, m: seq<Byte>): Quad {
    ShortTail(ShortAbsorb(Quad(seed1, seed2, SC_CONST, SC_CONST), m), m[Groups(|m|)..], |m|)
  }

  function HashShort(seed1: Word, seed2: Word, m: seq<Byte>): (Word, Word) {
    var h := ShortEndAll(ShortBeforeEnd(seed1, seed2, m));
    (h.a, h.b)
  }

  /** The hash of a message, for two seeds. */
  function Hash(seed1: Word, seed2: Word, m: seq<Byte>): (Word, Word) {
    if |m| < 192 then HashShort(seed1, seed2, m)
    else var h := LongState(seed1, seed2, m); (h.s0, h.s1)
  }

  // ---------- the one-shot code ----------

  /** Mixes in the whole blocks of bs. */
  method MixBlocks(t: State, bs: seq<Byte>) returns (h: State, end: nat)
    ensures end == WholeBlocks(|bs|) && end % 96 == 0 && h == Absorb(t, bs[..end])
  {
    hide MixAll, BlockWords;
    var blocks := |bs| / 96;
    end := blocks * 96;
    h := t;
    for i := 0 to blocks
      invariant h == Absorb(t, bs[..96 * i])
    {
      MixOneMore(t, h, bs, i);
      h := Mix(BlockWords(bs[96 * i..96 * i + 96]), h);
    }
  }

  lemma MixOneMore(t: State, h: State, bs: seq<Byte>, i: nat)
    requires 96 * i + 96 <= |bs| && h == Absorb(t, bs[..96 * i])
    ensures MixAll(h, BlockWords(bs[96 * i..96 * i + 96])) == Absorb(t, bs[..96 * (i + 1)])
  {
    hide MixAll, BlockWords;
    var block := bs[96 * i..96 * i + 96];
    AbsorbConcat(t, i, bs[..96 * i], block);
    assert bs[..96 * (i + 1)] == bs[..96 * i] + block;
    assert block[..96] == block;
    AbsorbOne(h, block);
  }

  lemma AbsorbOne(s: State, block: seq<Byte>)
    requires |block| == 96
    ensures Absorb(s, block) == MixAll(s, BlockWords(block))
  {
    hide MixAll, BlockWords;
    assert block[..96] == block;
  }

  method Hash128(message: seq<Byte>, seed1: Word, seed2: Word) returns (hash1: Word, hash2: Word)
    ensures (hash1, hash2) == Hash(seed1, seed2, message)
  {
    hide Absorb, EndAll, BlockWords;
    if |message| < 192 {
      hash1, hash2 := Short(message, seed1, seed2);
      return;
    }
    var h := State(seed1, seed2, SC_CONST, seed1, seed2, SC_CONST, seed1, seed2, SC_CONST, seed1, seed2, SC_CONST);
    var end: nat;
    h, end := MixBlocks(h, message);
    var remainder := |message| - end;
    var buf := message[end..] + seq(96 - remainder, _ => 0);
    buf := buf[95 := remainder];
    assert buf == Pad(message[end..]);
    h := End(BlockWords(buf), h);
    hash1, hash2 := h.s0, h.s1;
  }

  /** Byte i, or zero beyond the end. */
  function ByteAt(u: seq<Byte>, i: nat): Byte {
    if i < |u| then u[i] else 0
  }

  /** Bytes i to i+3 of u, as the code adds them up. */
  function Sum32(u: seq<Byte>, i: nat): nat {
    ByteAt(u, i) + 0x100 * ByteAt(u, i + 1) + 0x1_0000 * ByteAt(u, i + 2) + 0x100_0000 * ByteAt(u, i + 3)
  }

  lemma {:induction false} LittleEndianStep(bs: seq<Byte>, i: nat, j: nat)
    requires i < j <= |bs|
    ensures LittleEndian(bs[i..j]) == bs[i] + 256 * LittleEndian(bs[i + 1..j])
  {
    assert bs[i..j][1..] == bs[i + 1..j];
  }

  lemma LittleEndian32(bs: seq<Byte>, i: nat, n: nat)
    requires i + 4 <= n <= |bs|
    ensures LittleEndian(bs[i..n]) == Sum32(bs, i) + 0x1_0000_0000 * LittleEndian(bs[i + 4..n])
  {
    LittleEndianStep(bs, i, n);
    LittleEndianStep(bs, i + 1, n);
    LittleEndianStep(bs, i + 2, n);
    LittleEndianStep(bs, i + 3, n);
  }

  lemma WordSum(bs: seq<Byte>, i: nat)
    requires i + 8 <= |bs|
    ensures WordAt(bs, i) == Sum32(bs, i) + 0x1_0000_0000 * Sum32(bs, i + 4)
  {
    LittleEndian32(bs, i, i + 8);
    LittleEndian32(bs, i + 4, i + 8);
    assert bs[i + 8..i + 8] == [];
  }

  /** The words of the zero-padded tail, in terms of the tail's own bytes. */
  lemma PaddedWord(u: seq<Byte>, i: nat)
    requires |u| < 16 && i <= 8
    ensures WordAt(ZeroPadded(u), i) == Sum32(u, i) + 0x1_0000_0000 * Sum32(u, i + 4)
  {
    var p := ZeroPadded(u);
    WordSum(p, i);
    assert forall k :: 0 <= k < 16 ==> p[k] == ByteAt(u, k);
  }

  /** The 32-bit word stored at u[i..i+4]. */
  function HalfAt(u: seq<Byte>, i: nat): (w: Word)
    requires i + 4 <= |u|
    ensures w == Sum32(u, i)
  {
    LittleEndian32(u, i, i + 4);
    assert u[i + 4..i + 4] == [];
    LittleEndian(u[i..i + 4])
  }

  /** Up to three bytes and a word, added one after another from the top, add their sum. */
  lemma AddFour(x: Word, y1: Word, y2: Word, y3: Word, y4: Word)
    requires y1 + y2 + y3 + y4 < TWO64
    ensures Add(Add(Add(Add(x, y1), y2), y3), y4) == Add(x, y1 + y2 + y3 + y4)
  {
    AddSum(x, y1, y2);
    AddSum(x, y1 + y2, y3);
    AddSum(x, y1 + y2 + y3, y4);
  }

  lemma AddZero(x: Word)
    ensures Add(x, 0) == x
  {
  }

  /** The switch on how many of bytes i+4.. are there: each case falls into the next, down to the half-word. */
  method AddSeven(x: Word, u: seq<Byte>, i: nat) returns (y: Word)
    requires i + 4 <= |u| <= i + 7
    ensures y == Add(x, Sum32(u, i) + 0x1_0000_0000 * Sum32(u, i + 4))
  {
    hide Add;
    y := x;
    if i + 7 <= |u| {
      y := Add(y, u[i + 6] as nat * 0x1_0000_0000_0000);
    }
    if i + 6 <= |u| {
      y := Add(y, u[i + 5] as nat * 0x100_0000_0000);
    }
    if i + 5 <= |u| {
      y := Add(y, u[i + 4] as nat * 0x1_0000_0000);
    }
    y := Add(y, HalfAt(u, i));
    AddZero(x);
    AddFour(x, ByteAt(u, i + 6) as nat * 0x1_0000_0000_0000, ByteAt(u, i + 5) as nat * 0x100_0000_0000,
            ByteAt(u, i + 4) as nat * 0x1_0000_0000, Sum32(u, i));
  }

  /** The same for the lower cases, one to three bytes. */
  method AddThree(x: Word, u: seq<Byte>, i: nat) returns (y: Word)
    requires i < |u| <= i + 3
    ensures y == Add(x, Sum32(u, i))
  {
    hide Add;
    y := x;
    if i + 3 <= |u| {
      y := Add(y, u[i + 2] as nat * 0x1_0000);
    }
    if i + 2 <= |u| {
      y := Add(y, u[i + 1] as nat * 0x100);
    }
    y := Add(y, u[i]);
    AddZero(x);
    AddZero(y);
    AddFour(x, ByteAt(u, i + 2) as nat * 0x1_0000, ByteAt(u, i + 1) as nat * 0x100, ByteAt(u, i), 0);
  }

  /** The switch over the last 0..15 bytes; each case falls into the ones below it up to a break. */
  method AddTail(t: Quad, u: seq<Byte>, length: nat) returns (q: Quad)
    requires |u| < 16
    ensures q == ShortTail(t, u, length)
  {
    hide Add, WordAt;
    var c, d := t.c, Add(t.d, length % 256 * 0x100_0000_0000_0000);
    PaddedWord(u, 0);
    PaddedWord(u, 8);
    if |u| >= 8 {
      WordSum(u, 0);
      c := Add(c, WordAt(u, 0));
      if |u| >= 12 {
        d := AddSeven(d, u, 8);
      } else if |u| > 8 {
        d := AddThree(d, u, 8);
      } else {
        AddZero(d);
      }
    } else if |u| > 0 {
      if |u| >= 4 {
        c := AddSeven(c, u, 0);
      } else {
        c := AddThree(c, u, 0);
      }
      AddZero(d);
    } else {
      c := Add(c, SC_CONST);
      d := Add(d, SC_CONST);
    }
    q := t.(c := c, d := d);
  }

  /** All complete sets of 32 bytes, then 16 more if there are as many. */
  method AddGroups(message: seq<Byte>, t: Quad) returns (q: Quad, u: nat, remainder: nat)
    ensures u == Groups(|message|) && remainder == |message| - u && q == ShortAbsorb(t, message)
  {
    hide ShortMixAll, WordAt, Add, ShortAbsorb, ShortStep, Groups;
    q, u, remainder := t, 0, |message| % 32;
    GroupsBySets(|message|);
    assert message[0..] == message;
    if |message| > 15 {
      var sets := |message| / 32;
      for i := 0 to sets
        invariant u == 32 * i
        invariant ShortAbsorb(t, message) == ShortAbsorb(q, message[u..])
      {
        assert message[u..][32..] == message[u + 32..];
        AbsorbParts(q, message[u..]);
        q := AddSet(q, message[u..]);
        u := u + 32;
      }
      AbsorbParts(q, message[u..]);
      if remainder >= 16 {
        q := q.(c := Add(q.c, WordAt(message[u..], 0)), d := Add(q.d, WordAt(message[u..], 8)));
        q := ShortMix(q);
        u := u + 16;
        remainder := remainder - 16;
      }
    } else {
      AbsorbParts(q, message);
    }
  }

  lemma GroupsBySets(n: nat)
    ensures Groups(n) == n / 32 * 32 + (if n % 32 >= 16 then 16 else 0)
    ensures n / 32 * 32 + n % 32 == n && n % 32 < 32
  {
  }

  lemma AbsorbParts(q: Quad, m: seq<Byte>)
    ensures ShortAbsorb(q, m)
         == if |m| >= 32 then ShortAbsorb(ShortStep(q, m), m[32..])
            else if |m| >= 16 then ShortMixAll(q.(c := Add(q.c, WordAt(m, 0)), d := Add(q.d, WordAt(m, 8))))
            else q
  {
  }

  method AddSet(t: Quad, u: seq<Byte>) returns (q: Quad)
    requires |u| >= 32
    ensures q == ShortStep(t, u)
  {
    hide ShortMixAll, WordAt, Add;
    q := t.(c := Add(t.c, WordAt(u, 0)), d := Add(t.d, WordAt(u, 8)));
    q := ShortMix(q);
    q := q.(a := Add(q.a, WordAt(u, 16)), b := Add(q.b, WordAt(u, 24)));
  }

  method Short(message: seq<Byte>, seed1: Word, seed2: Word) returns (hash1: Word, hash2: Word)
    ensures (hash1, hash2) == HashShort(seed1, seed2, message)
  {
    hide ShortAbsorb, ShortTail, ShortEndAll;
    var q := Quad(seed1, seed2, SC_CONST, SC_CONST);
    var u: nat, remainder: nat;
    q, u, remainder := AddGroups(message, q);
    q := AddTail(q, message[u..], |message|);
    q := ShortEnd(q);
    hash1, hash2 := q.a, q.b;
  }
}
