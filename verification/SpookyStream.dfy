/**
 The streaming hash object (Init, Update, Final in pxr/base/arch/hash.cpp). Its ghost fields say what it
 has been fed; Valid ties them to the stash and the state, and Final returns the one-shot hash of it all.
*/
module SpookyStream {
  import opened Basics
  import opened Words
  import opened SpookyMixers
  import opened SpookyHash

  /** h is the state after the whole blocks m. */
  ghost predicate Mixed(h: State, seed1: Word, seed2: Word, m: seq<Byte>) {
    |m| % 96 == 0 && h == Absorb(Start(seed1, seed2), m)
  }

  lemma MixedMore(h: State, seed1: Word, seed2: Word, m: seq<Byte>, more: seq<Byte>)
    requires Mixed(h, seed1, seed2, m) && |more| % 96 == 0
    ensures Mixed(Absorb(h, more), seed1, seed2, m + more)
  {
    hide Absorb, Start;
    AbsorbConcat(Start(seed1, seed2), |m| / 96, m, more);
  }

  /** Mixes in two whole blocks. */
  method MixTwo(t: State, blocks: seq<Byte>) returns (h: State)
    requires |blocks| == 192
    ensures h == Absorb(t, blocks)
  {
    hide MixAll, BlockWords;
    h := Mix(BlockWords(blocks[..96]), t);
    h := Mix(BlockWords(blocks[96..]), h);
    AbsorbOne(MixAll(t, BlockWords(blocks[..96])), blocks[96..]);
  }

  class Stream {
    // What has been hashed so far.
    ghost var seed1: Word
    ghost var seed2: Word
    ghost var message: seq<Byte>

    const data: array<Byte>  // m_data: unhashed data, two blocks
    var state: State         // m_state: two seeds until 192 bytes have come in, then all twelve words
    var length: nat          // m_length: total length of the input so far
    var remainder: nat       // m_remainder: length of the unhashed data stashed in data

    /** The stash holds what follows the whole blocks already mixed; nothing is mixed before 192 bytes. */
    ghost predicate Valid()
      reads this, data
    {
      && data.Length == 192
      && length == |message| < TWO64
      && remainder <= |message| && remainder < 192
      && data[..remainder] == message[|message| - remainder..]
      && (|message| < 192 ==> remainder == |message| && state.s0 == seed1 && state.s1 == seed2)
      && (|message| >= 192 ==> Mixed(state, seed1, seed2, message[..|message| - remainder]))
    }

    constructor ()
      ensures data.Length == 192 && fresh(data)
    {
      data := new Byte[192];
      state := State(0, 0, 0, 0, 0, 0, 0, 0, 0, 0, 0, 0);
      length, remainder := 0, 0;
      seed1, seed2, message := 0, 0, [];
    }

    method Init(seed1: Word, seed2: Word)
      requires data.Length == 192
      modifies this
      ensures Valid() && this.seed1 == seed1 && this.seed2 == seed2 && message == []
    {
      hide Mixed;
      length := 0;
      remainder := 0;
      state := state.(s0 := seed1, s1 := seed2);
      this.seed1, this.seed2, message := seed1, seed2, [];
    }

    /** The fragment is too short to fill the two blocks, so it is stuffed away. */
    method Stash(fragment: seq<Byte>)
      requires Valid() && |message| + |fragment| < TWO64 && |fragment| + remainder < 192
      modifies this, data
      ensures Valid() && seed1 == old(seed1) && seed2 == old(seed2)
      ensures message == old(message) + fragment
    {
      hide Absorb;
      forall i | 0 <= i < |fragment| {
        data[remainder + i] := fragment[i];
      }
      ghost var total := message + fragment;
      length := |fragment| + length;
      remainder := |fragment| + remainder;
      assert data[..remainder] == old(data[..remainder]) + fragment;
      assert total[|total| - remainder..] == old(data[..remainder]) + fragment;
      assert total[..|total| - remainder] == message[..|message| - old(remainder)];
      message := total;
    }

    /** The twelve working words that Update starts from. */
    method Working() returns (h: State)
      requires Valid()
      ensures Mixed(h, seed1, seed2, message[..|message| - remainder])
    {
      if length < 192 {
        h := State(state.s0, state.s1, SC_CONST, state.s0, state.s1, SC_CONST,
                   state.s0, state.s1, SC_CONST, state.s0, state.s1, SC_CONST);
        assert message[..|message| - remainder] == [];
      } else {
        h := state;
      }
    }

    /** If anything is stuffed away, the two blocks are filled up with it in front and mixed first. */
    method UseStash(t: State, fragment: seq<Byte>) returns (h: State, u: seq<Byte>, ghost whole: seq<Byte>)
      requires Valid() && |fragment| + remainder >= 192
      requires Mixed(t, seed1, seed2, message[..|message| - remainder])
      modifies data
      ensures Mixed(h, seed1, seed2, whole) && whole + u == message + fragment
      ensures |u| <= |fragment| && |message| + |fragment| >= 192
    {
      hide Absorb;
      whole := message[..|message| - remainder];
      ghost var pending := data[..remainder];
      assert message == whole + pending;
      if remainder != 0 {
        var prefix := 192 - remainder;
        forall i | 0 <= i < prefix {
          data[remainder + i] := fragment[i];
        }
        ghost var both := pending + fragment[..prefix];
        assert data[..] == both;
        h := MixTwo(t, data[..]);
        MixedMore(t, seed1, seed2, whole, both);
        u := fragment[prefix..];
        assert fragment == fragment[..prefix] + u;
        assert whole + both + u == whole + pending + fragment;
        whole := whole + both;
      } else {
        h, u := t, fragment;
        assert pending == [];
      }
    }

    /** Any fragment may be added, up to the lengths the one-shot function can be given. */
    method Update(fragment: seq<Byte>)
      requires Valid() && |message| + |fragment| < TWO64
      modifies this, data
      ensures Valid() && seed1 == old(seed1) && seed2 == old(seed2)
      ensures message == old(message) + fragment
    {
      hide Absorb, WholeBlocks, Mixed;
      var newLength := |fragment| + remainder;
      if newLength < 192 {
        Stash(fragment);
        return;
      }
      var h := Working();
      var u;
      ghost var whole;
      h, u, whole := UseStash(h, fragment);
      length := |fragment| + length;

      // All whole blocks of what is left, then the last few bytes are stuffed away.
      var end;
      ghost var h0 := h;
      h, end := MixBlocks(h, u);
      MixedMore(h0, seed1, seed2, whole, u[..end]);
      assert message + fragment == (whole + u[..end]) + u[end..];
      remainder := |u| - end;
      forall i | 0 <= i < remainder {
        data[i] := u[end + i];
      }
      state := h;
      message := message + fragment;
      assert data[..remainder] == u[end..];
      assert message[..|message| - remainder] == whole + u[..end];
    }

    /** Makes data[at..at+96] the last partial block: zeros after the rest, and its length in the last byte. */
    method PadStash(at: nat, rest: nat)
      requires data.Length == 192 && rest < 96 && at + 96 <= 192
      modifies data
      ensures data[at..at + 96] == Pad(old(data[at..at + rest]))
      ensures forall i :: 0 <= i < at + rest ==> data[i] == old(data[i])
    {
      forall i | at + rest <= i < at + 96 {
        data[i] := 0;
      }
      data[at + 95] := rest;
    }

    /** The hash of everything fed so far; what is written to the stash lies beyond the stashed bytes. */
    method Final() returns (hash1: Word, hash2: Word)
      requires Valid()
      modifies data
      ensures (hash1, hash2) == Hash(seed1, seed2, message)
      ensures Valid()
      ensures forall i :: 0 <= i < remainder ==> data[i] == old(data[i])
    {
      hide Mixed, MixAll, BlockWords, EndAll, HashShort, LongState, Pad;
      ghost var whole, pending := message[..|message| - remainder], data[..remainder];
      assert message == whole + pending;
      if length < 192 {
        assert data[..length] == message;
        hash1, hash2 := Short(data[..length], state.s0, state.s1);
        return;
      }
      var h := state;
      var at, rest := 0, remainder;
      ghost var tail := pending;
      if rest >= 96 {
        // The stash can hold two blocks; any whole first block is mixed in.
        h := Mix(BlockWords(data[0..96]), h);
        FirstBlock(state, seed1, seed2, whole, data[0..96]);
        tail := data[96..remainder];
        assert pending == data[0..96] + tail;
        whole := whole + data[0..96];
        at, rest := 96, rest - 96;
      }
      assert message == whole + tail;
      assert tail == data[at..at + rest];
      PadStash(at, rest);
      assert data[..remainder] == pending;
      ghost var t := h;
      h := End(BlockWords(data[at..at + 96]), h);
      LongHash(h, t, seed1, seed2, whole, tail);
      hash1, hash2 := h.s0, h.s1;
    }
  }

  lemma FirstBlock(h: State, seed1: Word, seed2: Word, m: seq<Byte>, block: seq<Byte>)
    requires Mixed(h, seed1, seed2, m) && |block| == 96
    ensures Mixed(MixAll(h, BlockWords(block)), seed1, seed2, m + block)
  {
    hide MixAll, BlockWords;
    AbsorbOne(h, block);
    MixedMore(h, seed1, seed2, m, block);
  }

  /** Once the whole blocks are mixed, the hash of a long message needs only the tail. */
  lemma LongHash(h: State, t: State, seed1: Word, seed2: Word, whole: seq<Byte>, tail: seq<Byte>)
    requires Mixed(t, seed1, seed2, whole) && |tail| < 96 && |whole| + |tail| >= 192
    requires h == EndAll(t, BlockWords(Pad(tail)))
    ensures Hash(seed1, seed2, whole + tail) == (h.s0, h.s1)
  {
    hide EndAll, BlockWords, Pad, Absorb;
    var m := whole + tail;
    assert WholeBlocks(|m|) == |whole|;
    assert m[..|whole|] == whole && m[|whole|..] == tail;
  }

  function Concat(fragments: seq<seq<Byte>>): seq<Byte> {
    if fragments == [] then [] else Concat(fragments[..|fragments| - 1]) + fragments[|fragments| - 1]
  }

  /** Streaming equals one-shot, however the message is cut up, and with Final called at any point between. */
  method HashFragments(seed1: Word, seed2: Word, fragments: seq<seq<Byte>>, peek: seq<bool>)
    returns (hash1: Word, hash2: Word)
    requires |Concat(fragments)| < TWO64 && |peek| == |fragments|
    ensures (hash1, hash2) == Hash(seed1, seed2, Concat(fragments))
  {
    hide Hash;
    var s := new Stream();
    s.Init(seed1, seed2);
    for i := 0 to |fragments|
      invariant fresh(s) && fresh(s.data) && s.Valid() && s.seed1 == seed1 && s.seed2 == seed2
      invariant s.message == Concat(fragments[..i])
    {
      ConcatGrows(fragments, i);
      assert fragments[..i + 1][..i] == fragments[..i];
      s.Update(fragments[i]);
      if peek[i] {
        var p1, p2 := s.Final();
      }
    }
    assert fragments[..|fragments|] == fragments;
    hash1, hash2 := s.Final();
  }

  lemma {:induction false} ConcatGrows(fragments: seq<seq<Byte>>, i: nat)
    requires i < |fragments|
    ensures |Concat(fragments[..i])| + |fragments[i]| <= |Concat(fragments)|
    decreases |fragments|
  {
    var init := fragments[..|fragments| - 1];
    if i < |init| {
      ConcatGrows(init, i);
      assert init[..i] == fragments[..i];
    }
  }
}
