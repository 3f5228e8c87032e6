/**
 The 64-bit words of the hash, as numbers. Addition wraps around, exclusive-or works
 bit by bit, and a rotation moves the high bits below the low ones. Each of the three can be undone.
*/
module Words {

  const TWO64: nat := 0x1_0000_0000_0000_0000

  type Word = x: nat | x < 0x1_0000_0000_0000_0000

  function Add(x: Word, y: Word): Word {
    (x + y) % 0x1_0000_0000_0000_0000
  }

  function Sub(x: Word, y: Word): Word {
    (x - y) % 0x1_0000_0000_0000_0000
  }

  lemma AddSub(x: Word, y: Word)
    ensures Sub(Add(x, y), y) == x
    ensures Add(Sub(x, y), y) == x
  {
  }

  lemma AddAssoc(x: Word, y: Word, z: Word)
    ensures Add(Add(x, y), z) == Add(x, Add(y, z))
    ensures Add(x, y) == Add(y, x)
  {
  }

  /** Adding two numbers that fit together is one addition. */
  lemma AddSum(x: Word, y: Word, z: Word)
    requires y + z < TWO64
    ensures Add(Add(x, y), z) == Add(x, y + z)
  {
  }

  lemma AddInjective(x: Word, y: Word, z: Word)
    requires Add(x, y) == Add(x, z)
    ensures y == z
  {
    AddAssoc(x, y, 0);
    AddAssoc(x, z, 0);
    AddSub(y, x);
    AddSub(z, x);
  }

  // ---------- exclusive-or ----------

  function XorBits(x: nat, y: nat): nat {
    if x == 0 && y == 0 then 0 else 2 * XorBits(x / 2, y / 2) + (x % 2 + y % 2) % 2
  }

  lemma {:induction false} XorBound(x: nat, y: nat, n: nat)
    requires x < Pow2(n) && y < Pow2(n)
    ensures XorBits(x, y) < Pow2(n)
  {
    if n > 0 {
      XorBound(x / 2, y / 2, n - 1);
    }
  }

  function Xor(x: Word, y: Word): Word {
    Pow2Sixty4();
    XorBound(x, y, 64);
    XorBits(x, y)
  }

  lemma XorStep(x: nat, y: nat)
    ensures XorBits(x, y) == 2 * XorBits(x / 2, y / 2) + (x % 2 + y % 2) % 2
    ensures XorBits(x, y) / 2 == XorBits(x / 2, y / 2)
    ensures XorBits(x, y) % 2 == (x % 2 + y % 2) % 2
  {
  }

  lemma {:induction false} XorBitsUndo(x: nat, y: nat)
    ensures XorBits(XorBits(x, y), y) == x
    decreases x + y
  {
    if x != 0 || y != 0 {
      hide XorBits;
      var z := XorBits(x, y);
      XorStep(x, y);
      XorBitsUndo(x / 2, y / 2);
      XorStep(z, y);
      BitTwice(x % 2, y % 2);
    }
  }

  lemma BitTwice(b: nat, c: nat)
    requires b < 2 && c < 2
    ensures ((b + c) % 2 + c) % 2 == b
  {
  }

  lemma XorXor(x: Word, y: Word)
    ensures Xor(Xor(x, y), y) == x
  {
    XorBitsUndo(x, y);
  }

  // ---------- rotation ----------

  function Pow2(n: nat): (p: nat)
    ensures p >= 1
  {
    if n == 0 then 1 else 2 * Pow2(n - 1)
  }

  lemma {:induction false} Pow2Sum(m: nat, n: nat)
    ensures Pow2(m) * Pow2(n) == Pow2(m + n)
  {
    if m > 0 {
      Pow2Sum(m - 1, n);
      assert Pow2(m) * Pow2(n) == 2 * (Pow2(m - 1) * Pow2(n));
    }
  }

  lemma Pow2Sixty4()
    ensures Pow2(64) == TWO64
  {
    assert Pow2(8) == 256;
    Pow2Square(8, 256);
    Pow2Square(16, 0x1_0000);
    Pow2Square(32, 0x1_0000_0000);
  }

  lemma Pow2Square(n: nat, p: nat)
    requires Pow2(n) == p
    ensures Pow2(n + n) == p * p
  {
    Pow2Sum(n, n);
  }

  /** x cut into a quotient and a remainder by a, the two then changing places. */
  function Exchange(x: nat, a: nat, b: nat): nat
    requires a > 0
  {
    (x % a) * b + x / a
  }

  lemma ExchangeBound(x: nat, a: nat, b: nat)
    requires a > 0 && x < a * b
    ensures x / a < b && Exchange(x, a, b) < a * b
  {
    DivBelow(x, a, b);
    MulAdd(x % a, x / a, a, b);
  }

  lemma ExchangeUndo(x: nat, a: nat, b: nat)
    requires a > 0 && b > 0 && x < a * b
    ensures Exchange(Exchange(x, a, b), b, a) == x
  {
    ExchangeBound(x, a, b);
    DivModOf(x % a, x / a, b);
    Rejoined(x, a);
  }

  lemma Rejoined(x: nat, a: nat)
    requires a > 0
    ensures (x / a) * a + x % a == x
  {
  }

  /** Left-rotate x by k bits: the low 64-k bits move up by k, the high k bits go below them. */
  function Rot64(x: Word, k: nat): Word
    requires 0 < k < 64
  {
    RotSplit(k);
    ExchangeBound(x, Pow2(64 - k), Pow2(k));
    Exchange(x, Pow2(64 - k), Pow2(k))
  }

  lemma RotSplit(k: nat)
    requires k <= 64
    ensures Pow2(64 - k) * Pow2(k) == TWO64
  {
    Pow2Sixty4();
    Pow2Sum(64 - k, k);
  }

  lemma RotUndo(x: Word, k: nat)
    requires 0 < k < 64
    ensures Rot64(Rot64(x, k), 64 - k) == x
  {
    RotSplit(k);
    ExchangeUndo(x, Pow2(64 - k), Pow2(k));
  }

  lemma DivBelow(x: nat, a: nat, b: nat)
    requires a > 0 && x < a * b
    ensures x / a < b
  {
    if x / a >= b {
      MulMono(b, x / a, a);
    }
  }

  lemma MulMono(x: nat, y: nat, a: nat)
    requires x <= y
    ensures x * a <= y * a
  {
  }

  lemma MulAdd(l: nat, h: nat, a: nat, b: nat)
    requires l < a && h < b
    ensures l * b + h < a * b
  {
    MulMono(l + 1, a, b);
  }

  /** Quotient and remainder of l * b + h. */
  lemma DivModOf(l: nat, h: nat, b: nat)
    requires h < b
    ensures (l * b + h) / b == l && (l * b + h) % b == h
  {
    var y := l * b + h;
    var q, r := y / b, y % b;
    assert y == q * b + r;
    if q < l {
      MulMono(q + 1, l, b);
    } else if q > l {
      MulMono(l + 1, q, b);
    }
  }

  // ---------- bit by bit ----------

  /** Bit i of x, counted from the lowest. */
  function Bit(x: nat, i: nat): (b: nat)
    ensures b < 2
  {
    if i == 0 then x % 2 else Bit(x / 2, i - 1)
  }

  lemma {:induction false} XorBitsBitwise(x: nat, y: nat, i: nat)
    ensures Bit(XorBits(x, y), i) == if Bit(x, i) == Bit(y, i) then 0 else 1
    decreases i
  {
    XorStep(x, y);
    hide XorBits;
    if i > 0 {
      XorBitsBitwise(x / 2, y / 2, i - 1);
    }
  }

  /** A bit of the exclusive-or is set exactly if one of the two bits is. */
  lemma XorBitwise(x: Word, y: Word, i: nat)
    ensures Bit(Xor(x, y), i) == if Bit(x, i) == Bit(y, i) then 0 else 1
  {
    XorBitsBitwise(x, y, i);
  }

  /** The bits of l * 2^n + h are those of h, and above them those of l. */
  lemma {:induction false} JoinedBits(l: nat, h: nat, n: nat, i: nat)
    requires h < Pow2(n)
    ensures Bit(l * Pow2(n) + h, i) == if i < n then Bit(h, i) else Bit(l, i - n)
    decreases n
  {
    if n > 0 {
      HalfJoined(l, h, n);
      if i > 0 {
        JoinedBits(l, h / 2, n - 1, i - 1);
      }
    }
  }

  lemma HalfJoined(l: nat, h: nat, n: nat)
    requires n > 0 && h < Pow2(n)
    ensures (l * Pow2(n) + h) / 2 == l * Pow2(n - 1) + h / 2 && (l * Pow2(n) + h) % 2 == h % 2
    ensures h / 2 < Pow2(n - 1)
  {
    var p := l * Pow2(n - 1);
    assert l * Pow2(n) == 2 * p;
    assert (2 * p + h) / 2 == p + h / 2;
  }

  lemma ExchangeParts(x: nat, a: nat, b: nat) returns (l: nat, h: nat)
    requires a > 0 && x < a * b
    ensures l < a && h < b && x == h * a + l && Exchange(x, a, b) == l * b + h
  {
    l, h := x % a, x / a;
    DivBelow(x, a, b);
    Rejoined(x, a);
  }

  lemma RotIsExchange(x: Word, k: nat)
    requires 0 < k < 64
    ensures Rot64(x, k) == Exchange(x, Pow2(64 - k), Pow2(k))
  {
    hide Exchange, Pow2;
  }

  /** The two parts of a word that change places. */
  lemma RotParts(x: Word, k: nat) returns (l: nat, h: nat)
    requires 0 < k < 64
    ensures l < Pow2(64 - k) && h < Pow2(k)
    ensures x == h * Pow2(64 - k) + l && Rot64(x, k) == l * Pow2(k) + h
  {
    hide Exchange, Pow2, Rot64;
    RotSplit(k);
    RotIsExchange(x, k);
    l, h := ExchangeParts(x, Pow2(64 - k), Pow2(k));
  }

  /** A rotation moves bit i to bit i + k, and what would leave at the top comes in at the bottom. */
  lemma RotBitwise(x: Word, k: nat, i: nat)
    requires 0 < k < 64 && i < 64
    ensures Bit(Rot64(x, k), i) == if i < k then Bit(x, i + 64 - k) else Bit(x, i - k)
  {
    hide *;
    var l, h := RotParts(x, k);
    JoinedBits(l, h, k, i);
    JoinedBits(h, l, 64 - k, if i < k then i + 64 - k else i - k);
  }
}
