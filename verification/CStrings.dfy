/**
 Decimal printing into C strings without the C library (asstrlen, asstrcpy, asNumDigits and asitoa in
 pxr/base/arch/stackTrace.cpp). A char buffer is an array; a constant C string is a sequence that contains
 a NUL, of which only the characters in front of the first NUL count.
*/
module CStrings {
  import opened Basics

  const LONG_MIN: int := -0x8000_0000_0000_0000
  const LONG_MAX: int := 0x7fff_ffff_ffff_ffff

  // ---------- C strings ----------

  /** Index of the first NUL. */
  function Length(s: seq<char>): (n: nat)
    requires '\0' in s
    ensures n < |s| && s[n] == '\0' && forall k :: 0 <= k < n ==> s[k] != '\0'
  {
    if s[0] == '\0' then 0
    else
      assert s == [s[0]] + s[1..];
      1 + Length(s[1..])
  }

  /** The string that a pointer to s stands for. */
  function Text(s: seq<char>): string
    requires '\0' in s
  {
    s[..Length(s)]
  }

  lemma TextAt(before: string, after: seq<char>)
    requires '\0' !in before
    ensures Text(before + ['\0'] + after) == before
  {
    var s := before + ['\0'] + after;
    assert s[|before|] == '\0';
    assert s[..|before|] == before;
    assert forall k :: 0 <= k < |before| ==> s[k] == before[k];
  }

  /** None is the null pointer. */
  method AsStrLen(p: Option<seq<char>>) returns (result: nat)
    requires p.Some? ==> '\0' in p.value
    ensures result == if p.None? then 0 else |Text(p.value)|
  {
    result := 0;
    if p.None? {
      return;
    }
    var s := p.value;
    while s[result] != '\0'
      invariant result <= Length(s)
      decreases |s| - result
    {
      assert result < Length(s);
      result := result + 1;
    }
  }

  lemma Copied(was: seq<char>, now: seq<char>, at: nat, src: seq<char>, n: nat)
    requires n < |src| && src[n] == '\0' && at + n < |now| == |was|
    requires forall k :: 0 <= k <= n ==> now[at + k] == src[k]
    requires forall k :: 0 <= k < at || at + n < k < |was| ==> now[k] == was[k]
    ensures now == was[..at] + src[..n] + ['\0'] + was[at + n + 1..]
  {
    assert now[..at] == was[..at];
    assert now[at..at + n] == src[..n];
    assert now[at + n + 1..] == was[at + n + 1..];
    assert now == now[..at] + now[at..at + n] + [now[at + n]] + now[at + n + 1..];
  }

  /** Copies src to dst[at..] and returns the position of the NUL. */
  method AsStrCpy(dst: array<char>, at: nat, src: seq<char>) returns (end: nat)
    requires '\0' in src && at + |Text(src)| < dst.Length
    modifies dst
    ensures end == at + |Text(src)|
    ensures dst[..] == old(dst[..])[..at] + Text(src) + ['\0'] + old(dst[..])[end + 1..]
  {
    hide Length;
    var i: nat := 0;
    dst[at] := src[0];
    while src[i] != '\0'
      invariant i <= Length(src)
      invariant forall k :: 0 <= k <= i ==> dst[at + k] == src[k]
      invariant forall k :: 0 <= k < at || at + i < k < dst.Length ==> dst[k] == old(dst[k])
      decreases |src| - i
    {
      i := i + 1;
      dst[at + i] := src[i];
    }
    end := at + i;
    Copied(old(dst[..]), dst[..], at, src, i);
  }

  // ---------- decimal numbers ----------

  function Digit(d: nat): (c: char)
    requires d < 10
    ensures '0' <= c <= '9' && c as int - '0' as int == d
  {
    "0123456789"[d]
  }

  /** The digits of n, without leading zeros. */
  function Digits(n: nat): (s: string)
    ensures s != ""
  {
    if n < 10 then [Digit(n)] else Digits(n / 10) + [Digit(n % 10)]
  }

  /** The decimal representation of x. */
  function Decimal(x: int): string {
    if x < 0 then "-" + Digits(-x) else Digits(x)
  }

  /** What a string of digits stands for: each digit weighs ten times the one after it. */
  function Value(s: string): nat
    requires forall i :: 0 <= i < |s| ==> '0' <= s[i] <= '9'
  {
    if s == "" then 0 else 10 * Value(s[..|s| - 1]) + (s[|s| - 1] as int - '0' as int)
  }

  predicate IsNumeral(s: string) {
    s != "" && forall i :: 0 <= i < |s| ==> '0' <= s[i] <= '9'
  }

  /** Reading a decimal representation, as strtol would; None for anything else. */
  function Read(s: string): (r: Option<int>) {
    if IsNumeral(s) then Some(Value(s))
    else if s != "" && s[0] == '-' && IsNumeral(s[1..]) then var v: int := Value(s[1..]); Some(-v)
    else None
  }

  lemma OneMoreRead(front: string, d: nat)
    requires IsNumeral(front) && d < 10
    ensures IsNumeral(front + [Digit(d)]) && Value(front + [Digit(d)]) == 10 * Value(front) + d
  {
    var s := front + [Digit(d)];
    assert s[..|s| - 1] == front;
  }

  lemma {:induction false} ReadDigits(n: nat)
    ensures IsNumeral(Digits(n)) && Value(Digits(n)) == n
  {
    if n >= 10 {
      ReadDigits(n / 10);
      hide Value, Digit, IsNumeral;
      OneMoreRead(Digits(n / 10), n % 10);
    } else {
      assert Digits(n)[..0] == "";
    }
  }

  /** What is printed reads back as the number printed. */
  lemma ReadsBack(x: int)
    ensures Read(Decimal(x)) == Some(x)
  {
    hide Digits, Value;
    if x < 0 {
      ReadDigits(-x);
      assert Decimal(x)[1..] == Digits(-x) && Decimal(x)[0] == '-';
    } else {
      ReadDigits(x);
    }
  }

  /** Different numbers print differently. */
  lemma PrintsDistinctly(x: int, y: int)
    requires Decimal(x) == Decimal(y)
    ensures x == y
  {
    ReadsBack(x);
    ReadsBack(y);
  }

  lemma {:induction false} ShortestDigits(n: nat, s: string)
    requires IsNumeral(s) && Value(s) == n
    ensures |Digits(n)| <= |s|
  {
    var front := s[..|s| - 1];
    if front != "" {
      ShortestDigits(n / 10, front);
    } else {
      assert Value(front) == 0;
    }
  }

  /** No other numeral for a number is shorter: there are no leading zeros. */
  lemma ShortestDecimal(x: int, s: string)
    requires Read(s) == Some(x)
    ensures |Decimal(x)| <= |s|
  {
    hide Digits, Value;
    ShortestDigits(if x < 0 then -x else x, if IsNumeral(s) then s else s[1..]);
  }

  lemma {:induction false} DigitsGrow(m: nat, n: nat)
    requires m <= n
    ensures |Digits(m)| <= |Digits(n)|
    decreases n
  {
    if m >= 10 {
      DigitsGrow(m / 10, n / 10);
    }
  }

  lemma DecimalHasNoNul(x: int)
    ensures '\0' !in Decimal(x)
  {
    ReadDigits(if x < 0 then -x else x);
  }

  /** How many characters the decimal representation takes; the smallest long cannot be negated. */
  method AsNumDigits(x0: int) returns (result: nat)
    requires LONG_MIN < x0 <= LONG_MAX
    ensures result == |Decimal(x0)|
  {
    var x := x0;
    result := 1;
    if x < 0 {
      x := -x;
      result := result + 1;
    }
    while x >= 10
      invariant x >= 0 && result - 1 + |Digits(x)| == |Decimal(x0)|
    {
      result := result + 1;
      x := x / 10;
    }
  }

  /** The digits are written backwards: the last ones are there, the first ones are those of what is left of x. */
  ghost predicate HalfWritten(a: seq<char>, start: nat, pos: nat, end: nat, x: nat, all: string) {
    && start <= pos <= end < |a| && end == start + |all|
    && a[pos..end] == all[pos - start..]
    && all[..pos - start] == (if x == 0 then "" else Digits(x))
  }

  lemma OneMoreDigit(a: seq<char>, start: nat, pos: nat, end: nat, x: nat, all: string)
    requires x > 0 && HalfWritten(a, start, pos, end, x, all)
    ensures pos > start && end < |a| && HalfWritten(a[pos - 1 := Digit(x % 10)], start, pos - 1, end, x / 10, all)
  {
    var k := pos - start;
    var before := all[..k];
    assert before == Digits(x) && before[k - 1] == Digit(x % 10);
    assert all[k - 1] == before[k - 1];
    assert all[..k - 1] == before[..k - 1];
    if x < 10 {
      assert before[..k - 1] == "";
    } else {
      assert before[..k - 1] == Digits(x / 10);
    }
    var b := a[pos - 1 := Digit(x % 10)];
    assert b[pos - 1..end] == [b[pos - 1]] + a[pos..end];
    assert all[k - 1..] == [all[k - 1]] + all[k..];
  }

  /** Nothing in front of start or behind end differs, and end holds the NUL. */
  ghost predicate Kept(a: seq<char>, was: seq<char>, start: nat, end: nat) {
    && start <= end < |a| == |was| && a[end] == '\0'
    && a[..start] == was[..start] && a[end + 1..] == was[end + 1..]
  }

  lemma KeptByUpdate(a: seq<char>, was: seq<char>, start: nat, end: nat, i: nat, c: char)
    requires Kept(a, was, start, end) && start <= i < end
    ensures Kept(a[i := c], was, start, end)
  {
  }

  lemma AllWritten(a: seq<char>, was: seq<char>, start: nat, pos: nat, end: nat, all: string)
    requires Kept(a, was, start, end) && HalfWritten(a, start, pos, end, 0, all)
    ensures a == was[..start] + all + ['\0'] + was[end + 1..]
  {
    assert a == a[..start] + a[start..end] + [a[end]] + a[end + 1..];
  }

  lemma NothingWritten(a: seq<char>, start: nat, end: nat, x: nat, all: string)
    requires all == Digits(x) && end == start + |all| < |a|
    ensures x > 0 ==> HalfWritten(a, start, end, end, x, all)
    ensures x == 0 ==> end > start && HalfWritten(a[end - 1 := '0'], start, end - 1, end, 0, all)
  {
    hide Digits;
    assert all[..|all|] == all && all[|all|..] == "";
    if x == 0 {
      ZeroIsOneDigit();
      assert all[0..] == "0" && a[end - 1 := '0'][end - 1..end] == "0";
    }
  }

  lemma ZeroIsOneDigit()
    ensures Digits(0) == "0"
  {
  }

  /** The part of asitoa after the sign: the NUL first, then the digits backwards from it. */
  method WriteDigits(s: array<char>, start: nat, x0: int) returns (end: nat)
    requires 0 <= x0 <= LONG_MAX && start + |Digits(x0)| < s.Length
    modifies s
    ensures end == start + |Digits(x0)|
    ensures s[..] == old(s[..])[..start] + Digits(x0) + ['\0'] + old(s[..])[end + 1..]
  {
    hide Digits, Digit, HalfWritten;
    var x := x0;
    ghost var all := Digits(x);
    var n := AsNumDigits(x);
    end := start + n;
    s[end] := '\0';
    var pos: nat := end;
    NothingWritten(s[..], start, end, x, all);
    if x == 0 {
      pos := pos - 1;
      s[pos] := '0';
    } else {
      hide Kept;
      while x != 0
        invariant x >= 0 && start <= pos <= end && Kept(s[..], old(s[..]), start, end)
        invariant HalfWritten(s[..], start, pos, end, x, all)
        decreases x
      {
        OneMoreDigit(s[..], start, pos, end, x, all);
        KeptByUpdate(s[..], old(s[..]), start, end, pos - 1, Digit(x % 10));
        ghost var before := s[..];
        pos := pos - 1;
        s[pos] := Digit(x % 10);
        assert s[..] == before[pos := Digit(x % 10)];
        x := x / 10;
      }
    }
    AllWritten(s[..], old(s[..]), start, pos, end, all);
  }

  lemma SignWritten(was: seq<char>, signed: seq<char>, now: seq<char>, at: nat, end: nat, digits: string)
    requires end == at + 1 + |digits| < |was| && signed == was[at := '-']
    requires now == signed[..at + 1] + digits + ['\0'] + signed[end + 1..]
    ensures now == was[..at] + ("-" + digits) + ['\0'] + was[end + 1..]
  {
    assert signed[..at + 1] == was[..at] + "-";
    assert signed[end + 1..] == was[end + 1..];
    assert was[..at] + "-" + digits == was[..at] + ("-" + digits);
  }

  lemma DecimalIs(x: int)
    ensures Decimal(x) == if x < 0 then "-" + Digits(-x) else Digits(x)
  {
  }

  /** Writes the decimal representation of x0 and a NUL to s[at..], and returns the position of the NUL. */
  method AsIToA(s: array<char>, at: nat, x0: int) returns (end: nat)
    requires LONG_MIN < x0 <= LONG_MAX && at + |Decimal(x0)| < s.Length
    modifies s
    ensures end == at + |Decimal(x0)|
    ensures s[..] == old(s[..])[..at] + Decimal(x0) + ['\0'] + old(s[..])[end + 1..]
  {
    hide Digits, Decimal;
    ghost var was := s[..];
    var x := x0;
    DecimalIs(x);
    if x < 0 {
      x := -x;
      s[at] := '-';
      ghost var signed := s[..];
      end := WriteDigits(s, at + 1, x);
      SignWritten(was, signed, s[..], at, end, Digits(x));
    } else {
      end := WriteDigits(s, at, x);
    }
  }
}
