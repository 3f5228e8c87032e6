/**
 Globs turned into regular expressions (_Replace and _GlobToRegex in pxr/base/arch/regex.cpp). Three
 replacement passes over the string are one translation, and the result, read as an extended regular
 expression (section 9.4 of the Base Definitions of POSIX.1-2017), has the glob's meaning. Patterns are
 compiled so that "." and "*" never match a newline.
*/
module GlobRegex {
  import opened Basics
  import opened StringSearch

  // ---------- replacement ----------

  /** Every occurrence replaced, from the left, without looking at what has been put in. */
  function ReplaceAll(s: string, from: string, to: string): string
    requires from != ""
  {
    if s == "" then ""
    else if OccursAt(s, from, 0) then to + ReplaceAll(s[|from|..], from, to)
    else [s[0]] + ReplaceAll(s[1..], from, to)
  }

  /** The shift of occurrences between a string and its rest. */
  lemma OccursShift(s: string, from: string, pos: nat, k: nat)
    requires pos <= |s|
    ensures OccursAt(s[pos..], from, k) == OccursAt(s, from, pos + k)
  {
    if pos + k + |from| <= |s| {
      assert s[pos..][k..k + |from|] == s[pos + k..pos + k + |from|];
    }
  }

  lemma ReplaceSkipsOne(s: string, from: string, to: string)
    requires from != "" && s != "" && !OccursAt(s, from, 0)
    ensures ReplaceAll(s, from, to) == [s[0]] + ReplaceAll(s[1..], from, to)
  {
  }

  lemma Regroup(s: string, i: nat, more: string)
    requires 0 < i <= |s|
    ensures s[1..][i - 1..] == s[i..] && [s[0]] + (s[1..][..i - 1] + more) == s[..i] + more
  {
    assert [s[0]] + s[1..][..i - 1] == s[..i];
  }

  lemma {:induction false} ReplaceSkips(s: string, from: string, to: string, i: nat)
    requires from != "" && i <= |s|
    requires forall k :: 0 <= k < i ==> !OccursAt(s, from, k)
    ensures ReplaceAll(s, from, to) == s[..i] + ReplaceAll(s[i..], from, to)
    decreases i
  {
    hide ReplaceAll, OccursAt;
    if i == 0 {
      assert s[0..] == s;
    } else {
      forall k | 0 <= k < i - 1
        ensures !OccursAt(s[1..], from, k)
      {
        OccursShift(s, from, 1, k);
      }
      ReplaceSkips(s[1..], from, to, i - 1);
      ReplaceSkipsOne(s, from, to);
      Regroup(s, i, ReplaceAll(s[i..], from, to));
    }
  }

  /** One turn of the replacement loop. */
  lemma ReplaceStep(s: string, from: string, to: string, pos: nat, at: nat)
    requires from != "" && pos <= at && OccursAt(s, from, at)
    requires forall k :: pos <= k < at ==> !OccursAt(s, from, k)
    ensures ReplaceAll(s[pos..], from, to) == s[pos..at] + to + ReplaceAll(s[at + |from|..], from, to)
  {
    var rest := s[pos..];
    forall k | 0 <= k < at - pos
      ensures !OccursAt(rest, from, k)
    {
      OccursShift(s, from, pos, k);
    }
    ReplaceSkips(rest, from, to, at - pos);
    OccursShift(s, from, at, 0);
    assert rest[..at - pos] == s[pos..at];
    assert rest[at - pos..] == s[at..];
    assert s[at..][|from|..] == s[at + |from|..];
  }

  lemma Splice(x: string, y: string, z: string)
    ensures (x + y + z)[..|x| + |y|] == x + y && (x + y + z)[|x| + |y|..] == z
  {
  }

  lemma Assoc(x: string, y: string, z: string)
    ensures (x + y) + z == x + (y + z)
  {
  }

  /** The same in terms of the string after the turn: what has been put in is not looked at again. */
  lemma ReplaceTurn(s: string, from: string, to: string, pos: nat, at: nat, s': string)
    requires from != "" && pos <= at && at + |from| <= |s| && OccursAt(s, from, at)
    requires forall k :: pos <= k < at ==> !OccursAt(s, from, k)
    requires s' == s[..at] + to + s[at + |from|..]
    ensures |s'| - (at + |to|) == |s| - (at + |from|) >= 0
    ensures s'[..at + |to|] + ReplaceAll(s'[at + |to|..], from, to) == s[..pos] + ReplaceAll(s[pos..], from, to)
  {
    ReplaceStep(s, from, to, pos, at);
    hide ReplaceAll;
    hide OccursAt;
    Splice(s[..at], to, s[at + |from|..]);
    Assoc(s[..pos], s[pos..at], to);
    Assoc(s[..pos], s[pos..at] + to, ReplaceAll(s[at + |from|..], from, to));
    assert s[..at] == s[..pos] + s[pos..at];
  }

  method Replace(s0: string, from: string, to: string) returns (s: string)
    requires from != ""
    ensures s == ReplaceAll(s0, from, to)
  {
    hide ReplaceAll;
    s := s0;
    var pos: nat := 0;
    var found := Find(s, from, pos);
    assert s[0..] == s0 && s[..0] == "";
    while found != NPOS
      invariant pos <= |s|
      invariant found == NPOS || (pos <= found && OccursAt(s, from, found))
      invariant forall k :: pos <= k && (found == NPOS || k < found) ==> !OccursAt(s, from, k)
      invariant s[..pos] + ReplaceAll(s[pos..], from, to) == ReplaceAll(s0, from, to)
      decreases |s| - pos
    {
      var s' := s[..found] + to + s[found + |from|..];
      ReplaceTurn(s, from, to, pos, found, s');
      s, pos := s', found + |to|;
      found := Find(s, from, pos);
    }
    NothingLeft(s, from, to, pos);
    assert s[..pos] + s[pos..] == s;
  }

  lemma NothingLeft(s: string, from: string, to: string, pos: nat)
    requires from != "" && pos <= |s|
    requires forall k :: pos <= k ==> !OccursAt(s, from, k)
    ensures ReplaceAll(s[pos..], from, to) == s[pos..]
  {
    var rest := s[pos..];
    forall k | 0 <= k < |rest|
      ensures !OccursAt(rest, from, k)
    {
      OccursShift(s, from, pos, k);
    }
    ReplaceSkips(rest, from, to, |rest|);
    assert rest[..|rest|] == rest && rest[|rest|..] == "";
  }

  // ---------- the translation ----------

  /** What a character of a glob becomes. */
  function TranslateChar(c: char): string {
    if c == '.' then "\\."
    else if c == '*' then ".*"
    else if c == '?' then "."
    else [c]
  }

  function Translate(p: string): string {
    if p == "" then "" else TranslateChar(p[0]) + Translate(p[1..])
  }

  /** The three passes, one after the other. */
  function ThreePasses(p: string): string {
    ReplaceAll(ReplaceAll(ReplaceAll(p, ".", "\\."), "*", ".*"), "?", ".")
  }

  lemma {:induction false} ReplaceCharConcat(s: string, t: string, c: char, to: string)
    ensures ReplaceAll(s + t, [c], to) == ReplaceAll(s, [c], to) + ReplaceAll(t, [c], to)
  {
    if s == "" {
      assert s + t == t;
    } else {
      hide ReplaceAll;
      ReplaceCharConcat(s[1..], t, c, to);
      assert (s + t)[1..] == s[1..] + t;
      ReplaceCharFirst(s, c, to);
      ReplaceCharFirst(s + t, c, to);
      Assoc(if s[0] == c then to else [s[0]], ReplaceAll(s[1..], [c], to), ReplaceAll(t, [c], to));
    }
  }

  lemma ReplaceCharFirst(s: string, c: char, to: string)
    requires s != ""
    ensures ReplaceAll(s, [c], to) == (if s[0] == c then to else [s[0]]) + ReplaceAll(s[1..], [c], to)
  {
    assert s[0..1] == [s[0]];
  }

  /** The passes do not disturb one another: together they translate character by character. */
  lemma {:induction false} PassesTranslate(p: string)
    ensures ThreePasses(p) == Translate(p)
  {
    if p != "" {
      var c, rest := p[0], p[1..];
      PassesTranslate(rest);
      PassesOnChar(c);
      PassesConcat([c], rest);
      assert [c] + rest == p;
    }
  }

  lemma PassesConcat(s: string, t: string)
    ensures ThreePasses(s + t) == ThreePasses(s) + ThreePasses(t)
  {
    var s1, t1 := ReplaceAll(s, ".", "\\."), ReplaceAll(t, ".", "\\.");
    ReplaceCharConcat(s, t, '.', "\\.");
    ReplaceCharConcat(s1, t1, '*', ".*");
    ReplaceCharConcat(ReplaceAll(s1, "*", ".*"), ReplaceAll(t1, "*", ".*"), '?', ".");
  }

  lemma ReplaceOne(x: char, c: char, to: string)
    ensures ReplaceAll([x], [c], to) == if x == c then to else [x]
  {
    ReplaceCharFirst([x], c, to);
    assert [x][1..] == "";
  }

  lemma ReplaceTwo(x: char, y: char, c: char, to: string)
    ensures x != c && y != c ==> ReplaceAll([x, y], [c], to) == [x, y]
  {
    ReplaceCharConcat([x], [y], c, to);
    ReplaceOne(x, c, to);
    ReplaceOne(y, c, to);
    assert [x] + [y] == [x, y];
  }

  lemma PassesOnChar(c: char)
    ensures ThreePasses([c]) == TranslateChar(c)
  {
    ReplaceOne(c, '.', "\\.");
    ReplaceOne(c, '*', ".*");
    ReplaceOne(c, '?', ".");
    assert "\\." == ['\\', '.'] && ".*" == ['.', '*'];
    ReplaceTwo('\\', '.', '*', ".*");
    ReplaceTwo('\\', '.', '?', ".");
    ReplaceTwo('.', '*', '?', ".");
  }

  method GlobToRegex(pattern: string) returns (regex: string)
    ensures regex == Translate(pattern)
  {
    regex := Replace(pattern, ".", "\\.");
    regex := Replace(regex, "*", ".*");
    regex := Replace(regex, "?", ".");
    PassesTranslate(pattern);
  }

  // ---------- what globs and regular expressions match ----------

  predicate NoNewline(w: string) {
    forall i :: 0 <= i < |w| ==> w[i] != '\n'
  }

  /** `*` stands for any text within a line, `?` for one character of it, all others for themselves. */
  ghost predicate GlobMatches(p: string, w: string)
    decreases |p|
  {
    if p == "" then w == ""
    else if p[0] == '*' then exists k: nat :: k <= |w| && NoNewline(w[..k]) && GlobMatches(p[1..], w[k..])
    else w != "" && (if p[0] == '?' then w[0] != '\n' else w[0] == p[0]) && GlobMatches(p[1..], w[1..])
  }

  datatype Regex = Empty | Literal(c: char) | AnyChar | Concat(first: Regex, second: Regex) | Star(body: Regex)

  /** The language of a regular expression. */
  ghost predicate Denotes(r: Regex, w: string)
    decreases r, |w|
  {
    match r
    case Empty => w == ""
    case Literal(c) => w == [c]
    case AnyChar => |w| == 1 && w[0] != '\n'
    case Concat(r1, r2) => exists k: nat :: k <= |w| && Denotes(r1, w[..k]) && Denotes(r2, w[k..])
    case Star(body) => w == "" || exists k: nat :: 0 < k <= |w| && Denotes(body, w[..k]) && Denotes(r, w[k..])
  }

  /** The characters that are special in an extended regular expression outside brackets; ")" is so only behind "(". */
  predicate Special(c: char) {
    c in ".[\\(*+?{|^$"
  }

  /** The fragment of extended regular expressions made of literals, escapes, "." and the suffixes "*" and "+". */
  function Parse(s: string): Option<Regex>
    decreases |s|
  {
    if s == "" then Some(Empty)
    else
      var n := if s[0] == '\\' then 2 else 1;
      if |s| < n || (s[0] != '\\' && s[0] != '.' && Special(s[0])) then None
      else
        var atom := if s[0] == '\\' then Literal(s[1]) else if s[0] == '.' then AnyChar else Literal(s[0]);
        if |s| > n && s[n] == '*' then Sequence(Star(atom), Parse(s[n + 1..]))
        else if |s| > n && s[n] == '+' then Sequence(Concat(atom, Star(atom)), Parse(s[n + 1..]))
        else Sequence(atom, Parse(s[n..]))
  }

  function Sequence(r: Regex, rest: Option<Regex>): Option<Regex> {
    if rest.None? then None else Some(Concat(r, rest.value))
  }

  /** The pattern's only special characters are the glob's own and ".". */
  predicate Plain(p: string) {
    forall i :: 0 <= i < |p| ==> Special(p[i]) ==> p[i] == '.' || p[i] == '*' || p[i] == '?'
  }

  lemma {:induction false} StarOfAny(w: string)
    ensures Denotes(Star(AnyChar), w) <==> NoNewline(w)
    decreases |w|
  {
    if w != "" {
      StarOfAny(w[1..]);
      assert w == [w[0]] + w[1..];
      if NoNewline(w) {
        assert w[..1] == [w[0]];
        assert Denotes(AnyChar, w[..1]) && Denotes(Star(AnyChar), w[1..]);
      }
      if Denotes(Star(AnyChar), w) {
        var k: nat :| 0 < k <= |w| && Denotes(AnyChar, w[..k]) && Denotes(Star(AnyChar), w[k..]);
        assert k == 1;
      }
    }
  }

  /** No translation starts with a suffix operator, so nothing is attached to what comes before it. */
  lemma TranslateStart(p: string)
    requires Plain(p)
    ensures Translate(p) != "" ==> Translate(p)[0] != '*' && Translate(p)[0] != '+'
  {
    if p != "" {
      assert Special('*') && Special('+');
    }
  }

  /** The piece of the regular expression that a character of the glob becomes. */
  function Piece(c: char): Regex {
    if c == '*' then Star(AnyChar) else if c == '?' then AnyChar else Literal(c)
  }

  lemma ParseTranslate(p: string)
    requires Plain(p) && p != ""
    ensures Parse(Translate(p)) == Sequence(Piece(p[0]), Parse(Translate(p[1..])))
  {
    var c, rest := p[0], Translate(p[1..]);
    assert Plain(p[1..]);
    TranslateStart(p[1..]);
    var s := Translate(p);
    if c == '.' {
      assert s[2..] == rest;
    } else if c == '*' {
      assert s[2..] == rest;
    } else if c == '?' {
      assert s[1..] == rest;
    } else {
      assert Special('\\') && s[1..] == rest;
    }
  }

  /** The regular expression denotes exactly the glob's language. */
  lemma {:induction false} TranslationDenotes(p: string, w: string)
    requires Plain(p)
    ensures Parse(Translate(p)).Some?
    ensures Denotes(Parse(Translate(p)).value, w) <==> GlobMatches(p, w)
    decreases |p|
  {
    if p != "" {
      var rest := p[1..];
      assert Plain(rest);
      ParseTranslate(p);
      TranslationDenotes(rest, "");
      var r := Parse(Translate(rest)).value;
      forall k: nat | k <= |w|
        ensures Denotes(r, w[k..]) <==> GlobMatches(rest, w[k..])
      {
        TranslationDenotes(rest, w[k..]);
      }
      if p[0] == '*' {
        forall k: nat | k <= |w|
          ensures Denotes(Star(AnyChar), w[..k]) <==> NoNewline(w[..k])
        {
          StarOfAny(w[..k]);
        }
      } else {
        OneCharacter(Piece(p[0]), r, w);
      }
    }
  }

  lemma OneCharacter(piece: Regex, r: Regex, w: string)
    requires piece.Literal? || piece.AnyChar?
    ensures Denotes(Concat(piece, r), w) <==> w != "" && Denotes(piece, w[..1]) && Denotes(r, w[1..])
  {
  }

  // ---------- matching ----------

  /** regexec: the expression matches somewhere in the query. */
  ghost predicate Searches(r: Regex, query: string) {
    exists i: nat, j: nat :: i <= j <= |query| && Denotes(r, query[i..j])
  }

  ghost predicate GlobSearches(p: string, query: string) {
    exists i: nat, j: nat :: i <= j <= |query| && GlobMatches(p, query[i..j])
  }

  /** What c_str() gives to a reader: the text up to the first NUL. */
  function CString(s: string): string {
    if s == "" || s[0] == '\0' then "" else [s[0]] + CString(s[1..])
  }

  lemma {:induction false} CStringConcat(s: string, t: string)
    requires '\0' !in s
    ensures CString(s + t) == s + CString(t)
  {
    if s == "" {
      assert s + t == t;
    } else {
      assert (s + t)[1..] == s[1..] + t;
      CStringConcat(s[1..], t);
    }
  }

  /** Cutting the translation is translating what is left of the pattern when it is cut. */
  lemma {:induction false} CStringOfTranslation(p: string)
    ensures CString(Translate(p)) == Translate(CString(p))
  {
    if p != "" {
      if p[0] == '\0' {
        assert Translate(p)[0] == '\0';
      } else {
        CStringOfTranslation(p[1..]);
        CStringConcat(TranslateChar(p[0]), Translate(p[1..]));
        assert ([p[0]] + CString(p[1..]))[1..] == CString(p[1..]);
      }
    }
  }

  /** A compiled glob matches a query exactly if the glob matches some part of it, both up to their first NUL. */
  lemma GlobMatchesAnywhere(p: string, query: string)
    requires Plain(CString(p))
    ensures (var regex, glob, text := Parse(CString(Translate(p))), CString(p), CString(query);
             regex.Some? && (Searches(regex.value, text) <==> GlobSearches(glob, text)))
  {
    var glob, text := CString(p), CString(query);
    CStringOfTranslation(p);
    TranslationDenotes(glob, "");
    forall i: nat, j: nat | i <= j <= |text|
      ensures Denotes(Parse(Translate(glob)).value, text[i..j]) <==> GlobMatches(glob, text[i..j])
    {
      TranslationDenotes(glob, text[i..j]);
    }
  }

  // ---------- patterns with other special characters ----------

  /** Some text that the expression matches, as short as can be. */
  function Sample(r: Regex): string {
    match r
    case Empty => ""
    case Literal(c) => [c]
    case AnyChar => "a"
    case Concat(r1, r2) => Sample(r1) + Sample(r2)
    case Star(_) => ""
  }

  lemma {:induction false} SampleMatches(r: Regex)
    ensures Denotes(r, Sample(r))
  {
    if r.Concat? {
      SampleMatches(r.first);
      SampleMatches(r.second);
      var w, k := Sample(r), |Sample(r.first)|;
      assert w[..k] == Sample(r.first) && w[k..] == Sample(r.second);
    }
  }

  /** Every character weighs two, and a dot three. */
  function Weight(w: string): nat {
    if w == "" then 0 else (if w[0] == '.' then 3 else 2) + Weight(w[1..])
  }

  lemma {:induction false} WeightConcat(v: string, w: string)
    ensures Weight(v + w) == Weight(v) + Weight(w)
  {
    if v == "" {
      assert v + w == w;
    } else {
      assert (v + w)[1..] == v[1..] + w;
      WeightConcat(v[1..], w);
    }
  }

  /** The weight of the lightest text that the glob matches. */
  function GlobWeight(p: string): nat {
    if p == "" then 0 else (if p[0] == '*' then 0 else if p[0] == '.' then 3 else 2) + GlobWeight(p[1..])
  }

  lemma {:induction false} GlobMatchWeighs(p: string, w: string)
    requires GlobMatches(p, w)
    ensures Weight(w) >= GlobWeight(p)
    decreases |p|
  {
    if p != "" {
      if p[0] == '*' {
        var k: nat :| k <= |w| && NoNewline(w[..k]) && GlobMatches(p[1..], w[k..]);
        GlobMatchWeighs(p[1..], w[k..]);
        WeightConcat(w[..k], w[k..]);
        assert w[..k] + w[k..] == w;
      } else {
        GlobMatchWeighs(p[1..], w[1..]);
      }
    }
  }

  /** What a parsed text's sample weighs, or -1 if it cannot be parsed. */
  function ParsedWeight(s: string): (w: int)
    ensures w >= -1 && (w >= 0 <==> Parse(s).Some?)
  {
    if Parse(s).None? then -1 else Weight(Sample(Parse(s).value))
  }

  /** The translation asks for no more than the glob, and for less if a special character is in it. */
  predicate Light(p: string) {
    ParsedWeight(Translate(p)) <= GlobWeight(p) && (!Plain(p) ==> ParsedWeight(Translate(p)) < GlobWeight(p))
  }

  lemma SequenceWeighs(r: Regex, s: string, rest: string)
    requires Parse(s) == Sequence(r, Parse(rest))
    ensures ParsedWeight(s) == if ParsedWeight(rest) < 0 then -1 else Weight(Sample(r)) + ParsedWeight(rest)
  {
    hide Parse;
    if Parse(rest).Some? {
      WeightConcat(Sample(r), Sample(Parse(rest).value));
    }
  }

  /** An atom of n characters, and a suffix if there is one, in front of a translation. */
  lemma AtomWeighs(s: string, n: nat, atom: Regex, weight: nat, q: string)
    requires n == 1 || n == 2
    requires n <= |s| && s[n..] == Translate(q)
    requires (n == 2) == (s[0] == '\\')
    requires n == 1 ==> s[0] == '.' || !Special(s[0])
    requires atom == if n == 2 then Literal(s[1]) else if s[0] == '.' then AnyChar else Literal(s[0])
    requires weight == Weight(Sample(atom))
    requires Light(q) && (q != "" ==> Light(q[1..]))
    ensures ParsedWeight(s) <= weight + GlobWeight(q) && (!Plain(q) ==> ParsedWeight(s) < weight + GlobWeight(q))
  {
    NoStarFirst(q);
    if q != "" && q[0] == '+' {
      var rest := Translate(q[1..]);
      assert s[n + 1..] == Translate(q)[1..] == rest;
      assert s[n] == Translate(q)[0];
      SequenceWeighs(Concat(atom, Star(atom)), s, rest);
      WeightConcat(Sample(atom), "");
      assert Sample(atom) + "" == Sample(atom);
    } else {
      assert |s| > n ==> s[n] == Translate(q)[0];
      SequenceWeighs(atom, s, Translate(q));
    }
  }

  /** A translation starts with "+" only if the pattern does, and never with "*". */
  lemma NoStarFirst(q: string)
    ensures Translate(q) != "" ==> Translate(q)[0] != '*' && (Translate(q)[0] == '+' ==> q[0] == '+')
    ensures q != "" ==> Translate(q) != "" && (q[0] == '+' ==> Translate(q)[0] == '+')
  {
  }

  lemma WeighOne(c: char)
    ensures Weight([c]) == if c == '.' then 3 else 2
  {
    assert [c][1..] == "";
  }

  lemma EscapedDot(s: string, q: string)
    requires s == "\\" + TranslateChar('.') + Translate(q) && Light("?" + q)
    ensures ParsedWeight(s) <= 4 + GlobWeight(q)
  {
    var wild := "?" + q;
    assert wild[1..] == q && s[2..] == "." + Translate(q) == Translate(wild);
    assert GlobWeight(wild) == 2 + GlobWeight(q);
    WeighOne('\\');
    hide Translate, GlobWeight;
    SequenceWeighs(Literal('\\'), s, s[2..]);
  }

  lemma EscapedStar(s: string, q: string)
    requires s == "\\" + TranslateChar('*') + Translate(q) && Light(q)
    ensures ParsedWeight(s) <= GlobWeight(q)
  {
    assert s[3..] == Translate(q);
    hide Translate;
    SequenceWeighs(Star(Literal('.')), s, s[3..]);
  }

  lemma EscapedOther(s: string, d: char, q: string)
    requires d != '.' && d != '*' && s == "\\" + TranslateChar(d) + Translate(q)
    requires Light(q) && (q != "" ==> Light(q[1..]))
    ensures ParsedWeight(s) <= 3 + GlobWeight(q)
  {
    assert s[2..] == Translate(q);
    WeighOne(s[1]);
    hide Translate;
    AtomWeighs(s, 2, Literal(s[1]), Weight([s[1]]), q);
  }

  lemma EscapedText(p: string)
    requires |p| > 1 && p[0] == '\\'
    ensures Translate(p) == "\\" + TranslateChar(p[1]) + Translate(p[2..])
    ensures GlobWeight(p) == 2 + (if p[1] == '*' then 0 else if p[1] == '.' then 3 else 2) + GlobWeight(p[2..])
  {
    assert p[1..][1..] == p[2..];
    Assoc("\\", TranslateChar(p[1]), Translate(p[2..]));
  }

  /** A backslash of the pattern takes the next character of the translation along. */
  lemma EscapeWeighs(p: string)
    requires p != "" && p[0] == '\\'
    requires |p| > 1 ==> Light(p[2..]) && Light("?" + p[2..]) && (|p| > 2 ==> Light(p[2..][1..]))
    ensures ParsedWeight(Translate(p)) < GlobWeight(p)
  {
    if |p| == 1 {
      assert Translate(p[1..]) == "";
    } else {
      hide Translate, TranslateChar, GlobWeight, Light, ParsedWeight;
      EscapedText(p);
      if p[1] == '.' {
        EscapedDot(Translate(p), p[2..]);
      } else if p[1] == '*' {
        EscapedStar(Translate(p), p[2..]);
      } else {
        EscapedOther(Translate(p), p[1], p[2..]);
      }
    }
  }

  lemma AtomIsLight(p: string)
    requires p != "" && (p[0] == '.' || p[0] == '?' || !Special(p[0]))
    requires Light(p[1..]) && (|p| > 1 ==> Light(p[1..][1..]))
    ensures Light(p)
  {
    var c, q, s := p[0], p[1..], Translate(p);
    var n := if c == '.' then 2 else 1;
    var atom := if c == '?' then AnyChar else Literal(c);
    assert s[n..] == Translate(q);
    WeighOne(c);
    WeighOne('a');
    assert GlobWeight(p) == Weight(Sample(atom)) + GlobWeight(q);
    hide Translate, ParsedWeight, Weight, GlobWeight;
    AtomWeighs(s, n, atom, Weight(Sample(atom)), q);
    assert Plain(q) ==> Plain(p);
  }

  lemma StarIsLight(p: string)
    requires p != "" && p[0] == '*' && Light(p[1..])
    ensures Light(p)
  {
    var q, s := p[1..], Translate(p);
    assert s[2..] == Translate(q);
    NoStarFirst(q);
    SequenceWeighs(Star(AnyChar), s, s[2..]);
    assert Plain(q) ==> Plain(p);
  }

  /** Every other special character makes the translation end there. */
  lemma OthersAreLight(p: string)
    requires p != "" && Special(p[0]) && p[0] !in ".*?\\"
    ensures Light(p)
  {
  }

  lemma {:induction false} TranslationIsLight(p: string)
    ensures Light(p)
    decreases |p|
  {
    hide Light, Translate;
    if p == "" {
      EmptyIsLight();
    } else {
      TranslationIsLight(p[1..]);
      if |p| > 1 {
        TranslationIsLight(p[1..][1..]);
        assert p[1..][1..] == p[2..];
      }
      if p[0] == '\\' {
        if |p| > 1 {
          TranslationIsLight("?" + p[2..]);
          if |p| > 2 {
            TranslationIsLight(p[2..][1..]);
          }
        }
        EscapeIsLight(p);
      } else if p[0] == '*' {
        StarIsLight(p);
      } else if p[0] == '.' || p[0] == '?' || !Special(p[0]) {
        AtomIsLight(p);
      } else {
        OthersAreLight(p);
      }
    }
  }

  lemma EmptyIsLight()
    ensures Light("")
  {
  }

  lemma EscapeIsLight(p: string)
    requires p != "" && p[0] == '\\'
    requires |p| > 1 ==> Light(p[2..]) && Light("?" + p[2..]) && (|p| > 2 ==> Light(p[2..][1..]))
    ensures Light(p)
  {
    EscapeWeighs(p);
    hide Translate, GlobWeight, ParsedWeight;
  }

  ghost predicate SameLanguage(p: string, r: Regex) {
    forall w :: Denotes(r, w) <==> GlobMatches(p, w)
  }

  /** No groups, brackets, intervals, bars or anchors, which Parse gives up on. */
  predicate InSyntax(p: string) {
    forall i :: 0 <= i < |p| ==> p[i] !in "([{|^$"
  }

  /** Without those, the translation has the glob's meaning for exactly the patterns without "+" and backslash. */
  lemma SameLanguageIff(p: string)
    requires InSyntax(p)
    ensures (Parse(Translate(p)).Some? && SameLanguage(p, Parse(Translate(p)).value))
            <==> '+' !in p && '\\' !in p
  {
    PlainIff(p);
    hide Parse, Translate, GlobMatches, Denotes, Plain, InSyntax;
    if Plain(p) {
      forall w {
        TranslationDenotes(p, w);
      }
      TranslationDenotes(p, "");
    } else if Parse(Translate(p)).Some? {
      var r := Parse(Translate(p)).value;
      TranslationIsLight(p);
      SampleMatches(r);
      if GlobMatches(p, Sample(r)) {
        GlobMatchWeighs(p, Sample(r));
      }
    }
  }

  lemma PlainIff(p: string)
    requires InSyntax(p)
    ensures Plain(p) <==> '+' !in p && '\\' !in p
  {
  }

  lemma ThenNothing(r: Regex, w: string)
    requires Denotes(r, w)
    ensures Denotes(Concat(r, Empty), w)
  {
    assert w[..|w|] == w && w[|w|..] == "";
  }

  lemma TwiceMatches(c: char)
    ensures Denotes(Concat(Literal(c), Star(Literal(c))), [c, c])
  {
    assert [c][..1] == [c] && [c][1..] == "";
    assert Denotes(Literal(c), [c][..1]) && Denotes(Star(Literal(c)), [c][1..]);
    assert Denotes(Star(Literal(c)), [c]);
    assert [c, c][..1] == [c] && [c, c][1..] == [c];
  }

  lemma PlusIsParsed(c: char)
    requires !Special(c)
    ensures Parse(Translate([c, '+'])) == Some(Concat(Concat(Literal(c), Star(Literal(c))), Empty))
    ensures !GlobMatches([c, '+'], [c, c])
  {
    var s := [c, '+'];
    assert s[1..] == ['+'] && ['+'][1..] == "";
    assert Translate(s) == s && s[2..] == "";
  }

  /** "a+" becomes an expression that matches "aa", which the glob does not. */
  lemma PlusRepeats()
    ensures (var r := Parse(Translate("a+")); r.Some? && Denotes(r.value, "aa") && !GlobMatches("a+", "aa"))
  {
    hide Parse, Translate, Denotes, GlobMatches;
    PlusIsParsed('a');
    TwiceMatches('a');
    ThenNothing(Concat(Literal('a'), Star(Literal('a'))), ['a', 'a']);
    assert ['a', '+'] == "a+" && ['a', 'a'] == "aa";
  }

  /** A backslash in front of "+" becomes an expression that matches "+", which the glob does not. */
  lemma BackslashEscapes()
    ensures (var r := Parse(Translate("\\+")); r.Some? && Denotes(r.value, "+") && !GlobMatches("\\+", "+"))
  {
    assert Parse(Translate("\\+")) == Some(Concat(Literal('+'), Empty));
    ThenNothing(Literal('+'), "+");
  }
}
