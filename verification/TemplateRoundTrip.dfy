/**
 Printing a template list behind a function and parsing it back (pxr/base/arch/function.cpp).
*/
module TemplateRoundTrip {
  import opened Basics
  import opened StringSearch
  import opened TemplateList

  // ---------- the lists in question ----------

  predicate NameOk(name: string) {
    name != "" && forall i :: 0 <= i < |name| ==> name[i] !in " =>"
  }

  /** May hold commas, spaces and brackets. */
  predicate KindOk(kind: string) {
    && kind != "" && kind[0] != ' ' && kind[|kind| - 1] !in " ,;"
    && forall i :: 0 <= i < |kind| ==> kind[i] != '='
  }

  predicate EntriesOk(es: Entries) {
    forall i :: 0 <= i < |es| ==> NameOk(es[i].0) && KindOk(es[i].1)
  }

  function ToMap(es: Entries): Templates {
    if es == [] then map[] else ToMap(es[1..])[es[0].0 := es[0].1]
  }

  /** es lists m, each key once, in some order. */
  predicate Lists(es: Entries, m: Templates) {
    && (forall i, j :: 0 <= i < j < |es| ==> es[i].0 != es[j].0)
    && (forall i :: 0 <= i < |es| ==> es[i].0 in m && es[i].1 == m[es[i].0])
    && (forall k :: k in m ==> exists i :: 0 <= i < |es| && es[i].0 == k)
  }

  lemma {:induction false} ToMapAt(es: Entries, i: nat)
    requires i < |es| && forall a, b :: 0 <= a < b < |es| ==> es[a].0 != es[b].0
    ensures es[i].0 in ToMap(es) && ToMap(es)[es[i].0] == es[i].1
  {
    if i > 0 {
      ToMapAt(es[1..], i - 1);
    }
  }

  lemma {:induction false} ToMapKeys(es: Entries, k: string)
    requires k in ToMap(es)
    ensures exists i :: 0 <= i < |es| && es[i].0 == k
  {
    if k != es[0].0 {
      ToMapKeys(es[1..], k);
      var i :| 0 <= i < |es| - 1 && es[1..][i].0 == k;
      assert es[i + 1].0 == k;
    }
  }

  lemma ListsGivesMap(es: Entries, m: Templates)
    requires Lists(es, m)
    ensures ToMap(es) == m
  {
    forall i | 0 <= i < |es|
      ensures es[i].0 in ToMap(es) && ToMap(es)[es[i].0] == m[es[i].0]
    {
      ToMapAt(es, i);
    }
    forall k | k in ToMap(es)
      ensures k in m && ToMap(es)[k] == m[k]
    {
      ToMapKeys(es, k);
      var i :| 0 <= i < |es| && es[i].0 == k;
    }
  }

  // ---------- one item parsed ----------

  /** The list may stand behind other text, of which the parser sees no "=". */
  predicate EndsCleanly(p: string) {
    p == "" || p[|p| - 1] !in " =,;"
  }

  /** The characters of s == before + Item((name, kind)) + rest. */
  ghost predicate ItemAt(s: string, a: nat, name: string, kind: string) {
    && a + |name| + |kind| + 4 <= |s|
    && s[a] == ' ' && s[a + 1..a + 1 + |name|] == name
    && s[a + 1 + |name|] == ' ' && s[a + 2 + |name|] == '=' && s[a + 3 + |name|] == ' '
    && s[a + 4 + |name|..a + 4 + |name| + |kind|] == kind
  }

  lemma ItemIsAt(before: string, name: string, kind: string, rest: string)
    ensures ItemAt(before + Item((name, kind)) + rest, |before|, name, kind)
    ensures |before + Item((name, kind))| == |before| + |name| + |kind| + 4
  {
    var s, a := before + Item((name, kind)) + rest, |before|;
    assert s[a..a + |name| + |kind| + 4] == Item((name, kind));
    assert s[a + 1..a + 1 + |name|] == name;
    assert s[a + 4 + |name|..a + 4 + |name| + |kind|] == kind;
  }

  /** The "=" in front of a type is the one that a search from the end of the type finds. */
  lemma EqualsFound(s: string, a: nat, name: string, kind: string)
    requires ItemAt(s, a, name, kind) && KindOk(kind)
    requires (var end := a + 4 + |name| + |kind|; end < |s| ==> s[end] != '=')
    ensures RFind(s, '=', a + 4 + |name| + |kind|) == a + 2 + |name|
  {
    var e, end := a + 2 + |name|, a + 4 + |name| + |kind|;
    forall j | e < j < Reach(s, end)
      ensures s[j] != '='
    {
      if e + 2 <= j < end {
        assert s[j] == s[e + 2..end][j - e - 2];
      }
    }
    LastWhereIs(s, ['='], true, Reach(s, end), e);
  }

  lemma NameFound(s: string, a: nat, name: string, kind: string)
    requires ItemAt(s, a, name, kind) && NameOk(name) && s[0] != '>'
    ensures FindLastNotOf(s, " =", a + 2 + |name|) == a + |name|
    ensures NameStart(s, a + 2 + |name|) == a + 1
  {
    var e := a + 2 + |name|;
    forall j | a + 1 <= j < a + 1 + |name|
      ensures s[j] !in " =>"
    {
      assert s[j] == name[j - a - 1];
    }
    LastWhereIs(s, " =", false, e + 1, a + |name|);
    LastWhereIs(s, " >", true, a + |name| + 1, a);
  }

  lemma KindFound(s: string, a: nat, name: string, kind: string)
    requires ItemAt(s, a, name, kind) && KindOk(kind)
    ensures FindFirstNotOf(s, " =", a + 2 + |name|) == a + 4 + |name|
  {
    var e := a + 2 + |name|;
    assert s[e + 2] == kind[0];
  }

  /** In front of the item there is a separator or nothing, and the text that the parser goes on with. */
  lemma EndFound(s: string, p: string, a: nat)
    requires a < |s| && |p| <= a <= |p| + 1 && s[..|p|] == p && EndsCleanly(p) && s[a] == ' '
    requires a == |p| + 1 ==> s[|p|] in ",;"
    ensures FindLastNotOf(s, " =,;", a) + 1 == |p|
  {
    if p != "" {
      assert s[|p| - 1] == p[|p| - 1];
    }
    LastWhereIs(s, " =,;", false, a + 1, |p| - 1);
  }

  lemma SubstrIs(s: string, pos: nat, count: nat)
    requires pos + count <= |s|
    ensures Substr(s, pos, count) == Some(s[pos..pos + count])
  {
  }

  /** A turn in terms of what its searches find. */
  lemma TurnIs(s: string, scan: Scan, kindStart: nat, nameEnd: nat, nameStart: nat, typeEnd: nat)
    requires ScanOf(s, scan) && !Ended(scan) && s[0] != '>'
    requires kindStart <= scan.typeEnd && nameStart <= nameEnd < |s|
    requires FindFirstNotOf(s, " =", scan.i) == kindStart
    requires FindLastNotOf(s, " =", scan.i) == nameEnd
    requires NameStart(s, scan.i) == nameStart
    requires TypeEnd(s, scan.i) == typeEnd
    ensures Turn(s, scan) == Looking(typeEnd, RFind(s, '=', typeEnd),
                                     scan.list[s[nameStart..nameEnd + 1] := s[kindStart..scan.typeEnd]])
  {
    hide FindFirstNotOf, FindLastNotOf, NameStart, TypeEnd, RFind, Substr;
    SubstrIs(s, nameStart, nameEnd + 1 - nameStart);
    SubstrIs(s, kindStart, scan.typeEnd - kindStart);
  }

  /** A turn takes the last item off. */
  lemma TurnTakesItem(s: string, p: string, a: nat, name: string, kind: string, list: Templates)
    requires ItemAt(s, a, name, kind) && NameOk(name) && KindOk(kind) && s[0] != '>'
    requires |p| <= a <= |p| + 1 && s[..|p|] == p && EndsCleanly(p) && (a == |p| + 1 ==> s[|p|] in ",;")
    ensures Turn(s, Looking(a + 4 + |name| + |kind|, a + 2 + |name|, list))
         == Looking(|p|, RFind(s, '=', |p|), list[name := kind])
  {
    hide LastWhere, FirstWhere, StartOfName, FindLastNotOf, FindFirstNotOf, RFind, KindOk, EndsCleanly, Turn;
    NameFound(s, a, name, kind);
    KindFound(s, a, name, kind);
    EndFound(s, p, a);
    TurnIs(s, Looking(a + 4 + |name| + |kind|, a + 2 + |name|, list), a + 4 + |name|, a + |name|, a + 1, |p|);
  }

  // ---------- the whole list parsed ----------

  /** Items with a separator in front of each but the first: commas, as the list is printed here, or semicolons. */
  function Separated(es: Entries, seps: string): string
    requires |es| <= |seps| + 1
  {
    if es == [] then ""
    else if |es| == 1 then Item(es[0])
    else Separated(es[..|es| - 1], seps) + [seps[|es| - 2]] + Item(es[|es| - 1])
  }

  predicate SeparatorsOk(es: Entries, seps: string) {
    |es| <= |seps| + 1 && forall i :: 0 <= i < |seps| ==> seps[i] in ",;"
  }

  function Commas(n: nat): (seps: string)
    ensures |seps| == n && forall i :: 0 <= i < n ==> seps[i] == ','
  {
    seq(n, _ => ',')
  }

  lemma {:induction false} ItemsSeparated(es: Entries, seps: string)
    requires |es| <= |seps| + 1 && forall i :: 0 <= i < |seps| ==> seps[i] == ','
    ensures Items(es) == Separated(es, seps)
    decreases |es|
  {
    if |es| > 1 {
      ItemsSeparated(es[..|es| - 1], seps);
    }
  }

  /** What is left to be parsed when k entries are left. */
  function Left(p: string, es: Entries, seps: string, k: nat): string
    requires k <= |es| <= |seps| + 1
  {
    p + Separated(es[..k], seps)
  }

  lemma ItemsLast(es: Entries, seps: string, k: nat)
    requires 0 < k <= |es| <= |seps| + 1
    ensures Separated(es[..k], seps)
         == (if k == 1 then "" else Separated(es[..k - 1], seps) + [seps[k - 2]]) + Item(es[k - 1])
  {
    assert es[..k][..k - 1] == es[..k - 1];
  }

  lemma {:induction false} ItemsPrefix(es: Entries, seps: string, k: nat)
    requires k <= |es| <= |seps| + 1
    ensures (var all, x := Separated(es, seps), Separated(es[..k], seps);
             x <= all && (0 < k < |es| ==> |x| < |all| && all[|x|] == seps[k - 1]))
    decreases |es| - k
  {
    if k == |es| {
      assert es[..k] == es;
    } else {
      ItemsPrefix(es, seps, k + 1);
      ItemsLast(es, seps, k + 1);
    }
  }

  lemma LeftEndsCleanly(p: string, es: Entries, seps: string, k: nat)
    requires EntriesOk(es) && EndsCleanly(p) && k <= |es| <= |seps| + 1
    ensures EndsCleanly(Left(p, es, seps, k))
  {
    if k > 0 {
      ItemsLast(es, seps, k);
      var kind := es[k - 1].1;
      assert Left(p, es, seps, k)[|Left(p, es, seps, k)| - 1] == kind[|kind| - 1];
    } else {
      assert es[..0] == [] && p + "" == p;
    }
  }

  /** What stands in front of item k. */
  function Separator(seps: string, k: nat): string
    requires k <= |seps|
  {
    if k == 0 then "" else [seps[k - 1]]
  }

  lemma ItemsSplit(es: Entries, seps: string, k: nat) returns (rest: string)
    requires k < |es| && SeparatorsOk(es, seps)
    ensures Separated(es, seps) == Separated(es[..k], seps) + Separator(seps, k) + Item(es[k]) + rest
    ensures rest == "" || rest[0] in ",;"
  {
    hide Separated, Item;
    ItemsLast(es, seps, k + 1);
    ItemsPrefix(es, seps, k + 1);
    NoItems(es, seps);
    rest := Separated(es, seps)[|Separated(es[..k + 1], seps)|..];
    CutBehind(Separated(es[..k + 1], seps), Separated(es, seps));
    if k + 1 == |es| {
      assert es[..k + 1] == es;
    }
    assert "" + "" + Item(es[k]) == Item(es[k]);
  }

  lemma CutBehind(x: string, all: string)
    requires x <= all
    ensures all == x + all[|x|..] && (|x| < |all| ==> all[|x|..][0] == all[|x|])
  {
  }

  lemma Placed(s: string, p: string, x: string, sep: string, name: string, kind: string, rest: string)
    requires s == p + (x + sep + Item((name, kind)) + rest) && |sep| <= 1
    ensures (var a := |p + x| + |sep|;
             var end := a + 4 + |name| + |kind|;
             && end <= |s| && ItemAt(s, a, name, kind) && s[..|p + x|] == p + x
             && (sep != "" ==> s[|p + x|] == sep[0])
             && (rest != "" ==> s[end] == rest[0]) && (rest == "" ==> end == |s|))
  {
    var item := Item((name, kind));
    ItemIsAt(p + x + sep, name, kind, rest);
    hide Item, ItemAt;
    assert s == (p + x + sep) + item + rest;
    assert s[..|p + x|] == p + x;
  }

  /** The k-th item in the whole list, with the separator or nothing in front of it and behind it. */
  lemma ItemInList(p: string, es: Entries, seps: string, k: nat)
    requires k < |es| && SeparatorsOk(es, seps)
    ensures (var s, left := p + Separated(es, seps), Left(p, es, seps, k);
             var a := |left| + (if k == 0 then 0 else 1);
             var end := |Left(p, es, seps, k + 1)|;
             && end == a + 4 + |es[k].0| + |es[k].1| <= |s| && ItemAt(s, a, es[k].0, es[k].1)
             && s[..|left|] == left && (k > 0 ==> s[|left|] in ",;") && (end < |s| ==> s[end] in ",;"))
  {
    hide Separated, Item, ItemAt;
    var rest := ItemsSplit(es, seps, k);
    ItemsLast(es, seps, k + 1);
    ItemLength(es[k]);
    NoItems(es, seps);
    Placed(p + Separated(es, seps), p, Separated(es[..k], seps), Separator(seps, k), es[k].0, es[k].1, rest);
  }

  lemma ItemLength(e: (string, string))
    ensures |Item(e)| == |e.0| + |e.1| + 4 && e == (e.0, e.1)
  {
  }

  lemma NoItems(es: Entries, seps: string)
    ensures Separated(es[..0], seps) == ""
  {
  }

  lemma ItemsStart(es: Entries, seps: string)
    requires SeparatorsOk(es, seps)
    ensures if es == [] then Separated(es, seps) == "" else Separated(es, seps) != "" && Separated(es, seps)[0] == ' '
  {
    if es != [] {
      var rest := ItemsSplit(es, seps, 0);
      NoItems(es, seps);
    }
  }

  lemma StartsWithSpace(p: string, es: Entries, seps: string)
    requires (p == "" || p[0] == ' ') && SeparatorsOk(es, seps)
    ensures p + Separated(es, seps) == "" || (p + Separated(es, seps))[0] == ' '
  {
    ItemsStart(es, seps);
  }

  /** The state of the parser when it still has the first k entries to go. */
  ghost predicate EntriesLeft(p: string, es: Entries, seps: string, k: nat)
    requires k <= |es| && (p == "" || p[0] == ' ') && SeparatorsOk(es, seps)
  {
    StartsWithSpace(p, es, seps);
    var s, left := p + Separated(es, seps), |Left(p, es, seps, k)|;
    After(s, |es| - k) == Looking(left, RFind(s, '=', left), ToMap(es[k..]))
  }

  /** From looking at the end of an item to looking at the end of what is in front of it. */
  lemma ParserStep(s: string, n: nat, p: string, a: nat, name: string, kind: string, list: Templates)
    requires ItemAt(s, a, name, kind) && NameOk(name) && KindOk(kind) && s[0] != '>'
    requires |p| <= a <= |p| + 1 && s[..|p|] == p && EndsCleanly(p) && (a == |p| + 1 ==> s[|p|] in ",;")
    requires (var end := a + 4 + |name| + |kind|;
              (end < |s| ==> s[end] != '=') && After(s, n) == Looking(end, RFind(s, '=', end), list))
    ensures After(s, n + 1) == Looking(|p|, RFind(s, '=', |p|), list[name := kind])
  {
    hide RFind, NameOk, EndsCleanly, Turn;
    EqualsFound(s, a, name, kind);
    TurnTakesItem(s, p, a, name, kind, list);
  }

  lemma NextTurn(p: string, es: Entries, seps: string, k: nat)
    requires EntriesOk(es) && EndsCleanly(p) && (p == "" || p[0] == ' ') && k < |es| && SeparatorsOk(es, seps)
    requires EntriesLeft(p, es, seps, k + 1)
    ensures EntriesLeft(p, es, seps, k)
  {
    hide After, Left, Separated, RFind, ItemAt, NameOk, KindOk, EndsCleanly, ToMap;
    StartsWithSpace(p, es, seps);
    ItemInList(p, es, seps, k);
    LeftEndsCleanly(p, es, seps, k);
    var left := Left(p, es, seps, k);
    var a := |left| + (if k == 0 then 0 else 1);
    ParserStep(p + Separated(es, seps), |es| - k - 1, left, a, es[k].0, es[k].1, ToMap(es[k + 1..]));
    ToMapFirst(es, k);
  }

  lemma ToMapFirst(es: Entries, k: nat)
    requires k < |es|
    ensures ToMap(es[k..]) == ToMap(es[k + 1..])[es[k].0 := es[k].1]
  {
    assert es[k..][1..] == es[k + 1..];
  }

  /** Each turn takes one entry off the end. */
  lemma {:induction false} TurnsTakeItems(p: string, es: Entries, seps: string, k: nat)
    requires EntriesOk(es) && EndsCleanly(p) && (p == "" || p[0] == ' ') && k <= |es| && SeparatorsOk(es, seps)
    ensures EntriesLeft(p, es, seps, k)
    decreases |es| - k
  {
    if k == |es| {
      assert es[..k] == es;
    } else {
      TurnsTakeItems(p, es, seps, k + 1);
      NextTurn(p, es, seps, k);
    }
  }

  // ---------- where the list starts ----------

  const WITH: string := " [with "

  lemma SliceOfPrefix(w: string, n: nat, k: nat)
    requires k + 7 <= n <= |w|
    ensures w[k..k + 7] == w[..n][k..k + 7]
  {
  }

  /** The list in its brackets, as a compiler or Format appends it. */
  function Bracketed(items: string): string {
    " [with" + items + "]"
  }

  /** The appended list adds no occurrence in front of its own, unless f ends in one up to the last space. */
  lemma OccursAgree(f: string, items: string, k: nat)
    requires items != "" && items[0] == ' '
    ensures k < |f| ==> OccursAt(f + Bracketed(items), WITH, k) == OccursAt(f + " ", WITH, k)
    ensures OccursAt(f + Bracketed(items), WITH, |f|)
  {
    PrintedStarts(f, items);
    hide Bracketed, OccursAt;
    WithAt(f + Bracketed(items), |f|);
    if k < |f| {
      OccursInFront(f + Bracketed(items), f, k);
    }
  }

  lemma PrintedStarts(f: string, items: string)
    requires items != "" && items[0] == ' '
    ensures (var w := f + Bracketed(items); |w| >= |f| + 7 && w[..|f| + 1] == f + " " && w[|f|..|f| + 7] == WITH)
  {
    assert Bracketed(items)[..7] == WITH;
  }

  lemma WithAt(w: string, k: nat)
    requires k + 7 <= |w| && w[k..k + 7] == WITH
    ensures OccursAt(w, WITH, k)
  {
  }

  lemma OccursInFront(w: string, f: string, k: nat)
    requires |w| >= |f| + 7 && w[..|f| + 1] == f + " " && k < |f|
    ensures OccursAt(w, WITH, k) == OccursAt(f + " ", WITH, k)
  {
    if k + 7 <= |f| + 1 {
      SliceOfPrefix(w, |f| + 1, k);
    } else {
      assert w[|f|] == w[..|f| + 1][|f|];
      SpaceInside(w, k, |f|);
    }
  }

  /** WITH has no space but its first and last character. */
  lemma SpaceInside(w: string, k: nat, i: nat)
    requires k < i < k + 6 && k + 7 <= |w| && w[i] == ' '
    ensures !OccursAt(w, WITH, k)
  {
    var part := w[k..k + 7];
    assert part[i - k] == ' ' && WITH[i - k] != ' ';
  }

  /** What a second occurrence in front of the printed list puts before its entries. */
  function Before(f: string): string {
    var i := Find(f + " ", WITH, 0);
    if i == NPOS then "" else (f + " [with")[i + 6..]
  }

  lemma FoundAt(w: string, g: string, n: nat)
    requires forall k: nat :: k < n ==> OccursAt(w, WITH, k) == OccursAt(g, WITH, k)
    requires OccursAt(w, WITH, n) && |g| == n + 1
    ensures Find(w, WITH, 0) == if Find(g, WITH, 0) == NPOS then n else Find(g, WITH, 0)
    ensures Find(g, WITH, 0) < n
  {
    var i := Find(g, WITH, 0);
    FindIs(w, WITH, if i == NPOS then n else i);
  }

  lemma PrintedFound(f: string, items: string)
    requires items != "" && items[0] == ' '
    ensures (var i, w := Find(f + " ", WITH, 0), f + Bracketed(items);
             i < |f| && Find(w, WITH, 0) == if i == NPOS then |f| else i)
  {
    hide Find, OccursAt, Bracketed;
    forall k: nat | k < |f|
      ensures OccursAt(f + Bracketed(items), WITH, k) == OccursAt(f + " ", WITH, k)
    {
      OccursAgree(f, items, k);
    }
    OccursAgree(f, items, |f|);
    FoundAt(f + Bracketed(items), f + " ", |f|);
  }

  lemma CutPrinted(w: string, f: string, items: string, at: nat)
    requires at <= |f| && w == f + (" [with" + items + "]")
    ensures w[at + 6..|w| - 1] == (f + " [with")[at + 6..] + items && w[..at] == f[..at]
  {
    assert w == ((f + " [with") + items) + "]";
    assert w[..|w| - 1] == (f + " [with") + items;
    assert w[at + 6..|w| - 1] == w[..|w| - 1][at + 6..];
  }

  lemma SplitBracketed(f: string, items: string)
    requires items != "" && items[0] == ' '
    ensures (var i := Find(f + " ", WITH, 0);
             && i < |f|
             && Split(f + Bracketed(items)) == (if i == NPOS then f else f[..i], Before(f) + items))
  {
    hide Find, OccursAt, Bracketed, Split;
    var w, i := f + Bracketed(items), Find(f + " ", WITH, 0);
    PrintedFound(f, items);
    NothingBefore(f);
    BracketedIs(items);
    CutPrinted(w, f, items, if i == NPOS then |f| else i);
    SplitIs(w, if i == NPOS then |f| else i);
  }

  lemma BracketedIs(items: string)
    ensures Bracketed(items) == " [with" + items + "]"
  {
  }

  lemma FormatIs(es: Entries)
    requires es != []
    ensures Format(es) == Bracketed(Items(es)) && Items(es) != "" && Items(es)[0] == ' '
  {
    ItemsSeparated(es, Commas(|es|));
    ItemsStart(es, Commas(|es|));
  }

  lemma SplitIs(w: string, i: nat)
    requires Find(w, WITH, 0) == i
    ensures i + 7 <= |w| && Split(w) == (w[..i], w[i + 6..|w| - 1])
  {
  }

  lemma NothingBefore(f: string)
    ensures (f + " [with")[|f| + 6..] == "" && f[..|f|] == f
  {
  }

  /** No "=" comes after the first " [with " in f. */
  predicate NoLaterEquals(f: string) {
    var i := Find(f, WITH, 0);
    i == NPOS || '=' !in f[i..]
  }

  lemma BeforeIsHarmless(f: string)
    requires NoLaterEquals(f)
    ensures EndsCleanly(Before(f)) && (Before(f) == "" || Before(f)[0] == ' ') && '=' !in Before(f)
  {
    var i := Find(f + " ", WITH, 0);
    if i != NPOS {
      assert (f + " ")[i..i + 7][6] == ' ';
      if i + 6 == |f| {
        assert Before(f) == " [with";
      } else {
        FoundInFront(f, i);
        BeforeInside(f, i);
      }
    }
  }

  lemma BeforeInside(f: string, i: nat)
    requires i + 7 <= |f| && OccursAt(f + " ", WITH, i) && '=' !in f[i..]
    ensures (var p := (f + " [with")[i + 6..]; EndsCleanly(p) && p[0] == ' ' && '=' !in p)
  {
    assert (f + " [with")[i + 6..] == f[i..][6..] + " [with";
    assert f[i + 6] == (f + " ")[i..i + 7][6];
  }

  lemma FoundInFront(f: string, i: nat)
    requires Find(f + " ", WITH, 0) == i && i + 7 <= |f|
    ensures Find(f, WITH, 0) == i
  {
    assert f[i..i + 7] == (f + " ")[i..i + 7];
    forall k: nat | k < i
      ensures !OccursAt(f, WITH, k)
    {
      assert f[k..k + 7] == (f + " ")[k..k + 7] && !OccursAt(f + " ", WITH, k);
    }
    FindIs(f, WITH, i);
  }

  // ---------- the round trip ----------

  /** Splitting w, and parsing the second part, comes to an end with the map m. */
  ghost predicate ParsesTo(w: string, m: Templates) {
    var s := Split(w).1;
    && (s == "" || s[0] != '>')
    && exists turns: nat :: Ended(After(s, turns)) && Result(After(s, turns)) == Some(m)
  }

  /** Printing es behind f, splitting, and parsing the second part comes to an end with the map m. */
  ghost predicate ComesBack(f: string, es: Entries, m: Templates) {
    ParsesTo(f + Format(es), m)
  }

  lemma NoEqualsFound(p: string, x: string)
    requires '=' !in p && (x == "" || x[0] != '=')
    ensures RFind(p + x, '=', |p|) == NPOS
  {
    var s := p + x;
    forall j | 0 <= j < Reach(s, |p|)
      ensures s[j] != '='
    {
      assert s[j] == if j < |p| then p[j] else x[0];
    }
  }

  lemma BodyParsed(p: string, es: Entries, seps: string)
    requires EntriesOk(es) && EndsCleanly(p) && (p == "" || p[0] == ' ') && '=' !in p && SeparatorsOk(es, seps)
    requires p + Separated(es, seps) == "" || (p + Separated(es, seps))[0] == ' '
    ensures (var end := After(p + Separated(es, seps), |es|); Ended(end) && Result(end) == Some(ToMap(es)))
  {
    hide Separated, RFind, After;
    TurnsTakeItems(p, es, seps, 0);
    NoItems(es, seps);
    ItemsStart(es, seps);
    NoEqualsFound(p, Separated(es, seps));
    assert Left(p, es, seps, 0) == p && es[0..] == es;
  }

  /** A list with commas or semicolons between its items, in any mix, as compilers print it, is parsed to its map. */
  lemma SeparatedParses(f: string, es: Entries, seps: string)
    requires EntriesOk(es) && es != [] && SeparatorsOk(es, seps) && NoLaterEquals(f)
    ensures ParsesTo(f + " [with" + Separated(es, seps) + "]", ToMap(es))
  {
    hide Separated, Split, After;
    var items := Separated(es, seps);
    ItemsStart(es, seps);
    SplitBracketed(f, items);
    BracketedIs(items);
    assert f + " [with" + items + "]" == f + (" [with" + items + "]");
    BeforeIsHarmless(f);
    StartsWithSpace(Before(f), es, seps);
    BodyParsed(Before(f), es, seps);
  }

  lemma ListComesBack(f: string, es: Entries)
    requires EntriesOk(es) && NoLaterEquals(f)
    ensures ComesBack(f, es, ToMap(es))
  {
    hide ParsesTo;
    if es == [] {
      assert f + Format(es) == f;
      NothingComesBack(f);
    } else {
      FormatIs(es);
      ItemsSeparated(es, Commas(|es|));
      BracketedIs(Items(es));
      assert f + " [with" + Items(es) + "]" == f + (" [with" + Items(es) + "]");
      SeparatedParses(f, es, Commas(|es|));
    }
  }

  lemma NothingComesBack(f: string)
    requires NoLaterEquals(f)
    ensures ParsesTo(f, map[])
  {
    NothingParsed(f);
  }

  /** What comes back from behind a function is the map, however the map was iterated over. */
  lemma RoundTrip(f: string, es: Entries, m: Templates)
    requires EntriesOk(es) && Lists(es, m) && NoLaterEquals(f)
    ensures ComesBack(f, es, m)
  {
    ListsGivesMap(es, m);
    ListComesBack(f, es);
  }

  lemma NothingParsed(f: string)
    requires NoLaterEquals(f)
    ensures (var s := Split(f).1; (s == "" || s[0] == ' ') && After(s, 0) == Looking(|s|, NPOS, map[]))
  {
    var i := Find(f, WITH, 0);
    if i != NPOS {
      assert f[i + 6] == f[i..i + 7][6];
      assert f[i + 6..|f| - 1] == f[i..][6..|f| - 1 - i];
    }
  }

  /** The function part comes back exactly if f, with a space behind it, holds no " [with " of its own. */
  lemma FunctionComesBackIff(f: string, es: Entries)
    requires es != []
    ensures Split(f + Format(es)).0 == f <==> Find(f + " ", WITH, 0) == NPOS
  {
    FormatIs(es);
    SplitBracketed(f, Items(es));
  }

  // ---------- what does not come back ----------

  lemma {:induction false} SomethingFound(s: string, n: nat)
    requires s != "" && s[0] != '>' && RFind(s, '=', |s|) != NPOS
    ensures n == 0 ==> !Ended(After(s, n))
    ensures n > 0 ==> After(s, n).Threw? || After(s, n).list != map[]
  {
    if n > 0 {
      SomethingFound(s, n - 1);
      hide LastWhere, FirstWhere, StartOfName, Substr;
    }
  }

  /** The empty list, for which nothing is printed, comes back exactly if there is nothing to parse. */
  lemma EmptyListComesBackIff(f: string)
    ensures ComesBack(f, [], map[]) <==> '=' !in Split(f).1
  {
    var s := Split(f).1;
    var es: Entries := [];
    assert Format(es) == "" && f + "" == f;
    SecondPart(f);
    if '=' in s {
      forall n: nat | Ended(After(s, n))
        ensures Result(After(s, n)) != Some(map[])
      {
        SomethingFound(s, n);
      }
    } else {
      assert Ended(After(s, 0));
    }
  }

  lemma SecondPart(f: string)
    ensures Split(f).1 == "" || Split(f).1[0] == ' '
  {
    var i := Find(f, WITH, 0);
    if i != NPOS {
      SplitIs(f, i);
      WithInside(f, i);
    }
  }

  lemma WithInside(f: string, i: nat)
    requires OccursAt(f, WITH, i)
    ensures i + 7 <= |f| && f[i + 6] == ' ' && forall j :: i <= j < i + 7 ==> f[j] != '='
  {
    var part := f[i..i + 7];
    assert part == WITH;
    forall j | i <= j < i + 7
      ensures f[j] == WITH[j - i]
    {
      assert f[j] == part[j - i];
    }
  }

  /** With a later "=", the text before the printed entries looks like an entry too. */
  lemma BeforeHasEquals(f: string)
    requires !NoLaterEquals(f)
    ensures EndsCleanly(Before(f)) && Before(f) != "" && Before(f)[0] == ' ' && '=' in Before(f)
    ensures |Before(f)| <= |f| && |f| >= 7
  {
    var i := Find(f, WITH, 0);
    WithInside(f, i);
    FoundBeforeSpace(f, i);
    var j :| i <= j < |f| && f[j] == '=';
    var p := Before(f);
    assert p == (f + " [with")[i + 6..];
    assert p[j - i - 6] == '=';
  }

  lemma FoundBeforeSpace(f: string, i: nat)
    requires Find(f, WITH, 0) == i
    ensures Find(f + " ", WITH, 0) == i
  {
    var g := f + " ";
    assert g[..|f|] == f;
    SliceOfPrefix(g, |f|, i);
    forall k: nat | k < i
      ensures !OccursAt(g, WITH, k)
    {
      assert !OccursAt(f, WITH, k);
      SliceOfPrefix(g, |f|, k);
    }
    FindIs(g, WITH, i);
  }

  /** From an "=" left of bound, a turn throws or enters a key no longer than bound; no key ever leaves. */
  lemma ShortKey(s: string, typeEnd: nat, i: nat, list: Templates, bound: nat)
    requires ScanOf(s, Looking(typeEnd, i, list)) && s[0] != '>' && i < bound
    requires |s| >= 2 && s[|s| - 2] == ' ' && s[|s| - 1] !in " >"
    ensures var next := Turn(s, Looking(typeEnd, i, list));
            next.Looking? ==> (exists k :: k in next.list && |k| <= bound) && list.Keys <= next.list.Keys
  {
    hide LastWhere, FirstWhere, StartOfName, FindLastNotOf, FindFirstNotOf, RFind, Substr, NameStart, TypeEnd;
    var nameEnd := FindLastNotOf(s, " =", i);
    var nameStart := NameStart(s, i);
    ShortName(s, i, bound);
    var name := Substr(s, nameStart, nameEnd + 1 - nameStart);
    assert name.Some? ==> |name.value| <= bound;
  }

  /** The name in front of an "=" left of bound; without one, the search from the end finds the last character. */
  lemma ShortName(s: string, i: nat, bound: nat)
    requires i < |s| && s[0] != '>' && i < bound
    requires |s| >= 2 && s[|s| - 2] == ' ' && s[|s| - 1] !in " >"
    ensures (var nameEnd, nameStart := FindLastNotOf(s, " =", i), NameStart(s, i);
             var name := Substr(s, nameStart, nameEnd + 1 - nameStart);
             name.Some? ==> |name.value| <= bound)
  {
    if FindLastNotOf(s, " =", i) == NPOS {
      LastWhereIs(s, " >", true, |s|, |s| - 2);
      assert NameStart(s, i) == |s| - 1;
    }
    hide LastWhere, StartOfName;
  }

  lemma {:induction false} ShortKeyStays(s: string, n: nat, bound: nat)
    requires n >= 2 && s != "" && s[0] != '>'
    requires After(s, 1).Looking? && 0 <= After(s, 1).i < bound
    requires |s| >= 2 && s[|s| - 2] == ' ' && s[|s| - 1] !in " >"
    ensures After(s, n).Threw? || exists k :: k in After(s, n).list && |k| <= bound
    decreases n
  {
    var was := After(s, n - 1);
    if n == 2 {
      ShortKey(s, was.typeEnd, was.i, was.list, bound);
    } else {
      ShortKeyStays(s, n - 1, bound);
      if !Ended(was) {
        KeysStay(s, was);
      }
    }
  }

  lemma KeysStay(s: string, scan: Scan)
    requires ScanOf(s, scan) && !Ended(scan) && s[0] != '>'
    ensures Turn(s, scan).Looking? ==> scan.list.Keys <= Turn(s, scan).list.Keys
  {
    hide LastWhere, FirstWhere, StartOfName, Substr;
  }

  /** After the printed entry has been taken off, the parser is at an "=" of the text before it. */
  lemma EntryTakenOff(p: string, name: string)
    requires EndsCleanly(p) && p != "" && p[0] == ' ' && '=' in p && NameOk(name)
    ensures (var s := p + Items([(name, "y")]);
             && |s| >= 2 && s[0] == ' ' && s[|s| - 2] == ' ' && s[|s| - 1] == 'y'
             && !Ended(After(s, 0)) && !Ended(After(s, 1)) && After(s, 1).i < |p|)
  {
    var es: Entries := [(name, "y")];
    var s := p + Items(es);
    ItemsSeparated(es, "");
    TurnsTakeItems(p, es, "", 0);
    NoItems(es, "");
    assert Left(p, es, "", 0) == p && es[0..] == es;
    var item := Item((name, "y"));
    assert Items(es) == item && item[|item| - 2] == ' ' && item[|item| - 1] == 'y' && item[0] == ' ';
    assert s[|p|] == item[0];
    var j :| 0 <= j < |p| && p[j] == '=';
    assert s[j] == p[j];
    hide Items, Item, StartOfName, FirstWhere, Turn;
  }

  /** With a later "=", an entry whose name is longer than f does not come back. */
  lemma LongNameLost(f: string, name: string)
    requires !NoLaterEquals(f) && NameOk(name) && |name| > |f|
    ensures !ComesBack(f, [(name, "y")], map[name := "y"])
  {
    var es: Entries := [(name, "y")];
    var s := Split(f + Format(es)).1;
    BeforeHasEquals(f);
    FormatIs(es);
    SplitBracketed(f, Items(es));
    EntryTakenOff(Before(f), name);
    LongNameNotParsed(Before(f) + Items(es), name, |Before(f)|);
  }

  lemma LongNameNotParsed(s: string, name: string, bound: nat)
    requires |s| >= 2 && s[0] != '>' && s[|s| - 2] == ' ' && s[|s| - 1] == 'y' && |name| > bound
    requires !Ended(After(s, 0)) && !Ended(After(s, 1)) && After(s, 1).i < bound
    ensures forall n: nat :: Ended(After(s, n)) ==> Result(After(s, n)) != Some(map[name := "y"])
  {
    hide After, Turn;
    forall n: nat | Ended(After(s, n))
      ensures Result(After(s, n)) != Some(map[name := "y"])
    {
      ShortKeyStays(s, n, bound);
    }
  }

  /**
   * Every well-formed list that is printed at all comes back from behind f exactly if no "=" comes after the first
   * " [with " in f.
   */
  lemma RoundTripIff(f: string)
    ensures NoLaterEquals(f) <==> forall es :: EntriesOk(es) && es != [] ==> ComesBack(f, es, ToMap(es))
  {
    hide ComesBack, ToMap, NoLaterEquals;
    if NoLaterEquals(f) {
      forall es | EntriesOk(es) && es != []
        ensures ComesBack(f, es, ToMap(es))
      {
        ListComesBack(f, es);
      }
    } else {
      var name := seq(|f| + 1, _ => 'N');
      LongNameLost(f, name);
      OneEntry(name);
    }
  }

  lemma OneEntry(name: string)
    ensures ToMap([(name, "y")]) == map[name := "y"]
    ensures NameOk(name) ==> EntriesOk([(name, "y")])
  {
  }
}
