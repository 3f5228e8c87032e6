/**
 When the template list parser comes to an end (_GetTemplateList in pxr/base/arch/function.cpp). Its loop goes
 from one "=" to another further left, unless there is no name in front of the "=": then the search for the
 name starts over from the end of the list.
*/
module TemplateHalting {
  import opened StringSearch
  import opened TemplateList

  /** There is a name in front of the "=" at i. */
  predicate Named(s: string, i: nat) {
    FindLastNotOf(s, " =", i) != NPOS
  }

  /** There is no type behind the "=" at i, so that substr throws. */
  predicate NoKind(s: string, i: nat)
    requires i < |s|
  {
    FindFirstNotOf(s, " =", i) == NPOS
  }

  predicate IsEquals(s: string, i: int) {
    i == NPOS || (0 <= i < |s| && s[i] == '=')
  }

  /** The "=" that the parser looks at after the one at i. */
  function Next(s: string, i: nat): (r: int)
    requires i < |s| && s[0] != '>'
    ensures IsEquals(s, r)
  {
    RFind(s, '=', TypeEnd(s, i))
  }

  lemma NamedGoesLeft(s: string, i: nat)
    requires i < |s| && s[0] == ' ' && s[i] == '=' && Named(s, i)
    ensures Next(s, i) < i
  {
    var nameEnd := FindLastNotOf(s, " =", i);
    var nameStart := NameStart(s, i);
    assert nameStart <= nameEnd + 1 <= i;
    FindSpace(s, nameEnd);
    hide LastWhere, StartOfName;
    assert nameStart < i;
  }

  lemma FindSpace(s: string, nameEnd: nat)
    requires nameEnd < |s| && s[0] == ' ' && s[nameEnd] != ' '
    ensures 0 < StartOfName(s, nameEnd) <= nameEnd
  {
    var r := StartOfName(s, nameEnd);
    NameFromPositive(s, FindLastOf(s, " >", nameEnd));
    assert r == 0 || s[r - 1] == ' ';
  }

  lemma {:induction false} NameFromPositive(s: string, k: int)
    requires 0 <= k < |s| && s[0] == ' ' && (s[k] == ' ' || s[k] == '>')
    ensures NameFrom(s, k) > 0
    decreases k
  {
    if s[k] != ' ' {
      NameFromPositive(s, FindLastOf(s, " >", Unnest(s, k, 1)));
    }
  }

  /** The nearest "=" without a name that is reached from i, or NPOS. */
  function Descend(s: string, i: int): (r: int)
    requires s != "" && s[0] == ' ' && IsEquals(s, i)
    ensures IsEquals(s, r) && (r != NPOS ==> !Named(s, r))
    decreases i
  {
    if i == NPOS || !Named(s, i) then i
    else
      NamedGoesLeft(s, i);
      Descend(s, Next(s, i))
  }

  lemma UnnamedStartOver(s: string, i: nat, j: nat)
    requires i < |s| && j < |s| && s[0] == ' ' && !Named(s, i) && !Named(s, j)
    ensures Next(s, i) == Next(s, j)
  {
  }

  /** A turn throws if there is no type, and goes to the next "=" otherwise. */
  lemma TurnGoes(s: string, scan: Scan)
    requires ScanOf(s, scan) && !Ended(scan) && s[0] != '>'
    ensures Turn(s, scan).Threw? <==> NoKind(s, scan.i)
    ensures Turn(s, scan).Looking? ==> Turn(s, scan).i == Next(s, scan.i)
  {
    hide LastWhere, FirstWhere, StartOfName, FindLastNotOf, RFind;
  }

  /** The last "=" of the list; only it can lack a type. */
  lemma KindToTheRight(s: string, i: nat)
    requires IsEquals(s, i) && RFind(s, '=', |s|) != NPOS && !NoKind(s, RFind(s, '=', |s|))
    ensures !NoKind(s, i)
  {
    var last := RFind(s, '=', |s|);
    var k := FindFirstNotOf(s, " =", last);
    assert i <= last <= k;
    assert s[k] !in " =";
  }

  /** The list ends the parser's loop: at most once does it come to an "=" that has no name. */
  ghost predicate Stops(s: string)
    requires s != "" && s[0] == ' '
  {
    var last := RFind(s, '=', |s|);
    || last == NPOS || NoKind(s, last)
    || Descend(s, last) == NPOS
    || Descend(s, Next(s, Descend(s, last))) == NPOS
  }

  lemma DescendStep(s: string, i: nat)
    requires s != "" && s[0] == ' ' && IsEquals(s, i)
    ensures Named(s, i) ==> Next(s, i) < i && Descend(s, i) == Descend(s, Next(s, i))
    ensures !Named(s, i) ==> Descend(s, i) == i
  {
    if Named(s, i) {
      NamedGoesLeft(s, i);
    }
  }

  lemma OneTurn(s: string, n: nat)
    requires s != "" && s[0] == ' ' && !Ended(After(s, n))
    ensures (var was, now := After(s, n), After(s, n + 1);
             (now.Threw? <==> NoKind(s, was.i)) && (now.Looking? ==> now.i == Next(s, was.i)))
  {
    TurnGoes(s, After(s, n));
    hide Turn, LastWhere, FirstWhere, StartOfName, FindLastNotOf, RFind;
  }

  lemma FirstLook(s: string)
    requires s != "" && s[0] == ' '
    ensures After(s, 0).Looking? && After(s, 0).i == RFind(s, '=', |s|) && IsEquals(s, After(s, 0).i)
  {
  }

  /** Where the parser is after n turns, if it does not stop. */
  lemma {:induction false} GoesOn(s: string, n: nat)
    requires s != "" && s[0] == ' ' && !Stops(s)
    ensures (var scan := After(s, n); !Ended(scan) && IsEquals(s, scan.i) && Descend(s, scan.i) != NPOS)
  {
    hide After, RFind, Next, NoKind, Named, Descend;
    if n > 0 {
      GoesOn(s, n - 1);
      GoesOnce(s, n - 1);
    } else {
      FirstLook(s);
    }
  }

  lemma GoesOnce(s: string, n: nat)
    requires s != "" && s[0] == ' ' && !Stops(s)
    requires !Ended(After(s, n)) && IsEquals(s, After(s, n).i) && Descend(s, After(s, n).i) != NPOS
    ensures (var scan := After(s, n + 1); !Ended(scan) && IsEquals(s, scan.i) && Descend(s, scan.i) != NPOS)
  {
    hide After, RFind, Next, NoKind, Named, Descend;
    var i, last := After(s, n).i, RFind(s, '=', |s|);
    FirstLook(s);
    OneTurn(s, n);
    KindToTheRight(s, i);
    DescendStep(s, i);
    if !Named(s, i) {
      UnnamedStartOver(s, i, Descend(s, last));
    }
    NothingDescendsTo(s);
  }

  lemma NothingDescendsTo(s: string)
    requires s != "" && s[0] == ' '
    ensures Descend(s, NPOS) == NPOS
  {
  }

  /** From any "=" the parser comes to the one it descends to, or to its end. */
  lemma {:induction false} ComesDown(s: string, n: nat) returns (m: nat)
    requires s != "" && s[0] == ' ' && After(s, n).Looking? && IsEquals(s, After(s, n).i)
    ensures Ended(After(s, m)) || After(s, m).i == Descend(s, After(s, n).i)
    decreases After(s, n).i
  {
    hide After, Next, NoKind, Named, Descend;
    m := n;
    var i := After(s, n).i;
    if i != NPOS && Named(s, i) {
      DescendStep(s, i);
      OneTurn(s, n);
      m := n + 1;
      if After(s, n + 1).Looking? {
        m := ComesDown(s, n + 1);
      }
    } else if i != NPOS {
      DescendStep(s, i);
    }
  }

  lemma StopsMeansHalts(s: string)
    requires s != "" && s[0] == ' ' && Stops(s)
    ensures Halts(s)
  {
    hide After, RFind, Next, NoKind, Named, Descend;
    FirstLook(s);
    NothingDescendsTo(s);
    if RFind(s, '=', |s|) != NPOS {
      OneTurn(s, 0);
    }
    var m := ComesDown(s, 0);
    if !Ended(After(s, m)) {
      OneTurn(s, m);
      if After(s, m + 1).Looking? {
        var k := ComesDown(s, m + 1);
        assert Ended(After(s, k)) || Ended(After(s, 1));
      } else {
        assert Ended(After(s, m + 1));
      }
    }
  }

  /** Exactly which lists the parser comes to an end with. */
  lemma HaltsIff(s: string)
    requires s != "" && s[0] == ' '
    ensures Halts(s) <==> Stops(s)
  {
    if Stops(s) {
      StopsMeansHalts(s);
    } else {
      forall n: nat
        ensures !Ended(After(s, n))
      {
        GoesOn(s, n);
      }
    }
  }

  /** A list in which every "=" has a name is parsed. */
  lemma NamedHalts(s: string)
    requires s != "" && s[0] == ' '
    requires forall i: nat :: i < |s| && s[i] == '=' ==> Named(s, i)
    ensures Halts(s)
  {
    HaltsIff(s);
  }

  lemma StartsOver(s: string)
    requires s == " = a b"
    ensures RFind(s, '=', |s|) == 1 && !Named(s, 1) && !NoKind(s, 1) && Next(s, 1) == 1
  {
    LastWhereIs(s, ['='], true, 6, 1);
    LastWhereIs(s, " =", false, 2, NPOS);
    LastWhereIs(s, " >", true, 6, 4);
    LastWhereIs(s, " =,;", false, 5, 3);
    LastWhereIs(s, ['='], true, 5, 1);
  }

  lemma SplitHanging(f: string)
    requires f == "f [with = a b]"
    ensures Split(f).1 == " = a b"
  {
    assert f[0..7][0] == 'f' && f[1..8] == " [with ";
    FindIs(f, " [with ", 1);
    assert f[7..13] == " = a b";
  }

  /** The list of "f [with = a b]" makes the parser go on for ever. */
  lemma RunsForever(f: string)
    requires f == "f [with = a b]"
    ensures Split(f).1 == " = a b" && !Halts(" = a b")
  {
    SplitHanging(f);
    hide Find, LastWhere, Next, NoKind, Named;
    var s := Split(f).1;
    StartsOver(s);
    DescendStep(s, 1);
    HaltsIff(s);
  }
}
