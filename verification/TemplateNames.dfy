/**
 Where the backward scan over the name of a function finds that the qualified name starts (_GetStartOfName in
 pxr/base/arch/function.cpp).
*/
module TemplateNames {
  import opened StringSearch
  import opened TemplateList

  /** Part of a name: a character, or template arguments in matching brackets. */
  datatype Piece = Plain(c: char) | Angle(inner: seq<Piece>)

  function Render(ps: seq<Piece>): string
    decreases ps
  {
    if ps == [] then ""
    else
      var last := ps[|ps| - 1];
      Render(ps[..|ps| - 1]) + (if last.Plain? then [last.c] else "<" + Render(last.inner) + ">")
  }

  /** Outside of brackets a name has no space. */
  predicate Unspaced(ps: seq<Piece>) {
    forall i :: 0 <= i < |ps| ==> ps[i] != Plain(' ')
  }

  /** Brackets come only as pairs. */
  predicate Paired(ps: seq<Piece>)
    decreases ps
  {
    forall i :: 0 <= i < |ps| ==> if ps[i].Plain? then ps[i].c !in "<>" else Paired(ps[i].inner)
  }

  lemma NotEmpty(ps: seq<Piece>)
    ensures ps == [] <==> Render(ps) == ""
  {
  }

  lemma BracketsAt(s: string, b: nat, inner: string)
    requires OccursAt(s, "<" + inner + ">", b)
    ensures s[b] == '<' && OccursAt(s, inner, b + 1) && s[b + 1 + |inner|] == '>'
  {
    OccursConcat(s, b, "<" + inner, ">");
    OccursConcat(s, b, "<", inner);
    assert s[b..b + 1][0] == '<';
    assert s[b + 1 + |inner|..b + 2 + |inner|][0] == '>';
  }

  /** The pieces at a, without the last of them. */
  lemma LastPieceAt(s: string, a: nat, ps: seq<Piece>)
    requires ps != [] && OccursAt(s, Render(ps), a)
    ensures (var front := ps[..|ps| - 1];
             var last := ps[|ps| - 1];
             var b := a + |Render(front)|;
             var end := a + |Render(ps)|;
             && OccursAt(s, Render(front), a)
             && (last.Plain? ==> end == b + 1 && s[b] == last.c)
             && (last.Angle? ==> end == b + |Render(last.inner)| + 2 && s[b] == '<' && s[end - 1] == '>'
                                 && OccursAt(s, Render(last.inner), b + 1)))
  {
    var front, last := ps[..|ps| - 1], ps[|ps| - 1];
    var b := a + |Render(front)|;
    if last.Plain? {
      OccursConcat(s, a, Render(front), [last.c]);
      assert s[b..b + 1][0] == last.c;
    } else {
      var inner := Render(last.inner);
      OccursConcat(s, a, Render(front), "<" + inner + ">");
      BracketsAt(s, b, inner);
    }
  }

  lemma UnnestStep(s: string, i: nat, depth: nat)
    requires 1 < i < |s| && depth > 0
    ensures s[i - 1] !in "<>" ==> Unnest(s, i, depth) == Unnest(s, i - 1, depth)
    ensures s[i - 1] == '>' ==> Unnest(s, i, depth) == Unnest(s, i - 1, depth + 1)
    ensures s[i - 1] == '<' ==> Unnest(s, i, depth) == Unnest(s, i - 1, depth - 1)
  {
  }

  lemma PairedParts(ps: seq<Piece>)
    requires ps != [] && Paired(ps)
    ensures (var last := ps[|ps| - 1];
             && Paired(ps[..|ps| - 1])
             && (last.Plain? ==> last.c !in "<>")
             && (last.Angle? ==> Paired(last.inner)))
  {
  }

  /** Going back over paired brackets leaves the depth as it was. */
  lemma {:induction false} UnnestOver(s: string, a: nat, ps: seq<Piece>, depth: nat)
    requires 0 < a && a + |Render(ps)| < |s| && OccursAt(s, Render(ps), a) && Paired(ps) && depth > 0
    ensures Unnest(s, a + |Render(ps)|, depth) == Unnest(s, a, depth)
    decreases ps
  {
    NotEmpty(ps);
    hide Unnest, Render, OccursAt, Paired;
    if ps != [] {
      var front, last := ps[..|ps| - 1], ps[|ps| - 1];
      LastPieceAt(s, a, ps);
      PairedParts(ps);
      var b, end := a + |Render(front)|, a + |Render(ps)|;
      UnnestStep(s, end, depth);
      if last.Angle? {
        UnnestOver(s, b + 1, last.inner, depth + 1);
        UnnestStep(s, b + 1, depth + 1);
      }
      UnnestOver(s, a, front, depth);
    }
  }

  /** NameFrom, from the nearest space or bracket in front of `end`. */
  function NameBefore(s: string, end: nat): nat
    requires end <= |s| && (s == "" || s[0] != '>')
  {
    NameFrom(s, LastWhere(s, " >", true, end))
  }

  lemma NameBeforePlain(s: string, b: nat)
    requires b < |s| && s[0] != '>' && s[b] !in " >"
    ensures NameBefore(s, b + 1) == NameBefore(s, b)
  {
  }

  lemma NameBeforeAngle(s: string, b: nat, inner: seq<Piece>)
    requires b + |Render(inner)| + 2 <= |s| && s[0] != '>' && s[b] == '<' && s[b + |Render(inner)| + 1] == '>'
    requires OccursAt(s, Render(inner), b + 1) && Paired(inner)
    ensures NameBefore(s, b + |Render(inner)| + 2) == NameBefore(s, b)
  {
    hide Render, Paired, OccursAt, Unnest, NameFrom;
    var k := b + |Render(inner)| + 1;
    UnnestOver(s, b + 1, inner, 1);
    UnnestOne(s, b);
    NameFromBracket(s, k);
    LastWhereIs(s, " >", true, k + 1, k);
    LastWhereIs(s, " >", true, b + 1, LastWhere(s, " >", true, b));
  }

  lemma UnnestOne(s: string, b: nat)
    requires b + 1 < |s| && s[b] == '<'
    ensures Unnest(s, b + 1, 1) == b
  {
  }

  lemma NameFromBracket(s: string, k: nat)
    requires k < |s| && s[0] != '>' && s[k] == '>'
    ensures NameFrom(s, k) == NameFrom(s, FindLastOf(s, " >", Unnest(s, k, 1)))
  {
  }

  /** The start of the name that ends in front of `end`. */
  lemma {:induction false} NameFromOver(s: string, a: nat, ps: seq<Piece>)
    requires OccursAt(s, Render(ps), a) && Paired(ps) && Unspaced(ps) && s != "" && s[0] != '>'
    requires a == 0 || s[a - 1] == ' '
    ensures NameBefore(s, a + |Render(ps)|) == a
    decreases |ps|
  {
    hide NameBefore, Unnest, LastWhere, Render, Paired, NameFrom;
    if ps == [] {
      NotEmpty(ps);
      NameBeforeStart(s, a);
    } else {
      var front, last := ps[..|ps| - 1], ps[|ps| - 1];
      LastPieceAt(s, a, ps);
      PairedParts(ps);
      var b := a + |Render(front)|;
      NameFromOver(s, a, front);
      if last.Plain? {
        assert last != Plain(' ');
        NameBeforePlain(s, b);
      } else {
        NameBeforeAngle(s, b, last.inner);
      }
    }
  }

  lemma NameBeforeStart(s: string, a: nat)
    requires a <= |s| && s != "" && s[0] != '>' && (a == 0 || s[a - 1] == ' ')
    ensures NameBefore(s, a) == a
  {
  }

  /** A name is found from its last character, whatever its template arguments hold. */
  lemma QualifiedNameFound(before: string, ps: seq<Piece>, after: string)
    requires Paired(ps) && Unspaced(ps) && ps != [] && (before == "" || before[0] != '>')
    ensures (var s := before + " " + Render(ps) + after;
             s[0] != '>' && StartOfName(s, |before| + |Render(ps)|) == |before| + 1)
  {
    hide *;
    NotEmpty(ps);
    NameInside(before, ps, after);
    var s, a := before + " " + Render(ps) + after, |before| + 1;
    NameFromOver(s, a, ps);
    StartIsNameBefore(s, a + |Render(ps)|);
  }

  /** So is a name without a type in front, as constructors have it. */
  lemma NameAtStartFound(ps: seq<Piece>, after: string)
    requires Paired(ps) && Unspaced(ps) && ps != []
    ensures (var s := Render(ps) + after;
             Render(ps) != "" && s[0] != '>' && StartOfName(s, |Render(ps)| - 1) == 0)
  {
    hide *;
    NotEmpty(ps);
    NotClosedFirst(ps);
    var s := Render(ps) + after;
    OccursFirst(Render(ps), after);
    NameFromOver(s, 0, ps);
    StartIsNameBefore(s, |Render(ps)|);
  }

  lemma OccursFirst(text: string, after: string)
    ensures OccursAt(text + after, text, 0)
  {
  }

  /** No closing bracket comes first. */
  lemma {:induction false} NotClosedFirst(ps: seq<Piece>)
    requires Paired(ps) && ps != []
    ensures Render(ps) != "" && Render(ps)[0] != '>'
    decreases |ps|
  {
    var front := ps[..|ps| - 1];
    NotEmpty(ps);
    NotEmpty(front);
    PairedParts(ps);
    if front != [] {
      NotClosedFirst(front);
    }
  }

  lemma NameInside(before: string, ps: seq<Piece>, after: string)
    ensures (var s := before + " " + Render(ps) + after;
             && OccursAt(s, Render(ps), |before| + 1) && s[|before|] == ' '
             && s[0] == if before == "" then ' ' else before[0])
  {
    hide Render;
    var s, a := before + " " + Render(ps) + after, |before| + 1;
    assert s[a..a + |Render(ps)|] == Render(ps);
  }

  lemma StartIsNameBefore(s: string, end: nat)
    requires 0 < end <= |s| && s[0] != '>'
    ensures StartOfName(s, end - 1) == NameBefore(s, end)
  {
  }
}
