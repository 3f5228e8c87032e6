/**
 The template lists that compilers append to the names of functions, as in
 "int Foo<A>::Bar(float) [with A = int]", parsed, printed and filtered (pxr/base/arch/function.cpp).
 The parser works backwards by index, from the end of the list to its start.
*/
module TemplateList {
  import opened Basics
  import opened StringSearch

  /** What a finished parse has given: a map, or nothing if an out_of_range exception was thrown. */
  type Templates = map<string, string>

  // ---------- the start of a name ----------

  /**
   * Backwards from the ">" behind i's right to the matching "<": depth is how many are open. Running into
   * the start of the string ends the search there.
   */
  function Unnest(s: string, i: nat, depth: nat): (j: nat)
    requires i < |s| && (depth > 0 ==> i > 0)
    ensures j <= i && (depth > 0 ==> j < i)
  {
    if depth == 0 then i
    else if i == 1 then 0
    else Unnest(s, i - 1, if s[i - 1] == '>' then depth + 1 else if s[i - 1] == '<' then depth - 1 else depth)
  }

  /** Backwards over bracketed parts to the nearest space outside of them. */
  function NameFrom(s: string, k: int): (r: nat)
    requires NPOS <= k < |s| && (s == "" || s[0] != '>') && (k >= 0 ==> s[k] == ' ' || s[k] == '>')
    ensures r <= k + 1 && (r == 0 || s[r - 1] == ' ')
  {
    if k == NPOS then 0
    else if s[k] == ' ' then k + 1
    else
      var j := Unnest(s, k, 1);
      NameFrom(s, FindLastOf(s, " >", j))
  }

  /** Where the type name starts that ends at i. */
  function StartOfName(s: string, i: int): (r: nat)
    requires i >= NPOS && (s == "" || s[0] != '>')
    ensures r <= Reach(s, i) && (r == 0 || s[r - 1] == ' ')
  {
    NameFrom(s, FindLastOf(s, " >", i))
  }

  /** The inner loop of _GetStartOfName, which steps back before it looks at its condition's second half. */
  method SkipBrackets(s: string, i0: nat) returns (i: nat)
    requires 0 < i0 < |s|
    ensures i == Unnest(s, i0, 1)
  {
    i := i0;
    var nestingDepth: nat := 1;
    while nestingDepth != 0
      invariant i <= i0 && (nestingDepth > 0 ==> i > 0)
      invariant Unnest(s, i0, 1) == Unnest(s, i, nestingDepth)
      decreases i
    {
      i := i - 1;
      if i == 0 {
        break;
      }
      if s[i] == '>' {
        nestingDepth := nestingDepth + 1;
      } else if s[i] == '<' {
        nestingDepth := nestingDepth - 1;
      }
    }
  }

  method GetStartOfName(s: string, i0: int) returns (r: nat)
    requires i0 >= NPOS && (s == "" || s[0] != '>')
    ensures r == StartOfName(s, i0)
  {
    hide Unnest;
    var i := FindLastOf(s, " >", i0);
    while i != NPOS && s[i] != ' '
      invariant NPOS <= i < |s| && (i >= 0 ==> s[i] == ' ' || s[i] == '>')
      invariant NameFrom(s, i) == StartOfName(s, i0)
      decreases i
    {
      i := SkipBrackets(s, i);
      i := FindLastOf(s, " >", i);
    }
    r := if i == NPOS then 0 else i + 1;
  }

  // ---------- splitting and printing ----------

  /** The function part and the template list part, without the bracket that ends it. */
  function Split(pretty: string): (string, string) {
    var i := Find(pretty, " [with ", 0);
    if i == NPOS then (pretty, "") else (pretty[..i], pretty[i + 6..|pretty| - 1])
  }

  /** A template list in the order in which the map is iterated over. */
  type Entries = seq<(string, string)>

  function Item(e: (string, string)): string {
    " " + e.0 + " = " + e.1
  }

  function Items(es: Entries): string {
    if es == [] then ""
    else if |es| == 1 then Item(es[0])
    else Items(es[..|es| - 1]) + "," + Item(es[|es| - 1])
  }

  function Format(es: Entries): string {
    if es == [] then "" else " [with" + Items(es) + "]"
  }

  method FormatTemplateList(es: Entries) returns (result: string)
    ensures result == Format(es)
  {
    result := "";
    if es != [] {
      var k := 0;
      while k < |es|
        invariant k <= |es|
        invariant result == (if k == 0 then "" else " [with" + Items(es[..k]))
      {
        assert es[..k + 1][..k] == es[..k];
        if result == "" {
          result := result + " [with ";
        } else {
          result := result + ", ";
        }
        result := result + es[k].0;
        result := result + " = ";
        result := result + es[k].1;
        FormatStep(es, k);
        k := k + 1;
      }
      assert es[..k] == es;
      result := result + "]";
    }
  }

  lemma FormatStep(es: Entries, k: nat)
    requires k < |es|
    ensures (if k == 0 then " [with " else " [with" + Items(es[..k]) + ", ") + es[k].0 + " = " + es[k].1
         == " [with" + Items(es[..k + 1])
  {
    assert es[..k + 1][..k] == es[..k];
    if k == 0 {
      assert " [with " == " [with" + " ";
    } else {
      assert ", " == "," + " ";
    }
  }

  // ---------- parsing ----------

  /** Between two turns of the parser's loop; it ends when no "=" is left, or with an exception. */
  datatype Scan = Looking(typeEnd: nat, i: int, list: Templates) | Threw

  predicate Ended(scan: Scan) {
    scan.Threw? || scan.i == NPOS
  }

  function Result(scan: Scan): Option<Templates>
    requires Ended(scan)
  {
    if scan.Threw? then None else Some(scan.list)
  }

  predicate ScanOf(s: string, scan: Scan) {
    scan.Looking? ==> scan.typeEnd <= |s| && NPOS <= scan.i < |s|
  }

  function NameStart(s: string, i: nat): nat
    requires i < |s| && s[0] != '>'
  {
    StartOfName(s, FindLastNotOf(s, " =", i))
  }

  /** Where the type in front of the name for the "=" at i ends. */
  function TypeEnd(s: string, i: nat): nat
    requires i < |s| && s[0] != '>'
  {
    FindLastNotOf(s, " =,;", NameStart(s, i) - 1) + 1
  }

  /** One turn: the name in front of the "=" at i gets the type behind it. */
  function Turn(s: string, scan: Scan): (next: Scan)
    requires ScanOf(s, scan) && !Ended(scan) && s[0] != '>'
    ensures ScanOf(s, next) && (next.Looking? ==> next.list != map[])
  {
    var typeStart := FindFirstNotOf(s, " =", scan.i);
    var nameEnd := FindLastNotOf(s, " =", scan.i);
    var nameStart := NameStart(s, scan.i);
    var name := Substr(s, nameStart, nameEnd + 1 - nameStart);
    var kind := Substr(s, typeStart, scan.typeEnd - typeStart);
    if name.None? || kind.None? then Threw
    else
      var typeEnd := TypeEnd(s, scan.i);
      var list := scan.list[name.value := kind.value];
      assert name.value in list;
      Looking(typeEnd, RFind(s, '=', typeEnd), list)
  }

  function After(s: string, turns: nat): (scan: Scan)
    requires s == "" || s[0] != '>'
    ensures ScanOf(s, scan)
  {
    if turns == 0 then Looking(|s|, RFind(s, '=', |s|), map[])
    else
      var scan := After(s, turns - 1);
      if Ended(scan) then scan else Turn(s, scan)
  }

  /** The loop comes to an end. */
  ghost predicate Halts(s: string)
    requires s == "" || s[0] != '>'
  {
    exists turns: nat :: Ended(After(s, turns))
  }

  /** Nothing changes after the end. */
  lemma {:induction false} StillEnded(s: string, m: nat, n: nat)
    requires s == "" || s[0] != '>'
    requires m <= n && Ended(After(s, m))
    ensures After(s, n) == After(s, m)
    decreases n
  {
    if m < n {
      StillEnded(s, m, n - 1);
    }
  }

  lemma EndedAlike(s: string, n: nat)
    requires (s == "" || s[0] != '>') && Ended(After(s, n))
    ensures forall m: nat :: Ended(After(s, m)) ==> After(s, m) == After(s, n)
  {
    forall m: nat | Ended(After(s, m))
      ensures After(s, m) == After(s, n)
    {
      StillEnded(s, if m < n then m else n, if m < n then n else m);
    }
  }

  lemma AfterNone(s: string)
    requires s == "" || s[0] != '>'
    ensures After(s, 0) == Looking(|s|, RFind(s, '=', |s|), map[])
  {
  }

  lemma AfterOneMore(s: string, n: nat, turns: nat)
    requires s == "" || s[0] != '>'
    requires !Ended(After(s, n)) && Ended(After(s, turns)) && n <= turns
    ensures n < turns && After(s, n + 1) == Turn(s, After(s, n))
  {
  }

  /** The body of the parser's loop. */
  method TakeTurn(templates: string, typeEnd: nat, i: nat, list: Templates) returns (next: Scan)
    requires ScanOf(templates, Looking(typeEnd, i, list)) && templates[0] != '>'
    ensures next == Turn(templates, Looking(typeEnd, i, list))
  {
    hide LastWhere, FirstWhere, StartOfName, FindLastNotOf, FindFirstNotOf, RFind, Substr;
    var typeStart := FindFirstNotOf(templates, " =", i);
    var nameEnd := FindLastNotOf(templates, " =", i);
    var nameStart: int := GetStartOfName(templates, nameEnd);
    var name := Substr(templates, nameStart, nameEnd + 1 - nameStart);
    var kind := Substr(templates, typeStart, typeEnd - typeStart);
    if name.None? || kind.None? {
      return Threw;
    }
    var list' := list[name.value := kind.value];
    var typeEnd' := FindLastNotOf(templates, " =,;", nameStart - 1) + 1;
    next := Looking(typeEnd', RFind(templates, '=', typeEnd'), list');
  }

  /** The parser, wherever it comes to an end, gives what the turns have collected. */
  method GetTemplateList(templates: string) returns (result: Option<Templates>)
    requires templates == "" || templates[0] != '>'
    requires Halts(templates)
    ensures forall turns: nat :: Ended(After(templates, turns)) ==> result == Result(After(templates, turns))
  {
    ghost var turns: nat :| Ended(After(templates, turns));
    AfterNone(templates);
    hide After, Turn, LastWhere, Ended;
    var scan := Looking(|templates|, RFind(templates, '=', |templates|), map[]);
    ghost var n: nat := 0;
    while !Ended(scan)
      invariant n <= turns && scan == After(templates, n)
      decreases turns - n
    {
      AfterOneMore(templates, n, turns);
      scan := TakeTurn(templates, scan.typeEnd, scan.i, scan.list);
      n := n + 1;
    }
    EndedAlike(templates, n);
    return Result(scan);
  }

  // ---------- filtering ----------

  /** The next template argument, and where to look for the one after it. */
  function GetNextIdentifier(pretty: string, pos: nat): (r: (string, int))
    requires pos <= |pretty|
    ensures r.1 == NPOS || pos < r.1 <= |pretty|
  {
    var first := FindFirstNotOf(pretty, "< ", pos);
    if first == NPOS || pretty[first] == '<' then ("", NPOS)
    else
      var last := FindFirstOf(pretty, ",>", first);
      if last == NPOS then (pretty[first..], NPOS)
      else (pretty[first..last], if pretty[last] == ',' then last + 1 else Find(pretty, "<", first))
  }

  /** The template arguments from pos on, in order. */
  function Identifiers(pretty: string, pos: int): seq<string>
    requires pos == NPOS || 0 <= pos <= |pretty|
    decreases if pos == NPOS then -1 else |pretty| - pos
  {
    if pos == NPOS then []
    else
      var (identifier, next) := GetNextIdentifier(pretty, pos);
      (if identifier == "" then [] else [identifier]) + Identifiers(pretty, next)
  }

  /** The elements of templates whose names are among ids. */
  function Restricted(templates: Templates, ids: seq<string>): Templates {
    map k | k in templates && k in ids :: templates[k]
  }

  lemma RestrictMore(templates: Templates, ids: seq<string>, id: string)
    ensures Restricted(templates, ids + [id])
         == if id in templates then Restricted(templates, ids)[id := templates[id]] else Restricted(templates, ids)
    ensures id in Restricted(templates, ids) ==> id in templates
    ensures id in Restricted(templates, ids)
            ==> Restricted(templates, ids)[id := templates[id]] == Restricted(templates, ids)
  {
  }

  lemma IdentifiersStep(pretty: string, pos: nat, seen: seq<string>)
    requires pos <= |pretty|
    ensures (var (identifier, next) := GetNextIdentifier(pretty, pos);
             seen + Identifiers(pretty, pos)
             == (if identifier == "" then seen else seen + [identifier]) + Identifiers(pretty, next))
  {
    var (identifier, next) := GetNextIdentifier(pretty, pos);
    var rest := Identifiers(pretty, next);
    assert [] + rest == rest;
    assert seen + ([identifier] + rest) == (seen + [identifier]) + rest;
  }

  /** Which elements of templates occur as template arguments in pretty. */
  method FilterTemplateList(pretty: string, templates: Templates) returns (result: Templates)
    ensures result == Restricted(templates, Identifiers(pretty, Find(pretty, "<", 0)))
  {
    var pos := Find(pretty, "<", 0);
    ghost var all, seen: seq<string> := Identifiers(pretty, pos), [];
    result := map[];
    assert seen + all == all && Restricted(templates, seen) == map[];
    hide Identifiers, Restricted, GetNextIdentifier;
    while pos != NPOS
      invariant pos == NPOS || 0 <= pos <= |pretty|
      invariant all == seen + Identifiers(pretty, pos) && result == Restricted(templates, seen)
      decreases if pos == NPOS then -1 else |pretty| - pos
    {
      var (identifier, next) := GetNextIdentifier(pretty, pos);
      IdentifiersStep(pretty, pos, seen);
      RestrictMore(templates, seen, identifier);
      if identifier != "" {
        if identifier in templates && identifier !in result {
          result := result[identifier := templates[identifier]];
        }
        seen := seen + [identifier];
      }
      pos := next;
    }
    NoIdentifiers(pretty);
    assert seen + [] == seen;
  }

  lemma NoIdentifiers(pretty: string)
    ensures Identifiers(pretty, NPOS) == []
  {
  }
}
