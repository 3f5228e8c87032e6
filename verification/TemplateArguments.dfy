/**
 What the scan over the name of a function finds (_GetNextIdentifier and _FilterTemplateList in
 pxr/base/arch/function.cpp), for names whose template arguments may have template arguments themselves.
*/
module TemplateArguments {
  import opened StringSearch
  import opened TemplateList

  // ---------- names ----------

  /** A name: text, or text in front of template arguments and of the rest of the name. */
  datatype Name = End(text: string) | Then(text: string, args: seq<Name>, rest: Name)

  function Render(n: Name): string {
    if n.End? then n.text else n.text + "<" + RenderArgs(n.args) + ">" + Render(n.rest)
  }

  /** Arguments may start with spaces. */
  function RenderArgs(args: seq<Name>): string {
    if args == [] then ""
    else if |args| == 1 then Render(args[0])
    else Render(args[0]) + "," + RenderArgs(args[1..])
  }

  function Trim(text: string): string {
    if text != "" && text[0] == ' ' then Trim(text[1..]) else text
  }

  /** The brackets of a name are all in front of and behind its template arguments. */
  predicate NameOk(n: Name) {
    '<' !in n.text && (n.Then? ==> ArgsOk(n.args) && NameOk(n.rest))
  }

  predicate ArgsOk(args: seq<Name>) {
    forall i :: 0 <= i < |args| ==> StartOk(args[i].text) && NameOk(args[i])
  }

  /** What an argument may start with. */
  predicate StartOk(text: string) {
    Trim(text) != "" && forall i :: 0 <= i < |text| ==> text[i] !in "<>,"
  }

  // ---------- what the scan comes upon ----------

  /**
   * The text from the start of a list to its first comma or closing bracket, if no list inside comes to an end
   * before that.
   */
  function FirstText(args: seq<Name>): string {
    if args == [] then ""
    else if args[0].End? then args[0].text
    else args[0].text + "<" + FirstText(args[0].args)
  }

  /** It is a comma that ends the first text. */
  predicate CommaFirst(args: seq<Name>) {
    args != [] && if args[0].End? then |args| > 1 else CommaFirst(args[0].args)
  }

  /**
   * What the scan comes upon in a name when it looks for the next opening bracket; `after` is what it
   * comes upon behind the name.
   */
  function InName(n: Name, after: seq<string>): seq<string> {
    if n.End? then after else InList(n.args, InName(n.rest, after))
  }

  /** The same for the arguments of a list: those without brackets are passed over. */
  function InRest(args: seq<Name>, after: seq<string>): seq<string> {
    if args == [] then after else InName(args[0], InRest(args[1..], after))
  }

  /**
   * What it comes upon from the start of an argument on. An argument with brackets is taken up to its first
   * comma or closing bracket. Behind a comma the scan goes on. Behind a closing bracket it goes back to the
   * argument's opening one.
   */
  function InList(args: seq<Name>, after: seq<string>): seq<string> {
    if args == [] then after
    else if args[0].End? then [Trim(args[0].text)] + InList(args[1..], after)
    else
      var behind := InName(args[0].rest, InRest(args[1..], after));
      [Trim(args[0].text) + "<" + FirstText(args[0].args)] +
      if CommaFirst(args[0].args) then BehindComma(args[0].args, behind) else InList(args[0].args, behind)
  }

  /** What it comes upon behind the comma that ends the first text. */
  function BehindComma(args: seq<Name>, after: seq<string>): seq<string>
    requires CommaFirst(args)
  {
    if args[0].End? then InList(args[1..], after)
    else BehindComma(args[0].args, InName(args[0].rest, InRest(args[1..], after)))
  }

  // ---------- where the parts of a name are ----------

  lemma RenderThen(n: Name)
    requires n.Then?
    ensures Render(n) == n.text + ("<" + ((RenderArgs(n.args) + ">") + Render(n.rest)))
  {
    hide RenderArgs;
  }

  lemma CharOccurs(s: string, i: nat, c: char)
    requires OccursAt(s, [c], i)
    ensures i < |s| && s[i] == c
  {
    assert s[i..i + 1][0] == c;
  }

  lemma OccursEnd(s: string, a: nat, text: string)
    requires OccursAt(s, text, a)
    ensures a + |text| <= |s|
  {
  }

  lemma PartsAt(s: string, a: nat, n: Name)
    requires n.Then? && OccursAt(s, Render(n), a)
    ensures (var b := a + |n.text|;
             var end := b + 2 + |RenderArgs(n.args)|;
             && OccursAt(s, n.text, a) && b < |s| && s[b] == '<'
             && OccursAt(s, RenderArgs(n.args) + ">", b + 1)
             && end <= |s| && OccursAt(s, Render(n.rest), end) && end + |Render(n.rest)| == a + |Render(n)|)
  {
    hide *;
    var list, rest := RenderArgs(n.args) + ">", Render(n.rest);
    var b := a + |n.text|;
    RenderThen(n);
    OccursConcat(s, a, n.text, "<" + (list + rest));
    OccursConcat(s, b, "<", list + rest);
    OccursConcat(s, b + 1, list, rest);
    CharOccurs(s, b, '<');
    OccursEnd(s, b + 1 + |list|, rest);
  }

  /** The first argument, and what follows it. */
  lemma FirstArgumentAt(s: string, a: nat, args: seq<Name>)
    requires args != [] && OccursAt(s, RenderArgs(args) + ">", a)
    ensures (var b := a + |Render(args[0])|;
             && OccursAt(s, Render(args[0]), a) && b < |s| && a + |RenderArgs(args)| < |s|
             && (|args| == 1 ==> s[b] == '>' && |RenderArgs(args)| == |Render(args[0])|)
             && (|args| > 1 ==> s[b] == ',' && |RenderArgs(args)| == |Render(args[0])| + 1 + |RenderArgs(args[1..])|
                                && OccursAt(s, RenderArgs(args[1..]) + ">", b + 1)))
  {
    hide Render, OccursAt;
    var first := Render(args[0]);
    var b := a + |first|;
    if |args| == 1 {
      OccursConcat(s, a, first, ">");
      assert s[b..b + 1][0] == '>';
    } else {
      var rest := RenderArgs(args[1..]) + ">";
      assert RenderArgs(args) + ">" == first + ("," + rest) by {
        hide Render;
      }
      hide Render, RenderArgs;
      OccursConcat(s, a, first, "," + rest);
      OccursConcat(s, b, ",", rest);
      CharOccurs(s, b, ',');
    }
  }

  lemma RenderEnd(n: Name)
    requires n.End?
    ensures Render(n) == n.text
  {
  }

  lemma ArgsParts(args: seq<Name>)
    requires ArgsOk(args) && args != []
    ensures (var n := args[0];
             && Trim(n.text) != "" && Trim(n.text)[0] !in "< " && '<' !in n.text && '<' !in Trim(n.text)
             && StartOk(n.text) && NameOk(n) && (n.Then? ==> ArgsOk(n.args) && NameOk(n.rest)))
    ensures ArgsOk(args[1..])
  {
    TrimIs(args[0].text);
    hide Trim;
  }

  lemma {:induction false} TrimIs(text: string)
    ensures (var t := Trim(text);
             var k := |text| - |t|;
             && k >= 0 && text[k..] == t && (forall i :: 0 <= i < k ==> text[i] == ' ') && (t != "" ==> t[0] != ' '))
  {
    if text != "" && text[0] == ' ' {
      var rest := text[1..];
      TrimIs(rest);
      assert Trim(text) == Trim(rest);
      hide Trim;
      var k := |rest| - |Trim(rest)|;
      assert text[k + 1..] == rest[k..];
    }
  }

  lemma {:induction false} TrimLonger(text: string, more: string)
    requires Trim(text) != ""
    ensures Trim(text + more) == Trim(text) + more
  {
    if text[0] == ' ' {
      TrimLonger(text[1..], more);
      assert (text + more)[1..] == text[1..] + more;
    }
  }

  /** An argument without brackets. */
  lemma PlainAt(s: string, a: nat, n: Name)
    requires n.End? && StartOk(n.text) && OccursAt(s, Render(n), a)
    ensures |Render(n)| == |n.text| && OccursAt(s, n.text, a)
    ensures forall i :: a <= i < a + |n.text| ==> s[i] !in ",>"
  {
    var text := n.text;
    forall i | a <= i < a + |text|
      ensures s[i] !in ",>"
    {
      assert s[i] == s[a..a + |text|][i - a] == text[i - a];
    }
  }

  lemma EmptyAt(s: string, a: nat)
    requires OccursAt(s, RenderArgs([]) + ">", a)
    ensures |RenderArgs([])| == 0 && a < |s| && s[a] == '>' && OccursAt(s, "", a)
  {
    assert RenderArgs([]) + ">" == ">";
    assert s[a..a + 1][0] == '>';
  }

  lemma FirstTextUnfolds(args: seq<Name>)
    ensures args == [] ==> FirstText(args) == "" && !CommaFirst(args)
    ensures args != [] && args[0].End? ==> FirstText(args) == args[0].text && CommaFirst(args) == (|args| > 1)
    ensures args != [] && args[0].Then? ==> FirstText(args) == args[0].text + "<" + FirstText(args[0].args)
                                            && CommaFirst(args) == CommaFirst(args[0].args)
  {
  }

  /** The first text of a list ends with a comma or with a bracket. */
  lemma {:induction false} FirstTextAt(s: string, a: nat, args: seq<Name>)
    requires ArgsOk(args) && OccursAt(s, RenderArgs(args) + ">", a)
    ensures (var text := FirstText(args);
             var end := a + |text|;
             && OccursAt(s, text, a) && end < |s| && s[end] == (if CommaFirst(args) then ',' else '>')
             && forall i :: a <= i < end ==> s[i] !in ",>")
    decreases args
  {
    hide OccursAt, Render, RenderArgs, ArgsOk, NameOk, StartOk, FirstText, CommaFirst;
    FirstTextUnfolds(args);
    if args == [] {
      EmptyAt(s, a);
    } else {
      var n := args[0];
      ArgsParts(args);
      FirstArgumentAt(s, a, args);
      if n.End? {
        PlainAt(s, a, n);
      } else {
        PartsAt(s, a, n);
        FirstTextAt(s, a + |n.text| + 1, n.args);
        OpenedAt(s, a, n.text, FirstText(n.args));
      }
    }
  }

  /** The text of an argument with brackets, and what is behind the opening one. */
  lemma OpenedAt(s: string, a: nat, text: string, more: string)
    requires StartOk(text) && OccursAt(s, text, a)
    requires a + |text| < |s| && s[a + |text|] == '<' && OccursAt(s, more, a + |text| + 1)
    requires forall i :: a + |text| < i < a + |text| + 1 + |more| ==> s[i] !in ",>"
    ensures OccursAt(s, text + "<" + more, a)
    ensures forall i :: a <= i < a + |text| + 1 + |more| ==> s[i] !in ",>"
  {
    PlainAt(s, a, End(text));
    assert s[a + |text|..a + |text| + 1] == "<";
    hide StartOk;
    OccursJoined(s, a, text, "<");
    OccursJoined(s, a, text + "<", more);
  }

  lemma OccursJoined(s: string, a: nat, x: string, y: string)
    requires OccursAt(s, x, a) && OccursAt(s, y, a + |x|)
    ensures OccursAt(s, x + y, a)
  {
    assert s[a..a + |x + y|] == s[a..a + |x|] + s[a + |x|..a + |x + y|];
  }

  // ---------- the scan ----------

  /** What the scan comes upon when it looks for an opening bracket from i on. */
  function From(s: string, i: nat): seq<string>
    requires i <= |s|
  {
    Identifiers(s, Find(s, "<", i))
  }

  lemma FromBehind(s: string, i: nat)
    requires i < |s| && s[i] != '<'
    ensures From(s, i) == From(s, i + 1)
  {
    assert s[i..i + 1][0] != '<';
  }

  lemma {:induction false} FromOver(s: string, a: nat, text: string)
    requires OccursAt(s, text, a) && '<' !in text
    ensures From(s, a) == From(s, a + |text|)
    decreases |text|
  {
    hide From;
    if text != "" {
      assert s[a] == s[a..a + |text|][0] == text[0];
      assert s[a + 1..a + |text|] == s[a..a + |text|][1..] == text[1..];
      FromBehind(s, a);
      FromOver(s, a + 1, text[1..]);
    }
  }

  lemma FindHere(s: string, b: nat)
    requires b < |s| && s[b] == '<'
    ensures From(s, b) == Identifiers(s, b)
  {
    assert s[b..b + 1] == "<";
  }

  /** The scan goes on from the text at a itself, behind a comma, or from an opening bracket in front of it. */
  predicate Before(s: string, pos: nat, a: nat) {
    pos == a || (a == pos + 1 && a <= |s| && s[pos] == '<')
  }

  /** One step of the scan. */
  lemma TextScanned(s: string, pos: nat, a: nat, text: string)
    requires Before(s, pos, a) && a + |text| < |s| && OccursAt(s, text, a)
    requires Trim(text) != "" && Trim(text)[0] !in "< " && s[a + |text|] in ",>"
    requires forall j :: a <= j < a + |text| ==> s[j] !in ",>"
    ensures (var last := a + |text|;
             Identifiers(s, pos) == [Trim(text)] + if s[last] == ',' then Identifiers(s, last + 1) else From(s, a))
  {
    hide Trim, OccursAt, Identifiers, From;
    var last := a + |text|;
    var first := last - |Trim(text)|;
    TrimmedAt(s, text, a);
    NextIs(s, pos, first, last);
    StepIs(s, pos, s[first..last], if s[last] == ',' then last + 1 else Find(s, "<", first));
    SpacesPassed(s, a, first);
    FromIs(s, first);
  }

  lemma FromIs(s: string, i: nat)
    requires i <= |s|
    ensures From(s, i) == Identifiers(s, Find(s, "<", i))
  {
  }

  /** Where text occurs, its trimmed part does behind some spaces. */
  lemma TrimmedAt(s: string, text: string, a: nat)
    requires OccursAt(s, text, a)
    ensures (var last := a + |text|;
             var first := last - |Trim(text)|;
             a <= first <= last <= |s| && s[first..last] == Trim(text) && forall j :: a <= j < first ==> s[j] == ' ')
  {
    TrimIs(text);
    hide Trim;
    var k, u := |text| - |Trim(text)|, s[a..a + |text|];
    assert s[a + k..a + |text|] == u[k..];
    assert forall j :: a <= j < a + k ==> s[j] == u[j - a];
  }

  lemma NextIs(s: string, pos: nat, first: nat, last: nat)
    requires pos <= first < last < |s| && s[first] !in "< " && s[last] in ",>"
    requires forall j :: pos <= j < first ==> s[j] in "< "
    requires forall j :: first <= j < last ==> s[j] !in ",>"
    ensures GetNextIdentifier(s, pos) == (s[first..last], if s[last] == ',' then last + 1 else Find(s, "<", first))
  {
    FirstWhereIs(s, "< ", false, pos, first);
    FirstWhereIs(s, ",>", true, first, last);
    hide FirstWhere, Find;
  }

  lemma StepIs(s: string, pos: nat, id: string, next: int)
    requires pos <= |s| && GetNextIdentifier(s, pos) == (id, next) && id != ""
    ensures Identifiers(s, pos) == [id] + Identifiers(s, next)
  {
    hide GetNextIdentifier;
  }

  lemma {:induction false} SpacesPassed(s: string, a: nat, first: nat)
    requires a <= first < |s| && forall j :: a <= j < first ==> s[j] == ' '
    ensures From(s, a) == From(s, first)
    decreases first - a
  {
    hide From;
    if a < first {
      FromBehind(s, a);
      SpacesPassed(s, a + 1, first);
    }
  }

  lemma EmptyList(s: string, pos: nat)
    requires pos + 1 < |s| && s[pos] == '<' && s[pos + 1] == '>'
    ensures Identifiers(s, pos) == From(s, pos + 2)
  {
    FirstWhereIs(s, "< ", false, pos, pos + 1);
    FirstWhereIs(s, ",>", true, pos + 1, pos + 1);
    FromBehind(s, pos + 1);
    assert s[pos + 1..pos + 1] == "";
  }

  /** Looking for an opening bracket from the start of a name on. */
  lemma {:induction false} NameScanned(s: string, a: nat, n: Name)
    requires NameOk(n) && OccursAt(s, Render(n), a)
    ensures From(s, a) == InName(n, From(s, a + |Render(n)|))
    decreases n, 0
  {
    hide OccursAt, Render, RenderArgs, ArgsOk, Find, From, Identifiers;
    if n.End? {
      RenderEnd(n);
      FromOver(s, a, n.text);
    } else {
      PartsAt(s, a, n);
      var b := a + |n.text|;
      FromOver(s, a, n.text);
      FindHere(s, b);
      ListScanned(s, b, b + 1, n.args);
      NameScanned(s, b + 2 + |RenderArgs(n.args)|, n.rest);
    }
  }

  /** The same from the start of an argument on, up to the end of its list. */
  lemma {:induction false} RestScanned(s: string, a: nat, args: seq<Name>)
    requires ArgsOk(args) && OccursAt(s, RenderArgs(args) + ">", a)
    ensures From(s, a) == InRest(args, From(s, a + |RenderArgs(args)| + 1))
    decreases args, 1
  {
    hide OccursAt, Render, RenderArgs, ArgsOk, NameOk, StartOk, Find, From, Identifiers;
    if args == [] {
      EmptyAt(s, a);
      FromBehind(s, a);
    } else {
      ArgsParts(args);
      FirstArgumentAt(s, a, args);
      NameScanned(s, a, args[0]);
      BehindFirst(s, a, args);
    }
  }

  /** From behind the first argument of a list on. */
  lemma {:induction false} BehindFirst(s: string, a: nat, args: seq<Name>)
    requires args != [] && ArgsOk(args) && OccursAt(s, RenderArgs(args) + ">", a)
    ensures (var b := a + |Render(args[0])|;
             b < |s| && From(s, b) == InRest(args[1..], From(s, a + |RenderArgs(args)| + 1)))
    decreases args, 0
  {
    hide OccursAt, Render, RenderArgs, ArgsOk, NameOk, StartOk, Find, From, Identifiers;
    ArgsParts(args);
    FirstArgumentAt(s, a, args);
    var b := a + |Render(args[0])|;
    FromBehind(s, b);
    if |args| > 1 {
      RestScanned(s, b + 1, args[1..]);
    }
  }

  /** Taking identifiers from in front of an argument on, up to the end of its list. */
  lemma {:induction false} ListScanned(s: string, pos: nat, a: nat, args: seq<Name>)
    requires ArgsOk(args) && Before(s, pos, a) && OccursAt(s, RenderArgs(args) + ">", a) && (args == [] ==> pos < a)
    ensures Identifiers(s, pos) == InList(args, From(s, a + |RenderArgs(args)| + 1))
    decreases args, 2
  {
    hide OccursAt, Render, RenderArgs, ArgsOk, NameOk, StartOk, Find, From, Identifiers;
    if args == [] {
      EmptyAt(s, a);
      EmptyList(s, pos);
    } else if args[0].End? {
      PlainScanned(s, pos, a, args);
    } else {
      BracketedScanned(s, pos, a, args);
    }
  }

  lemma {:induction false} PlainScanned(s: string, pos: nat, a: nat, args: seq<Name>)
    requires ArgsOk(args) && Before(s, pos, a) && OccursAt(s, RenderArgs(args) + ">", a)
    requires args != [] && args[0].End?
    ensures Identifiers(s, pos) == InList(args, From(s, a + |RenderArgs(args)| + 1))
    decreases args, 1
  {
    hide OccursAt, Render, RenderArgs, ArgsOk, NameOk, StartOk, Find, From, Identifiers, Trim;
    ArgsParts(args);
    FirstArgumentAt(s, a, args);
    var text := args[0].text;
    var last := a + |text|;
    PlainAt(s, a, args[0]);
    TextScanned(s, pos, a, text);
    if |args| == 1 {
      FromOver(s, a, text);
      FromBehind(s, last);
    } else {
      ListScanned(s, last + 1, last + 1, args[1..]);
    }
  }

  lemma BracketedFirst(args: seq<Name>, after: seq<string>)
    requires ArgsOk(args) && args != [] && args[0].Then?
    ensures (var n := args[0];
             var behind := InName(n.rest, InRest(args[1..], after));
             var text := Trim(FirstText(args));
             && text != "" && text[0] !in "< " && CommaFirst(args) == CommaFirst(n.args)
             && |FirstText(args)| == |n.text| + 1 + |FirstText(n.args)|
             && InList(args, after) == [text] + if CommaFirst(n.args) then BehindComma(n.args, behind)
                                                else InList(n.args, behind))
  {
    ArgsParts(args);
    var n := args[0];
    TrimLonger(n.text, "<" + FirstText(n.args));
    assert n.text + "<" + FirstText(n.args) == n.text + ("<" + FirstText(n.args));
    assert Trim(n.text) + "<" + FirstText(n.args) == Trim(n.text) + ("<" + FirstText(n.args));
  }

  lemma {:induction false} BracketedScanned(s: string, pos: nat, a: nat, args: seq<Name>)
    requires ArgsOk(args) && Before(s, pos, a) && OccursAt(s, RenderArgs(args) + ">", a)
    requires args != [] && args[0].Then?
    ensures Identifiers(s, pos) == InList(args, From(s, a + |RenderArgs(args)| + 1))
    decreases args, 1
  {
    hide OccursAt, Render, RenderArgs, ArgsOk, NameOk, StartOk, Find, From, Identifiers, Trim, FirstText, CommaFirst;
    hide InList, InName, InRest, BehindComma;
    var n := args[0];
    ArgsParts(args);
    FirstArgumentAt(s, a, args);
    PartsAt(s, a, n);
    var b := a + |n.text|;
    FirstTextAt(s, a, args);
    BracketedFirst(args, From(s, a + |RenderArgs(args)| + 1));
    TextScanned(s, pos, a, FirstText(args));
    NameScanned(s, b + 2 + |RenderArgs(n.args)|, n.rest);
    BehindFirst(s, a, args);
    if CommaFirst(n.args) {
      CommaPassed(s, b + 1, n.args);
    } else {
      FromOver(s, a, n.text);
      FindHere(s, b);
      ListScanned(s, b, b + 1, n.args);
    }
  }

  lemma BehindUnfolds(args: seq<Name>, after: seq<string>)
    requires CommaFirst(args)
    ensures args != [] && BehindComma(args, after)
         == if args[0].End? then InList(args[1..], after)
            else BehindComma(args[0].args, InName(args[0].rest, InRest(args[1..], after)))
  {
    hide InList, InName, InRest;
  }

  /** Going on behind the comma that ends the first text of a list. */
  lemma {:induction false} CommaPassed(s: string, a: nat, args: seq<Name>)
    requires ArgsOk(args) && OccursAt(s, RenderArgs(args) + ">", a) && CommaFirst(args)
    ensures (var end := a + |FirstText(args)|;
             end < |s| && Identifiers(s, end + 1) == BehindComma(args, From(s, a + |RenderArgs(args)| + 1)))
    decreases args, 1
  {
    hide OccursAt, Render, RenderArgs, ArgsOk, NameOk, StartOk, Find, From, Identifiers, Trim, FirstText, BehindComma;
    hide CommaFirst, InList, InName, InRest;
    FirstTextUnfolds(args);
    OccursEnd(s, a, RenderArgs(args) + ">");
    BehindUnfolds(args, From(s, a + |RenderArgs(args)| + 1));
    var n := args[0];
    ArgsParts(args);
    FirstArgumentAt(s, a, args);
    if n.End? {
      RenderEnd(n);
      ListScanned(s, a + |n.text| + 1, a + |n.text| + 1, args[1..]);
    } else {
      PartsAt(s, a, n);
      var b := a + |n.text|;
      CommaPassed(s, b + 1, n.args);
      NameScanned(s, b + 2 + |RenderArgs(n.args)|, n.rest);
      BehindFirst(s, a, args);
    }
  }

  lemma WholeOccurs(s: string)
    ensures OccursAt(s, s, 0) && From(s, |s|) == [] && From(s, 0) == Identifiers(s, Find(s, "<", 0))
  {
  }

  /** The scan over a name comes upon exactly what InName says. */
  lemma ArgumentsIdentified(n: Name)
    requires NameOk(n)
    ensures (var s := Render(n); Identifiers(s, Find(s, "<", 0)) == InName(n, []))
  {
    hide *;
    var s := Render(n);
    WholeOccurs(s);
    NameScanned(s, 0, n);
  }

  // ---------- which arguments are kept ----------

  /** The identifiers without brackets among what the scan comes upon. */
  function Plain(ids: seq<string>): seq<string> {
    if ids == [] then [] else (if '<' in ids[0] then [] else [ids[0]]) + Plain(ids[1..])
  }

  /** The arguments of a name that have no arguments themselves, at any depth and in order. */
  function PlainArguments(n: Name): seq<string> {
    if n.End? then [] else PlainInList(n.args) + PlainArguments(n.rest)
  }

  function PlainInList(args: seq<Name>): seq<string> {
    if args == [] then []
    else (if args[0].End? then [Trim(args[0].text)] else PlainArguments(args[0])) + PlainInList(args[1..])
  }

  /** Nothing is lost in a name: all its lists are regular. */
  predicate Regular(n: Name) {
    n.Then? ==> RegularList(n.args) && Regular(n.rest)
  }

  /**
   * Behind an argument with brackets come only such arguments; and the first text of the first one does not
   * end with a comma.
   */
  predicate RegularList(args: seq<Name>) {
    args == [] ||
    if args[0].End? then RegularList(args[1..])
    else !CommaFirst(args[0].args) && RegularList(args[0].args) && Regular(args[0].rest) && RegularRest(args[1..])
  }

  predicate RegularRest(args: seq<Name>) {
    forall i :: 0 <= i < |args| ==> args[i].Then? && Regular(args[i])
  }

  /** All are seen if the condition holds, and otherwise fewer than all, but no others. */
  predicate Keeps(condition: bool, seen: seq<string>, all: seq<string>) {
    if condition then seen == all else |seen| < |all| && forall id :: id in seen ==> id in all
  }

  lemma KeepsThen(c: bool, seen: seq<string>, all: seq<string>, d: bool, more: seq<string>, after: seq<string>)
    requires Keeps(c, seen, all + more) && Keeps(d, more, after)
    ensures Keeps(c && d, seen, all + after)
  {
  }

  lemma KeepsMore(c: bool, seen: seq<string>, all: seq<string>, first: seq<string>)
    requires Keeps(c, seen, all)
    ensures Keeps(c, first + seen, first + all)
  {
  }

  lemma PlainFirst(id: string, ids: seq<string>)
    ensures Plain([id] + ids) == if '<' in id then Plain(ids) else [id] + Plain(ids)
  {
    assert ([id] + ids)[1..] == ids;
  }

  lemma KeepsLess(c: bool, seen: seq<string>, all: seq<string>, lost: seq<string>)
    requires Keeps(c, seen, all) && lost != []
    ensures Keeps(false, seen, lost + all)
  {
  }

  lemma KeepsAll(ids: seq<string>)
    ensures Keeps(true, ids, [] + ids)
  {
  }

  lemma Regroup(x: seq<string>, y: seq<string>, z: seq<string>)
    ensures (x + y) + z == x + (y + z)
  {
  }

  lemma {:induction false} NameKept(n: Name, after: seq<string>)
    requires NameOk(n)
    ensures Keeps(Regular(n), Plain(InName(n, after)), PlainArguments(n) + Plain(after))
    decreases n, 0
  {
    hide Keeps, Plain, ArgsOk, InList, PlainInList, RegularList;
    if n.End? {
      KeepsAll(Plain(after));
    } else {
      var behind := InName(n.rest, after);
      ListKept(n.args, behind);
      NameKept(n.rest, after);
      KeepsThen(RegularList(n.args), Plain(InName(n, after)), PlainInList(n.args),
                Regular(n.rest), Plain(behind), PlainArguments(n.rest) + Plain(after));
      Regroup(PlainInList(n.args), PlainArguments(n.rest), Plain(after));
    }
  }

  lemma {:induction false} RestKept(args: seq<Name>, after: seq<string>)
    requires ArgsOk(args)
    ensures Keeps(RegularRest(args), Plain(InRest(args, after)), PlainInList(args) + Plain(after))
    decreases args, 0
  {
    hide Keeps, Plain, ArgsOk, NameOk, StartOk, Regular;
    if args == [] {
      KeepsAll(Plain(after));
    } else {
      var n, rest := args[0], args[1..];
      var more := InRest(rest, after);
      ArgsParts(args);
      RestKept(rest, after);
      assert RegularRest(args) == (n.Then? && Regular(n) && RegularRest(rest)) by {
        assert args == [n] + rest;
      }
      if n.Then? {
        NameKept(n, more);
        KeepsThen(Regular(n), Plain(InRest(args, after)), PlainArguments(n),
                  RegularRest(rest), Plain(more), PlainInList(rest) + Plain(after));
        Regroup(PlainArguments(n), PlainInList(rest), Plain(after));
      } else {
        KeepsLess(RegularRest(rest), Plain(more), PlainInList(rest) + Plain(after), [Trim(n.text)]);
        Regroup([Trim(n.text)], PlainInList(rest), Plain(after));
      }
    }
  }

  /** What follows the list of a first argument with brackets. */
  lemma {:induction false} BehindKept(args: seq<Name>, after: seq<string>)
    requires ArgsOk(args) && args != [] && args[0].Then?
    ensures (var n := args[0];
             Keeps(Regular(n.rest) && RegularRest(args[1..]), Plain(InName(n.rest, InRest(args[1..], after))),
                   PlainArguments(n.rest) + (PlainInList(args[1..]) + Plain(after))))
    decreases args, 0
  {
    hide *;
    var rest := args[0].rest;
    var more := InRest(args[1..], after);
    ArgsParts(args);
    RestKept(args[1..], after);
    NameKept(rest, more);
    KeepsThen(Regular(rest), Plain(InName(rest, more)), PlainArguments(rest),
              RegularRest(args[1..]), Plain(more), PlainInList(args[1..]) + Plain(after));
  }

  lemma PlainOfBracketed(args: seq<Name>, after: seq<string>)
    requires args != [] && args[0].Then?
    ensures (var n := args[0];
             PlainInList(args) + after
             == PlainInList(n.args) + (PlainArguments(n.rest) + (PlainInList(args[1..]) + after)))
  {
    var n := args[0];
    var list, rest, more := PlainInList(n.args), PlainArguments(n.rest), PlainInList(args[1..]);
    assert PlainInList(args) == (list + rest) + more;
    hide PlainInList, PlainArguments;
    Regroup(list + rest, more, after);
    Regroup(list, rest, more + after);
  }

  lemma {:induction false} ListKept(args: seq<Name>, after: seq<string>)
    requires ArgsOk(args)
    ensures Keeps(RegularList(args), Plain(InList(args, after)), PlainInList(args) + Plain(after))
    decreases args, 2
  {
    hide Keeps, Plain, ArgsOk, NameOk, Regular, RegularRest, InName, InRest, PlainArguments, CommaFirst;
    if args == [] {
      KeepsAll(Plain(after));
      NothingPlain();
    } else {
      var n, rest := args[0], args[1..];
      ArgsParts(args);
      if n.End? {
        ListKept(rest, after);
        PlainFirst(Trim(n.text), InList(rest, after));
        KeepsMore(RegularList(rest), Plain(InList(rest, after)), PlainInList(rest) + Plain(after), [Trim(n.text)]);
        Regroup([Trim(n.text)], PlainInList(rest), Plain(after));
      } else {
        BracketedKept(args, after);
      }
    }
  }

  lemma BracketedUnfolds(args: seq<Name>, after: seq<string>)
    requires args != [] && args[0].Then?
    ensures (var n := args[0];
             var behind := InName(n.rest, InRest(args[1..], after));
             && RegularList(args) == ((!CommaFirst(n.args) && RegularList(n.args))
                                      && (Regular(n.rest) && RegularRest(args[1..])))
             && Plain(InList(args, after)) == Plain(if CommaFirst(n.args) then BehindComma(n.args, behind)
                                                    else InList(n.args, behind)))
  {
    var n := args[0];
    var behind := InName(n.rest, InRest(args[1..], after));
    var id := Trim(n.text) + "<" + FirstText(n.args);
    assert id[|Trim(n.text)|] == '<';
    PlainFirst(id, if CommaFirst(n.args) then BehindComma(n.args, behind) else InList(n.args, behind));
  }

  lemma {:induction false} BracketedKept(args: seq<Name>, after: seq<string>)
    requires ArgsOk(args) && args != [] && args[0].Then?
    ensures Keeps(RegularList(args), Plain(InList(args, after)), PlainInList(args) + Plain(after))
    decreases args, 1
  {
    hide *;
    var n, rest := args[0], args[1..];
    ArgsParts(args);
    var behind := InName(n.rest, InRest(rest, after));
    if CommaFirst(n.args) {
      CommaLoses(n.args, behind);
    } else {
      ListKept(n.args, behind);
    }
    BehindKept(args, after);
    BracketedUnfolds(args, after);
    PlainOfBracketed(args, Plain(after));
    KeepsThen(!CommaFirst(n.args) && RegularList(n.args), Plain(InList(args, after)), PlainInList(n.args),
              Regular(n.rest) && RegularRest(rest), Plain(behind),
              PlainArguments(n.rest) + (PlainInList(rest) + Plain(after)));
  }

  /** The argument in front of a comma is lost if brackets are open in front of it. */
  lemma {:induction false} CommaLoses(args: seq<Name>, after: seq<string>)
    requires ArgsOk(args) && CommaFirst(args)
    ensures Keeps(false, Plain(BehindComma(args, after)), PlainInList(args) + Plain(after))
    decreases args, 2
  {
    hide Keeps, Plain, ArgsOk, NameOk, Regular, RegularRest, RegularList, InName, InRest, InList, PlainArguments;
    var n, rest := args[0], args[1..];
    ArgsParts(args);
    if n.End? {
      ListKept(rest, after);
      KeepsLess(RegularList(rest), Plain(InList(rest, after)), PlainInList(rest) + Plain(after), [Trim(n.text)]);
      Regroup([Trim(n.text)], PlainInList(rest), Plain(after));
    } else {
      var behind := InName(n.rest, InRest(rest, after));
      CommaLoses(n.args, behind);
      BehindKept(args, after);
      PlainOfBracketed(args, Plain(after));
      KeepsThen(false, Plain(BehindComma(n.args, behind)), PlainInList(n.args), Regular(n.rest) && RegularRest(rest),
                Plain(behind), PlainArguments(n.rest) + (PlainInList(rest) + Plain(after)));
    }
  }

  lemma NothingPlain()
    ensures Plain([]) == [] && PlainInList([]) == []
  {
  }

  // ---------- what the filter keeps ----------

  /** The identifiers the filter comes upon in a name. */
  function Scanned(n: Name): seq<string> {
    Identifiers(Render(n), Find(Render(n), "<", 0))
  }

  /** The scan sees the plain arguments of a name one by one and in order if it is regular, and only then. */
  lemma PlainArgumentsSeenIff(n: Name)
    requires NameOk(n)
    ensures Plain(Scanned(n)) == PlainArguments(n) <==> Regular(n)
  {
    ArgumentsIdentified(n);
    NothingPlain();
    NameKept(n, []);
    assert PlainArguments(n) + [] == PlainArguments(n);
  }

  lemma {:induction false} InPlain(ids: seq<string>, id: string)
    ensures id in Plain(ids) <==> id in ids && '<' !in id
  {
    if ids != [] {
      InPlain(ids[1..], id);
      assert ids == [ids[0]] + ids[1..];
    }
  }

  /** Template parameters, which have plain names. */
  predicate PlainNames(templates: Templates) {
    forall k :: k in templates ==> '<' !in k
  }

  /** The filter keeps the elements that are plain arguments in the name. */
  predicate FilterKeeps(n: Name, templates: Templates) {
    Restricted(templates, Scanned(n)) == Restricted(templates, PlainArguments(n))
  }

  predicate Distinct(ids: seq<string>) {
    forall i, j :: 0 <= i < j < |ids| ==> ids[i] != ids[j]
  }

  /** Filtering keeps exactly the templates that are plain arguments in a regular name. */
  lemma FilterKeepsArguments(n: Name, templates: Templates)
    requires NameOk(n) && Regular(n) && PlainNames(templates)
    ensures FilterKeeps(n, templates)
  {
    PlainArgumentsSeenIff(n);
    ArgumentsIdentified(n);
    forall id | id in PlainArguments(n)
      ensures id in InName(n, [])
    {
      InPlain(InName(n, []), id);
    }
    KeptIfSeen(n, templates);
  }

  lemma SeenArePlainArguments(n: Name)
    requires NameOk(n)
    ensures forall id :: id in Plain(InName(n, [])) ==> id in PlainArguments(n)
  {
    NothingPlain();
    NameKept(n, []);
    assert PlainArguments(n) + [] == PlainArguments(n);
  }

  lemma KeptIfSeen(n: Name, templates: Templates)
    requires NameOk(n) && PlainNames(templates)
    requires forall id :: id in PlainArguments(n) ==> id in InName(n, [])
    ensures FilterKeeps(n, templates)
  {
    ArgumentsIdentified(n);
    SeenArePlainArguments(n);
    forall k | k in templates && k in InName(n, [])
      ensures k in PlainArguments(n)
    {
      InPlain(InName(n, []), k);
    }
  }

  /**
   * It does so for all templates exactly if the scan comes upon every plain argument. If no two of them are alike,
   * that is if the name is regular, and only then.
   */
  lemma FilterKeepsArgumentsIff(n: Name)
    requires NameOk(n)
    ensures (forall templates: Templates :: PlainNames(templates) ==> FilterKeeps(n, templates))
            <==> (forall id :: id in PlainArguments(n) ==> id in InName(n, []))
    ensures Distinct(PlainArguments(n))
            ==> ((forall id :: id in PlainArguments(n) ==> id in InName(n, [])) <==> Regular(n))
  {
    ArgumentsIdentified(n);
    if id :| id in PlainArguments(n) && id !in InName(n, []) {
      PlainArgumentsPlain(n, id);
      var templates: Templates := map[id := ""];
      assert id in Restricted(templates, PlainArguments(n)) && id !in Restricted(templates, Scanned(n));
      assert PlainNames(templates) && !FilterKeeps(n, templates);
      if Regular(n) {
        FilterKeepsArguments(n, templates);
        assert false;
      }
    } else {
      forall templates: Templates | PlainNames(templates)
        ensures FilterKeeps(n, templates)
      {
        KeptIfSeen(n, templates);
      }
      if Distinct(PlainArguments(n)) && !Regular(n) {
        var lost := LostArgument(n);
      }
    }
  }

  lemma LostArgument(n: Name) returns (lost: string)
    requires NameOk(n) && Distinct(PlainArguments(n)) && !Regular(n)
    ensures lost in PlainArguments(n) && lost !in InName(n, [])
  {
    var all, seen := PlainArguments(n), Plain(InName(n, []));
    NothingPlain();
    NameKept(n, []);
    assert |seen| < |all| by {
      assert all + [] == all;
    }
    lost := Pigeon(all, seen);
    InPlain(InName(n, []), lost);
    PlainArgumentsPlain(n, lost);
  }

  /** Of more pigeons than holes one has no hole. */
  lemma {:induction false} Pigeon(all: seq<string>, seen: seq<string>) returns (lost: string)
    requires Distinct(all) && |seen| < |all|
    ensures lost in all && lost !in seen
  {
    var first := all[0];
    if first !in seen {
      lost := first;
    } else {
      var k :| 0 <= k < |seen| && seen[k] == first;
      var rest := seen[..k] + seen[k + 1..];
      lost := Pigeon(all[1..], rest);
      assert lost != first;
      assert seen == seen[..k] + [first] + seen[k + 1..];
    }
  }

  lemma {:induction false} PlainArgumentsPlain(n: Name, id: string)
    requires NameOk(n) && id in PlainArguments(n)
    ensures '<' !in id
    decreases n
  {
    if id in PlainInList(n.args) {
      PlainInListPlain(n.args, id);
    } else {
      PlainArgumentsPlain(n.rest, id);
    }
  }

  lemma {:induction false} PlainInListPlain(args: seq<Name>, id: string)
    requires ArgsOk(args) && id in PlainInList(args)
    ensures '<' !in id
    decreases args
  {
    ArgsParts(args);
    if id in PlainInList(args[1..]) {
      PlainInListPlain(args[1..], id);
    } else if args[0].Then? {
      PlainArgumentsPlain(args[0], id);
    }
  }

  // ---------- names with lost arguments ----------

  lemma OneArgument(a: Name)
    ensures RenderArgs([a]) == Render(a)
    ensures InRest([a], []) == InName(a, [])
    ensures PlainInList([a]) == if a.End? then [Trim(a.text)] else PlainArguments(a)
    ensures a.End? ==> InList([a], []) == [Trim(a.text)]
    ensures StartOk(a.text) && NameOk(a) ==> ArgsOk([a])
  {
    hide Trim, StartOk;
    assert [a][1..] == [];
  }

  lemma TwoArguments(a: Name, b: Name)
    ensures RenderArgs([a, b]) == Render(a) + "," + Render(b)
    ensures PlainInList([a, b]) == PlainInList([a]) + PlainInList([b])
    ensures ArgsOk([a]) && ArgsOk([b]) ==> ArgsOk([a, b])
  {
    TwoRendered(a, b);
    TwoPlain(a, b);
    BothOk(a, b);
    hide *;
  }

  lemma TwoRendered(a: Name, b: Name)
    ensures RenderArgs([a, b]) == Render(a) + "," + Render(b)
  {
    hide Render;
    assert [a, b][1..] == [b];
  }

  lemma TwoPlain(a: Name, b: Name)
    ensures PlainInList([a, b]) == PlainInList([a]) + PlainInList([b])
  {
    hide Trim, PlainArguments;
    assert [a, b][1..] == [b] && [a][1..] == [];
  }

  lemma BothOk(a: Name, b: Name)
    ensures ArgsOk([a]) && ArgsOk([b]) ==> ArgsOk([a, b])
  {
    hide StartOk, NameOk;
    assert ArgsOk([a]) ==> StartOk([a][0].text) && NameOk([a][0]);
    assert ArgsOk([b]) ==> StartOk([b][0].text) && NameOk([b][0]);
  }

  lemma PlainArgument(text: string)
    requires StartOk(text)
    ensures NameOk(End(text)) && '<' !in text
  {
    hide Trim;
  }

  lemma BracketedName(text: string, args: seq<Name>, rest: string)
    requires '<' !in text && ArgsOk(args) && '<' !in rest
    ensures (var n := Then(text, args, End(rest));
             && NameOk(n) && Render(n) == text + "<" + RenderArgs(args) + ">" + rest
             && PlainArguments(n) == PlainInList(args) && InName(n, []) == InList(args, []))
  {
  }

  /** f<v<a>, b>g: b comes behind brackets and is lost. */
  lemma BehindBracketsScanned(f: string, v: string, a: string, b: string, g: string)
    requires StartOk(v) && StartOk(a) && StartOk(b) && '<' !in f && '<' !in g
    ensures (var n := Then(f, [Then(v, [End(a)], End("")), End(b)], End(g));
             && NameOk(n) && Render(n) == f + "<" + (v + "<" + a + ">" + "" + "," + b) + ">" + g
             && Scanned(n) == [Trim(v) + "<" + a, Trim(a)] && PlainArguments(n) == [Trim(a), Trim(b)])
  {
    hide *;
    var x, y := End(a), End(b);
    var w := Then(v, [x], End(""));
    var n := Then(f, [w, y], End(g));
    PlainArgument(v);
    PlainArgument(x.text);
    PlainArgument(y.text);
    RenderEnd(x);
    RenderEnd(y);
    OneArgument(x);
    OneArgument(y);
    OneArgument(w);
    TwoArguments(w, y);
    BracketedName(v, [x], "");
    BracketedName(f, [w, y], g);
    ScannedIs(n);
    InListBracketed(w, y, x);
  }

  lemma InListBracketed(w: Name, y: Name, x: Name)
    requires w.Then? && w.args == [x] && w.rest == End("") && x.End? && y.End?
    ensures InList([w, y], []) == [Trim(w.text) + "<" + x.text, Trim(x.text)]
  {
    OneArgument(x);
    assert [w, y][1..] == [y];
    OneArgument(y);
    assert InName(w.rest, InRest([y], [])) == [];
  }

  /** f<v<a, c>>g: a comes behind an open bracket and in front of a comma, and is lost. */
  lemma CommaScanned(f: string, v: string, a: string, c: string, g: string)
    requires StartOk(v) && StartOk(a) && StartOk(c) && '<' !in f && '<' !in g
    ensures (var n := Then(f, [Then(v, [End(a), End(c)], End(""))], End(g));
             && NameOk(n) && Render(n) == f + "<" + (v + "<" + (a + "," + c) + ">" + "") + ">" + g
             && Scanned(n) == [Trim(v) + "<" + a, Trim(c)] && PlainArguments(n) == [Trim(a), Trim(c)])
  {
    hide *;
    var x, y := End(a), End(c);
    var w := Then(v, [x, y], End(""));
    var n := Then(f, [w], End(g));
    PlainArgument(v);
    PlainArgument(x.text);
    PlainArgument(y.text);
    RenderEnd(x);
    RenderEnd(y);
    OneArgument(x);
    OneArgument(y);
    OneArgument(w);
    TwoArguments(x, y);
    BracketedName(v, [x, y], "");
    BracketedName(f, [w], g);
    ScannedIs(n);
    InListComma(w, x, y);
  }

  lemma InListComma(w: Name, x: Name, y: Name)
    requires w.Then? && w.args == [x, y] && w.rest == End("") && x.End? && y.End?
    ensures InList([w], []) == [Trim(w.text) + "<" + x.text, Trim(y.text)]
  {
    assert [x, y][1..] == [y];
    OneArgument(y);
    assert CommaFirst([x, y]) && FirstText([x, y]) == x.text;
    assert InName(w.rest, InRest([], [])) == [];
    assert BehindComma([x, y], []) == [Trim(y.text)];
  }

  lemma ScannedIs(n: Name)
    requires NameOk(n)
    ensures Scanned(n) == Identifiers(Render(n), Find(Render(n), "<", 0)) == InName(n, [])
  {
    ArgumentsIdentified(n);
  }

  lemma TrimOne(text: string)
    requires text != "" && text[0] != ' '
    ensures Trim(text) == text && Trim(" " + text) == text
  {
    assert (" " + text)[1..] == text;
  }

  /** Two members, of a partial specialisation and of a specialisation for V: B is lost in one name, A in the other. */
  lemma SomeArgumentsLost()
    ensures (var s := "F<V<A>, B>::g";
             var ids := Identifiers(s, Find(s, "<", 0));
             ids == ["V<A", "A"] && Restricted(map["B" := "int"], ids) == map[])
    ensures (var s := "F<V<A, C>>::g";
             var ids := Identifiers(s, Find(s, "<", 0));
             ids == ["V<A", "C"] && Restricted(map["A" := "int"], ids) == map[])
  {
    hide *;
    var n := BehindBrackets();
    LostIn(n, "F<V<A>, B>::g", ["V<A", "A"], "B");
    var m := InFrontOfComma();
    LostIn(m, "F<V<A, C>>::g", ["V<A", "C"], "A");
  }

  lemma LostIn(n: Name, s: string, ids: seq<string>, key: string)
    requires NameOk(n) && Render(n) == s && Scanned(n) == ids && key !in ids
    ensures Identifiers(s, Find(s, "<", 0)) == ids && Restricted(map[key := "int"], ids) == map[]
  {
    hide Identifiers, Find, Render, NameOk;
  }

  lemma BehindBrackets() returns (n: Name)
    ensures NameOk(n) && Render(n) == "F<V<A>, B>::g" && Scanned(n) == ["V<A", "A"]
  {
    PlainStarts();
    hide *;
    n := Then("F", [Then("V", [End("A")], End("")), End(" B")], End("::g"));
    TrimOne("A");
    TrimOne("V");
    BehindBracketsScanned("F", "V", "A", " B", "::g");
    assert "V" + "<" + "A" == "V<A";
    assert "F" + "<" + ("V" + "<" + "A" + ">" + "" + "," + " B") + ">" + "::g" == "F<V<A>, B>::g";
  }

  lemma InFrontOfComma() returns (n: Name)
    ensures NameOk(n) && Render(n) == "F<V<A, C>>::g" && Scanned(n) == ["V<A", "C"]
  {
    PlainStarts();
    hide *;
    n := Then("F", [Then("V", [End("A"), End(" C")], End(""))], End("::g"));
    TrimOne("C");
    TrimOne("V");
    CommaScanned("F", "V", "A", " C", "::g");
    assert "V" + "<" + "A" == "V<A" && " " + "C" == " C";
    assert "F" + "<" + ("V" + "<" + ("A" + "," + " C") + ">" + "") + ">" + "::g" == "F<V<A, C>>::g";
  }

  lemma PlainStarts()
    ensures StartOk("V") && StartOk("A") && StartOk(" B") && StartOk(" C")
  {
    TrimOne("B");
    TrimOne("C");
    assert " " + "B" == " B" && " " + "C" == " C";
  }
}
