/**
 The normal form is complete: two paths have the same normal form exactly when they lead to the same
 directory from every current directory. Meaning preservation, idempotence and minimality follow.
*/
module CanonicalPath {
  import opened PathMeaning
  import NormPath

  // ---------- reducing a component list keeps its walk ----------

  lemma PushWalks(names: seq<string>, st: seq<string>, c: string, absolute: bool)
    requires !absolute || names == []
    requires IsReduced(st, absolute)
    ensures Walk(names, Push(st, c, absolute)) == Step(Walk(names, st), c)
  {
    if c == ".." && st != [] && st[|st| - 1] != ".." {
      var init, last := st[..|st| - 1], st[|st| - 1];
      assert Walk(names, st) == Walk(names, init) + [last];
    } else if c == "." {
    } else if c == ".." && st == [] {
      assert absolute ==> Walk(names, []) == [];
      assert [".."][..0] == [];
      assert !absolute ==> Walk(names, [".."]) == Step(Walk(names, []), "..");
    } else {
      assert (st + [c])[..|st|] == st;
    }
  }

  lemma {:induction false} ReduceWalks(names: seq<string>, cs: seq<string>, absolute: bool)
    requires !absolute || names == []
    requires forall c :: c in cs ==> IsComponent(c)
    ensures Walk(names, Reduce(cs, absolute)) == Walk(names, cs)
  {
    if cs != [] {
      var init := cs[..|cs| - 1];
      ReduceWalks(names, init, absolute);
      NormPath.ReducedShape(init, absolute);
      PushWalks(names, Reduce(init, absolute), cs[|cs| - 1], absolute);
    }
  }

  // ---------- splitting a joined stack gives the stack back ----------

  lemma {:induction false} SkipSlashesIs(s: string, i: nat, j: nat)
    requires i <= j <= |s|
    requires forall k :: i <= k < j ==> s[k] == '/'
    requires j < |s| ==> s[j] != '/'
    ensures SkipSlashes(s, i) == j
    decreases j - i
  {
    if i < j {
      SkipSlashesIs(s, i + 1, j);
    }
  }

  lemma {:induction false} SkipElemIs(s: string, i: nat, j: nat)
    requires i <= j <= |s|
    requires forall k :: i <= k < j ==> s[k] != '/'
    requires j < |s| ==> s[j] == '/'
    ensures SkipElem(s, i) == j
    decreases j - i
  {
    if i < j {
      SkipElemIs(s, i + 1, j);
    }
  }

  /** A component in its place: after slashes up to a, and reaching to the end. */
  lemma LastComponent(s: string, i: nat, a: nat)
    requires i <= a < |s| && IsComponent(s[a..])
    requires forall k :: i <= k < a ==> s[k] == '/'
    ensures ComponentsFrom(s, i) == [s[a..]]
  {
    forall k | a <= k < |s|
      ensures s[k] != '/'
    {
      assert s[k] == s[a..][k - a];
    }
    SkipSlashesIs(s, i, a);
    SkipElemIs(s, a, |s|);
    assert s[a..|s|] == s[a..];
    assert ComponentsFrom(s, |s|) == [];
  }

  lemma {:induction false} ComponentsSnoc(s: string, i: nat, c: string)
    requires i <= |s| && IsComponent(c)
    ensures ComponentsFrom(s + "/" + c, i) == ComponentsFrom(s, i) + [c]
    decreases |s| - i
  {
    var t := s + "/" + c;
    var first := SkipSlashes(s, i);
    if first == |s| {
      assert t[|s| + 1..] == c;
      LastComponent(t, i, |s| + 1);
    } else {
      var second := SkipElem(s, first);
      SkipSlashesIs(t, i, first);
      SkipElemIs(t, first, second);
      assert t[first..second] == s[first..second];
      ComponentsSnoc(s, second, c);
      assert [s[first..second]] + (ComponentsFrom(s, second) + [c])
          == [s[first..second]] + ComponentsFrom(s, second) + [c];
    }
  }

  lemma OneComponent(prefix: string, c: string)
    requires (forall k :: 0 <= k < |prefix| ==> prefix[k] == '/') && IsComponent(c)
    ensures Components(prefix + c) == [c]
  {
    var s := prefix + c;
    assert s[|prefix|..] == c;
    LastComponent(s, 0, |prefix|);
  }

  lemma NoComponent(prefix: string)
    requires forall k :: 0 <= k < |prefix| ==> prefix[k] == '/'
    ensures Components(prefix) == []
  {
    SkipSlashesIs(prefix, 0, |prefix|);
  }

  lemma {:induction false} ComponentsOfJoin(prefix: string, st: seq<string>)
    requires forall k :: 0 <= k < |prefix| ==> prefix[k] == '/'
    requires forall c :: c in st ==> IsComponent(c)
    ensures Components(prefix + Join(st)) == st
    ensures LeadingSlashes(prefix + Join(st)) == |prefix|
    decreases |st|
  {
    JoinedSlashes(prefix, st);
    hide SkipSlashes, ComponentsFrom, IsComponent, Components, LeadingSlashes;
    if st == [] {
      NoComponent(prefix);
      assert prefix + "" == prefix;
    } else if |st| == 1 {
      OneComponent(prefix, st[0]);
    } else {
      ComponentsOfJoin(prefix, st[..|st| - 1]);
      OneMoreComponent(prefix, st);
    }
  }

  lemma JoinedSlashes(prefix: string, st: seq<string>)
    requires (forall k :: 0 <= k < |prefix| ==> prefix[k] == '/') && forall c :: c in st ==> IsComponent(c)
    ensures LeadingSlashes(prefix + Join(st)) == |prefix|
  {
    NormPath.JoinEnds(st);
    hide Join;
    SkipSlashesIs(prefix + Join(st), 0, |prefix|);
  }

  lemma OneMoreComponent(prefix: string, st: seq<string>)
    requires |st| > 1 && forall c :: c in st ==> IsComponent(c)
    requires Components(prefix + Join(st[..|st| - 1])) == st[..|st| - 1]
    ensures Components(prefix + Join(st)) == st
  {
    JoinSnoc(prefix, st);
    hide Join, ComponentsFrom, Components;
    ComponentAdded(prefix + Join(st[..|st| - 1]), prefix + Join(st), st);
  }

  lemma ComponentAdded(s: string, t: string, cs: seq<string>)
    requires cs != [] && IsComponent(cs[|cs| - 1])
    requires t == s + "/" + cs[|cs| - 1] && Components(s) == cs[..|cs| - 1]
    ensures Components(t) == cs
  {
    ComponentsSnoc(s, 0, cs[|cs| - 1]);
    hide ComponentsFrom;
    assert cs[..|cs| - 1] + [cs[|cs| - 1]] == cs;
  }

  lemma JoinSnoc(prefix: string, st: seq<string>)
    requires |st| > 1
    ensures prefix + Join(st) == prefix + Join(st[..|st| - 1]) + "/" + st[|st| - 1]
  {
    Assoc(prefix, Join(st[..|st| - 1]), "/", st[|st| - 1]);
  }

  lemma Assoc(x: string, y: string, z: string, w: string)
    ensures x + (y + z + w) == x + y + z + w
  {
  }

  /** The normal form spells its own stack (or is ".") and keeps the leading-slash class. */
  lemma ComponentsOfNormalized(p: string)
    ensures var st, q := Reduce(Components(p), LeadingSlashes(p) > 0), Normalized(p);
            && LeadingSlashes(q) == |RootPrefix(p)|
            && Components(q) == (if st == [] && LeadingSlashes(p) == 0 then ["."] else st)
  {
    var absolute := LeadingSlashes(p) > 0;
    var st := Reduce(Components(p), absolute);
    NormPath.ReducedShape(Components(p), absolute);
    assert forall c :: c in st ==> IsComponent(c);
    NormPath.JoinEnds(st);
    if st == [] && !absolute {
      var dot := ".";
      assert IsComponent(dot);
      assert Normalized(p) == dot;
      assert dot[0..] == dot;
      LastComponent(dot, 0, 0);
      SkipSlashesIs(dot, 0, 0);
    } else {
      ComponentsOfJoin(RootPrefix(p), st);
    }
  }

  /** Normalising changes no meaning, whatever the current directory. */
  lemma MeaningPreserved(cwd: Location, p: string)
    ensures Resolve(cwd, Normalized(p)) == Resolve(cwd, p)
  {
    var absolute := LeadingSlashes(p) > 0;
    ComponentsOfNormalized(p);
    ReduceWalks(if absolute then [] else cwd.names, Components(p), absolute);
    if Reduce(Components(p), absolute) == [] && !absolute {
      assert ["."][..0] == [];
      assert Walk(cwd.names, ["."]) == Walk(cwd.names, []);
    }
  }

  // ---------- a stack is determined by its walks ----------

  /** How many ".." a reduced stack starts with. */
  function Ups(st: seq<string>): (k: nat)
    ensures k <= |st|
  {
    if st == [] then 0 else if st[|st| - 1] == ".." then |st| else Ups(st[..|st| - 1])
  }

  /** From a deep enough directory, a reduced stack drops Ups(st) names and appends the others. */
  lemma {:induction false} WalkDeep(names: seq<string>, st: seq<string>, absolute: bool)
    requires IsReduced(st, absolute)
    requires |st| <= |names| || absolute
    ensures var k := Ups(st);
            && (absolute ==> k == 0) && k <= |names|
            && Walk(names, st) == names[..|names| - k] + st[k..]
            && (forall i :: 0 <= i < k ==> st[i] == "..")
  {
    hide Step;
    if st != [] {
      var init, c := st[..|st| - 1], st[|st| - 1];
      ReducedInit(st, absolute);
      WalkDeep(names, init, absolute);
      if c == ".." {
        AllUps(init);
        WalkUp(names, init);
        assert names[..|names| - |st|] + st[|st|..] == names[..|names| - |st|];
      } else {
        WalkDown(names[..|names| - Ups(init)], st, Ups(init));
      }
    }
  }

  lemma ReducedInit(st: seq<string>, absolute: bool)
    requires IsReduced(st, absolute) && st != []
    ensures (var init, c := st[..|st| - 1], st[|st| - 1];
             && IsReduced(init, absolute) && c != "." && (c == ".." ==> !absolute)
             && (c == ".." ==> forall i :: 0 <= i < |st| ==> st[i] == ".."))
  {
  }

  lemma WalkUp(names: seq<string>, init: seq<string>)
    requires |init| < |names|
    ensures Step(names[..|names| - |init|] + init[|init|..], "..") == names[..|names| - |init| - 1]
  {
    assert init[|init|..] == [];
    assert names[..|names| - |init|][..|names| - |init| - 1] == names[..|names| - |init| - 1];
  }

  lemma WalkDown(front: seq<string>, st: seq<string>, k: nat)
    requires k < |st| && st[|st| - 1] != ".." && st[|st| - 1] != "."
    ensures Step(front + st[..|st| - 1][k..], st[|st| - 1]) == front + st[k..]
  {
    assert st[..|st| - 1][k..] + [st[|st| - 1]] == st[k..];
  }

  lemma AllUps(st: seq<string>)
    requires forall i :: 0 <= i < |st| ==> st[i] == ".."
    ensures Ups(st) == |st|
  {
  }

  /** A name that none of the given components is. */
  function FreshName(cs: seq<string>): (n: string)
    ensures IsName(n)
    ensures forall c :: c in cs ==> |c| < |n|
  {
    var n := if cs == [] then "aaa"
             else var m := FreshName(cs[1..]); if |m| > |cs[0]| then m else seq(|cs[0]| + 3, _ => 'a');
    assert cs != [] ==> forall c :: c in cs ==> c == cs[0] || c in cs[1..];
    n
  }

  /** Two stacks that walk alike from a deep directory of novel names are the same. */
  lemma WalksDetermine(novel: string, names: seq<string>, st1: seq<string>, st2: seq<string>)
    requires IsReduced(st1, false) && IsReduced(st2, false)
    requires forall i :: 0 <= i < |names| ==> names[i] == novel
    requires |st1| <= |names| && |st2| <= |names|
    requires novel !in st1 && novel !in st2
    requires Walk(names, st1) == Walk(names, st2)
    ensures st1 == st2
  {
    hide Walk, Ups, IsReduced;
    WalkDeep(names, st1, false);
    WalkDeep(names, st2, false);
    var k := Ups(st1);
    SplitAgrees(novel, names, st1, st2, k, Ups(st2));
    SamePieces(st1, st2, k);
  }

  lemma SamePieces(st1: seq<string>, st2: seq<string>, k: nat)
    requires k <= |st1| && k <= |st2| && st1[k..] == st2[k..]
    requires forall i :: 0 <= i < k ==> st1[i] == st2[i]
    ensures st1 == st2
  {
    assert forall i :: k <= i < |st1| ==> st1[i] == st1[k..][i - k] == st2[k..][i - k] == st2[i];
  }

  lemma SplitAgrees(novel: string, names: seq<string>, st1: seq<string>, st2: seq<string>, k1: nat, k2: nat)
    requires forall i :: 0 <= i < |names| ==> names[i] == novel
    requires k1 <= |st1| && k2 <= |st2| && k1 <= |names| && k2 <= |names|
    requires novel !in st1 && novel !in st2
    requires names[..|names| - k1] + st1[k1..] == names[..|names| - k2] + st2[k2..]
    ensures k1 == k2 && st1[k1..] == st2[k2..]
  {
    if k1 < k2 {
      UpsDiffer(novel, names, st1, st2, k1, k2);
    } else if k2 < k1 {
      UpsDiffer(novel, names, st2, st1, k2, k1);
    }
    var w := names[..|names| - k1] + st1[k1..];
    assert st1[k1..] == w[|names| - k1..];
  }

  lemma UpsDiffer(novel: string, names: seq<string>, st1: seq<string>, st2: seq<string>, k1: nat, k2: nat)
    requires forall i :: 0 <= i < |names| ==> names[i] == novel
    requires k1 <= |st1| && k2 <= |st2| && k1 <= |names| && k2 <= |names|
    requires k1 < k2 && novel !in st2
    ensures names[..|names| - k1] + st1[k1..] != names[..|names| - k2] + st2[k2..]
  {
    var w1, w2, i := names[..|names| - k1] + st1[k1..], names[..|names| - k2] + st2[k2..], |names| - k2;
    assert w1[i] == novel;
    if k2 < |st2| {
      assert w2[i] == st2[k2] && st2[k2] in st2;
    }
  }

  function Repeat(c: string, n: nat): (s: seq<string>)
    ensures |s| == n && forall i :: 0 <= i < n ==> s[i] == c
  {
    seq(n, _ => c)
  }

  /** Paths with the same meaning have the same leading-slash prefix and the same stack. */
  lemma MeaningDetermines(p: string, q: string)
    requires SameMeaning(p, q)
    ensures RootPrefix(p) == RootPrefix(q)
    ensures Reduce(Components(p), LeadingSlashes(p) > 0) == Reduce(Components(q), LeadingSlashes(q) > 0)
  {
    var abs1, abs2 := LeadingSlashes(p) > 0, LeadingSlashes(q) > 0;
    var st1, st2 := Reduce(Components(p), abs1), Reduce(Components(q), abs2);
    NormPath.ReducedShape(Components(p), abs1);
    NormPath.ReducedShape(Components(q), abs2);
    var novel := FreshName(st1 + st2);
    var names := Repeat(novel, |st1| + |st2| + 1);
    assert IsDirectory(names);
    var cwd := Location(Slash, names);
    assert Resolve(cwd, p) == Resolve(cwd, q);
    assert Resolve(cwd.(root := DoubleSlash), p) == Resolve(cwd.(root := DoubleSlash), q);
    StackWalk(names, Components(p), abs1);
    StackWalk(names, Components(q), abs2);
    if abs1 != abs2 {
      AbsoluteOrNot(novel, names, if abs1 then st2 else st1, if abs1 then st1 else st2);
    } else if !abs1 {
      WalksDetermine(novel, names, st1, st2);
    }
  }

  /** The two ways Resolve walks, in terms of the reduced stack. */
  lemma StackWalk(names: seq<string>, cs: seq<string>, absolute: bool)
    requires forall c :: c in cs ==> IsComponent(c)
    ensures var st := Reduce(cs, absolute);
            && (absolute ==> Walk([], cs) == st)
            && (!absolute ==> Walk(names, cs) == Walk(names, st))
  {
    NormPath.ReducedShape(cs, absolute);
    ReduceWalks(if absolute then [] else names, cs, absolute);
    if absolute {
      WalkDeep([], Reduce(cs, true), true);
    }
  }

  /** A relative path keeps the top of a deep directory; an absolute one never mentions it. */
  lemma AbsoluteOrNot(novel: string, names: seq<string>, rel: seq<string>, abs: seq<string>)
    requires IsReduced(rel, false) && |rel| < |names| && novel !in abs
    requires forall i :: 0 <= i < |names| ==> names[i] == novel
    ensures Walk(names, rel) != abs
  {
    WalkDeep(names, rel, false);
    assert Walk(names, rel)[0] == novel;
  }

  // ---------- the main results ----------

  /** Equal normal forms exactly for paths that lead to the same directory from everywhere. */
  lemma CompleteCanonicalForm(p: string, q: string)
    ensures Normalized(p) == Normalized(q) <==> SameMeaning(p, q)
  {
    if Normalized(p) == Normalized(q) {
      forall cwd: Location | IsDirectory(cwd.names)
        ensures Resolve(cwd, p) == Resolve(cwd, q)
      {
        MeaningPreserved(cwd, p);
        MeaningPreserved(cwd, q);
      }
    }
    if SameMeaning(p, q) {
      MeaningDetermines(p, q);
    }
  }

  lemma Idempotent(p: string)
    ensures Normalized(Normalized(p)) == Normalized(p)
  {
    forall cwd: Location | IsDirectory(cwd.names)
      ensures Resolve(cwd, Normalized(p)) == Resolve(cwd, p)
    {
      MeaningPreserved(cwd, p);
    }
    CompleteCanonicalForm(Normalized(p), p);
  }

  /** Along the pass, the rendered stack never outgrows what has been read. */
  lemma {:induction false} RenderedFits(p: string, first: nat, done: seq<string>)
    requires NormPath.Read(p, first, done)
    requires |RootPrefix(p)| + |NormPath.Rendered(NormPath.Stack(p, done))| <= if first < |p| then first else |p| + 1
    ensures |RootPrefix(p)| + |Join(NormPath.Stack(p, Components(p)))| <= |p|
    decreases |p| - first
  {
    if first == |p| {
      assert done + [] == done;
    } else {
      var second := SkipElem(p, first);
      var c := p[first..second];
      NormPath.TokenStep(p, first, second, done);
      PushGrows(p, done, c);
      RenderedFits(p, SkipSlashes(p, second), done + [c]);
    }
  }

  lemma PushGrows(p: string, done: seq<string>, c: string)
    ensures |NormPath.Rendered(NormPath.Stack(p, done + [c]))|
         <= |NormPath.Rendered(NormPath.Stack(p, done))| + |c| + 1
  {
    var st := NormPath.Stack(p, done);
    NormPath.ReduceSnoc(done, c, LeadingSlashes(p) > 0);
    NormPath.RenderedSnoc(st, c);
    if st != [] {
      NormPath.RenderedLast(st);
    }
  }

  lemma NoLonger(p: string)
    ensures |Normalized(p)| <= if p == "" then 1 else |p|
  {
    NormPath.Start(p, p);
    RenderedFits(p, LeadingSlashes(p), []);
  }

  /** The normal form is the shortest non-empty spelling of its meaning. */
  lemma ShortestSpelling(p: string, q: string)
    requires q != "" && SameMeaning(p, q)
    ensures |Normalized(p)| <= |q|
  {
    CompleteCanonicalForm(p, q);
    NoLonger(q);
  }

  /**
   * What a normal form starts with, read off the path: two slashes exactly for a path with exactly two, one slash for
   * one or at least three, no slash for a relative path; and it is never empty.
   */
  lemma RootKept(p: string)
    ensures (var q := Normalized(p);
             && q != "" && (p == "" ==> q == ".")
             && (q[0] == '/' <==> p != "" && p[0] == '/')
             && (TwoSlashes(q) <==> TwoSlashes(p)) && (|q| >= 2 && q[0] == q[1] == '/' ==> TwoSlashes(q)))
  {
    SlashesOf(p);
    SlashesOf(Normalized(p));
    ComponentsOfNormalized(p);
    hide Join, Components, Reduce;
    if p == "" {
      EmptyPath();
    }
  }

  /** Exactly two slashes in front. */
  predicate TwoSlashes(p: string) {
    |p| >= 2 && p[0] == '/' && p[1] == '/' && (|p| == 2 || p[2] != '/')
  }

  lemma SlashesOf(p: string)
    ensures LeadingSlashes(p) > 0 <==> p != "" && p[0] == '/'
    ensures LeadingSlashes(p) == 2 <==> TwoSlashes(p)
    ensures LeadingSlashes(p) >= 2 <==> |p| >= 2 && p[0] == '/' && p[1] == '/'
  {
  }

  lemma EmptyPath()
    ensures Normalized("") == "."
  {
  }
}
