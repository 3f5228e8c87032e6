/**
 The in-place path normaliser (`_NormPath` in pxr/base/arch/fileSystem.cpp): one pass over the input
 with a read token [first, second) and a write index into a private copy of the string.
*/
module NormPath {
  import opened PathMeaning

  datatype TokenType = Dot | DotDot | Elem

  function GetTokenType(t: string): TokenType {
    if |t| == 1 && t[0] == '.' then Dot
    else if |t| == 2 && t[0] == '.' && t[1] == '.' then DotDot
    else Elem
  }

  lemma DotDotToken(t: string)
    ensures GetTokenType(t) == DotDot <==> t == ".."
    ensures GetTokenType(t) == Dot <==> t == "."
  {
  }

  /** The next slash-delimited token of s at or after i. */
  method NextToken(s: string, i: nat) returns (first: nat, second: nat)
    requires i <= |s|
    ensures first == SkipSlashes(s, i) && second == SkipElem(s, first)
  {
    first := i;
    while first != |s| && s[first] == '/'
      invariant i <= first <= |s|
      invariant SkipSlashes(s, first) == SkipSlashes(s, i)
    {
      first := first + 1;
    }
    second := first;
    while second != |s| && s[second] != '/'
      invariant first <= second <= |s|
      invariant SkipElem(s, second) == SkipElem(s, first)
    {
      second := second + 1;
    }
  }

  lemma Subslice<T>(s: seq<T>, lo: nat, hi: nat, i: nat, j: nat)
    requires lo <= hi <= |s| && i <= j <= hi - lo
    ensures s[lo..hi][i..j] == s[lo + i..lo + j]
  {
    var t, u := s[lo..hi], s[lo + i..lo + j];
    assert |t[i..j]| == |u|;
    forall k | 0 <= k < |u|
      ensures t[i..j][k] == u[k]
    {
      assert t[i..j][k] == t[i + k] == s[lo + i + k];
    }
  }

  /** path[second..first] is the last token of path[lo..hi]. */
  ghost predicate BackTokenIs(path: seq<char>, lo: nat, hi: nat, first: nat, second: nat) {
    && lo <= second <= first <= hi <= |path|
    && IsLastToken(path[lo..hi], first - lo, second - lo)
    && path[second..first] == path[lo..hi][second - lo..first - lo]
    && path[lo..second] == path[lo..hi][..second - lo]
  }

  /** The same scan run backwards over path[lo..hi]: the token is path[second..first]. */
  method BackToken(path: array<char>, lo: nat, hi: nat) returns (first: nat, second: nat)
    requires lo <= hi <= path.Length
    ensures BackTokenIs(path[..], lo, hi, first, second)
  {
    first := hi;
    while first != lo && path[first - 1] == '/'
      invariant lo <= first <= hi
      invariant forall k :: first <= k < hi ==> path[k] == '/'
    {
      first := first - 1;
    }
    second := first;
    while second != lo && path[second - 1] != '/'
      invariant lo <= second <= first
      invariant forall k :: second <= k < first ==> path[k] != '/'
    {
      second := second - 1;
    }
    IsLast(path[..], lo, hi, first, second);
  }

  lemma IsLast(path: seq<char>, lo: nat, hi: nat, first: nat, second: nat)
    requires lo <= second <= first <= hi <= |path|
    requires forall k :: first <= k < hi ==> path[k] == '/'
    requires forall k :: second <= k < first ==> path[k] != '/'
    requires (first == lo || path[first - 1] != '/') && (second == lo || path[second - 1] == '/')
    ensures BackTokenIs(path, lo, hi, first, second)
  {
    Subslice(path, lo, hi, second - lo, first - lo);
    Subslice(path, lo, hi, 0, second - lo);
  }

  /** What path[lo..w] looks like between tokens: each component followed by a slash. */
  function Rendered(st: seq<string>): string {
    if st == [] then "" else Join(st) + "/"
  }

  lemma RenderedSnoc(st: seq<string>, c: string)
    ensures Rendered(st + [c]) == Rendered(st) + c + "/"
    ensures Join(st + [c]) == Rendered(st) + c
  {
    var all := st + [c];
    assert all[..|all| - 1] == st;
  }

  lemma {:induction false} ReducedShape(cs: seq<string>, absolute: bool)
    requires forall c :: c in cs ==> IsComponent(c)
    ensures IsReduced(Reduce(cs, absolute), absolute)
  {
    if cs != [] {
      var init, c := cs[..|cs| - 1], cs[|cs| - 1];
      ReducedShape(init, absolute);
      assert c in cs;
    }
  }

  lemma ReduceSnoc(cs: seq<string>, c: string, absolute: bool)
    ensures Reduce(cs + [c], absolute) == Push(Reduce(cs, absolute), c, absolute)
  {
    assert (cs + [c])[..|cs|] == cs;
  }

  /** Scanning back over a rendered stack finds its last component. */
  lemma LastToken(out: string, r: nat, c: string, first: nat, second: nat)
    requires IsComponent(c) && |out| == r + |c| + 1
    requires out[r..r + |c|] == c && out[r + |c|] == '/' && (r > 0 ==> out[r - 1] == '/')
    requires IsLastToken(out, first, second)
    ensures second == r && first == r + |c|
  {
    forall k | r <= k < r + |c|
      ensures out[k] != '/'
    {
      assert out[k] == out[r..r + |c|][k - r] == c[k - r];
      assert c[k - r] in c;
    }
    assert out[r] != '/' && out[r + |c| - 1] != '/';
    assert first == r + |c|;
  }

  /** path with s written at w. */
  function Put(path: seq<char>, w: nat, s: string): (r: seq<char>)
    requires w + |s| <= |path|
    ensures |r| == |path|
  {
    path[..w] + s + path[w + |s|..]
  }

  /** What is written for a component: a slash follows it unless it ends the string. */
  function Written(c: string, w: nat, n: nat): string {
    if w + |c| == n then c else c + "/"
  }

  /** path[lo..w] renders st; the last slash may be missing only at the very end. */
  ghost predicate Renders(path: seq<char>, lo: nat, w: nat, st: seq<string>) {
    && lo <= w <= |path|
    && (path[lo..w] == Rendered(st) || (w == |path| && st != [] && path[lo..w] == Join(st)))
  }

  /** The part of the string still to be read is as it was. */
  ghost predicate Intact(inPath: string, path: seq<char>, first: nat) {
    && |path| == |inPath|
    && forall k :: first <= k < |path| ==> path[k] == inPath[k]
  }

  /** `done` has been read, and the rest starts at first. */
  ghost predicate Read(inPath: string, first: nat, done: seq<string>) {
    && first <= |inPath|
    && (first == |inPath| || inPath[first] != '/')
    && Components(inPath) == done + ComponentsFrom(inPath, first)
    && (forall c :: c in done ==> IsComponent(c))
  }

  /** The leading slashes that stay: lo of them. */
  ghost predicate Rooted(inPath: string, path: seq<char>, lo: nat) {
    lo == |RootPrefix(inPath)| && lo <= |path| && path[..lo] == RootPrefix(inPath)
  }

  /** The state between two tokens of the input: `done` has been reduced into path[lo..w]. */
  ghost predicate Between(inPath: string, path: seq<char>, lo: nat, w: nat, first: nat, done: seq<string>) {
    && Read(inPath, first, done)
    && Intact(inPath, path, first)
    && Rooted(inPath, path, lo)
    && w <= first
    && Renders(path, lo, w, Stack(inPath, done))
  }

  function Stack(inPath: string, done: seq<string>): seq<string> {
    Reduce(done, LeadingSlashes(inPath) > 0)
  }

  /** Starting the split at the first non-slash changes nothing. */
  lemma ComponentsSkip(s: string, i: nat)
    requires i <= |s|
    ensures ComponentsFrom(s, SkipSlashes(s, i)) == ComponentsFrom(s, i)
  {
    var j := SkipSlashes(s, i);
    assert SkipSlashes(s, j) == j;
  }

  /** Reading one token moves it from the rest of the input to the components done. */
  lemma TokenStep(s: string, first: nat, second: nat, done: seq<string>)
    requires Read(s, first, done) && first < |s| && second == SkipElem(s, first)
    ensures first < second && IsComponent(s[first..second])
    ensures Read(s, SkipSlashes(s, second), done + [s[first..second]])
    ensures second < |s| ==> SkipSlashes(s, second) > second
  {
    assert SkipSlashes(s, first) == first;
    ComponentsSkip(s, second);
    var token := s[first..second];
    assert done + ([token] + ComponentsFrom(s, second)) == (done + [token]) + ComponentsFrom(s, second);
    assert IsComponent(token);
  }

  /** Copying a token back to w leaves what follows it alone, and does nothing if it is in place. */
  lemma PutIntact(inPath: string, path: seq<char>, w: nat, first: nat, second: nat)
    requires Intact(inPath, path, first) && w <= first < |inPath| && second == SkipElem(inPath, first)
    ensures var s := Written(inPath[first..second], w, |path|);
            && w + |s| <= |path| && (second < |path| ==> w + |s| <= second + 1)
            && Intact(inPath, Put(path, w, s), second)
            && (w == first ==> Put(path, w, s) == path)
  {
    var c := inPath[first..second];
    var s := Written(c, w, |path|);
    var path' := Put(path, w, s);
    if w == first {
      forall k | w <= k < w + |s|
        ensures path[k] == s[k - w]
      {
        assert path[k] == inPath[k];
      }
    }
  }

  lemma PutRenders(path: seq<char>, lo: nat, w: nat, st: seq<string>, c: string)
    requires lo <= w && w + |c| <= |path| && path[lo..w] == Rendered(st)
    ensures var s := Written(c, w, |path|);
            && Renders(Put(path, w, s), lo, w + |s|, st + [c])
            && Put(path, w, s)[..lo] == path[..lo]
  {
    RenderedSnoc(st, c);
    var s := Written(c, w, |path|);
    var path' := Put(path, w, s);
    assert path'[lo..w + |s|] == path[lo..w] + s;
    assert path[lo..w] + (c + "/") == path[lo..w] + c + "/";
  }

  /** Between survives a token once path[lo..w'] renders the new stack and the unread part is intact. */
  lemma Advance(inPath: string, path: seq<char>, path': seq<char>, lo: nat, w: nat, w': nat,
                first: nat, second: nat, done: seq<string>)
    requires Between(inPath, path, lo, w, first, done)
    requires first < |inPath| && second == SkipElem(inPath, first)
    requires Intact(inPath, path', second) && path'[..lo] == path[..lo]
    requires w' <= |inPath| && (second < |inPath| ==> w' <= second + 1)
    requires Renders(path', lo, w', Stack(inPath, done + [inPath[first..second]]))
    ensures Between(inPath, path', lo, w', SkipSlashes(inPath, second), done + [inPath[first..second]])
  {
    TokenStep(inPath, first, second, done);
  }

  /** Writing one more component at w extends the rendered stack and spoils nothing unread. */
  lemma Extend(inPath: string, path: seq<char>, lo: nat, w: nat, first: nat, second: nat, done: seq<string>)
    requires Between(inPath, path, lo, w, first, done)
    requires first < |inPath| && second == SkipElem(inPath, first)
    requires Stack(inPath, done + [inPath[first..second]]) == Stack(inPath, done) + [inPath[first..second]]
    ensures var c := inPath[first..second];
            var s := Written(c, w, |path|);
            && w + |s| <= |path|
            && Between(inPath, Put(path, w, s), lo, w + |s|, SkipSlashes(inPath, second), done + [c])
            && (w == first ==> Put(path, w, s) == path)
  {
    var c := inPath[first..second];
    var s := Written(c, w, |path|);
    PutIntact(inPath, path, w, first, second);
    assert path[lo..w] == Rendered(Stack(inPath, done));
    PutRenders(path, lo, w, Stack(inPath, done), c);
    Advance(inPath, path, Put(path, w, s), lo, w, w + |s|, first, second, done);
  }

  /** out[second..first] is the last token of out. */
  ghost predicate IsLastToken(out: string, first: nat, second: nat) {
    && second <= first <= |out|
    && (forall k :: first <= k < |out| ==> out[k] == '/')
    && (forall k :: second <= k < first ==> out[k] != '/')
    && (0 < first ==> out[first - 1] != '/')
    && (0 < second ==> out[second - 1] == '/')
  }

  /** What the backward scan says about the stack, and where popping leaves the write index. */
  lemma BackTokenMeaning(out: string, st: seq<string>, first: nat, second: nat)
    requires out == Rendered(st)
    requires forall c :: c in st ==> IsComponent(c)
    requires IsLastToken(out, first, second)
    ensures first == 0 <==> st == []
    ensures st == [] ==> second == 0
    ensures st != [] ==> out[second..first] == st[|st| - 1] && out[..second] == Rendered(st[..|st| - 1])
  {
    if st != [] {
      RenderedLast(st);
      LastToken(out, |Rendered(st[..|st| - 1])|, st[|st| - 1], first, second);
    }
  }

  /** A rendered stack ends with its last component, which a slash separates from the rest. */
  lemma RenderedLast(st: seq<string>)
    requires st != []
    ensures var init, c, out := st[..|st| - 1], st[|st| - 1], Rendered(st);
            var r := |Rendered(init)|;
            && |out| == r + |c| + 1
            && out[..r] == Rendered(init) && out[r..r + |c|] == c && out[r + |c|] == '/'
            && (r > 0 ==> out[r - 1] == '/')
  {
    var init, c := st[..|st| - 1], st[|st| - 1];
    assert st == init + [c];
    RenderedSnoc(init, c);
    assert Rendered(init) != "" ==> Rendered(init)[|Rendered(init)| - 1] == '/';
  }

  method NormPath(inPath: string) returns (result: string)
    ensures result == Normalized(inPath)
    ensures |result| <= if inPath == "" then 1 else |inPath|
  {
    var path := new char[|inPath|](i requires 0 <= i < |inPath| => inPath[i]);
    assert path[..] == inPath;
    var firstWriteIdx, writeIdx, done := RewriteTokens(inPath, path);
    Finish(inPath, path[..], firstWriteIdx, writeIdx, done);
    if writeIdx > firstWriteIdx && path[writeIdx - 1] == '/' {
      writeIdx := writeIdx - 1;
    }
    result := path[..writeIdx];
    assert result == path[..][..writeIdx];
    if result == "" {
      result := ".";
    }
  }

  /** The pass through the string: every token of inPath is applied to path. */
  method RewriteTokens(inPath: string, path: array<char>)
    returns (firstWriteIdx: nat, writeIdx: nat, ghost done: seq<string>)
    requires path[..] == inPath
    modifies path
    ensures Between(inPath, path[..], firstWriteIdx, writeIdx, |inPath|, done)
  {
    var first, second := NextToken(inPath, 0);

    // Allow zero, one, or two leading slashes; three or more collapse to one.
    var numLeadingSlashes := first;
    writeIdx := if numLeadingSlashes >= 3 then 1 else numLeadingSlashes;
    firstWriteIdx := writeIdx;

    done := [];
    Start(inPath, path[..]);
    while first != |inPath|
      invariant first <= |inPath| && second == SkipElem(inPath, first)
      invariant Between(inPath, path[..], firstWriteIdx, writeIdx, first, done)
      decreases |inPath| - first
    {
      TokenStep(inPath, first, second, done);
      writeIdx := HandleToken(inPath, path, firstWriteIdx, writeIdx, first, second, done);
      done := done + [inPath[first..second]];
      first, second := NextToken(inPath, second);
    }
  }

  lemma Start(inPath: string, path: string)
    requires path == inPath
    ensures Between(inPath, path, |RootPrefix(inPath)|, |RootPrefix(inPath)|, LeadingSlashes(inPath), [])
  {
    ComponentsSkip(inPath, 0);
    assert [] + Components(inPath) == Components(inPath);
  }

  /** The body of the loop: the token inPath[first..second] is applied to path[lo..w]. */
  method HandleToken(inPath: string, path: array<char>, lo: nat, w: nat, first: nat, second: nat,
                     ghost done: seq<string>)
    returns (writeIdx: nat)
    requires first < |inPath| && second == SkipElem(inPath, first)
    requires Between(inPath, path[..], lo, w, first, done)
    modifies path
    ensures Between(inPath, path[..], lo, writeIdx, SkipSlashes(inPath, second), done + [inPath[first..second]])
  {
    writeIdx := w;
    DotDotToken(inPath[first..second]);
    match GetTokenType(inPath[first..second]) {
      case Elem =>
        writeIdx := HandleElem(inPath, path, lo, w, first, second, done);
      case Dot =>
        ReduceSnoc(done, inPath[first..second], LeadingSlashes(inPath) > 0);
        assert Intact(inPath, path[..], second);
        Advance(inPath, path[..], path[..], lo, w, w, first, second, done);
      case DotDot =>
        writeIdx := HandleDotDot(inPath, path, lo, w, first, second, done);
    }
  }

  /** Copies an element, unless nothing has moved so far and it is already in place. */
  method HandleElem(inPath: string, path: array<char>, lo: nat, w: nat, f: nat, second: nat,
                    ghost done: seq<string>)
    returns (writeIdx: nat)
    requires f < |inPath| && second == SkipElem(inPath, f)
    requires Between(inPath, path[..], lo, w, f, done)
    requires GetTokenType(inPath[f..second]) == Elem
    modifies path
    ensures Between(inPath, path[..], lo, writeIdx, SkipSlashes(inPath, second), done + [inPath[f..second]])
  {
    hide Reduce, Join, Rendered, Rooted, SkipSlashes;
    var first := f;
    writeIdx := w;
    ghost var c := inPath[f..second];
    ReduceSnoc(done, c, LeadingSlashes(inPath) > 0);
    Extend(inPath, path[..], lo, w, f, second, done);
    if writeIdx == first {
      writeIdx := writeIdx + (second - first);
      first := second;
      if writeIdx != path.Length {
        writeIdx := writeIdx + 1;
      }
    } else {
      writeIdx := CopyElem(inPath, path, w, f, second);
    }
  }

  /** Copies the token inPath[f..second] to w, then a joining slash if there is room. */
  method CopyElem(inPath: string, path: array<char>, w: nat, f: nat, second: nat) returns (writeIdx: nat)
    requires path.Length == |inPath| && w < f < second <= |inPath|
    modifies path
    ensures writeIdx == w + (second - f) + 1
    ensures path[..] == Put(old(path[..]), w, inPath[f..second] + "/")
  {
    writeIdx := w;
    var first := f;
    ghost var before := path[..];
    while first != second
      invariant f <= first <= second && writeIdx - w == first - f
      invariant forall k :: 0 <= k < path.Length ==>
        path[k] == if w <= k < writeIdx then inPath[f + k - w] else before[k]
    {
      path[writeIdx] := inPath[first];
      writeIdx, first := writeIdx + 1, first + 1;
    }
    if writeIdx != path.Length {
      path[writeIdx] := '/';
      writeIdx := writeIdx + 1;
    }
  }

  method CopyDotDot(path: array<char>, w: nat) returns (writeIdx: nat)
    requires w + 2 <= path.Length
    modifies path
    ensures writeIdx == w + |Written("..", w, path.Length)|
    ensures path[..] == Put(old(path[..]), w, Written("..", w, path.Length))
  {
    path[w] := '.';
    path[w + 1] := '.';
    writeIdx := w + 2;
    if writeIdx != path.Length {
      path[writeIdx] := '/';
      writeIdx := writeIdx + 1;
    }
  }

  /** Whether ".." stays or pops, read off the last token of the rendered stack. */
  lemma PopOrKeep(out: string, done: seq<string>, absolute: bool, first: nat, second: nat)
    requires out == Rendered(Reduce(done, absolute)) && forall c :: c in done ==> IsComponent(c)
    requires IsLastToken(out, first, second)
    ensures var st, st' := Reduce(done, absolute), Reduce(done + [".."], absolute);
            if (!absolute && first == 0) || GetTokenType(out[second..first]) == DotDot then st' == st + [".."]
            else Rendered(st') == if first != 0 then out[..second] else out
  {
    ReduceSnoc(done, "..", absolute);
    ReducedShape(done, absolute);
    BackTokenMeaning(out, Reduce(done, absolute), first, second);
    DotDotToken(out[second..first]);
  }

  /** The test made on the back token: is the ".." to be kept? */
  predicate KeepsDotDot(path: seq<char>, lo: nat, b1: nat, b2: nat)
    requires b2 <= b1 <= |path|
  {
    (lo == 0 && b1 == lo) || GetTokenType(path[b2..b1]) == DotDot
  }

  ghost predicate AtDotDot(inPath: string, path: seq<char>, lo: nat, w: nat, first: nat, second: nat,
                           done: seq<string>, b1: nat, b2: nat) {
    && Between(inPath, path, lo, w, first, done)
    && first < |inPath| && second == SkipElem(inPath, first) && inPath[first..second] == ".."
    && BackTokenIs(path, lo, w, b1, b2)
  }

  /** The stack after the "..", and what renders it if the ".." is not kept. */
  lemma DotDotStack(inPath: string, path: seq<char>, lo: nat, w: nat, first: nat, second: nat,
                    done: seq<string>, b1: nat, b2: nat)
    requires AtDotDot(inPath, path, lo, w, first, second, done, b1, b2)
    ensures b2 <= b1 <= |path|
    ensures KeepsDotDot(path, lo, b1, b2) ==> Stack(inPath, done + [".."]) == Stack(inPath, done) + [".."]
    ensures !KeepsDotDot(path, lo, b1, b2) ==>
              path[lo..if b1 != lo then b2 else w] == Rendered(Stack(inPath, done + [".."]))
  {
    hide Reduce, Join, Rendered, IsLastToken, GetTokenType, SkipElem, SkipSlashes, BackTokenIs, AtDotDot, Rooted;
    AtDotDotParts(inPath, path, lo, w, first, second, done, b1, b2);
    StackOfToken(inPath, path, lo, w, done, b1, b2, path[lo..w]);
  }

  lemma AtDotDotParts(inPath: string, path: seq<char>, lo: nat, w: nat, first: nat, second: nat,
                      done: seq<string>, b1: nat, b2: nat)
    requires AtDotDot(inPath, path, lo, w, first, second, done, b1, b2)
    ensures lo <= b2 <= b1 <= w <= |path| && (lo == 0 <==> LeadingSlashes(inPath) == 0)
    ensures BackTokenIs(path, lo, w, b1, b2) && path[lo..w] == Rendered(Stack(inPath, done))
    ensures forall c :: c in done ==> IsComponent(c)
  {
    hide Reduce, Join, Rendered, IsLastToken, SkipElem, SkipSlashes;
  }

  lemma StackOfToken(inPath: string, path: seq<char>, lo: nat, w: nat, done: seq<string>, b1: nat, b2: nat, out: string)
    requires lo <= b2 <= b1 <= w <= |path| && (lo == 0 <==> LeadingSlashes(inPath) == 0)
    requires out == path[lo..w] && BackTokenIs(path, lo, w, b1, b2) && out == Rendered(Stack(inPath, done))
    requires forall c :: c in done ==> IsComponent(c)
    ensures KeepsDotDot(path, lo, b1, b2) ==> Stack(inPath, done + [".."]) == Stack(inPath, done) + [".."]
    ensures !KeepsDotDot(path, lo, b1, b2) ==>
              path[lo..if b1 != lo then b2 else w] == Rendered(Stack(inPath, done + [".."]))
  {
    hide Stack, Rendered, IsLastToken, GetTokenType, LeadingSlashes;
    TokenDecides(inPath, done, out, path[b2..b1], path[lo..b2], b1 - lo, b2 - lo);
  }

  lemma TokenDecides(inPath: string, done: seq<string>, out: string, token: string, rest: string,
                     first: nat, second: nat)
    requires out == Rendered(Stack(inPath, done)) && forall c :: c in done ==> IsComponent(c)
    requires IsLastToken(out, first, second) && second <= first <= |out|
    requires token == out[second..first] && rest == out[..second]
    ensures (var st, st' := Stack(inPath, done), Stack(inPath, done + [".."]);
             if (LeadingSlashes(inPath) == 0 && first == 0) || GetTokenType(token) == DotDot then st' == st + [".."]
             else Rendered(st') == if first != 0 then rest else out)
  {
    hide Reduce, Rendered, IsLastToken, GetTokenType, LeadingSlashes;
    PopOrKeep(out, done, LeadingSlashes(inPath) > 0, first, second);
  }

  lemma DotDotKept(inPath: string, path: seq<char>, lo: nat, w: nat, first: nat, second: nat, done: seq<string>)
    requires Between(inPath, path, lo, w, first, done)
    requires first < |inPath| && second == SkipElem(inPath, first) && inPath[first..second] == ".."
    requires Stack(inPath, done + [".."]) == Stack(inPath, done) + [".."]
    ensures var s := Written("..", w, |path|);
            && w + |s| <= |path|
            && Between(inPath, Put(path, w, s), lo, w + |s|, SkipSlashes(inPath, second), done + [".."])
  {
    hide Between, Stack, SkipElem, SkipSlashes, Put;
    Extend(inPath, path, lo, w, first, second, done);
  }

  lemma DotDotPopped(inPath: string, path: seq<char>, lo: nat, w: nat, w': nat, first: nat, second: nat,
                     done: seq<string>)
    requires Between(inPath, path, lo, w, first, done)
    requires first < |inPath| && second == SkipElem(inPath, first) && inPath[first..second] == ".."
    requires lo <= w' <= w && path[lo..w'] == Rendered(Stack(inPath, done + [".."]))
    ensures Between(inPath, path, lo, w', SkipSlashes(inPath, second), done + [".."])
  {
    hide Stack, Rendered, Rooted, Read;
    Advance(inPath, path, path, lo, w, w', first, second, done);
  }

  /** Drops the last component, or writes ".." when there is none to drop. */
  method HandleDotDot(inPath: string, path: array<char>, lo: nat, w: nat, first: nat, second: nat,
                      ghost done: seq<string>)
    returns (writeIdx: nat)
    requires first < |inPath| && second == SkipElem(inPath, first) && inPath[first..second] == ".."
    requires Between(inPath, path[..], lo, w, first, done)
    modifies path
    ensures Between(inPath, path[..], lo, writeIdx, SkipSlashes(inPath, second), done + [".."])
  {
    BetweenBounds(inPath, path[..], lo, w, first, done);
    hide Between, Stack, Rendered, SkipElem, SkipSlashes, Put;
    writeIdx := w;
    var b1, b2 := BackToken(path, lo, w);
    DotDotStack(inPath, path[..], lo, w, first, second, done, b1, b2);
    assert path[..][b2..b1] == path[b2..b1];
    if (lo == 0 && b1 == lo) || GetTokenType(path[b2..b1]) == DotDot {
      DotDotKept(inPath, path[..], lo, w, first, second, done);
      writeIdx := CopyDotDot(path, w);
    } else {
      DotDotPopped(inPath, path[..], lo, w, if b1 != lo then b2 else w, first, second, done);
      if b1 != lo {
        writeIdx := b2;
      }
    }
  }

  lemma BetweenBounds(inPath: string, path: seq<char>, lo: nat, w: nat, first: nat, done: seq<string>)
    requires Between(inPath, path, lo, w, first, done)
    ensures lo <= w <= first <= |path| == |inPath|
  {
  }

  /** When the input is used up, trimming one trailing slash leaves the normal form. */
  lemma Finish(inPath: string, path: seq<char>, lo: nat, w: nat, done: seq<string>)
    requires Between(inPath, path, lo, w, |inPath|, done)
    ensures var w' := if w > lo && path[w - 1] == '/' then w - 1 else w;
            && Normalized(inPath) == (if path[..w'] == "" then "." else path[..w'])
            && w' <= |inPath|
  {
    var st := Stack(inPath, done);
    assert done + [] == done;
    assert Components(inPath) == done;
    ReducedShape(done, LeadingSlashes(inPath) > 0);
    TrimSlash(path, lo, w, st);
  }

  lemma TrimSlash(path: seq<char>, lo: nat, w: nat, st: seq<string>)
    requires Renders(path, lo, w, st)
    requires forall c :: c in st ==> IsComponent(c)
    ensures var w' := if w > lo && path[w - 1] == '/' then w - 1 else w;
            path[..w'] == path[..lo] + Join(st)
  {
    JoinEnds(st);
    var out := path[lo..w];
    if st == [] {
      assert w == lo;
    } else {
      assert path[w - 1] == out[|out| - 1];
      hide Join;
      if path[w - 1] == '/' {
        assert out[..|out| - 1] == Join(st);
        assert path[..w - 1] == path[..lo] + out[..|out| - 1];
      } else {
        assert out == Join(st);
        assert path[..w] == path[..lo] + out;
      }
    }
  }

  lemma JoinEnds(st: seq<string>)
    requires forall c :: c in st ==> IsComponent(c)
    ensures st != [] ==> Join(st) != "" && Join(st)[0] != '/' && Join(st)[|Join(st)| - 1] != '/'
  {
    if st != [] {
      var c := st[|st| - 1];
      assert c in st && c[0] in c && c[|c| - 1] in c;
      JoinEnds(st[..|st| - 1]);
    }
  }
}
