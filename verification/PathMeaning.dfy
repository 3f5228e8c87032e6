/**
 What a POSIX path means when it is read lexically (no symbolic links), and the component-stack
 description of a normalised path.

 A path is split at its slashes into components. Pathname Resolution (section 4.13 of the Base
 Definitions of POSIX.1-2017) gives the leading slashes their meaning: none makes the path relative,
 exactly two may name a root of their own, and one or at least three name the ordinary root.
*/
module PathMeaning {

  // ---------- components ----------

  /** Index of the first non-slash at or after i. */
  function SkipSlashes(s: string, i: nat): (j: nat)
    requires i <= |s|
    ensures i <= j <= |s|
    ensures forall k :: i <= k < j ==> s[k] == '/'
    ensures j < |s| ==> s[j] != '/'
    decreases |s| - i
  {
    if i < |s| && s[i] == '/' then SkipSlashes(s, i + 1) else i
  }

  /** Index of the first slash at or after i. */
  function SkipElem(s: string, i: nat): (j: nat)
    requires i <= |s|
    ensures i <= j <= |s|
    ensures forall k :: i <= k < j ==> s[k] != '/'
    ensures j < |s| ==> s[j] == '/'
    decreases |s| - i
  {
    if i < |s| && s[i] != '/' then SkipElem(s, i + 1) else i
  }

  /** The slash-delimited components of s from index i on. */
  function ComponentsFrom(s: string, i: nat): (cs: seq<string>)
    requires i <= |s|
    ensures forall c :: c in cs ==> IsComponent(c)
    decreases |s| - i
  {
    var first := SkipSlashes(s, i);
    if first == |s| then []
    else
      var second := SkipElem(s, first);
      assert IsComponent(s[first..second]);
      [s[first..second]] + ComponentsFrom(s, second)
  }

  function Components(s: string): seq<string> {
    ComponentsFrom(s, 0)
  }

  predicate IsComponent(c: string) {
    c != "" && '/' !in c
  }

  /** A component that names a directory entry: neither "." nor "..". */
  predicate IsName(c: string) {
    IsComponent(c) && c != "." && c != ".."
  }

  // ---------- meaning ----------

  datatype Root = Slash | DoubleSlash

  /** A directory: the root it hangs from and the names leading to it. */
  datatype Location = Location(root: Root, names: seq<string>)

  predicate IsDirectory(names: seq<string>) {
    forall n :: n in names ==> IsName(n)
  }

  /** One step of a walk; ".." at the root stays put. */
  function Step(names: seq<string>, c: string): seq<string> {
    if c == "." then names
    else if c == ".." then (if names == [] then [] else names[..|names| - 1])
    else names + [c]
  }

  function Walk(names: seq<string>, cs: seq<string>): seq<string> {
    if cs == [] then names else Step(Walk(names, cs[..|cs| - 1]), cs[|cs| - 1])
  }

  function LeadingSlashes(p: string): nat {
    SkipSlashes(p, 0)
  }

  /** The directory that p leads to when the current directory is cwd. */
  function Resolve(cwd: Location, p: string): Location {
    var n := LeadingSlashes(p);
    if n == 0 then Location(cwd.root, Walk(cwd.names, Components(p)))
    else Location(if n == 2 then DoubleSlash else Slash, Walk([], Components(p)))
  }

  /** p and q lead to the same directory from every current directory. */
  ghost predicate SameMeaning(p: string, q: string) {
    forall cwd: Location | IsDirectory(cwd.names) :: Resolve(cwd, p) == Resolve(cwd, q)
  }

  // ---------- the component stack ----------

  /** The slashes kept in front of a normalised path. */
  function RootPrefix(p: string): string {
    var n := LeadingSlashes(p);
    if n == 0 then "" else if n == 2 then "//" else "/"
  }

  /** Drop ".", pop a name on "..", keep ".." only at the front of a relative path. */
  function Push(stack: seq<string>, c: string, absolute: bool): seq<string> {
    if c == "." then stack
    else if c != ".." then stack + [c]
    else if stack == [] then (if absolute then [] else [".."])
    else if stack[|stack| - 1] == ".." then stack + [".."]
    else stack[..|stack| - 1]
  }

  function Reduce(cs: seq<string>, absolute: bool): seq<string> {
    if cs == [] then [] else Push(Reduce(cs[..|cs| - 1], absolute), cs[|cs| - 1], absolute)
  }

  function Join(cs: seq<string>): string {
    if cs == [] then ""
    else if |cs| == 1 then cs[0]
    else Join(cs[..|cs| - 1]) + "/" + cs[|cs| - 1]
  }

  /** The normal form of p, by way of a stack of components. */
  function Normalized(p: string): string {
    var out := RootPrefix(p) + Join(Reduce(Components(p), LeadingSlashes(p) > 0));
    if out == "" then "." else out
  }

  /** The shape of a reduced stack: names, after ".." components only if the path is relative. */
  predicate IsReduced(st: seq<string>, absolute: bool) {
    && (forall i :: 0 <= i < |st| ==> IsComponent(st[i]) && st[i] != "." && (absolute ==> st[i] != ".."))
    && (forall i, j :: 0 <= i < j < |st| && st[j] == ".." ==> st[i] == "..")
  }
}
