/**
 Naming a crash log (_GetStackTraceName in pxr/base/arch/stackTrace.cpp): the name is composed in the
 caller's buffer without the C library, and suffixes are tried until one can be created exclusively.
*/
module StackTraceName {
  import opened Basics
  import opened CStrings

  // ---------- the names, in the order in which they are tried ----------

  function DefaultName(tmpDir: string, program: string, pid: int): string {
    tmpDir + "/" + "st" + "_" + program + "." + Decimal(pid)
  }

  /** The default name, then the default name followed by .1, .2, and so on. */
  function Candidate(base: string, k: nat): string {
    if k == 0 then base else base + "." + Decimal(k)
  }

  /** The k-th name, written out. */
  lemma CandidateIs(tmpDir: string, program: string, pid: int, k: nat)
    ensures Candidate(DefaultName(tmpDir, program, pid), k)
         == tmpDir + "/st_" + program + "." + Decimal(pid) + if k == 0 then "" else "." + Decimal(k)
  {
    hide Decimal;
    assert tmpDir + "/" + "st" + "_" == tmpDir + "/st_";
    var base := DefaultName(tmpDir, program, pid);
    assert base + "" == base && base + ("." + Decimal(k)) == base + "." + Decimal(k);
  }

  lemma CandidatesDiffer(base: string, i: nat, j: nat)
    requires Candidate(base, i) == Candidate(base, j)
    ensures i == j
  {
    var n := |base| + 1;
    if i > 0 && j > 0 {
      assert Candidate(base, i)[n..] == Decimal(i) && Candidate(base, j)[n..] == Decimal(j);
      PrintsDistinctly(i, j);
    } else {
      hide Decimal;
      assert i > 0 ==> |Candidate(base, i)| >= n;
      assert j > 0 ==> |Candidate(base, j)| >= n;
    }
  }

  lemma CandidatesGrow(base: string, i: nat, j: nat)
    requires i <= j
    ensures |Candidate(base, i)| <= |Candidate(base, j)|
  {
    DigitsGrow(i, j);
  }

  /** A set of names that holds the first k candidates has at least k members. */
  lemma {:induction false} CandidatesCounted(taken: set<string>, base: string, k: nat)
    requires forall j :: 0 <= j < k ==> Candidate(base, j) in taken
    ensures k <= |taken|
    decreases k
  {
    if k > 0 {
      var last := Candidate(base, k - 1);
      forall j | 0 <= j < k - 1
        ensures Candidate(base, j) in taken - {last}
      {
        if Candidate(base, j) == last {
          CandidatesDiffer(base, j, k - 1);
        }
      }
      CandidatesCounted(taken - {last}, base, k - 1);
    }
  }

  ghost function FirstFreeFrom(taken: set<string>, base: string, i: nat): (k: nat)
    requires i <= |taken| && forall j :: 0 <= j < i ==> Candidate(base, j) in taken
    ensures Candidate(base, k) !in taken && k <= |taken|
    ensures forall j :: 0 <= j < k ==> Candidate(base, j) in taken
    decreases |taken| - i
  {
    if Candidate(base, i) !in taken then i
    else
      CandidatesCounted(taken, base, i + 1);
      FirstFreeFrom(taken, base, i + 1)
  }

  /** Which candidate is the first that is not taken: one of the first |taken| + 1. */
  ghost function FirstFree(taken: set<string>, base: string): (k: nat)
    ensures Candidate(base, k) !in taken && k <= |taken|
    ensures forall j :: 0 <= j < k ==> Candidate(base, j) in taken
  {
    FirstFreeFrom(taken, base, 0)
  }

  // ---------- the operating system ----------

  /** The existing files, the names that open refuses for some other reason, and the calling thread's errno. */
  class FileSystem {
    var names: set<string>
    var refused: map<string, int>
    var errno: int
    var descriptors: nat

    ghost predicate Valid()
      reads this
    {
      forall path :: path in refused ==> refused[path] != EEXIST
    }

    /** open with O_CREAT and O_EXCL. */
    method Open(path: string) returns (fd: int)
      requires Valid()
      modifies this
      ensures Valid() && refused == old(refused)
      ensures path in refused ==> fd == -1 && errno == refused[path]
      ensures path !in refused && path in old(names) ==> fd == -1 && errno == EEXIST
      ensures fd == -1 ==> names == old(names) && descriptors == old(descriptors)
      ensures path !in refused && path !in old(names) ==>
                fd >= 0 && names == old(names) + {path} && descriptors == old(descriptors) + 1
    {
      if path in refused {
        errno := refused[path];
        return -1;
      }
      if path in names {
        errno := EEXIST;
        return -1;
      }
      names := names + {path};
      fd := descriptors;
      descriptors := descriptors + 1;
    }

    method Close(fd: int)
      requires Valid() && fd >= 0 && descriptors > 0
      modifies this`descriptors
      ensures descriptors == old(descriptors) - 1
    {
      descriptors := descriptors - 1;
    }
  }

  // ---------- composing the name ----------

  /** The buffer holds text as a C string, and is otherwise as it was from `end` on. */
  ghost predicate Holds(buf: seq<char>, was: seq<char>, text: string, end: nat) {
    |text| < end <= |buf| == |was| && buf[..|text|] == text && buf[|text|] == '\0' && buf[end..] == was[end..]
  }

  lemma AppendHolds(b: seq<char>, was: seq<char>, first: string, more: string, end: nat, c: seq<char>)
    requires |first| + |more| < end <= |b| == |was| && b[..|first|] == first && b[end..] == was[end..]
    requires c == b[..|first|] + more + ['\0'] + b[|first| + |more| + 1..]
    ensures Holds(c, was, first + more, end)
  {
    var n := |first| + |more|;
    assert c[..n] == first + more;
    assert c[n + 1..] == b[n + 1..];
    assert c[end..] == b[end..] by {
      assert c[end..] == c[n + 1..][end - n - 1..];
      assert b[end..] == b[n + 1..][end - n - 1..];
    }
  }

  lemma HeldText(buf: seq<char>, was: seq<char>, text: string, end: nat)
    requires Holds(buf, was, text, end) && '\0' !in text
    ensures '\0' in buf && Text(buf) == text
  {
    TextAt(text, buf[|text| + 1..]);
    assert buf == text + ['\0'] + buf[|text| + 1..];
  }

  /** asstrcpy behind what is there. */
  method AppendString(buf: array<char>, ghost was: seq<char>, ghost first: string, at: nat, src: seq<char>, len: nat)
    returns (end: nat)
    requires '\0' in src && at == |first| && at + |Text(src)| < len <= buf.Length == |was|
    requires buf[..at] == first && buf[len..] == was[len..]
    modifies buf
    ensures end == at + |Text(src)| && Holds(buf[..], was, first + Text(src), len)
  {
    ghost var b := buf[..];
    end := AsStrCpy(buf, at, src);
    AppendHolds(b, was, first, Text(src), len, buf[..]);
  }

  /** asitoa behind what is there. */
  method AppendNumber(buf: array<char>, ghost was: seq<char>, ghost first: string, at: nat, x: int, len: nat)
    returns (end: nat)
    requires LONG_MIN < x <= LONG_MAX && at == |first| && at + |Decimal(x)| < len <= buf.Length == |was|
    requires buf[..at] == first && buf[len..] == was[len..]
    modifies buf
    ensures end == at + |Decimal(x)| && Holds(buf[..], was, first + Decimal(x), len)
  {
    ghost var b := buf[..];
    end := AsIToA(buf, at, x);
    AppendHolds(b, was, first, Decimal(x), len, buf[..]);
  }

  lemma Literals()
    ensures Text("/\0") == "/" && Text("st\0") == "st" && Text("_\0") == "_" && Text(".\0") == "."
  {
    TextAt("/", "");
    TextAt("st", "");
    TextAt("_", "");
    TextAt(".", "");
    assert "/\0" == "/" + ['\0'] + "" && "st\0" == "st" + ['\0'] + "";
    assert "_\0" == "_" + ['\0'] + "" && ".\0" == "." + ['\0'] + "";
  }

  method WriteDefaultName(buf: array<char>, len: nat, tmpDir: seq<char>, program: seq<char>, pid: int)
    returns (end: nat)
    requires '\0' in tmpDir && '\0' in program && INT_MIN <= pid <= INT_MAX
    requires |DefaultName(Text(tmpDir), Text(program), pid)| < len <= buf.Length
    modifies buf
    ensures end == |DefaultName(Text(tmpDir), Text(program), pid)|
    ensures Holds(buf[..], old(buf[..]), DefaultName(Text(tmpDir), Text(program), pid), len)
  {
    Literals();
    hide Text, Decimal;
    ghost var was, dir, prog := buf[..], Text(tmpDir), Text(program);
    end := AppendString(buf, was, "", 0, tmpDir, len);
    end := AppendString(buf, was, "" + dir, end, "/\0", len);
    end := AppendString(buf, was, "" + dir + "/", end, "st\0", len);
    end := AppendString(buf, was, "" + dir + "/" + "st", end, "_\0", len);
    end := AppendString(buf, was, "" + dir + "/" + "st" + "_", end, program, len);
    end := AppendString(buf, was, "" + dir + "/" + "st" + "_" + prog, end, ".\0", len);
    end := AppendNumber(buf, was, "" + dir + "/" + "st" + "_" + prog + ".", end, pid, len);
    assert "" + dir == dir;
  }

  lemma DefaultNameHasNoNul(tmpDir: seq<char>, program: seq<char>, pid: int)
    requires '\0' in tmpDir && '\0' in program
    ensures '\0' !in DefaultName(Text(tmpDir), Text(program), pid)
  {
    DecimalHasNoNul(pid);
  }

  lemma CandidateHasNoNul(base: string, k: nat)
    requires '\0' !in base
    ensures '\0' !in Candidate(base, k)
  {
    DecimalHasNoNul(k);
  }

  /** Replaces what follows the default name by the k-th suffix. */
  method WriteSuffix(buf: array<char>, ghost was: seq<char>, ghost base: string, end: nat, k: nat, len: nat)
    requires 0 < k <= INT_MAX && end == |base| && |Candidate(base, k)| < len <= buf.Length == |was|
    requires buf[..end] == base && buf[len..] == was[len..]
    modifies buf
    ensures Holds(buf[..], was, Candidate(base, k), len) && buf[..end] == base
  {
    Literals();
    hide Decimal, Text;
    var e := AppendString(buf, was, base, end, ".\0", len);
    e := AppendNumber(buf, was, base + ".", end + 1, k, len);
    assert buf[..end] == buf[..|Candidate(base, k)|][..end];
  }

  /** What an attempt to create path has done. */
  ghost predicate Attempted(fd: int, errno: int, path: string, was: set<string>, now: set<string>,
                            refused: map<string, int>)
  {
    if path in refused then fd == -1 && errno == refused[path] && now == was
    else if path in was then fd == -1 && errno == EEXIST && now == was
    else fd >= 0 && now == was + {path}
  }

  /** Opens the name in the buffer. */
  method Attempt(fs: FileSystem, buf: array<char>, ghost was: seq<char>, ghost path: string, ghost len: nat)
    returns (fd: int)
    requires fs.Valid() && Holds(buf[..], was, path, len) && '\0' !in path
    modifies fs
    ensures fs.Valid() && fs.refused == old(fs.refused)
    ensures Attempted(fd, fs.errno, path, old(fs.names), fs.names, fs.refused)
    ensures fs.descriptors == old(fs.descriptors) + (if fd == -1 then 0 else 1)
  {
    HeldText(buf[..], was, path, len);
    fd := fs.Open(Text(buf[..]));
  }

  lemma CandidateZero(base: string)
    ensures Candidate(base, 0) == base
  {
  }

  lemma CandidateLength(base: string, k: nat)
    requires k > 0
    ensures |Candidate(base, k)| == |base| + 1 + |Decimal(k)|
  {
  }

  lemma HeldPrefix(buf: seq<char>, was: seq<char>, text: string, end: nat)
    requires Holds(buf, was, text, end)
    ensures |text| < end <= |buf| == |was| && buf[..|text|] == text
  {
  }

  lemma HeldTail(buf: seq<char>, was: seq<char>, text: string, end: nat)
    requires Holds(buf, was, text, end)
    ensures end <= |buf| == |was| && buf[end..] == was[end..]
  {
  }

  /** Success creates path; too little space or a refusal creates nothing. */
  ghost predicate Outcome(result: int, errno: int, path: string, len: nat, was: set<string>, now: set<string>,
                          refused: map<string, int>) {
    if len <= |path| then result == -1 && errno == ENOMEM && now == was
    else if path in refused then result == -1 && errno == refused[path] && now == was
    else result == 0 && path !in was && now == was + {path}
  }

  /** The loop over the suffixes. */
  method TryNames(fs: FileSystem, buf: array<char>, ghost was: seq<char>, ghost base: string,
                  end: nat, len: nat, required: nat)
    returns (result: int)
    requires fs.Valid() && |fs.names| <= INT_MAX && '\0' !in base && end == |base| && required == end + 1 <= len
    requires Holds(buf[..], was, base, len)
    modifies fs, buf
    ensures fs.Valid() && fs.descriptors == old(fs.descriptors) && fs.refused == old(fs.refused)
    ensures buf[len..] == was[len..]
    ensures (var path := Candidate(base, FirstFree(old(fs.names - fs.refused.Keys), base));
             && Outcome(result, fs.errno, path, len, old(fs.names), fs.names, fs.refused)
             && (len > |path| ==> Holds(buf[..], was, path, len)))
  {
    ghost var taken := fs.names - fs.refused.Keys;
    ghost var first := FirstFree(taken, base);
    hide FirstFree, Decimal, Holds, Candidate;
    CandidateZero(base);
    HeldPrefix(buf[..], was, base, len);
    var suffix: nat := 0;
    var fd := Attempt(fs, buf, was, base, len);
    while fd == -1 && fs.errno == EEXIST
      invariant suffix <= first && |Candidate(base, suffix)| < len
      invariant Holds(buf[..], was, Candidate(base, suffix), len) && buf[..end] == base
      invariant fs.Valid() && fs.refused == old(fs.refused)
      invariant Attempted(fd, fs.errno, Candidate(base, suffix), old(fs.names), fs.names, fs.refused)
      invariant fs.descriptors == old(fs.descriptors) + (if fd == -1 then 0 else 1)
      decreases first - suffix
    {
      suffix := suffix + 1;
      var digits := AsNumDigits(suffix);
      CandidateLength(base, suffix);
      CandidatesGrow(base, suffix, first);
      HeldTail(buf[..], was, Candidate(base, suffix - 1), len);
      if len < required + 1 + digits {
        fs.errno := ENOMEM;
        return -1;
      }
      WriteSuffix(buf, was, base, end, suffix, len);
      CandidateHasNoNul(base, suffix);
      fd := Attempt(fs, buf, was, Candidate(base, suffix), len);
    }
    HeldTail(buf[..], was, Candidate(base, suffix), len);
    assert suffix == first;
    if fd != -1 {
      fs.Close(fd);
      fd := 0;
    }
    return fd;
  }

  /** The space that the default name takes, with its NUL. */
  method RequiredSpace(tmpDir: seq<char>, program: seq<char>, pid: int) returns (required: nat)
    requires '\0' in tmpDir && '\0' in program && INT_MIN <= pid <= INT_MAX
    ensures required == |DefaultName(Text(tmpDir), Text(program), pid)| + 1
  {
    Literals();
    var n1 := AsStrLen(Some(tmpDir));
    var n2 := AsStrLen(Some("st\0"));
    var n3 := AsStrLen(Some(program));
    var n4 := AsNumDigits(pid);
    required := n1 + 1 + n2 + 1 + n3 + 1 + n4 + 1;
  }

  /**
   * Creates the first name not in use and leaves it in buf. With other errors than EEXIST the search stops,
   * and without the space for the first name not in use it fails.
   */
  method GetStackTraceName(fs: FileSystem, buf: array<char>, len: nat, tmpDir: seq<char>, program: seq<char>, pid: int)
    returns (result: int)
    requires fs.Valid() && '\0' in tmpDir && '\0' in program && INT_MIN <= pid <= INT_MAX
    requires len <= buf.Length && |fs.names| <= INT_MAX
    modifies fs, buf
    ensures buf[len..] == old(buf[len..])
    ensures fs.Valid() && fs.descriptors == old(fs.descriptors) && fs.refused == old(fs.refused)
    ensures (var base := DefaultName(Text(tmpDir), Text(program), pid);
             var path := Candidate(base, FirstFree(old(fs.names - fs.refused.Keys), base));
             && Outcome(result, fs.errno, path, len, old(fs.names), fs.names, fs.refused)
             && (len > |path| ==> '\0' in buf[..] && Text(buf[..]) == path))
    ensures result != 0 ==> result == -1 && fs.names == old(fs.names)
    ensures result == 0 ==> '\0' in buf[..] && Text(buf[..]) !in old(fs.names)
                            && fs.names == old(fs.names) + {Text(buf[..])}
    ensures (var base := Text(tmpDir) + "/st_" + Text(program) + "." + Decimal(pid);
             result == 0 ==>
               exists k: nat :: Text(buf[..]) == base + (if k == 0 then "" else "." + Decimal(k))
                 && forall j: nat :: j < k ==> base + (if j == 0 then "" else "." + Decimal(j)) in old(fs.names))
  {
    ghost var base := DefaultName(Text(tmpDir), Text(program), pid);
    ghost var taken := fs.names - fs.refused.Keys;
    ghost var first := FirstFree(taken, base);
    DefaultNameHasNoNul(tmpDir, program, pid);

    var required := RequiredSpace(tmpDir, program, pid);
    if len < required {
      fs.errno := ENOMEM;
      CandidatesGrow(base, 0, first);
      return -1;
    }
    hide Holds, Outcome, FirstFree, Candidate, DefaultName, Text;
    var end := WriteDefaultName(buf, len, tmpDir, program, pid);
    result := TryNames(fs, buf, old(buf[..]), base, end, len, required);
    CandidateHasNoNul(base, first);
    if len > |Candidate(base, first)| {
      HeldText(buf[..], old(buf[..]), Candidate(base, first), len);
    }
    WhatHappened(result, fs.errno, base, first, len, old(fs.names), fs.names, fs.refused);
    forall j: nat | j <= first
      ensures Candidate(base, j) == Text(tmpDir) + "/st_" + Text(program) + "." + Decimal(pid)
                                    + if j == 0 then "" else "." + Decimal(j)
    {
      CandidateIs(Text(tmpDir), Text(program), pid, j);
    }
  }

  lemma WhatHappened(result: int, errno: int, base: string, first: nat, len: nat, was: set<string>, now: set<string>,
                     refused: map<string, int>)
    requires first == FirstFree(was - refused.Keys, base)
    requires Outcome(result, errno, Candidate(base, first), len, was, now, refused)
    ensures result == 0 || (result == -1 && now == was)
    ensures result == 0 ==> len > |Candidate(base, first)|
    ensures result == 0 ==> Candidate(base, first) !in was && now == was + {Candidate(base, first)}
    ensures forall j :: 0 <= j < first ==> Candidate(base, j) in was
  {
  }
}
