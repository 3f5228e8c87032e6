/**
 The double-fork launch of an unrelated process (Arch_DebuggerRunUnrelatedProcessPosix in
 pxr/base/arch/debugger.cpp). Parent, child and grandchild run in any interleaving and share one pipe;
 the parent takes silence at the end of the pipe for success.

 Each process has a descriptor table. Reading the pipe gives end-of-file exactly when it is empty and no
 table holds the write end any more.
*/
module LaunchProtocol {
  import opened CloseAllFiles

  datatype Parent = MakesPipe | Forks | ClosesWriteEnd | Reads | ClosesReadEnd(n: int) | Returned(result: bool)

  datatype Child = NoChild | ChildClosesReadEnd | Setsid | ForksAgain | ChildReports | ChildExits | ChildGone

  datatype Grandchild = NoGrandchild | ClosesAll | Chdir | OpensNull(left: nat) | SetsCloexec | CallsBack
                      | GrandchildReports | GrandchildExits | Executing | GrandchildGone

  /** How the launch went: decided by the callback, or by a step that failed before it. */
  datatype Outcome = Undecided | Succeeded | Failed

  datatype State = State(
    parent: Parent, child: Child, grandchild: Grandchild,
    r: Fd, w: Fd,                                             // the two ends of the pipe
    parentFds: set<Fd>, childFds: set<Fd>, grandchildFds: set<Fd>,
    cloexec: bool,                                            // set on w in the grandchild
    pipe: nat,                                                // bytes waiting in the pipe
    // history
    outcome: Outcome,
    reports: nat,                                             // how many report writes were made
    delivered: nat,                                           // how many bytes they put into the pipe
    abandoned: bool)                                          // the process owing the report died, or its write failed

  /** What happens next, with the operating system's choices. */
  datatype Event =
    // parent
    | PipeFails | PipeOpens(r': Fd, w': Fd) | ForkFails | ForkWorks | ParentClosesWrite
    | ReadInterrupted | ReadsByte | ReadsEnd | ParentClosesRead
    // child
    | ChildClosesRead | SetsidFails | SetsidWorks | SecondForkFails | SecondForkWorks
    | ChildWrites(k: nat) | ChildExit | ChildKilled
    // grandchild
    | CloseAllDone(fds: set<Fd>, failures: seq<Failure>, maxfd: int) | ChdirFails | ChdirWorks
    | OpenNull(fd: Fd) | OpenNullFails | CloexecFails | CloexecWorks
    | CallbackExecs | CallbackReturns(ok: bool)
    | GrandchildWrites(k: nat) | GrandchildExit | GrandchildKilled

  ghost predicate Init(s: State) {
    && s.parent == MakesPipe && s.child == NoChild && s.grandchild == NoGrandchild
    && s.childFds == {} && s.grandchildFds == {} && !s.cloexec
    && s.pipe == 0 && s.outcome == Undecided && s.reports == 0 && s.delivered == 0 && !s.abandoned
  }

  predicate ChildOwes(s: State) {
    s.child.ChildClosesReadEnd? || s.child.Setsid? || s.child.ForksAgain? || s.child.ChildReports?
  }

  predicate GrandchildOwes(s: State) {
    || s.grandchild.ClosesAll? || s.grandchild.Chdir? || s.grandchild.OpensNull? || s.grandchild.SetsCloexec?
    || s.grandchild.CallsBack? || s.grandchild.GrandchildReports?
  }

  /** A descendant that has still to decide the outcome or to report a failure. */
  predicate Owes(s: State) {
    ChildOwes(s) || GrandchildOwes(s)
  }

  predicate HoldsWriteEnd(s: State) {
    s.w in s.parentFds || s.w in s.childFds || s.w in s.grandchildFds
  }

  /** A report of sizeof(int) bytes, of which the write delivers k. */
  function Report(s: State, k: nat): State {
    s.(pipe := s.pipe + k, delivered := s.delivered + k, reports := s.reports + 1, abandoned := s.abandoned || k == 0)
  }

  ghost predicate Enabled(s: State, e: Event) {
    match e
    case PipeFails => s.parent.MakesPipe?
    case PipeOpens(r, w) => s.parent.MakesPipe? && r != w && r !in s.parentFds && w !in s.parentFds
    case ForkFails => s.parent.Forks?
    case ForkWorks => s.parent.Forks?
    case ParentClosesWrite => s.parent.ClosesWriteEnd?
    case ReadInterrupted => s.parent.Reads?
    case ReadsByte => s.parent.Reads? && s.pipe > 0
    case ReadsEnd => s.parent.Reads? && s.pipe == 0 && !HoldsWriteEnd(s)
    case ParentClosesRead => s.parent.ClosesReadEnd?
    case ChildClosesRead => s.child.ChildClosesReadEnd?
    case SetsidFails => s.child.Setsid?
    case SetsidWorks => s.child.Setsid?
    case SecondForkFails => s.child.ForksAgain?
    case SecondForkWorks => s.child.ForksAgain?
    case ChildWrites(k) => s.child.ChildReports? && k <= 4
    case ChildExit => s.child.ChildExits?
    case ChildKilled => ChildOwes(s) || s.child.ChildExits?
    case CloseAllDone(fds, failures, maxfd) =>
      s.grandchild.ClosesAll? && Closed(s.grandchildFds, fds, maxfd, [s.w], failures)
    case ChdirFails => s.grandchild.Chdir?
    case ChdirWorks => s.grandchild.Chdir?
    case OpenNull(fd) => s.grandchild.OpensNull? && s.grandchild.left > 0 && fd !in s.grandchildFds
    case OpenNullFails => s.grandchild.OpensNull? && s.grandchild.left > 0
    case CloexecFails => s.grandchild.SetsCloexec?
    case CloexecWorks => s.grandchild.SetsCloexec?
    case CallbackExecs => s.grandchild.CallsBack?
    case CallbackReturns(_) => s.grandchild.CallsBack?
    case GrandchildWrites(k) => s.grandchild.GrandchildReports? && k <= 4
    case GrandchildExit => s.grandchild.GrandchildExits? || s.grandchild.Executing?
    case GrandchildKilled => GrandchildOwes(s) || s.grandchild.GrandchildExits? || s.grandchild.Executing?
  }

  function OpenedNull(left: nat): Grandchild
    requires left > 0
  {
    if left == 1 then SetsCloexec else OpensNull(left - 1)
  }

  ghost function After(s: State, e: Event): State
    requires Enabled(s, e)
  {
    match e
    case PipeFails => s.(parent := Returned(false))
    case PipeOpens(r, w) => s.(parent := Forks, r := r, w := w, parentFds := s.parentFds + {r, w})
    case ForkFails => s.(parent := Returned(false), parentFds := s.parentFds - {s.r, s.w})
    case ForkWorks => s.(parent := ClosesWriteEnd, child := ChildClosesReadEnd, childFds := s.parentFds)
    case ParentClosesWrite => s.(parent := Reads, parentFds := s.parentFds - {s.w})
    case ReadInterrupted => s
    case ReadsByte => s.(parent := ClosesReadEnd(1), pipe := s.pipe - 1)
    case ReadsEnd => s.(parent := ClosesReadEnd(0))
    case ParentClosesRead => s.(parent := Returned(s.parent.n == 0), parentFds := s.parentFds - {s.r})
    case ChildClosesRead => s.(child := Setsid, childFds := s.childFds - {s.r})
    case SetsidFails => s.(child := ChildReports, outcome := Failed)
    case SetsidWorks => s.(child := ForksAgain)
    case SecondForkFails => s.(child := ChildReports, outcome := Failed)
    case SecondForkWorks => s.(child := ChildExits, grandchild := ClosesAll, grandchildFds := s.childFds)
    case ChildWrites(k) => Report(s, k).(child := ChildExits)
    case ChildExit => s.(child := ChildGone, childFds := {})
    case ChildKilled => s.(child := ChildGone, childFds := {}, abandoned := s.abandoned || ChildOwes(s))
    case CloseAllDone(fds, failures, maxfd) =>
      if failures == [] then s.(grandchild := Chdir, grandchildFds := fds)
      else s.(grandchild := GrandchildReports, grandchildFds := fds, outcome := Failed)
    case ChdirFails => s.(grandchild := GrandchildReports, outcome := Failed)
    case ChdirWorks => s.(grandchild := OpensNull(3))
    case OpenNull(fd) => s.(grandchild := OpenedNull(s.grandchild.left), grandchildFds := s.grandchildFds + {fd})
    case OpenNullFails => s.(grandchild := OpenedNull(s.grandchild.left))
    case CloexecFails => s.(grandchild := GrandchildReports, outcome := Failed)
    case CloexecWorks => s.(grandchild := CallsBack, cloexec := true)
    case CallbackExecs =>
      s.(grandchild := Executing, outcome := Succeeded,
         grandchildFds := if s.cloexec then s.grandchildFds - {s.w} else s.grandchildFds)
    case CallbackReturns(ok) =>
      if ok then s.(grandchild := GrandchildExits, outcome := Succeeded)
      else s.(grandchild := GrandchildReports, outcome := Failed)
    case GrandchildWrites(k) => Report(s, k).(grandchild := GrandchildExits)
    case GrandchildExit => s.(grandchild := GrandchildGone, grandchildFds := {})
    case GrandchildKilled =>
      s.(grandchild := GrandchildGone, grandchildFds := {}, abandoned := s.abandoned || GrandchildOwes(s))
  }

  /** The state after a sequence of events, if each was possible when it came. */
  ghost predicate Runs(s: State, es: seq<Event>, s': State)
    decreases |es|
  {
    if es == [] then s == s'
    else Enabled(s, es[0]) && Runs(After(s, es[0]), es[1..], s')
  }

  ghost predicate Reachable(s: State) {
    exists s0, es :: Init(s0) && Runs(s0, es, s)
  }

  // ---------- the invariant ----------

  predicate Forked(s: State) {
    s.child != NoChild
  }

  /** At most one process owes; while it does, it holds the write end and nothing has been reported. */
  predicate OwingInv(s: State) {
    && !(ChildOwes(s) && GrandchildOwes(s))
    && (Owes(s) ==> s.reports == 0 && s.delivered == 0 && !s.abandoned)
    && (ChildOwes(s) || s.child.ChildExits? ==> s.w in s.childFds)
    && (GrandchildOwes(s) || s.grandchild.GrandchildExits? ==> s.w in s.grandchildFds)
    && (s.grandchild.Executing? ==> s.w !in s.grandchildFds)
    && (s.grandchild.CallsBack? ==> s.cloexec)
    && (s.grandchild.OpensNull? ==> s.grandchild.left > 0)
    && (s.child.Setsid? || s.child.ForksAgain? || s.child.ChildReports? || s.child.ChildExits? ==> s.r !in s.childFds)
    && (s.grandchild.ClosesAll? || s.grandchild.Chdir? ==> s.r !in s.grandchildFds)
    && (s.child.NoChild? || s.child.ChildGone? ==> s.childFds == {})
    && (s.grandchild.NoGrandchild? || s.grandchild.GrandchildGone? ==> s.grandchildFds == {})
  }

  /** Who has decided what. */
  predicate OutcomeInv(s: State) {
    && (Owes(s) ==> (s.outcome == Failed <==> s.child.ChildReports? || s.grandchild.GrandchildReports?))
    && (Owes(s) ==> s.outcome != Succeeded)
    && (Forked(s) && !Owes(s) ==> s.outcome == Succeeded || s.abandoned || s.delivered > 0)
    && (s.outcome == Succeeded ==> s.reports == 0 && !s.abandoned)
    && (s.delivered > 0 ==> s.reports == 1 && s.outcome == Failed && !s.abandoned)
    && s.reports <= 1
    && (s.reports == 0 ==> s.delivered == 0)
    && (s.reports > 0 ==> s.outcome == Failed)
    && (s.grandchild != NoGrandchild ==> Forked(s) && !ChildOwes(s))
  }

  /** What the parent has seen. */
  predicate ParentInv(s: State) {
    && (s.parent.MakesPipe? || s.parent.Forks? ==> !Forked(s))
    && (!Forked(s) ==> s.outcome == Undecided && !s.abandoned && s.delivered == 0 && s.reports == 0 && s.pipe == 0)
    && (s.parent.Forks? || s.parent.ClosesWriteEnd? ==> s.w in s.parentFds && s.r in s.parentFds && s.r != s.w)
    && (s.parent.ClosesWriteEnd? || s.parent.Reads? || s.parent.ClosesReadEnd? ==> Forked(s) && s.r != s.w)
    && (s.parent.Reads? || s.parent.ClosesReadEnd? ==> s.w !in s.parentFds)
    && (s.parent.ClosesWriteEnd? || s.parent.Reads? ==> s.pipe == s.delivered)
    && (s.parent.ClosesReadEnd? && s.parent.n == 0 ==> !Owes(s) && s.delivered == 0)
    && (s.parent.ClosesReadEnd? && s.parent.n != 0 ==> s.delivered > 0)
    && (Forked(s) && s.parent.Returned? ==> !Owes(s) && (s.parent.result <==> s.delivered == 0))
    && (!Forked(s) && s.parent.Returned? ==> !s.parent.result)
    && (ChildOwes(s) ==> s.r != s.w)
  }

  predicate Inv(s: State) {
    OwingInv(s) && OutcomeInv(s) && ParentInv(s)
  }

  /** Closing all files but one leaves that one open. */
  lemma ListedStays(before: set<Fd>, after: set<Fd>, maxfd: int, w: Fd, failures: seq<Failure>)
    requires Closed(before, after, maxfd, [w], failures)
    ensures after <= before && (w in before ==> w in after)
  {
  }

  predicate ByParent(e: Event) {
    || e.PipeFails? || e.PipeOpens? || e.ForkFails? || e.ForkWorks? || e.ParentClosesWrite? || e.ReadInterrupted?
    || e.ReadsByte? || e.ReadsEnd? || e.ParentClosesRead?
  }

  predicate ByChild(e: Event) {
    || e.ChildClosesRead? || e.SetsidFails? || e.SetsidWorks? || e.SecondForkFails? || e.SecondForkWorks?
    || e.ChildWrites? || e.ChildExit? || e.ChildKilled?
  }

  lemma ParentKeepsInv(s: State, e: Event)
    requires Inv(s) && Enabled(s, e) && ByParent(e)
    ensures Inv(After(s, e))
  {
  }

  lemma ChildKeepsInv(s: State, e: Event)
    requires Inv(s) && Enabled(s, e) && ByChild(e)
    ensures Inv(After(s, e))
  {
  }

  lemma GrandchildKeepsInv(s: State, e: Event)
    requires Inv(s) && Enabled(s, e) && !ByParent(e) && !ByChild(e)
    ensures Inv(After(s, e))
  {
    hide Closed;
    if e.CloseAllDone? {
      ListedStays(s.grandchildFds, e.fds, e.maxfd, s.w, e.failures);
    }
  }

  /** Every step of every process keeps the invariant. */
  lemma InvKept(s: State, e: Event)
    requires Inv(s) && Enabled(s, e)
    ensures Inv(After(s, e))
  {
    hide Inv, Enabled, After;
    if ByParent(e) {
      ParentKeepsInv(s, e);
    } else if ByChild(e) {
      ChildKeepsInv(s, e);
    } else {
      GrandchildKeepsInv(s, e);
    }
  }

  lemma {:induction false} InvHolds(s: State, es: seq<Event>, s': State)
    requires Inv(s) && Runs(s, es, s')
    ensures Inv(s')
    decreases |es|
  {
    if es != [] {
      InvKept(s, es[0]);
      InvHolds(After(s, es[0]), es[1..], s');
    }
  }

  lemma ReachableInv(s: State)
    requires Reachable(s)
    ensures Inv(s)
  {
    var s0, es :| Init(s0) && Runs(s0, es, s);
    InvHolds(s0, es, s);
  }

  // ---------- the main results ----------

  /** The callback replaces the process by another program, or returns true. */
  predicate Success(e: Event) {
    e.CallbackExecs? || (e.CallbackReturns? && e.ok)
  }

  /** A call that the launch cannot do without fails, or the callback returns false. */
  predicate Failing(e: Event) {
    || e.SetsidFails? || e.SecondForkFails? || (e.CloseAllDone? && e.failures != []) || e.ChdirFails?
    || e.CloexecFails? || (e.CallbackReturns? && !e.ok)
  }

  /** An event in which no process dies owing a report, and no report write delivers nothing. */
  predicate Benign(s: State, e: Event) {
    && (e.ChildKilled? ==> !ChildOwes(s))
    && (e.GrandchildKilled? ==> !GrandchildOwes(s))
    && (e.ChildWrites? || e.GrandchildWrites? ==> e.k > 0)
  }

  ghost predicate BenignRun(s: State, es: seq<Event>, s': State)
    decreases |es|
  {
    if es == [] then s == s'
    else Enabled(s, es[0]) && Benign(s, es[0]) && BenignRun(After(s, es[0]), es[1..], s')
  }

  predicate SuccessIn(es: seq<Event>) {
    exists i :: 0 <= i < |es| && Success(es[i])
  }

  predicate FailingIn(es: seq<Event>) {
    exists i :: 0 <= i < |es| && Failing(es[i])
  }

  function Writing(e: Event): nat {
    if e.ChildWrites? || e.GrandchildWrites? then 1 else 0
  }

  /** How many report writes there are, and how many bytes they deliver. */
  function Writes(es: seq<Event>): nat {
    if es == [] then 0 else Writing(es[0]) + Writes(es[1..])
  }

  function Delivering(e: Event): nat {
    if e.ChildWrites? || e.GrandchildWrites? then e.k else 0
  }

  function Deliveries(es: seq<Event>): nat {
    if es == [] then 0 else Delivering(es[0]) + Deliveries(es[1..])
  }

  lemma InFirst(es: seq<Event>)
    requires es != []
    ensures SuccessIn(es) <==> Success(es[0]) || SuccessIn(es[1..])
    ensures FailingIn(es) <==> Failing(es[0]) || FailingIn(es[1..])
  {
    assert es == [es[0]] + es[1..];
    forall i | 0 <= i < |es[1..]|
      ensures es[i + 1] == es[1..][i]
    {
    }
  }

  /** One step: these events decide the outcome, and those that are not benign lose a report. */
  lemma StepDecides(s: State, e: Event)
    requires Enabled(s, e)
    ensures After(s, e).outcome == if Success(e) then Succeeded else if Failing(e) then Failed else s.outcome
    ensures After(s, e).abandoned <==> s.abandoned || !Benign(s, e)
  {
    hide Closed, HoldsWriteEnd;
  }

  lemma StepCounts(s: State, e: Event)
    requires Enabled(s, e)
    ensures After(s, e).reports == s.reports + Writing(e) && After(s, e).delivered == s.delivered + Delivering(e)
  {
    hide Closed, HoldsWriteEnd;
  }

  /** The outcome is decided only once. */
  lemma DecidesOnce(s: State, e: Event)
    requires Inv(s) && Enabled(s, e)
    ensures Success(e) || Failing(e) ==> s.outcome == Undecided
  {
    hide Closed, ParentInv, HoldsWriteEnd;
  }

  /** What the history variables stand for, in terms of the events. */
  lemma {:induction false} HistoryIs(s: State, es: seq<Event>, s': State)
    requires Inv(s) && Runs(s, es, s')
    ensures s'.outcome == Succeeded <==> s.outcome == Succeeded || SuccessIn(es)
    ensures s'.outcome == Failed <==> s.outcome == Failed || FailingIn(es)
    ensures s'.abandoned <==> s.abandoned || !BenignRun(s, es, s')
    ensures s'.reports == s.reports + Writes(es) && s'.delivered == s.delivered + Deliveries(es)
    decreases |es|
  {
    if es != [] {
      hide Inv, Enabled, After, Benign, Success, Failing, SuccessIn, FailingIn, Writing, Delivering;
      InvKept(s, es[0]);
      StepDecides(s, es[0]);
      StepCounts(s, es[0]);
      DecidesOnce(s, es[0]);
      InFirst(es);
      HistoryIs(After(s, es[0]), es[1..], s');
    }
  }

  /**
   * Whenever the parent has returned: true exactly if the callback succeeded, or the run was not benign. The outcome
   * and the loss that the state remembers are those of the events.
   */
  lemma ReturnsTrueIff(s0: State, es: seq<Event>, s: State)
    requires Init(s0) && Runs(s0, es, s) && s.parent.Returned?
    ensures s.parent.result <==> SuccessIn(es) || !BenignRun(s0, es, s)
    ensures !(SuccessIn(es) && !BenignRun(s0, es, s)) && !(SuccessIn(es) && FailingIn(es))
    ensures (s.outcome == Succeeded <==> SuccessIn(es)) && (s.outcome == Failed <==> FailingIn(es))
    ensures s.abandoned <==> !BenignRun(s0, es, s)
  {
    hide Enabled, After, Success, Failing;
    InvHolds(s0, es, s);
    HistoryIs(s0, es, s);
  }

  lemma {:induction false} BenignRuns(s: State, es: seq<Event>, s': State)
    requires BenignRun(s, es, s')
    ensures Runs(s, es, s')
    decreases |es|
  {
    if es != [] {
      BenignRuns(After(s, es[0]), es[1..], s');
    }
  }

  /** In every benign run, the parent's answer is what the callback did. */
  lemma BenignRunTellsTheTruth(s0: State, es: seq<Event>, s: State)
    requires Init(s0) && BenignRun(s0, es, s) && s.parent.Returned?
    ensures s.parent.result <==> exists e :: e in es && (e.CallbackExecs? || (e.CallbackReturns? && e.ok))
  {
    hide Enabled, After;
    BenignRuns(s0, es, s);
    ReturnsTrueIff(s0, es, s);
    if SuccessIn(es) {
      var i :| 0 <= i < |es| && Success(es[i]);
      assert es[i] in es;
    }
  }

  // ---------- the way to the callback ----------

  function Opening(e: Event): nat {
    if e.OpenNull? || e.OpenNullFails? then 1 else 0
  }

  /** How often /dev/null has been opened, or tried to be. */
  function Opens(es: seq<Event>): nat {
    if es == [] then 0 else Opening(es[0]) + Opens(es[1..])
  }

  /** How many of these are still to come before the callback. */
  function OpensLeft(g: Grandchild): nat {
    match g
    case NoGrandchild => 3
    case ClosesAll => 3
    case Chdir => 3
    case OpensNull(left) => left
    case _ => 0
  }

  predicate BeforeSetsid(c: Child) {
    c.NoChild? || c.ChildClosesReadEnd? || c.Setsid?
  }

  predicate BeforeChdir(g: Grandchild) {
    g.NoGrandchild? || g.ClosesAll? || g.Chdir?
  }

  predicate BeforeCloexec(g: Grandchild) {
    BeforeChdir(g) || g.OpensNull? || g.SetsCloexec?
  }

  predicate ClosesAllWorks(e: Event) {
    e.CloseAllDone? && e.failures == []
  }

  /** The callback can still be called, or is about to be. */
  predicate OnTheWay(s: State) {
    if s.grandchild.NoGrandchild? then BeforeSetsid(s.child) || s.child.ForksAgain?
    else BeforeCloexec(s.grandchild) || s.grandchild.CallsBack?
  }

  /** Each step on the way is taken by its own event. */
  predicate OneStep(s: State, e: Event, s': State) {
    && (BeforeSetsid(s.child) ==> e == SetsidWorks || BeforeSetsid(s'.child) || !OnTheWay(s'))
    && (s.grandchild.NoGrandchild? ==> e == SecondForkWorks || s'.grandchild.NoGrandchild?)
    && (s.grandchild.NoGrandchild? || s.grandchild.ClosesAll? ==>
          ClosesAllWorks(e) || s'.grandchild.NoGrandchild? || s'.grandchild.ClosesAll? || !OnTheWay(s'))
    && (BeforeChdir(s.grandchild) ==> e == ChdirWorks || BeforeChdir(s'.grandchild) || !OnTheWay(s'))
    && (BeforeCloexec(s.grandchild) ==> e == CloexecWorks || BeforeCloexec(s'.grandchild) || !OnTheWay(s'))
    && (OnTheWay(s') ==> OnTheWay(s) && OpensLeft(s.grandchild) == Opening(e) + OpensLeft(s'.grandchild))
  }

  lemma ParentStepsAside(s: State, e: Event)
    requires Inv(s) && Enabled(s, e) && ByParent(e)
    ensures OneStep(s, e, After(s, e))
  {
    hide Closed, OwingInv;
  }

  lemma ChildStepTowards(s: State, e: Event)
    requires Inv(s) && Enabled(s, e) && ByChild(e)
    ensures OneStep(s, e, After(s, e))
  {
    hide Closed, ParentInv;
  }

  lemma GrandchildStepTowards(s: State, e: Event)
    requires Inv(s) && Enabled(s, e) && !ByParent(e) && !ByChild(e)
    ensures OneStep(s, e, After(s, e))
  {
    hide Closed, ParentInv, OutcomeInv;
  }

  lemma StepTowardsCallback(s: State, e: Event)
    requires Inv(s) && Enabled(s, e)
    ensures OneStep(s, e, After(s, e))
  {
    hide Inv, Enabled, After, OneStep;
    if ByParent(e) {
      ParentStepsAside(s, e);
    } else if ByChild(e) {
      ChildStepTowards(s, e);
    } else {
      GrandchildStepTowards(s, e);
    }
  }

  lemma {:induction false} WayToCallback(s: State, es: seq<Event>, s': State)
    requires Inv(s) && Runs(s, es, s') && s'.grandchild.CallsBack?
    ensures OnTheWay(s) && Opens(es) == OpensLeft(s.grandchild)
    ensures BeforeSetsid(s.child) ==> SetsidWorks in es
    ensures s.grandchild.NoGrandchild? ==> SecondForkWorks in es
    ensures s.grandchild.NoGrandchild? || s.grandchild.ClosesAll? ==> exists e :: e in es && ClosesAllWorks(e)
    ensures BeforeChdir(s.grandchild) ==> ChdirWorks in es
    ensures BeforeCloexec(s.grandchild) ==> CloexecWorks in es
    decreases |es|
  {
    if es == [] {
      assert s.grandchild == s'.grandchild;
      CallbackHasChild(s);
    } else {
      hide Inv, Enabled, After;
      InvKept(s, es[0]);
      StepTowardsCallback(s, es[0]);
      WayToCallback(After(s, es[0]), es[1..], s');
      assert es == [es[0]] + es[1..];
    }
  }

  lemma CallbackHasChild(s: State)
    requires Inv(s) && s.grandchild.CallsBack?
    ensures !BeforeSetsid(s.child)
  {
  }

  /**
   * The callback is only called in a grandchild of a new session that has closed all inherited files without failure,
   * left for the root directory, tried exactly three times to open /dev/null, and marked the pipe.
   */
  lemma CallbackPrepared(s0: State, es: seq<Event>, s: State)
    requires Init(s0) && Runs(s0, es, s) && s.grandchild.CallsBack?
    ensures SetsidWorks in es && SecondForkWorks in es && ChdirWorks in es && CloexecWorks in es
    ensures (exists e :: e in es && e.CloseAllDone? && e.failures == []) && Opens(es) == 3
  {
    WayToCallback(s0, es, s);
  }

  /** At most one descendant writes a report, and only after a failure. */
  lemma AtMostOneReport(s0: State, es: seq<Event>, s: State)
    requires Init(s0) && Runs(s0, es, s)
    ensures Writes(es) <= 1 && (Writes(es) > 0 ==> FailingIn(es))
  {
    hide Enabled, After, Success, Failing;
    InvHolds(s0, es, s);
    HistoryIs(s0, es, s);
  }

  /** A failure is reported before the last write end closes, if the run is benign. */
  lemma ReportedBeforeEnd(s0: State, es: seq<Event>, s: State)
    requires Init(s0) && BenignRun(s0, es, s) && FailingIn(es) && !HoldsWriteEnd(s)
    ensures Deliveries(es) > 0
  {
    hide Enabled, After, Success, Failing;
    BenignRuns(s0, es, s);
    InvHolds(s0, es, s);
    HistoryIs(s0, es, s);
  }

  /** Until /dev/null is opened, no descendant that has come as far as setsid holds the read end. */
  lemma ReadEndClosed(s: State)
    requires Reachable(s) && !s.child.ChildClosesReadEnd? && (s.grandchild.ClosesAll? || s.grandchild.Chdir?)
    ensures s.r !in s.childFds && s.r !in s.grandchildFds
  {
    ReachableInv(s);
  }

  /** What the parent has open on the way, if fds is what it had open before. */
  predicate ParentHolds(s: State, fds: set<Fd>) {
    match s.parent
    case MakesPipe => s.parentFds == fds
    case Forks => s.parentFds == fds + {s.r, s.w} && s.r !in fds && s.w !in fds
    case ClosesWriteEnd => s.parentFds == fds + {s.r, s.w} && s.r !in fds && s.w !in fds && s.r != s.w
    case Reads => s.parentFds == fds + {s.r} && s.r !in fds
    case ClosesReadEnd(_) => s.parentFds == fds + {s.r} && s.r !in fds
    case Returned(_) => s.parentFds == fds
  }

  lemma ParentHoldsOn(s: State, e: Event, fds: set<Fd>)
    requires Inv(s) && Enabled(s, e) && ParentHolds(s, fds)
    ensures ParentHolds(After(s, e), fds)
  {
    hide Closed, OwingInv, OutcomeInv, HoldsWriteEnd;
  }

  lemma {:induction false} ParentLeaksNothing(s: State, es: seq<Event>, s': State, fds: set<Fd>)
    requires Inv(s) && ParentHolds(s, fds) && Runs(s, es, s')
    ensures ParentHolds(s', fds)
    decreases |es|
  {
    if es != [] {
      hide Inv, Enabled, After, ParentHolds;
      InvKept(s, es[0]);
      ParentHoldsOn(s, es[0], fds);
      ParentLeaksNothing(After(s, es[0]), es[1..], s', fds);
    }
  }

  /** The parent returns with exactly the descriptors open that were open when it was called. */
  lemma ParentLeavesNoPipe(s0: State, es: seq<Event>, s: State)
    requires Init(s0) && Runs(s0, es, s) && s.parent.Returned?
    ensures s.parentFds == s0.parentFds
  {
    ParentLeaksNothing(s0, es, s, s0.parentFds);
  }

  /** A waiting parent can go on as soon as no descendant owes anything and the exiting ones have gone. */
  lemma ParentNotStuck(s: State)
    requires Reachable(s) && s.parent.Reads?
    ensures s.pipe > 0 || Enabled(s, ReadsEnd) || Owes(s) || s.child.ChildExits? || s.grandchild.GrandchildExits?
  {
    ReachableInv(s);
  }

  function ChildRank(c: Child): nat {
    match c
    case NoChild => 0
    case ChildClosesReadEnd => 15
    case Setsid => 14
    case ForksAgain => 13
    case ChildReports => 12
    case ChildExits => 1
    case ChildGone => 0
  }

  function GrandchildRank(g: Grandchild): nat {
    match g
    case NoGrandchild => 0
    case ClosesAll => 11
    case Chdir => 10
    case OpensNull(left) => 5 + left
    case SetsCloexec => 5
    case CallsBack => 4
    case GrandchildReports => 3
    case GrandchildExits => 2
    case Executing => 1
    case GrandchildGone => 0
  }

  predicate ByDescendant(e: Event) {
    !ByParent(e)
  }

  /** Every step of a descendant uses up its rank, so the parent waits for boundedly many of them. */
  lemma DescendantsRunOut(s: State, e: Event)
    requires Inv(s) && Enabled(s, e) && ByDescendant(e)
    ensures var s' := After(s, e);
            (ChildRank(s'.child) + GrandchildRank(s'.grandchild) < ChildRank(s.child) + GrandchildRank(s.grandchild))
  {
    hide Closed, OutcomeInv, ParentInv;
  }

  function Rank(s: State): nat {
    ChildRank(s.child) + GrandchildRank(s.grandchild)
  }

  /** How many steps of the run are steps of a descendant. */
  function DescendantSteps(es: seq<Event>): nat {
    if es == [] then 0 else (if ByDescendant(es[0]) then 1 else 0) + DescendantSteps(es[1..])
  }

  /** While a forked parent reads, what it waits for comes after boundedly many steps of the descendants. */
  lemma {:induction false} StepsUseRank(s: State, es: seq<Event>, s': State)
    requires Inv(s) && Forked(s) && Runs(s, es, s')
    ensures Inv(s') && Forked(s') && Rank(s') + DescendantSteps(es) <= Rank(s)
    decreases |es|
  {
    if es != [] {
      var t := After(s, es[0]);
      InvKept(s, es[0]);
      ParentKeepsRank(s, es[0]);
      if ByDescendant(es[0]) {
        DescendantsRunOut(s, es[0]);
      }
      StepsUseRank(t, es[1..], s');
    }
  }

  lemma ParentKeepsRank(s: State, e: Event)
    requires Inv(s) && Forked(s) && Enabled(s, e)
    ensures Forked(After(s, e)) && (!ByDescendant(e) ==> Rank(After(s, e)) == Rank(s))
  {
    hide Closed;
  }

  /** A step that a descendant can take of its own accord, if it owes a report or is about to exit. */
  function OwnStep(s: State): Event {
    if s.child.ChildClosesReadEnd? then ChildClosesRead
    else if s.child.Setsid? then SetsidWorks
    else if s.child.ForksAgain? then SecondForkWorks
    else if s.child.ChildReports? then ChildWrites(4)
    else if s.child.ChildExits? then ChildExit
    else if s.grandchild.ClosesAll? then CloseAllDone(s.grandchildFds, [], 0)
    else if s.grandchild.Chdir? then ChdirWorks
    else if s.grandchild.OpensNull? then OpenNullFails
    else if s.grandchild.SetsCloexec? then CloexecWorks
    else if s.grandchild.CallsBack? then CallbackReturns(true)
    else if s.grandchild.GrandchildReports? then GrandchildWrites(4)
    else GrandchildExit
  }

  lemma DescendantCanStep(s: State)
    requires Inv(s) && (Owes(s) || s.child.ChildExits? || s.grandchild.GrandchildExits?)
    ensures ByDescendant(OwnStep(s)) && Enabled(s, OwnStep(s))
  {
  }

  /** Between them the descendants take at most fifteen steps. */
  lemma {:induction false} RankBound(s: State, es: seq<Event>, s': State)
    requires Inv(s) && (Forked(s) ==> Rank(s) <= 15) && Runs(s, es, s')
    ensures Forked(s') ==> Rank(s') <= 15
    decreases |es|
  {
    if es != [] {
      var e := es[0];
      InvKept(s, e);
      RankAfter(s, e);
      RankBound(After(s, e), es[1..], s');
    }
  }

  lemma RankAfter(s: State, e: Event)
    requires Inv(s) && Enabled(s, e) && (Forked(s) ==> Rank(s) <= 15)
    ensures Forked(After(s, e)) ==> Rank(After(s, e)) <= 15
  {
    if Forked(s) {
      ParentKeepsRank(s, e);
      if ByDescendant(e) {
        DescendantsRunOut(s, e);
      }
    } else {
      hide Closed;
    }
  }

  /**
   * A reading parent gets its answer: in every run from a reachable state, as long as it can read neither a byte nor
   * the end, a descendant has a step of its own to take; and after Rank(s) steps of descendants, at most fifteen, it
   * can read.
   */
  lemma ParentGetsAnswer(s: State, es: seq<Event>, s': State)
    requires Reachable(s) && Forked(s) && Runs(s, es, s') && s'.parent.Reads?
    ensures DescendantSteps(es) <= Rank(s) <= 15
    ensures Enabled(s', ReadsByte) || Enabled(s', ReadsEnd)
            || (ByDescendant(OwnStep(s')) && Enabled(s', OwnStep(s')))
    ensures DescendantSteps(es) == Rank(s) ==> Enabled(s', ReadsByte) || Enabled(s', ReadsEnd)
  {
    hide Inv, Enabled, After, ChildRank, GrandchildRank, OwnStep, ByDescendant;
    ReachableInv(s);
    ReachableRank(s);
    StepsUseRank(s, es, s');
    Waiting(s');
    if Owes(s') || s'.child.ChildExits? || s'.grandchild.GrandchildExits? {
      DescendantCanStep(s');
    }
  }

  lemma ReachableRank(s: State)
    requires Reachable(s) && Forked(s)
    ensures Rank(s) <= 15
  {
    var s0, es :| Init(s0) && Runs(s0, es, s);
    RankBound(s0, es, s);
  }

  lemma Waiting(s: State)
    requires Inv(s) && s.parent.Reads?
    ensures Enabled(s, ReadsByte) || Enabled(s, ReadsEnd) || Owes(s) || s.child.ChildExits?
            || s.grandchild.GrandchildExits?
    ensures Rank(s) == 0 ==> !Owes(s) && !s.child.ChildExits? && !s.grandchild.GrandchildExits?
  {
  }

  /**
   * A lost report misleads the parent: setsid fails, the child is killed before it reports, and the parent returns
   * true.
   */
  lemma LostReportMisleads(s0: State, r: Fd, w: Fd)
    requires Init(s0) && r != w && s0.parentFds == {}
    ensures exists es, s :: Runs(s0, es, s) && s.parent == Returned(true) && FailingIn(es) && !SuccessIn(es)
  {
    hide *;
    var es, s := LostRun(s0, r, w);
    ReturnsTrueIff(s0, es, s);
  }

  lemma LostRun(s0: State, r: Fd, w: Fd) returns (es: seq<Event>, s: State)
    requires Init(s0) && r != w && s0.parentFds == {}
    ensures Runs(s0, es, s) && s.parent == Returned(true) && s.outcome == Failed
  {
    var s1 := After(s0, PipeOpens(r, w));
    var s2 := After(s1, ForkWorks);
    var s3 := After(s2, ParentClosesWrite);
    es, s := LostReport(s3);
    hide Runs;
    Chain(s2, ParentClosesWrite, es, s);
    Chain(s1, ForkWorks, [ParentClosesWrite] + es, s);
    es := [ForkWorks] + ([ParentClosesWrite] + es);
    Chain(s0, PipeOpens(r, w), es, s);
    es := [PipeOpens(r, w)] + es;
  }

  lemma LostReport(s3: State) returns (es: seq<Event>, s: State)
    requires s3.parent.Reads? && s3.child.ChildClosesReadEnd? && s3.pipe == 0
    requires s3.w !in s3.parentFds && s3.grandchildFds == {}
    ensures Runs(s3, es, s) && s.parent == Returned(true) && s.outcome == Failed
  {
    var s4 := After(s3, ChildClosesRead);
    var s5 := After(s4, SetsidFails);
    var s6 := After(s5, ChildKilled);
    var s7 := After(s6, ReadsEnd);
    s := After(s7, ParentClosesRead);
    es := [ParentClosesRead];
    Chain(s7, ParentClosesRead, [], s);
    Chain(s6, ReadsEnd, es, s);
    es := [ReadsEnd] + es;
    Chain(s5, ChildKilled, es, s);
    es := [ChildKilled] + es;
    Chain(s4, SetsidFails, es, s);
    es := [SetsidFails] + es;
    Chain(s3, ChildClosesRead, es, s);
    es := [ChildClosesRead] + es;
  }

  lemma Chain(s: State, e: Event, es: seq<Event>, s': State)
    requires Enabled(s, e) && Runs(After(s, e), es, s')
    ensures Runs(s, [e] + es, s')
  {
  }
}
