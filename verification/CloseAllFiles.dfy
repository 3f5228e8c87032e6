/**
 ArchCloseAllFiles (pxr/base/arch/daemon.cpp): every descriptor below a limit is closed, except the
 listed ones. The operating system answers each close as it likes, within what POSIX allows.
*/
module CloseAllFiles {
  import opened Basics

  type Fd = nat

  // ---------- the limit ----------

  const RLIM_INFINITY: nat := 0xffff_ffff_ffff_ffff
  const NOFILE: int := 256

  /** A 64-bit limit cast to a 32-bit int. */
  function ToInt(x: nat): int {
    var low := x % 0x1_0000_0000;
    if low < 0x8000_0000 then low else low - 0x1_0000_0000
  }

  function MaxFd(limit: nat): int {
    if limit == RLIM_INFINITY then NOFILE else ToInt(limit)
  }

  // ---------- what a call may do ----------

  /** A close that failed with a real error, neither EINTR nor EBADF. */
  datatype Failure = Failure(fd: Fd, errno: int)

  predicate InRange(fd: Fd, maxfd: int, except: seq<int>) {
    fd < maxfd && fd !in except
  }

  /** Descriptors outside the range keep their state; in the range, only failures can still be open. */
  ghost predicate Closed(before: set<Fd>, after: set<Fd>, maxfd: int, except: seq<int>, failures: seq<Failure>) {
    && after <= before
    && (forall fd :: fd in before && !InRange(fd, maxfd, except) ==> fd in after)
    && (forall fd :: fd in after && InRange(fd, maxfd, except) ==> exists f :: f in failures && f.fd == fd)
    && (forall f :: f in failures ==> InRange(f.fd, maxfd, except))
  }

  /** A process's open descriptors, its errno, and how often its calls will still be interrupted. */
  class Process {
    var open: set<Fd>
    var errno: int
    var interrupts: nat
    ghost var failures: seq<Failure>

    constructor (open: set<Fd>, interrupts: nat)
      ensures this.open == open && failures == []
    {
      this.open, this.errno, this.interrupts := open, 0, interrupts;
      failures := [];
    }

    /** close(2): a descriptor may or may not survive an interrupted or failed close. */
    method Close(fd: Fd) returns (status: int)
      modifies this
      ensures status == 0 || status == -1
      ensures open <= old(open) && old(open) - {fd} <= open
      ensures status == 0 ==> fd !in open && interrupts == old(interrupts) && errno == old(errno)
      ensures status == -1 && errno == EINTR ==> interrupts < old(interrupts)
      ensures status == -1 && errno == EBADF ==> fd !in open
      ensures interrupts <= old(interrupts)
      ensures failures == if status == -1 && errno != EINTR && errno != EBADF
                          then old(failures) + [Failure(fd, errno)] else old(failures)
    {
      if fd !in open {
        errno := EBADF;
        return -1;
      }
      var closes: bool := *;
      if closes {
        open := open - {fd};
      }
      var interrupted: bool := *;
      if interrupted && interrupts > 0 {
        interrupts := interrupts - 1;
        errno := EINTR;
        return -1;
      }
      var code: int := *;
      if code != 0 && code != EINTR && code != EBADF {
        errno := code;
        failures := failures + [Failure(fd, code)];
        return -1;
      }
      open := open - {fd};
      return 0;
    }

    /** Closes fd, again if interrupted; the status is 0, or -1 with errno EBADF or a real error. */
    method CloseRetrying(fd: Fd) returns (status: int)
      modifies this
      ensures status == 0 || (status == -1 && errno != EINTR)
      ensures open <= old(open) && old(open) - {fd} <= open
      ensures status == 0 || errno == EBADF ==> fd !in open && failures == old(failures)
      ensures status != 0 && errno != EBADF ==> failures == old(failures) + [Failure(fd, errno)]
    {
      errno := 0;
      status := Close(fd);
      while status != 0 && errno == EINTR
        invariant status == 0 || status == -1
        invariant open <= old(open) && old(open) - {fd} <= open
        invariant status == 0 ==> errno == 0
        invariant status == 0 || errno == EBADF ==> fd !in open
        invariant failures == if status == -1 && errno != EINTR && errno != EBADF
                              then old(failures) + [Failure(fd, errno)] else old(failures)
        decreases interrupts, status != 0 && errno == EINTR
      {
        errno := 0;
        status := Close(fd);
      }
    }

    /** The status is 0 exactly if no close failed with a real error; errno is then 0, else the last such error. */
    method ArchCloseAllFiles(exceptFds: seq<int>, limit: nat) returns (retStatus: int)
      modifies this
      ensures old(failures) <= failures
      ensures var failed := failures[|old(failures)|..];
              && Closed(old(open), open, MaxFd(limit), exceptFds, failed)
              && retStatus == (if failed == [] then 0 else -1)
              && errno == (if failed == [] then 0 else failed[|failed| - 1].errno)
              && (failed == [] && limit < 0x8000_0000 ==>
                    open == set fd | fd in old(open) && (fd >= limit || fd in exceptFds))
              && (failed == [] && limit == 0xffff_ffff_ffff_ffff ==>
                    open == set fd | fd in old(open) && (fd >= 256 || fd in exceptFds))
    {
      var maxfd := MaxFd(limit);

      // The largest descriptor in exceptFds.
      var maxExcept := -1;
      for i := 0 to |exceptFds|
        invariant forall j :: 0 <= j < i ==> exceptFds[j] <= maxExcept
      {
        if maxExcept < exceptFds[i] {
          maxExcept := exceptFds[i];
        }
      }

      retStatus := 0;
      var retErrno := 0;
      ghost var failed: seq<Failure> := [];
      var i := 0;
      while i < maxfd
        invariant 0 <= i && (i <= maxfd || i == 0)
        invariant failures == old(failures) + failed
        invariant Closed(old(open), open, i, exceptFds, failed)
        invariant retStatus == if failed == [] then 0 else -1
        invariant retErrno == if failed == [] then 0 else failed[|failed| - 1].errno
      {
        var skip := false;
        if i <= maxExcept {
          skip := Listed(exceptFds, i);
        }
        if !skip {
          ghost var before := open;
          var status := CloseRetrying(i);
          if status != 0 && errno != EBADF {
            retStatus := status;
            retErrno := errno;
            failed := failed + [Failure(i, errno)];
          }
        }
        i := i + 1;
      }
      errno := retErrno;
      assert failures[|old(failures)|..] == failed;
      if failed == [] && limit < 0x8000_0000 {
        OrdinaryLimit(old(open), open, limit, exceptFds);
      } else if failed == [] && limit == RLIM_INFINITY {
        UnlimitedLeavesOpen(old(open), open, exceptFds);
      }
    }
  }

  /** The inner search for i in exceptFds. */
  method Listed(exceptFds: seq<int>, i: int) returns (found: bool)
    ensures found <==> i in exceptFds
  {
    var j := 0;
    while j != |exceptFds|
      invariant 0 <= j <= |exceptFds| && i !in exceptFds[..j]
    {
      if exceptFds[j] == i {
        return true;
      }
      j := j + 1;
    }
    return false;
  }

  /** With no real error, what stays open is exactly what was out of range. */
  lemma ClosedExactly(before: set<Fd>, after: set<Fd>, maxfd: int, except: seq<int>)
    requires Closed(before, after, maxfd, except, [])
    ensures after == set fd | fd in before && !InRange(fd, maxfd, except)
  {
  }

  /** Without failures, under an ordinary limit: what is at or above it stays open, and what is listed. */
  lemma OrdinaryLimit(before: set<Fd>, after: set<Fd>, limit: nat, except: seq<int>)
    requires limit < 0x8000_0000 && Closed(before, after, MaxFd(limit), except, [])
    ensures after == set fd | fd in before && (fd >= limit || fd in except)
  {
    ClosedExactly(before, after, MaxFd(limit), except);
  }

  /** Every unlisted descriptor is closed iff none is at or above the limit. */
  lemma ClosesAllIff(before: set<Fd>, after: set<Fd>, limit: nat, except: seq<int>)
    requires limit < 0x8000_0000 && Closed(before, after, MaxFd(limit), except, [])
    ensures (forall fd :: fd in after ==> fd in except)
            <==> (forall fd :: fd in before && fd !in except ==> fd < limit)
  {
    OrdinaryLimit(before, after, limit, except);
  }

  /** A descriptor opened before the limit was lowered, say, and not below it now, stays open. */
  lemma AboveLimitStaysOpen(before: set<Fd>, after: set<Fd>, limit: nat, except: seq<int>, failures: seq<Failure>,
                            fd: Fd)
    requires Closed(before, after, MaxFd(limit), except, failures) && fd in before && fd >= limit
    ensures fd in after
  {
  }

  /** Without a limit, exactly the first 256 descriptors are closed, but for the listed ones. */
  lemma UnlimitedLeavesOpen(before: set<Fd>, after: set<Fd>, except: seq<int>)
    requires Closed(before, after, MaxFd(0xffff_ffff_ffff_ffff), except, [])
    ensures after == set fd | fd in before && (fd >= 256 || fd in except)
  {
    ClosedExactly(before, after, NOFILE, except);
  }

  /** A limit that does not fit an int can leave everything open, with success reported. */
  lemma WideLimitClosesNothing(before: set<Fd>, after: set<Fd>, limit: nat, except: seq<int>)
    requires 0x8000_0000 <= limit < 0x1_0000_0000
    requires Closed(before, after, MaxFd(limit), except, [])
    ensures after == before
  {
    ClosedExactly(before, after, MaxFd(limit), except);
  }

  /** Of a wider one only the low 32 bits count. */
  lemma WiderLimit(before: set<Fd>, after: set<Fd>, limit: nat, except: seq<int>)
    requires 0x1_0000_0000 <= limit < 0xffff_ffff_ffff_ffff && limit % 0x1_0000_0000 < 0x8000_0000
    requires Closed(before, after, MaxFd(limit), except, [])
    ensures after == set fd | fd in before && (fd >= limit % 0x1_0000_0000 || fd in except)
  {
    ClosedExactly(before, after, MaxFd(limit), except);
  }
}
