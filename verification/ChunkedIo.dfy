/**
 ArchPRead and ArchPWrite (pxr/base/arch/fileSystem.cpp, the POSIX branches): whole transfers made out of
 pread and pwrite calls of at most INT_MAX bytes each, which the operating system may cut short, interrupt
 or fail as it likes.
*/
module ChunkedIo {
  import opened Basics

  function Min(x: int, y: int): int {
    if x < y then x else y
  }

  /** How many bytes of the file lie at or after offset. */
  function Available(contents: seq<Byte>, offset: int): nat
    requires offset >= 0
  {
    if offset < |contents| then |contents| - offset else 0
  }

  /** The file in front of offset; a gap is filled with zeros. */
  function Head(contents: seq<Byte>, offset: nat): (h: seq<Byte>)
    ensures |h| == offset
  {
    if offset <= |contents| then contents[..offset] else contents + seq(offset - |contents|, _ => 0)
  }

  function Tail(contents: seq<Byte>, end: nat): seq<Byte> {
    if end <= |contents| then contents[end..] else []
  }

  /** The file after bs has been written at offset. */
  function Written(contents: seq<Byte>, offset: nat, bs: seq<Byte>): seq<Byte> {
    if bs == [] then contents else Head(contents, offset) + bs + Tail(contents, offset + |bs|)
  }

  /** Byte by byte: the written ones in their place, zeros in a gap, all others as they were, and none cut off. */
  lemma WrittenBytes(contents: seq<Byte>, offset: nat, bs: seq<Byte>)
    ensures (var w, end := Written(contents, offset, bs), offset + |bs|;
             && |w| == (if bs == [] || end <= |contents| then |contents| else end)
             && (forall i :: offset <= i < end ==> w[i] == bs[i - offset])
             && (forall i :: 0 <= i < |w| && !(offset <= i < end) ==>
                   w[i] == if i < |contents| then contents[i] else 0))
  {
    if bs != [] {
      var h, t := Head(contents, offset), Tail(contents, offset + |bs|);
      assert forall i :: offset <= i < offset + |bs| ==> (h + bs + t)[i] == bs[i - offset];
    }
  }

  /** Two adjacent writes are one. */
  lemma WrittenTwice(contents: seq<Byte>, offset: nat, a: seq<Byte>, b: seq<Byte>)
    ensures Written(Written(contents, offset, a), offset + |a|, b) == Written(contents, offset, a + b)
  {
    hide Written, Head, Tail;
    WrittenIs(contents, offset, a);
    WrittenIs(Written(contents, offset, a), offset + |a|, b);
    WrittenIs(contents, offset, a + b);
    if a == [] {
      assert a + b == b;
    } else if b == [] {
      assert a + b == a;
    } else {
      var h, t := Head(contents, offset), Tail(contents, offset + |a|);
      HeadOf(h + a, t);
      TailOf(h + a, t, |b|);
      TailTwice(contents, offset + |a|, |b|);
      Assoc(h, a, b);
    }
  }

  lemma WrittenIs(contents: seq<Byte>, offset: nat, bs: seq<Byte>)
    ensures Written(contents, offset, bs)
         == if bs == [] then contents else Head(contents, offset) + bs + Tail(contents, offset + |bs|)
  {
  }

  lemma Assoc(x: seq<Byte>, y: seq<Byte>, z: seq<Byte>)
    ensures (x + y) + z == x + (y + z)
  {
  }

  lemma HeadOf(x: seq<Byte>, t: seq<Byte>)
    ensures Head(x + t, |x|) == x
  {
  }

  lemma TailOf(x: seq<Byte>, t: seq<Byte>, n: nat)
    ensures Tail(x + t, |x| + n) == Tail(t, n)
  {
  }

  lemma TailTwice(contents: seq<Byte>, end: nat, n: nat)
    ensures Tail(Tail(contents, end), n) == Tail(contents, end + n)
  {
  }

  /** Writing n bytes of a chunk behind the first `at` bytes makes the first at + n bytes written. */
  lemma OnePart(contents: seq<Byte>, offset: nat, bytes: seq<Byte>, at: nat, chunk: nat, n: nat)
    requires at + chunk <= |bytes| && n <= chunk
    ensures Written(Written(contents, offset, bytes[..at]), offset + at, bytes[at..at + chunk][..n])
         == Written(contents, offset, bytes[..at + n])
    ensures at == 0 ==> Written(contents, offset, bytes[..0]) == contents
  {
    hide Written;
    WrittenTwice(contents, offset, bytes[..at], bytes[at..at + chunk][..n]);
    Joined(bytes, at, chunk, n);
    WrittenIs(contents, offset, bytes[..0]);
  }

  lemma Joined(bytes: seq<Byte>, at: nat, chunk: nat, n: nat)
    requires at + chunk <= |bytes| && n <= chunk
    ensures bytes[..at] + bytes[at..at + chunk][..n] == bytes[..at + n]
  {
  }

  /** A file, the errno of the thread using it, and how often its calls will still be interrupted. */
  class File {
    var contents: seq<Byte>
    var errno: int
    var interrupts: nat

    constructor (contents: seq<Byte>, interrupts: nat)
      ensures this.contents == contents && this.interrupts == interrupts
    {
      this.contents, this.errno, this.interrupts := contents, 0, interrupts;
    }

    /** pread(2) into buffer[at..]: any count from 1 up to what was asked for and is there, or an error. */
    method Pread(buffer: array<Byte>, at: nat, chunk: int, offset: int) returns (n: int)
      requires 0 <= chunk <= 0x7fff_ffff && at + chunk <= buffer.Length
      modifies this, buffer
      ensures contents == old(contents) && interrupts <= old(interrupts)
      ensures n == -1 && errno == EINTR ==> interrupts < old(interrupts)
      ensures offset < 0 ==> n == -1 && errno == EINVAL
      ensures n == -1 || (0 <= n <= Min(chunk, Available(contents, offset))
                          && (n == 0 ==> chunk == 0 || Available(contents, offset) == 0))
      ensures n > 0 ==> offset >= 0 && offset + n <= |contents| && buffer[at..at + n] == contents[offset..offset + n]
      ensures forall i :: 0 <= i < buffer.Length && !(at <= i < at + n) ==> buffer[i] == old(buffer[i])
    {
      if offset < 0 {
        errno := EINVAL;
        return -1;
      }
      var interrupted: bool := *;
      if interrupted && interrupts > 0 {
        interrupts, errno := interrupts - 1, EINTR;
        return -1;
      }
      var code: int := *;
      if code != 0 && code != EINTR {
        errno := code;
        return -1;
      }
      var most := Min(chunk, Available(contents, offset));
      n := *;
      if n < 1 || n > most {
        n := most;
      }
      forall i | at <= i < at + n {
        buffer[i] := contents[offset + (i - at)];
      }
    }

    /** One pread further into the buffer, of which the first `at` bytes have come from offset on. */
    method ReadChunk(buffer: array<Byte>, ghost before: seq<Byte>, offset: int, at: nat, chunk: int) returns (n: int)
      requires 0 <= chunk <= 0x7fff_ffff && at + chunk <= buffer.Length
      requires Transferred(buffer[..], before, contents, offset, at)
      modifies this, buffer
      ensures contents == old(contents) && interrupts <= old(interrupts)
      ensures n == -1 && errno == EINTR ==> interrupts < old(interrupts)
      ensures offset + at < 0 ==> n == -1 && errno == EINVAL
      ensures n == -1 || (0 <= n <= Min(chunk, Available(contents, offset + at))
                          && (n == 0 ==> chunk == 0 || Available(contents, offset + at) == 0))
      ensures Transferred(buffer[..], before, contents, offset, at + if n == -1 then 0 else n)
    {
      ghost var b := buffer[..];
      n := Pread(buffer, at, chunk, offset + at);
      Extended(b, buffer[..], before, contents, offset, at, if n == -1 then 0 else n);
    }

    /** pwrite(2): at least one byte of a non-empty request is written, or there is an error. */
    method Pwrite(bytes: seq<Byte>, offset: nat) returns (n: int)
      requires |bytes| <= 0x7fff_ffff
      modifies this
      ensures n == -1 || (0 <= n <= |bytes| && (n == 0 ==> bytes == []))
      ensures contents == Written(old(contents), offset, if n == -1 then [] else bytes[..n])
    {
      var code: int := *;
      if code != 0 {
        errno := code;
        return -1;
      }
      n := *;
      if n < 1 || n > |bytes| {
        n := |bytes|;
      }
      contents := Written(contents, offset, bytes[..n]);
    }

    /**
     Reads count bytes, or as many as there are before the end of the file. The first r bytes of the buffer
     are then the file's; nothing beyond them is touched. -1 comes only with an error other than EINTR.
    */
    method ArchPRead(buffer: array<Byte>, count: nat, offset: int) returns (r: int)
      requires count <= buffer.Length && count < 0x8000_0000_0000_0000
      modifies this, buffer
      ensures contents == old(contents)
      ensures r == -1 ==> errno != EINTR
      ensures offset < 0 ==> r == -1
      ensures r == -1 || (r == if offset >= |contents| then 0
                               else if offset + count <= |contents| then count else |contents| - offset)
      ensures r != -1 ==> Transferred(buffer[..], old(buffer[..]), contents, offset, r)
      ensures r == -1 ==>
                exists k :: 0 <= k <= count && (k == count ==> count == 0)
                            && Transferred(buffer[..], old(buffer[..]), contents, offset, k)
    {
      hide Transferred;
      NothingYet(buffer[..], contents, offset);
      var signedCount: int := count;
      var chunkSize := Min(signedCount, INT_MAX);
      var nread := ReadChunk(buffer, old(buffer[..]), offset, 0, chunkSize);
      if nread == signedCount || nread == 0 {
        return nread;
      }
      // Track a total and retry until everything is read, or the end or an error is hit.
      var total := 0;
      while nread != -1 || (nread == -1 && errno == EINTR)
        invariant total + signedCount == count && 0 <= total && 0 <= signedCount && (signedCount == 0 ==> count == 0)
        invariant chunkSize == Min(signedCount, INT_MAX)
        invariant contents == old(contents)
        invariant offset >= 0 || (nread == -1 && errno == EINVAL)
        invariant nread == -1 || 0 < nread < signedCount
        invariant Transferred(buffer[..], old(buffer[..]), contents, offset, total + if nread == -1 then 0 else nread)
        decreases interrupts + (if nread == -1 && errno == EINTR then 1 else 0), signedCount
      {
        if nread > 0 {
          total := total + nread;
          signedCount := signedCount - nread;
          chunkSize := Min(signedCount, INT_MAX);
        }
        // offset and buffer have moved on by total.
        nread := ReadChunk(buffer, old(buffer[..]), offset, total, chunkSize);
        if nread == signedCount || nread == 0 {
          return total + nread;
        }
      }
      return -1;
    }

    /** Writes all of bytes and returns their number, or returns -1 having written some opening part of them. */
    method ArchPWrite(bytes: seq<Byte>, offset: int) returns (r: int)
      requires |bytes| < 0x8000_0000_0000_0000
      modifies this
      ensures r == |bytes| || r == -1
      ensures offset < 0 ==> r == -1 && contents == old(contents)
      ensures offset >= 0 && r != -1 ==> contents == Written(old(contents), offset, bytes)
      ensures offset >= 0 && r == -1 ==>
                exists k :: 0 <= k <= |bytes| && (k == |bytes| ==> bytes == [])
                            && contents == Written(old(contents), offset, bytes[..k])
    {
      hide Written;
      if offset < 0 {
        return -1;
      }
      var signedCount: int, at, to: nat := |bytes|, 0, offset;
      var chunkSize := Min(signedCount, INT_MAX);
      var nwritten := Pwrite(bytes[..chunkSize], to);
      ghost var part: nat := if nwritten == -1 then 0 else nwritten;
      OnePart(old(contents), offset, bytes, 0, chunkSize, part);
      if nwritten == signedCount {
        assert bytes[..part] == bytes;
        return nwritten;
      }
      // Track a total and retry until everything is written or an error is hit.
      var total := 0;
      while nwritten != -1
        invariant total + signedCount == |bytes| && total == at && to == offset + total && 0 <= total
        invariant nwritten == -1 || 0 < nwritten < signedCount
        invariant nwritten == -1 ==> 0 < signedCount || bytes == []
        invariant part == total + (if nwritten == -1 then 0 else nwritten) && part <= |bytes|
        invariant contents == Written(old(contents), offset, bytes[..part])
        decreases nwritten != -1, signedCount
      {
        total := total + nwritten;
        signedCount := signedCount - nwritten;
        chunkSize := Min(signedCount, INT_MAX);
        to := to + nwritten;
        at := at + nwritten;
        nwritten := Pwrite(bytes[at..at + chunkSize], to);
        part := total + if nwritten == -1 then 0 else nwritten;
        OnePart(old(contents), offset, bytes, at, chunkSize, part - at);
        if nwritten == signedCount {
          assert bytes[..part] == bytes;
          return total + nwritten;
        }
      }
      return -1;
    }
  }

  /** The first k bytes of the buffer have come from the file, the others are as before. */
  ghost predicate Transferred(buffer: seq<Byte>, before: seq<Byte>, contents: seq<Byte>, offset: int, k: nat) {
    && |buffer| == |before| && k <= |buffer|
    && (k > 0 ==> 0 <= offset && offset + k <= |contents|)
    && (forall i :: 0 <= i < k ==> buffer[i] == contents[offset + i])
    && (forall i :: k <= i < |buffer| ==> buffer[i] == before[i])
  }

  lemma NothingYet(buffer: seq<Byte>, contents: seq<Byte>, offset: int)
    ensures Transferred(buffer, buffer, contents, offset, 0)
  {
  }

  lemma Extended(b1: seq<Byte>, b2: seq<Byte>, before: seq<Byte>, contents: seq<Byte>, offset: int, k: nat, n: nat)
    requires Transferred(b1, before, contents, offset, k)
    requires |b2| == |b1| && k + n <= |b2|
    requires n > 0 ==>
               0 <= offset && offset + k + n <= |contents| && b2[k..k + n] == contents[offset + k..offset + k + n]
    requires forall i :: 0 <= i < |b2| && !(k <= i < k + n) ==> b2[i] == b1[i]
    ensures Transferred(b2, before, contents, offset, k + n)
  {
    forall i | 0 <= i < k + n
      ensures b2[i] == contents[offset + i]
    {
      if i >= k {
        assert b2[i] == b2[k..k + n][i - k];
      }
    }
  }
}
