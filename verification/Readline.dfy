/** The three readline functions: lib/readline1.c (a byte per read), lib/readline.c (one static
    buffer) and threads/readline.c (a buffer per thread). */
module Readline {
  import opened Bytes
  import opened Streams

  /** What a call leaves behind: the return value and errno, the bytes stored, whether a terminating
      0 follows them, and the stream that later calls will see. */
  datatype Outcome = Outcome(ret: int, errno: Option<nat>, stored: seq<Byte>, terminated: bool, rest: seq<Event>)

  /** The reference: one event at a time, interruptions skipped. `stored` is what the call has
      already put into the caller's buffer. */
  function Line(stream: seq<Event>, maxlen: nat, stored: seq<Byte>): Outcome
    decreases |stream|
  {
    if |stored| + 1 >= maxlen then Outcome(|stored| + 1, None, stored, true, stream)
    else if stream == [] then Outcome(|stored|, None, stored, true, [])
    else match stream[0]
      case Data(b) =>
        if b == NEWLINE then Outcome(|stored| + 1, None, stored + [b], true, stream[1..])
        else Line(stream[1..], maxlen, stored + [b])
      case Intr => Line(stream[1..], maxlen, stored)
      case Fault(c) => Outcome(-1, Some(c), stored, false, stream[1..])
      case Eof => Outcome(|stored|, None, stored, true, stream[1..])
  }

  /** The bytes among some events. */
  function DataOf(evs: seq<Event>): seq<Byte> {
    if evs == [] then []
    else (if evs[0].Data? then [evs[0].b] else []) + DataOf(evs[1..])
  }

  /** How a call ended. */
  datatype Ending = AtNewline | Truncated | AtEof | OutOfStream | AtFault(code: nat)

  /** What a line is, without the loop: `used` is the prefix of the stream that the call consumes.
      Its bytes and no others are stored, it goes to the first newline and no further, and the return
      value tells how it ended. On truncation that is `maxlen`, although maxlen-1 bytes are stored. */
  ghost predicate IsLine(stream: seq<Event>, maxlen: nat, stored: seq<Byte>, o: Outcome, used: seq<Event>,
                         ending: Ending) {
    && stream == used + o.rest
    && o.stored == stored + DataOf(used)
    && |o.stored| <= maxlen - 1
    && (forall i :: 0 <= i < |used| - 1 ==> used[i].Intr? || (used[i].Data? && used[i].b != NEWLINE))
    && o.errno == (if ending.AtFault? then Some(ending.code) else None)
    && o.terminated == !ending.AtFault?
    && match ending
       case AtNewline => used != [] && used[|used| - 1] == Data(NEWLINE) && o.ret == |o.stored|
       case Truncated => |o.stored| == maxlen - 1
           && (used == [] || (used[|used| - 1].Data? && used[|used| - 1].b != NEWLINE))
                         && o.ret == maxlen
       case AtEof => |o.stored| < maxlen - 1 && used != [] && used[|used| - 1] == Eof && o.ret == |o.stored|
       case OutOfStream => |o.stored| < maxlen - 1 && o.rest == [] && o.ret == |o.stored|
                           && (used == [] || used[|used| - 1].Intr?
                              || (used[|used| - 1].Data? && used[|used| - 1].b != NEWLINE))
       case AtFault(c) => |o.stored| < maxlen - 1 && used != [] && used[|used| - 1] == Fault(c) && o.ret == -1
  }

  /** The reference satisfies that description ... */
  lemma {:induction false} LineIsLine(stream: seq<Event>, maxlen: nat, stored: seq<Byte>)
      returns (used: seq<Event>, ending: Ending)
    requires |stored| + 1 <= maxlen
    ensures IsLine(stream, maxlen, stored, Line(stream, maxlen, stored), used, ending)
    decreases |stream|
  {
    if |stored| + 1 >= maxlen || stream == [] {
      used, ending := [], if |stored| + 1 >= maxlen then Truncated else OutOfStream;
      assert stored + DataOf(used) == stored;
    } else if stream[0].Intr? || (stream[0].Data? && stream[0].b != NEWLINE) {
      var more := if stream[0].Data? then [stream[0].b] else [];
      assert stored + [] == stored;
      used, ending := LineIsLine(stream[1..], maxlen, stored + more);
      var whole := [stream[0]] + used;
      assert whole[1..] == used;
      assert DataOf(whole) == more + DataOf(used);
      used := whole;
    } else {
      used := [stream[0]];
      assert used[1..] == [];
      assert DataOf(used) == (if stream[0].Data? then [stream[0].b] else []) + DataOf(used[1..]);
      ending := if stream[0].Data? then AtNewline else if stream[0].Eof? then AtEof else AtFault(stream[0].code);
    }
  }

  /** ... and is the only outcome that does. */
  lemma {:induction false} LineIsUnique(stream: seq<Event>, maxlen: nat, stored: seq<Byte>, o: Outcome,
                                        used: seq<Event>, ending: Ending)
    requires |stored| + 1 <= maxlen
    requires IsLine(stream, maxlen, stored, o, used, ending)
    ensures o == Line(stream, maxlen, stored)
    decreases |stream|
  {
    if used == [] {
      assert stored + DataOf(used) == stored;
      assert stream == o.rest;
    } else {
      assert stream[0] == used[0];
      var more := if used[0].Data? then [used[0].b] else [];
      assert DataOf(used) == more + DataOf(used[1..]);
      if |used| > 1 || used[0].Intr? || (used[0].Data? && used[0].b != NEWLINE) {
        assert stream[1..] == used[1..] + o.rest;
        assert stored + DataOf(used) == (stored + more) + DataOf(used[1..]);
        assert forall i :: 0 <= i < |used[1..]| ==> used[1..][i] == used[i + 1];
        if |used| > 1 { assert used[1..][|used[1..]| - 1] == used[|used| - 1]; }
        assert stored + more == if used[0].Data? then stored + [used[0].b] else stored;
        LineIsUnique(stream[1..], maxlen, stored + more, o, used[1..], ending);
      } else {
        assert used[1..] == [];
        assert stream[1..] == o.rest;
      }
    }
  }

  /** Only the abstract stream matters, and interruptions at its head do not. */
  function Skip(stream: seq<Event>): seq<Event> {
    if stream != [] && stream[0].Intr? then Skip(stream[1..]) else stream
  }

  lemma {:induction false} LineSkips(stream: seq<Event>, maxlen: nat, stored: seq<Byte>)
    requires |stored| + 1 < maxlen
    ensures Line(stream, maxlen, stored) == Line(Skip(stream), maxlen, stored)
  {
    if stream == [] || !stream[0].Intr? {
    } else {
      LineSkips(stream[1..], maxlen, stored);
    }
  }

  /** One byte, or the end, or an error, taken from a stream after any interruptions. */
  ghost predicate Takes(before: seq<Event>, rc: int, errno: Errno, c: Byte, after: seq<Event>) {
    var s := Skip(before);
    if s == [] then rc == 0 && after == []
    else
      && after == s[1..]
      && match s[0]
         case Data(b) => rc == 1 && c == b
         case Eof => rc == 0
         case Fault(k) => rc == -1 && errno == EOTHER(k)
         case Intr => false
  }

  /** What one more byte, or none, means for the line `o` that has `stored` so far. */
  ghost predicate LineGoes(o: Outcome, maxlen: nat, stored: seq<Byte>, rc: int, errno: Errno, c: Byte,
                           after: seq<Event>) {
    if rc == 1 then
      o == if c == NEWLINE then Outcome(|stored| + 1, None, stored + [c], true, after)
           else Line(after, maxlen, stored + [c])
    else if rc == 0 then o == Outcome(|stored|, None, stored, true, after)
    else errno.EOTHER? && o == Outcome(-1, Some(errno.code), stored, false, after)
  }

  lemma LineStep(before: seq<Event>, maxlen: nat, stored: seq<Byte>, rc: int, errno: Errno, c: Byte, after: seq<Event>)
    requires |stored| + 1 < maxlen && Takes(before, rc, errno, c, after)
    ensures LineGoes(Line(before, maxlen, stored), maxlen, stored, rc, errno, c, after)
  {
    LineSkips(before, maxlen, stored);
  }

  /** What a read retried after EINTR has got so far, given the stream before the first try. */
  ghost predicate HasRead(start: seq<Event>, n: int, errno: Errno, got: seq<Byte>, after: seq<Event>) {
    if n < 0 && errno == EINTR then Skip(start) == Skip(after)
    else if n > 0 then n == |got| && Skip(start) == Events(got) + after
    else Takes(start, n, errno, NUL, after)
  }

  lemma ReadAgain(start: seq<Event>, before: seq<Event>, max: nat, n: int, errno: Errno, got: seq<Byte>,
                  after: seq<Event>)
    requires Skip(start) == Skip(before) && ReadOutcome(before, max, n, errno, got, after)
    ensures HasRead(start, n, errno, got, after)
  {
  }

  /** How an outcome shows in the caller's buffer. */
  ghost predicate Stored(o: Outcome, before: seq<Byte>, after: seq<Byte>) {
    && |after| == |before| && |o.stored| + (if o.terminated then 1 else 0) <= |before|
    && after[..|o.stored|] == o.stored
    && (o.terminated ==> after[|o.stored|] == NUL)
    && forall i :: |o.stored| + (if o.terminated then 1 else 0) <= i < |before| ==> after[i] == before[i]
  }

  /** Only the first `n` bytes of the buffer are new. */
  ghost predicate Pending(before: seq<Byte>, now: seq<Byte>, n: nat) {
    |now| == |before| && n <= |now| && now[n..] == before[n..]
  }

  /** *ptr++ = c. */
  method PutByte(vptr: array<Byte>, ptr: nat, c: Byte, ghost before: seq<Byte>)
    requires ptr < vptr.Length && Pending(before, vptr[..], ptr)
    modifies vptr
    ensures Pending(before, vptr[..], ptr + 1) && vptr[..ptr + 1] == old(vptr[..ptr]) + [c]
  {
    Tails(before, vptr[..], ptr);
    vptr[ptr] := c;
  }

  /** Lines 36 and 37 of lib/readline1.c: the 0 behind the line. */
  method Terminate(vptr: array<Byte>, ptr: nat, ghost o: Outcome, ghost before: seq<Byte>)
    requires ptr < vptr.Length && Pending(before, vptr[..], ptr) && vptr[..ptr] == o.stored && o.terminated
    modifies vptr
    ensures Stored(o, before, vptr[..])
  {
    Tails(before, vptr[..], ptr);
    vptr[ptr] := NUL;
  }

  lemma Tails(before: seq<Byte>, now: seq<Byte>, n: nat)
    requires Pending(before, now, n)
    ensures forall i :: n <= i < |now| ==> now[i] == before[i]
  {
    assert forall i :: n <= i < |now| ==> now[i] == now[n..][i - n] && before[i] == before[n..][i - n];
  }

  lemma Unterminated(o: Outcome, before: seq<Byte>, now: seq<Byte>)
    requires Pending(before, now, |o.stored|) && now[..|o.stored|] == o.stored && !o.terminated
    ensures Stored(o, before, now)
  {
    Tails(before, now, |o.stored|);
  }

  // ------------------------------------------------------------ lib/readline1.c

  /** read(fd, &c, 1), again after EINTR. */
  method ReadByte(fd: Descriptor, c: array<Byte>) returns (rc: int, errno: Errno)
    requires c.Length == 1
    modifies fd, c
    ensures Takes(old(fd.stream), rc, errno, c[0], fd.stream)
    ensures AllAt(old(fd.marks), fd.marks, LogLength(fd.peer), LogLength(fd.screen))
  {
    ghost var start := fd.stream;
    rc, errno := fd.Read(c, 0, 1);
    ReadAgain(start, start, 1, rc, errno, c[0..if rc < 0 then 0 else rc], fd.stream);
    while rc < 0 && errno == EINTR
      invariant rc <= 1 && HasRead(start, rc, errno, c[0..if rc < 0 then 0 else rc], fd.stream)
      invariant AllAt(old(fd.marks), fd.marks, LogLength(fd.peer), LogLength(fd.screen))
      decreases |fd.stream|, rc < 0 && errno == EINTR
    {
      ghost var before := fd.stream;
      rc, errno := fd.Read(c, 0, 1);
      ReadAgain(start, before, 1, rc, errno, c[0..if rc < 0 then 0 else rc], fd.stream);
    }
  }

  /** The byte-at-a-time reader. */
  method ReadlineSlow(fd: Descriptor, vptr: array<Byte>, maxlen: nat) returns (ret: int, errno: Errno)
    requires 1 <= maxlen <= vptr.Length
    modifies fd, vptr
    ensures var o := Line(old(fd.stream), maxlen, []);
            && ret == o.ret && fd.stream == o.rest
            && (o.errno.Some? ==> errno == EOTHER(o.errno.value))
            && Stored(o, old(vptr[..]), vptr[..])
  {
    var c := new Byte[1](_ => 0);
    var n, ptr := 1, 0;
    errno := EINTR;
    ghost var o, start := Line(fd.stream, maxlen, []), vptr[..];
    assert vptr[..0] == [];
    while n < maxlen
      invariant 1 <= n <= maxlen && ptr == n - 1
      invariant Line(fd.stream, maxlen, vptr[..ptr]) == o
      invariant Pending(start, vptr[..], ptr)
    {
      var rc: int;
      ghost var before := fd.stream;
      rc, errno := ReadByte(fd, c);
      LineStep(before, maxlen, vptr[..ptr], rc, errno, c[0], fd.stream);
      if rc == 1 {
        PutByte(vptr, ptr, c[0], start);
        ptr := ptr + 1;
        if c[0] == NEWLINE {
          break;
        }
      } else if rc == 0 {
        Terminate(vptr, ptr, o, start);
        return n - 1, errno;
      } else {
        Unterminated(o, start, vptr[..]);
        return -1, errno;
      }
      n := n + 1;
    }
    Terminate(vptr, ptr, o, start);
    return n, errno;
  }

  // -------------------------------------------- lib/readline.c and threads/readline.c

  /** The buffer of the faster readers: read_cnt, read_ptr and read_buf of lib/readline.c, of which
      there is one for the process, or the Rline of threads/readline.c, one for each thread. */
  class Rline {
    var cnt: int
    var ptr: nat
    const buf: array<Byte>

    ghost predicate Valid()
      reads this
    {
      buf.Length == MAXLINE && (cnt > 0 ==> ptr + cnt <= MAXLINE)
    }

    /** Bytes read from the descriptor and not yet handed out. */
    ghost function Unread(): seq<Byte>
      requires Valid()
      reads this, buf
    {
      if cnt > 0 then buf[ptr..ptr + cnt] else []
    }

    /** The stream a caller sees: first the unread bytes, then the kernel's. */
    ghost function Abs(fd: Descriptor): seq<Event>
      requires Valid()
      reads this, buf, fd
    {
      Events(Unread()) + fd.stream
    }

    constructor ()
      ensures Valid() && fresh(buf) && Unread() == []
    {
      cnt, ptr := 0, 0;
      buf := new Byte[MAXLINE](_ => 0);
    }

    /** The refill of my_read: lines 11 to 23 of lib/readline.c. */
    method Fill(fd: Descriptor) returns (errno: Errno)
      requires Valid() && cnt <= 0
      modifies this, buf, fd
      ensures Valid() && !(cnt < 0 && errno == EINTR)
      ensures HasRead(old(fd.stream), cnt, errno, Unread(), fd.stream)
      ensures AllAt(old(fd.marks), fd.marks, LogLength(fd.peer), LogLength(fd.screen))
    {
      ghost var start := fd.stream;
      cnt, errno := fd.Read(buf, 0, MAXLINE);
      ReadAgain(start, start, MAXLINE, cnt, errno, buf[0..if cnt < 0 then 0 else cnt], fd.stream);
      while cnt < 0 && errno == EINTR
        invariant cnt <= MAXLINE && HasRead(start, cnt, errno, buf[0..if cnt < 0 then 0 else cnt], fd.stream)
        invariant AllAt(old(fd.marks), fd.marks, LogLength(fd.peer), LogLength(fd.screen))
        decreases |fd.stream|, cnt < 0 && errno == EINTR
      {
        ghost var before := fd.stream;
        cnt, errno := fd.Read(buf, 0, MAXLINE);
        ReadAgain(start, before, MAXLINE, cnt, errno, buf[0..if cnt < 0 then 0 else cnt], fd.stream);
      }
      if cnt > 0 {
        ptr := 0;
      }
    }

    /** my_read: hands out one byte, refilling the buffer when it is empty. */
    method MyRead(fd: Descriptor) returns (rc: int, c: Byte, errno: Errno)
      requires Valid()
      modifies this, buf, fd
      ensures Valid() && Takes(old(Abs(fd)), rc, errno, c, Abs(fd))
      ensures AllAt(old(fd.marks), fd.marks, LogLength(fd.peer), LogLength(fd.screen))
    {
      errno, c := EINTR, NUL;
      ghost var start := Abs(fd);
      if cnt <= 0 {
        assert start == fd.stream;
        errno := Fill(fd);
        if cnt <= 0 {
          assert Abs(fd) == fd.stream;
          return cnt, c, errno;
        }
      } else {
        FirstIsData(Unread(), fd.stream);
      }
      HandOut(start, Unread(), errno, fd.stream);
      ghost var unread := Unread();
      cnt := cnt - 1;
      c := buf[ptr];
      ptr := ptr + 1;
      rc := 1;
      assert Unread() == unread[1..];
    }

    /** my_read, as readline uses it: the next byte of the line. */
    method NextOfLine(fd: Descriptor, ghost maxlen: nat, ghost stored: seq<Byte>)
        returns (rc: int, c: Byte, errno: Errno)
      requires Valid() && |stored| + 1 < maxlen
      modifies this, buf, fd
      ensures Valid() && LineGoes(Line(old(Abs(fd)), maxlen, stored), maxlen, stored, rc, errno, c, Abs(fd))
      ensures AllAt(old(fd.marks), fd.marks, LogLength(fd.peer), LogLength(fd.screen))
    {
      ghost var before := Abs(fd);
      rc, c, errno := MyRead(fd);
      LineStep(before, maxlen, stored, rc, errno, c, Abs(fd));
    }

    /** readline: agrees with the byte-at-a-time reader on the stream that the caller sees. */
    method Readline(fd: Descriptor, vptr: array<Byte>, maxlen: nat) returns (ret: int, errno: Errno)
      requires Valid() && 1 <= maxlen <= vptr.Length && vptr != buf
      modifies this, buf, fd, vptr
      ensures Valid()
      ensures var o := Line(old(Abs(fd)), maxlen, []);
              && ret == o.ret && Abs(fd) == o.rest
              && (o.errno.Some? ==> errno == EOTHER(o.errno.value))
              && Stored(o, old(vptr[..]), vptr[..])
      ensures AllAt(old(fd.marks), fd.marks, LogLength(fd.peer), LogLength(fd.screen))
    {
      var n, ptr := 1, 0;
      errno := EINTR;
      ghost var seen := Abs(fd);
      ghost var o := Line(seen, maxlen, []);
      ghost var start, marks, sent, shown := vptr[..], fd.marks, LogLength(fd.peer), LogLength(fd.screen);
      assert vptr[..0] == [];
      while n < maxlen
        invariant Valid() && 1 <= n <= maxlen && ptr == n - 1
        invariant Abs(fd) == seen && Line(seen, maxlen, vptr[..ptr]) == o
        invariant Pending(start, vptr[..], ptr)
        invariant AllAt(marks, fd.marks, sent, shown)
      {
        var rc: int, c: Byte;
        ghost var soFar := fd.marks;
        rc, c, errno := NextOfLine(fd, maxlen, vptr[..ptr]);
        AllAtOnce(marks, soFar, fd.marks, sent, shown);
        seen := Abs(fd);
        if rc == 1 {
          PutByte(vptr, ptr, c, start);
          assert Abs(fd) == seen;
          ptr := ptr + 1;
          if c == NEWLINE {
            break;
          }
        } else if rc == 0 {
          Terminate(vptr, ptr, o, start);
          return n - 1, errno;
        } else {
          Unterminated(o, start, vptr[..]);
          return -1, errno;
        }
        n := n + 1;
      }
      Terminate(vptr, ptr, o, start);
      return n, errno;
    }

    /** readlinebuf of lib/readline.c: the count, and the bytes that the next calls will return first. */
    method ReadlineBuf(fd: Descriptor) returns (n: int, bytes: seq<Byte>)
      requires Valid()
      ensures n > 0 ==> bytes == Unread() && |bytes| == n <= |Abs(fd)| && Events(bytes) == Abs(fd)[..n]
      ensures n <= 0 ==> Unread() == [] && Abs(fd) == fd.stream
    {
      n := cnt;
      bytes := if cnt > 0 then buf[ptr..ptr + cnt] else [];
    }
  }

  // ------------------------------------------------ one buffer, two descriptors

  lemma {:induction false} DataOfConcat(a: seq<Event>, b: seq<Event>)
    ensures DataOf(a + b) == DataOf(a) + DataOf(b)
  {
    if a == [] {
      assert a + b == b;
    } else {
      var first := if a[0].Data? then [a[0].b] else [];
      DataOfConcat(a[1..], b);
      assert (a + b)[0] == a[0] && (a + b)[1..] == a[1..] + b;
      assert first + (DataOf(a[1..]) + DataOf(b)) == (first + DataOf(a[1..])) + DataOf(b);
    }
  }

  lemma {:induction false} DataOfEvents(bytes: seq<Byte>)
    ensures DataOf(Events(bytes)) == bytes
  {
    if bytes == [] {
    } else {
      assert Events(bytes)[1..] == Events(bytes[1..]);
      DataOfEvents(bytes[1..]);
    }
  }

  /** A call neither loses, makes up nor reorders bytes. */
  lemma {:induction false} LineConservesData(stream: seq<Event>, maxlen: nat, stored: seq<Byte>)
    ensures var o := Line(stream, maxlen, stored); stored + DataOf(stream) == o.stored + DataOf(o.rest)
    decreases |stream|
  {
    if |stored| + 1 >= maxlen || stream == [] {
    } else {
      var more := if stream[0].Data? then [stream[0].b] else [];
      assert stored + DataOf(stream) == (stored + more) + DataOf(stream[1..]) by {
        assert stored + (more + DataOf(stream[1..])) == (stored + more) + DataOf(stream[1..]);
      }
      assert stored + [] == stored;
      if stream[0].Intr? || (stream[0].Data? && stream[0].b != NEWLINE) {
        LineConservesData(stream[1..], maxlen, stored + more);
      }
    }
  }

  /** lib/readline.c has one buffer for the process: used on a second descriptor, it is right exactly
      when nothing of the first is left in it, which readlinebuf can tell. */
  lemma StaticBufferRightIffEmpty(unread: seq<Byte>, other: seq<Event>, maxlen: nat)
    ensures Line(Events(unread) + other, maxlen, []) == Line(other, maxlen, []) <==> unread == []
  {
    LineConservesData(Events(unread) + other, maxlen, []);
    LineConservesData(other, maxlen, []);
    DataOfConcat(Events(unread), other);
    DataOfEvents(unread);
    if unread == [] {
      assert Events(unread) + other == other;
    }
  }

  lemma FirstIsData(unread: seq<Byte>, stream: seq<Event>)
    requires unread != []
    ensures Skip(Events(unread) + stream) == Events(unread) + stream
  {
  }

  lemma HandOut(start: seq<Event>, unread: seq<Byte>, errno: Errno, stream: seq<Event>)
    requires unread != [] && Skip(start) == Events(unread) + stream
    ensures Takes(start, 1, errno, unread[0], Events(unread[1..]) + stream)
  {
    assert (Events(unread) + stream)[1..] == Events(unread[1..]) + stream;
  }
}
