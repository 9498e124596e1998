/** The sequential code behind the step systems: written, str_echo, both threads of the threaded
    client and the lock-step client, each against the descriptors it is given. */
module EchoPrograms {
  import opened Bytes
  import opened Stdio
  import opened Streams
  import opened Readline
  import LockstepClient

  // ------------------------------------------------------------------- lib/written.c

  /** written: all `n` bytes, or -1 after some part that is not all of them. */
  method Written(fd: Writer, vptr: array<Byte>, at: nat, n: nat) returns (ret: int)
    requires at + n <= vptr.Length
    modifies fd`log, fd`signals, fd`broken
    ensures ret == n || ret == -1
    ensures ret == n ==> fd.log == old(fd.log) + vptr[at..at + n] && fd.broken == old(fd.broken)
    ensures ret == -1 ==> fd.broken && |old(fd.log)| <= |fd.log| < |old(fd.log)| + n
                          && fd.log == old(fd.log) + vptr[at..at + (|fd.log| - |old(fd.log)|)]
  {
    var nleft, ptr := n, at;
    while nleft > 0
      invariant 0 <= nleft <= n && ptr == at + n - nleft
      invariant fd.log == old(fd.log) + vptr[at..ptr] && fd.broken == old(fd.broken)
      decreases nleft, fd.signals
    {
      var nwritten, errno := fd.Write(vptr, ptr, nleft);
      if nwritten <= 0 {
        if nwritten < 0 && errno == EINTR {
          nwritten := 0;
        } else {
          return -1;
        }
      }
      LogMore(old(fd.log), vptr[..], at, ptr, ptr + nwritten);
      nleft := nleft - nwritten;
      ptr := ptr + nwritten;
    }
    return n;
  }

  lemma LogMore(log: seq<Byte>, bytes: seq<Byte>, a: nat, b: nat, c: nat)
    requires a <= b <= c <= |bytes|
    ensures log + bytes[a..b] + bytes[b..c] == log + bytes[a..c]
  {
  }

  // ------------------------------------------------------------------ lib/str_echo.c

  /** The bytes before the first end of file or error. */
  function ToEnd(stream: seq<Event>): seq<Byte> {
    if stream == [] || stream[0].Eof? || stream[0].Fault? then []
    else (if stream[0].Data? then [stream[0].b] else []) + ToEnd(stream[1..])
  }

  function AfterEnd(stream: seq<Event>): seq<Event> {
    if stream == [] then []
    else if stream[0].Eof? || stream[0].Fault? then stream[1..]
    else AfterEnd(stream[1..])
  }

  lemma {:induction false} ToEndOfData(bytes: seq<Byte>, stream: seq<Event>)
    ensures ToEnd(Events(bytes) + stream) == bytes + ToEnd(stream)
    ensures AfterEnd(Events(bytes) + stream) == AfterEnd(stream)
  {
    if bytes == [] {
      assert Events(bytes) + stream == stream;
    } else {
      assert (Events(bytes) + stream)[1..] == Events(bytes[1..]) + stream;
      ToEndOfData(bytes[1..], stream);
    }
  }

  /** Bytes, with interruptions between them. */
  ghost predicate OnlyBytes(stream: seq<Event>) {
    forall ev :: ev in stream ==> ev.Data? || ev.Intr?
  }

  /** The first end of file or error ends it, and everything before is there. */
  lemma {:induction false} ToEndMeaning(bytes: seq<Event>, last: Event, behind: seq<Event>)
    requires OnlyBytes(bytes) && (last.Eof? || last.Fault?)
    ensures ToEnd(bytes + [last] + behind) == DataOf(bytes) && AfterEnd(bytes + [last] + behind) == behind
  {
    var stream := bytes + [last] + behind;
    if bytes == [] {
      assert stream == [last] + behind && stream[1..] == behind;
    } else {
      assert stream[1..] == bytes[1..] + [last] + behind;
      ToEndMeaning(bytes[1..], last, behind);
    }
  }

  /** With `left` of the stream left to read, `sent` is what was there before plus all of it that has been read. */
  ghost predicate EchoedSoFar(m: Mark, base: nat, stream: seq<Event>) {
    m.left <= |stream| && m.sent + |ToEnd(stream[|stream| - m.left..])| == base + |ToEnd(stream)|
  }

  ghost predicate AllEchoedSoFar(before: seq<Mark>, now: seq<Mark>, base: nat, stream: seq<Event>) {
    before <= now && forall k :: |before| <= k < |now| ==> EchoedSoFar(now[k], base, stream)
  }

  /** What is left of a stream that is read from the front. */
  predicate Behind(stream: seq<Event>, left: seq<Event>) {
    |left| <= |stream| && left == stream[|stream| - |left|..]
  }

  lemma ReadMovesOn(stream: seq<Event>, before: seq<Event>, max: nat, n: int, errno: Errno, got: seq<Byte>,
                    after: seq<Event>)
    requires Behind(stream, before) && ReadOutcome(before, max, n, errno, got, after)
    ensures Behind(stream, after)
  {
    assert after == before[|before| - |after|..];
  }

  lemma OneMoreEchoed(marks: seq<Mark>, now: seq<Mark>, m: Mark, base: nat, stream: seq<Event>)
    requires AllEchoedSoFar(marks, now, base, stream) && EchoedSoFar(m, base, stream)
    ensures AllEchoedSoFar(marks, now + [m], base, stream)
  {
  }

  lemma SameLength(a: seq<Byte>, b: seq<Byte>, c: seq<Byte>, d: seq<Byte>)
    requires a + b == c + d
    ensures |a| + |b| == |c| + |d|
  {
    assert |a + b| == |c + d|;
  }

  /** read(sockfd, buf, MAXLINE) in the course of an echo that began at `stream`. */
  method ReadToEcho(sock: Descriptor, out: Writer, buf: array<Byte>, ghost marks: seq<Mark>, ghost base: nat,
                    ghost stream: seq<Event>) returns (n: int, errno: Errno)
    requires sock.peer == out && buf.Length == MAXLINE && Behind(stream, sock.stream)
    requires !out.broken ==>
               |out.log| + |ToEnd(sock.stream)| == base + |ToEnd(stream)|
               && AllEchoedSoFar(marks, sock.marks, base, stream)
    modifies sock, buf
    ensures n <= MAXLINE && Behind(stream, sock.stream) && |sock.stream| <= |old(sock.stream)|
    ensures ReadOutcome(old(sock.stream), MAXLINE, n, errno, buf[0..if n < 0 then 0 else n], sock.stream)
    ensures !out.broken ==> AllEchoedSoFar(marks, sock.marks, base, stream)
  {
    ghost var before, soFar := sock.stream, sock.marks;
    n, errno := sock.Read(buf, 0, MAXLINE);
    ReadMovesOn(stream, before, MAXLINE, n, errno, buf[0..if n < 0 then 0 else n], sock.stream);
    if !out.broken {
      OneMoreEchoed(marks, soFar, sock.marks[|soFar|], base, stream);
    }
  }

  /** str_echo: unless a write fails, everything up to the end of the input goes back, and an
      interrupted read does not end it; and whenever it reads, all that it has read before is written. */
  method StrEcho(sock: Descriptor, out: Writer)
    requires sock.peer == out
    modifies sock, out`log, out`signals, out`broken
    ensures !out.broken ==> AllEchoedSoFar(old(sock.marks), sock.marks, old(|out.log|), old(sock.stream))
    ensures !out.broken ==> out.log == old(out.log) + ToEnd(old(sock.stream))
    ensures old(out.broken) ==> out.broken
    ensures sock.stream == AfterEnd(old(sock.stream))
  {
    var buf := new Byte[MAXLINE](_ => 0);
    var more := true;
    ghost var stream, marks, log := sock.stream, sock.marks, out.log;
    while more
      invariant Behind(stream, sock.stream)
      invariant !out.broken ==> AllEchoedSoFar(marks, sock.marks, |log|, stream)
      invariant more && !out.broken ==> out.log + ToEnd(sock.stream) == log + ToEnd(stream)
      invariant !more && !out.broken ==> out.log == log + ToEnd(stream)
      invariant more ==> AfterEnd(sock.stream) == AfterEnd(stream)
      invariant !more ==> sock.stream == AfterEnd(stream)
      invariant old(out.broken) ==> out.broken
      decreases |sock.stream|, more
    {
      if !out.broken {
        SameLength(out.log, ToEnd(sock.stream), log, ToEnd(stream));
      }
      ghost var before, sent := sock.stream, out.log;
      var n, errno := ReadToEcho(sock, out, buf, marks, |log|, stream);
      EndAfterRead(before, MAXLINE, n, errno, buf[0..if n < 0 then 0 else n], sock.stream, sent);
      if n > 0 {
        var ret := Written(out, buf, 0, n);   // its result is not looked at
      } else {
        more := n < 0 && errno == EINTR;
      }
    }
  }

  /** What a read does to what is still to be echoed behind `sent`. */
  lemma EndAfterRead(before: seq<Event>, max: nat, n: int, errno: Errno, got: seq<Byte>, after: seq<Event>,
                     sent: seq<Byte>)
    requires ReadOutcome(before, max, n, errno, got, after)
    ensures n > 0 ==> sent + ToEnd(before) == (sent + got) + ToEnd(after) && AfterEnd(before) == AfterEnd(after)
    ensures n < 0 && errno == EINTR ==> ToEnd(before) == ToEnd(after) && AfterEnd(before) == AfterEnd(after)
    ensures n == 0 || (n < 0 && errno != EINTR) ==> sent + ToEnd(before) == sent && AfterEnd(before) == after
  {
    if n > 0 {
      ToEndOfData(got, after);
    }
  }

  // ------------------------------------------------------------ fgets, strlen and fputs

  class InFile {
    var rest: seq<Byte>
    var failed: bool
    ghost const peer: Writer?
    ghost const screen: Writer?
    ghost var marks: seq<Mark>

    constructor (rest: seq<Byte>, ghost peer: Writer?, ghost screen: Writer?)
      ensures this.rest == rest && !failed && this.peer == peer && this.screen == screen && marks == []
    {
      this.rest, failed := rest, false;
      this.peer, this.screen, marks := peer, screen, [];
    }

    /** fgets(line, MAXLINE, fp): false for NULL, at the end or when a signal interrupts the read. What has
        then been read of a line counts as not returned. */
    method Fgets(line: array<Byte>) returns (got: bool)
      requires line.Length == MAXLINE
      modifies this, line
      ensures got ==> old(rest) != [] && Cstr(line[..]) == Cstr(Cut(old(rest))) && rest == AfterCut(old(rest))
                      && failed == old(failed)
      ensures !got ==> rest == old(rest) && (rest == [] || failed)
      ensures marks == old(marks) + [Mark(LogLength(peer), LogLength(screen), |old(rest)|)]
    {
      marks := marks + [Mark(LogLength(peer), LogLength(screen), |rest|)];
      var outcome: nat := *;
      if outcome == 0 {
        failed := true;
      }
      if outcome == 0 || rest == [] {
        return false;
      }
      var cut := Cut(rest);
      forall i | 0 <= i < |cut| {
        line[i] := cut[i];
      }
      line[|cut|] := NUL;
      CstrStops(cut, line[..]);
      rest := AfterCut(rest);
      got := true;
    }
  }

  /** A terminating 0 hides whatever lies behind it. */
  lemma {:induction false} CstrStops(text: seq<Byte>, memory: seq<Byte>)
    requires |text| < |memory| && text <= memory && memory[|text|] == NUL
    ensures Cstr(memory) == Cstr(text)
  {
    if text == [] || text[0] == NUL {
    } else {
      CstrStops(text[1..], memory[1..]);
    }
  }

  // --------------------------------------------------------- threads/strclithread.c

  /** A fetch made when all lines before had been sent, whole, and nothing more. */
  ghost predicate AtSend(m: Mark, input: seq<Byte>, sent: nat)
    decreases |input|
  {
    (m.sent == sent && m.left == |input|)
    || (input != [] && (CutProgress(input); AtSend(m, AfterCut(input), sent + |Cstr(Cut(input))|)))
  }

  ghost predicate AllAtSend(before: seq<Mark>, now: seq<Mark>, input: seq<Byte>, sent: nat) {
    before <= now && forall k :: |before| <= k < |now| ==> AtSend(now[k], input, sent)
  }

  /** A later point of the same copying. */
  ghost predicate SentOn(input: seq<Byte>, sent: nat, toGo: seq<Byte>, sentThen: nat) {
    forall m :: AtSend(m, toGo, sentThen) ==> AtSend(m, input, sent)
  }

  lemma NextSend(input: seq<Byte>, sent: nat, toGo: seq<Byte>, now: nat)
    requires SentOn(input, sent, toGo, now) && toGo != []
    ensures SentOn(input, sent, AfterCut(toGo), now + |Cstr(Cut(toGo))|)
  {
    CutProgress(toGo);
    forall m | AtSend(m, AfterCut(toGo), now + |Cstr(Cut(toGo))|)
      ensures AtSend(m, input, sent)
    {
      assert AtSend(m, toGo, now);
    }
  }

  /** fgets in the course of a copying that began at `input`, with `sent` written. */
  method FgetsToSend(fp: InFile, line: array<Byte>, ghost marks: seq<Mark>, ghost input: seq<Byte>, ghost sent: nat,
                     ghost inStep: bool) returns (got: bool)
    requires line.Length == MAXLINE
    requires inStep ==> AllAtSend(marks, fp.marks, input, sent) && SentOn(input, sent, fp.rest, LogLength(fp.peer))
    modifies fp, line
    ensures got ==> old(fp.rest) != [] && Cstr(line[..]) == Cstr(Cut(old(fp.rest))) && fp.rest == AfterCut(old(fp.rest))
    ensures !got ==> fp.rest == old(fp.rest) && (fp.rest == [] || fp.failed)
    ensures inStep ==> AllAtSend(marks, fp.marks, input, sent)
  {
    ghost var m := Mark(LogLength(fp.peer), LogLength(fp.screen), |fp.rest|);
    assert AtSend(m, fp.rest, m.sent);
    got := fp.Fgets(line);
  }

  /** copyto: standard input, line by line up to its end or an interrupted fgets, each line sent before the
      next is fetched; then the FIN, behind which nothing is written. */
  method CopyTo(fp: InFile, sock: Writer)
    requires fp.peer == sock
    modifies fp, sock
    ensures sock.fin && (fp.rest == [] || fp.failed)
    ensures old(!sock.fin) ==> sock.finAt == |sock.log|
    ensures !sock.broken ==> sock.log + Wire(fp.rest) == old(sock.log) + Wire(old(fp.rest))
    ensures !sock.broken ==> AllAtSend(old(fp.marks), fp.marks, old(fp.rest), old(|sock.log|))
  {
    var sendline := new Byte[MAXLINE](_ => 0);
    ghost var input, log, marks, toGo := fp.rest, sock.log, fp.marks, fp.rest;
    var got := FgetsToSend(fp, sendline, marks, input, |log|, true);
    while got
      invariant got ==> toGo != [] && Cstr(sendline[..]) == Cstr(Cut(toGo)) && fp.rest == AfterCut(toGo)
      invariant !got ==> fp.rest == toGo && (toGo == [] || fp.failed)
      invariant !sock.broken ==> sock.log + Wire(toGo) == log + Wire(input)
      invariant !sock.broken ==> AllAtSend(marks, fp.marks, input, |log|) && SentOn(input, |log|, toGo, |sock.log|)
      invariant old(sock.broken) ==> sock.broken
      invariant sock.fin == old(sock.fin)
      decreases |toGo|, got
    {
      CutProgress(toGo);
      ghost var sent := |sock.log|;
      SendLine(sock, sendline, Cstr(Cut(toGo)), Wire(AfterCut(toGo)));
      if !sock.broken {
        NextSend(input, |log|, toGo, sent);
      }
      toGo := fp.rest;
      got := FgetsToSend(fp, sendline, marks, input, |log|, !sock.broken);
    }
    sock.Shutdown();
  }

  /** writen(sockfd, sendline, strlen(sendline)). */
  method SendLine(sock: Writer, sendline: array<Byte>, ghost line: seq<Byte>, ghost later: seq<Byte>)
    requires Cstr(sendline[..]) == line
    modifies sock`log, sock`signals, sock`broken
    ensures old(sock.broken) ==> sock.broken
    ensures !sock.broken ==> sock.log == old(sock.log) + line && sock.log + later == old(sock.log) + (line + later)
  {
    var strlen := |Cstr(sendline[..])|;
    assert sendline[0..strlen] == sendline[..][..strlen] == line;
    var ret := Written(sock, sendline, 0, strlen);   // its result is not looked at
    assert !sock.broken ==> sock.log == old(sock.log) + line;
  }

  /** What main prints of a stream: line after line until readline returns 0 or fails. */
  function Printed(stream: seq<Event>): seq<Byte>
    decreases |stream|
  {
    var o := Line(stream, MAXLINE, []);
    LineUses(stream, MAXLINE, []);
    if o.ret > 0 then Cstr(o.stored) + Printed(o.rest) else []
  }

  lemma {:induction false} LineUses(stream: seq<Event>, maxlen: nat, stored: seq<Byte>)
    ensures var o := Line(stream, maxlen, stored);
            |o.rest| <= |stream| && (|stored| + 1 < maxlen && o.ret > |stored| ==> |o.rest| < |stream|)
    decreases |stream|
  {
    if |stored| + 1 >= maxlen || stream == [] {
    } else {
      if stream[0].Intr? {
        LineUses(stream[1..], maxlen, stored);
      } else if stream[0].Data? && stream[0].b != NEWLINE {
        LineUses(stream[1..], maxlen, stored + [stream[0].b]);
      }
    }
  }

  /** A buffer with a call's bytes laid over what it held; unless the read failed a 0 follows them. */
  function Over(o: Outcome, memory: seq<Byte>): seq<Byte> {
    var line := o.stored + if o.terminated then [NUL] else [];
    line + if |line| <= |memory| then memory[|line|..] else []
  }

  /** The string in a buffer that readline has filled. */
  lemma ReadText(stream: seq<Event>, before: seq<Byte>, after: seq<Byte>)
    requires Stored(Line(stream, MAXLINE, []), before, after)
    ensures var o := Line(stream, MAXLINE, []);
            after == Over(o, before) && (o.terminated ==> Cstr(after) == Cstr(o.stored)) && (o.ret > 0 ==> o.terminated)
  {
    var o := Line(stream, MAXLINE, []);
    var used, ending := LineIsLine(stream, MAXLINE, []);
    if o.terminated {
      CstrStops(o.stored, after);
    }
  }

  /** readline(sockfd, recvline, MAXLINE), as seen by fputs. */
  method GetLine(sockfd: Descriptor, tsd: Rline, recvline: array<Byte>) returns (n: int)
    requires tsd.Valid() && recvline != tsd.buf && recvline.Length == MAXLINE
    modifies sockfd, tsd, tsd.buf, recvline
    ensures tsd.Valid()
    ensures var o := Line(old(tsd.Abs(sockfd)), MAXLINE, []);
            n == o.ret && tsd.Abs(sockfd) == o.rest && recvline[..] == Over(o, old(recvline[..]))
    ensures Printed(old(tsd.Abs(sockfd))) == if n > 0 then Cstr(recvline[..]) + Printed(tsd.Abs(sockfd)) else []
    ensures |tsd.Abs(sockfd)| + (if n > 0 then 1 else 0) <= |old(tsd.Abs(sockfd))|
    ensures AllAt(old(sockfd.marks), sockfd.marks, LogLength(sockfd.peer), LogLength(sockfd.screen))
  {
    ghost var stream := tsd.Abs(sockfd);
    ghost var before := recvline[..];
    var errno;
    n, errno := tsd.Readline(sockfd, recvline, MAXLINE);
    ReadText(stream, before, recvline[..]);
    LineUses(stream, MAXLINE, []);
  }

  /** A read made when all lines read before it had been printed, and no more. */
  ghost predicate AtPrint(m: Mark, stream: seq<Event>, shown: nat)
    decreases |stream|
  {
    LineUses(stream, MAXLINE, []);
    var o := Line(stream, MAXLINE, []);
    m.shown == shown || (o.ret > 0 && AtPrint(m, o.rest, shown + |Cstr(o.stored)|))
  }

  ghost predicate AllAtPrint(before: seq<Mark>, now: seq<Mark>, stream: seq<Event>, shown: nat) {
    before <= now && forall k :: |before| <= k < |now| ==> AtPrint(now[k], stream, shown)
  }

  /** A later point of the same printing. */
  ghost predicate PrintedOn(stream: seq<Event>, shown: nat, later: seq<Event>, shownThen: nat) {
    forall m :: AtPrint(m, later, shownThen) ==> AtPrint(m, stream, shown)
  }

  /** GetLine in the course of a printing that began at `stream`, with `shown` on the screen. */
  method GetLineInStep(sockfd: Descriptor, tsd: Rline, recvline: array<Byte>, ghost marks: seq<Mark>,
                       ghost stream: seq<Event>, ghost shown: nat) returns (n: int)
    requires tsd.Valid() && recvline != tsd.buf && recvline.Length == MAXLINE
    requires AllAtPrint(marks, sockfd.marks, stream, shown)
    requires PrintedOn(stream, shown, tsd.Abs(sockfd), LogLength(sockfd.screen))
    modifies sockfd, tsd, tsd.buf, recvline
    ensures tsd.Valid() && AllAtPrint(marks, sockfd.marks, stream, shown)
    ensures n > 0 ==> PrintedOn(stream, shown, tsd.Abs(sockfd), LogLength(sockfd.screen) + |Cstr(recvline[..])|)
    ensures Printed(old(tsd.Abs(sockfd))) == if n > 0 then Cstr(recvline[..]) + Printed(tsd.Abs(sockfd)) else []
    ensures |tsd.Abs(sockfd)| + (if n > 0 then 1 else 0) <= |old(tsd.Abs(sockfd))|
  {
    ghost var here, soFar, before := tsd.Abs(sockfd), sockfd.marks, recvline[..];
    n := GetLine(sockfd, tsd, recvline);
    ReadsAtPrint(marks, soFar, sockfd.marks, LogLength(sockfd.screen), stream, shown, here);
    if n > 0 {
      OverTerminated(here, before);
      NextPrint(stream, shown, here, LogLength(sockfd.screen));
    }
  }

  /** Once round the loop: the line is printed and the next one read. */
  method ShowAndRead(sockfd: Descriptor, tsd: Rline, stdout: Writer, recvline: array<Byte>, ghost marks: seq<Mark>,
                     ghost stream: seq<Event>, ghost shown: nat, ghost goal: seq<Byte>) returns (n: int)
    requires tsd.Valid() && recvline != tsd.buf && recvline.Length == MAXLINE && sockfd.screen == stdout
    requires AllAtPrint(marks, sockfd.marks, stream, shown)
    requires PrintedOn(stream, shown, tsd.Abs(sockfd), |stdout.log| + |Cstr(recvline[..])|)
    requires stdout.log + (Cstr(recvline[..]) + Printed(tsd.Abs(sockfd))) == goal
    modifies sockfd, tsd, tsd.buf, recvline, stdout`log
    ensures tsd.Valid() && AllAtPrint(marks, sockfd.marks, stream, shown)
    ensures n > 0 ==> PrintedOn(stream, shown, tsd.Abs(sockfd), |stdout.log| + |Cstr(recvline[..])|)
    ensures stdout.log + (if n > 0 then Cstr(recvline[..]) + Printed(tsd.Abs(sockfd)) else []) == goal
    ensures |tsd.Abs(sockfd)| + (if n > 0 then 1 else 0) <= |old(tsd.Abs(sockfd))|
  {
    ghost var here := tsd.Abs(sockfd);
    PrintAndMove(stdout.log, Cstr(recvline[..]), Printed(here));
    stdout.Puts(recvline);
    assert tsd.Abs(sockfd) == here && stdout.log + Printed(here) == goal;
    n := GetLineInStep(sockfd, tsd, recvline, marks, stream, shown);
  }

  /** str_cli: reads lines from the socket and prints them, each before the next is read. */
  method StrCliThread(sockfd: Descriptor, tsd: Rline, stdout: Writer)
    requires tsd.Valid() && sockfd.screen == stdout
    modifies sockfd, tsd, tsd.buf, stdout`log
    ensures tsd.Valid()
    ensures stdout.log == old(stdout.log) + Printed(old(tsd.Abs(sockfd)))
    ensures AllAtPrint(old(sockfd.marks), sockfd.marks, old(tsd.Abs(sockfd)), old(|stdout.log|))
  {
    var recvline := new Byte[MAXLINE](_ => 0);
    ghost var stream, marks, shown, all := tsd.Abs(sockfd), sockfd.marks, |stdout.log|, Printed(tsd.Abs(sockfd));
    var n := GetLineInStep(sockfd, tsd, recvline, marks, stream, shown);
    while n > 0
      invariant tsd.Valid() && recvline != tsd.buf && recvline.Length == MAXLINE
      invariant stdout.log + (if n > 0 then Cstr(recvline[..]) + Printed(tsd.Abs(sockfd)) else [])
             == old(stdout.log) + all
      invariant AllAtPrint(marks, sockfd.marks, stream, shown)
      invariant n > 0 ==> PrintedOn(stream, shown, tsd.Abs(sockfd), |stdout.log| + |Cstr(recvline[..])|)
      decreases |tsd.Abs(sockfd)|, n > 0
    {
      n := ShowAndRead(sockfd, tsd, stdout, recvline, marks, stream, shown, old(stdout.log) + all);
    }
    NothingMore(stdout.log);
  }

  lemma OverTerminated(stream: seq<Event>, memory: seq<Byte>)
    requires Line(stream, MAXLINE, []).ret > 0
    ensures var o := Line(stream, MAXLINE, []); Cstr(Over(o, memory)) == Cstr(o.stored)
  {
    var o := Line(stream, MAXLINE, []);
    var used, ending := LineIsLine(stream, MAXLINE, []);
    CstrStops(o.stored, Over(o, memory));
  }

  lemma ReadsAtPrint(marks: seq<Mark>, soFar: seq<Mark>, now: seq<Mark>, sent: nat, stream: seq<Event>, shown: nat,
                     here: seq<Event>)
    requires AllAtPrint(marks, soFar, stream, shown) && PrintedOn(stream, shown, here, sent)
    requires soFar <= now && forall k :: |soFar| <= k < |now| ==> now[k].shown == sent
    ensures AllAtPrint(marks, now, stream, shown)
  {
    forall k | |soFar| <= k < |now|
      ensures AtPrint(now[k], stream, shown)
    {
      assert AtPrint(now[k], here, sent);
    }
  }

  lemma NextPrint(stream: seq<Event>, shown: nat, here: seq<Event>, now: nat)
    requires PrintedOn(stream, shown, here, now) && Line(here, MAXLINE, []).ret > 0
    ensures var o := Line(here, MAXLINE, []); PrintedOn(stream, shown, o.rest, now + |Cstr(o.stored)|)
  {
    var o := Line(here, MAXLINE, []);
    forall m | AtPrint(m, o.rest, now + |Cstr(o.stored)|)
      ensures AtPrint(m, stream, shown)
    {
      assert AtPrint(m, here, now);
    }
  }

  lemma PrintAndMove(log: seq<Byte>, line: seq<Byte>, later: seq<Byte>)
    ensures log + (line + later) == (log + line) + later
  {
  }

  /** The line at the head of such a stream: nothing is returned only if there are no more bytes. */
  lemma LineOfBytes(stream: seq<Event>)
    requires OnlyBytes(stream)
    ensures var o := Line(stream, MAXLINE, []);
            OnlyBytes(o.rest) && (o.ret > 0 || DataOf(stream) == []) && DataOf(stream) == o.stored + DataOf(o.rest)
  {
    var o := Line(stream, MAXLINE, []);
    LineConservesData(stream, MAXLINE, []);
    var used, ending := LineIsLine(stream, MAXLINE, []);
    assert [] + DataOf(stream) == DataOf(stream);
    assert forall ev :: ev in used ==> ev in stream;
    assert used != [] ==> used[|used| - 1] in used;
  }

  /** Of bytes without a 0, followed by end of file, main prints all, wherever reads are interrupted. */
  lemma {:induction false} PrintsAllBytes(stream: seq<Event>)
    requires OnlyBytes(stream) && NUL !in DataOf(stream)
    ensures Printed(stream) == DataOf(stream)
    decreases |stream|
  {
    var o := Line(stream, MAXLINE, []);
    LineOfBytes(stream);
    LineUses(stream, MAXLINE, []);
    if o.ret <= 0 {
    } else {
      CstrWhole(o.stored);
      PrintsAllBytes(o.rest);
    }
  }

  // -------------------------------------------------------------------- lib/str_cli.c

  /** What the lock-step client sends and prints, given what will come back and what its line buffer holds,
      which is what it prints again after a read error; and whether it ends without missing the server. */
  function Lockstep(input: seq<Byte>, stream: seq<Event>, memory: seq<Byte>): (seq<Byte>, seq<Byte>, bool)
    decreases |input|
  {
    if input == [] then ([], [], true)
    else
      CutProgress(input);
      var o := Line(stream, MAXLINE, []);
      if o.ret == 0 then (Cstr(Cut(input)), [], false)
      else
        var memory' := Over(o, memory);
        var (sent, printed, done) := Lockstep(AfterCut(input), o.rest, memory');
        (Cstr(Cut(input)) + sent, Cstr(memory') + printed, done)
  }

  /** A point between two exchanges: the input to come, the replies to come, what the line buffer holds, and
      how much has been sent and shown. */
  datatype Point = Point(input: seq<Byte>, stream: seq<Event>, memory: seq<Byte>, sent: nat, shown: nat)

  /** The point after the exchange of one line, if the server is still there. */
  function NextPoint(p: Point): Point
    requires p.input != []
  {
    var o := Line(p.stream, MAXLINE, []);
    Point(AfterCut(p.input), o.rest, Over(o, p.memory), p.sent + |Cstr(Cut(p.input))|,
          p.shown + |Cstr(Over(o, p.memory))|)
  }

  predicate Replies(p: Point) {
    p.input != [] && Line(p.stream, MAXLINE, []).ret != 0
  }

  /** A read of a reply made when its line and all before had been sent, whole, and nothing more; and all
      replies before had been shown. */
  ghost predicate AtReply(m: Mark, p: Point)
    decreases |p.input|
  {
    if p.input == [] then false
    else
      CutProgress(p.input);
      (m.sent == p.sent + |Cstr(Cut(p.input))| && m.shown == p.shown) || (Replies(p) && AtReply(m, NextPoint(p)))
  }

  /** A line fetched when all before had been sent and their replies shown. */
  ghost predicate AtFetch(m: Mark, p: Point)
    decreases |p.input|
  {
    (m.sent == p.sent && m.shown == p.shown)
    || (Replies(p) && (CutProgress(p.input); AtFetch(m, NextPoint(p))))
  }

  ghost predicate RepliesInStep(before: seq<Mark>, now: seq<Mark>, p: Point) {
    before <= now && forall k :: |before| <= k < |now| ==> AtReply(now[k], p)
  }

  ghost predicate FetchesInStep(before: seq<Mark>, now: seq<Mark>, p: Point) {
    before <= now && forall k :: |before| <= k < |now| ==> AtFetch(now[k], p)
  }

  /** `q` is a later point of the exchanges that begin at `p`. */
  ghost predicate Later(p: Point, q: Point) {
    && (forall m :: AtReply(m, q) ==> AtReply(m, p))
    && (forall m :: AtFetch(m, q) ==> AtFetch(m, p))
  }

  lemma NextIsLater(p: Point, q: Point)
    requires Later(p, q) && Replies(q)
    ensures Later(p, NextPoint(q))
  {
    CutProgress(q.input);
    forall m | AtReply(m, NextPoint(q))
      ensures AtReply(m, p)
    {
      assert AtReply(m, q);
    }
    forall m | AtFetch(m, NextPoint(q))
      ensures AtFetch(m, p)
    {
      assert AtFetch(m, q);
    }
  }

  lemma ReadsInStep(marks: seq<Mark>, soFar: seq<Mark>, now: seq<Mark>, p: Point, q: Point)
    requires RepliesInStep(marks, soFar, p) && Later(p, q) && q.input != []
    requires AllAt(soFar, now, q.sent + |Cstr(Cut(q.input))|, q.shown)
    ensures RepliesInStep(marks, now, p)
  {
    forall k | |soFar| <= k < |now|
      ensures AtReply(now[k], p)
    {
      assert AtReply(now[k], q);
    }
  }

  lemma FetchInStep(marks: seq<Mark>, soFar: seq<Mark>, left: nat, p: Point, q: Point)
    requires FetchesInStep(marks, soFar, p) && Later(p, q)
    ensures FetchesInStep(marks, soFar + [Mark(q.sent, q.shown, left)], p)
  {
    assert AtFetch(Mark(q.sent, q.shown, left), q);
  }

  /** One line out, then one line back: the body of the loop. Every read of the reply is made when the line
      has been written, and what came before is shown. */
  method ExchangeLine(sockIn: Descriptor, buffer: Rline, sockOut: Writer, stdout: Writer,
                      sendline: array<Byte>, recvline: array<Byte>, ghost toGo: seq<Byte>)
      returns (n: int)
    requires buffer.Valid() && sockOut != stdout && recvline.Length == MAXLINE
    requires sockIn.peer == sockOut && sockIn.screen == stdout
    requires recvline != buffer.buf && sendline != buffer.buf && recvline != sendline
    requires toGo != [] && Cstr(sendline[..]) == Cstr(Cut(toGo))
    modifies sockIn, buffer, buffer.buf, recvline, sockOut`log, sockOut`signals, sockOut`broken, stdout`log
    ensures buffer.Valid() && |AfterCut(toGo)| < |toGo|
    ensures AllAt(old(sockIn.marks), sockIn.marks, |sockOut.log|, old(|stdout.log|))
    ensures !sockOut.broken ==> sockOut.log == old(sockOut.log) + Cstr(Cut(toGo))
    ensures var o := Line(old(buffer.Abs(sockIn)), MAXLINE, []);
            && n == o.ret && buffer.Abs(sockIn) == o.rest && recvline[..] == Over(o, old(recvline[..]))
            && stdout.log == old(stdout.log) + if n == 0 then [] else Cstr(recvline[..])
    ensures old(sockOut.broken) ==> sockOut.broken
  {
    ghost var stream, memory, shown := buffer.Abs(sockIn), recvline[..], stdout.log;
    CutProgress(toGo);
    SendLine(sockOut, sendline, Cstr(Cut(toGo)), []);
    assert buffer.Abs(sockIn) == stream && recvline[..] == memory;
    n := GetLine(sockIn, buffer, recvline);
    if n != 0 {
      stdout.Puts(recvline);
    } else {
      NothingMore(stdout.log);
    }
  }

  lemma NothingMore(log: seq<Byte>)
    ensures log + [] == log
  {
  }

  /** What is settled at a point of the exchanges from `p` to `q`: what has been sent and shown, and what is
      still owed from there. */
  ghost predicate Settled(p: Point, q: Point, sent0: seq<Byte>, shown0: seq<Byte>, out: Output) {
    var all, left := Lockstep(p.input, p.stream, p.memory), Lockstep(q.input, q.stream, q.memory);
    && all.2 == left.2 && out.shown + left.1 == shown0 + all.1 && q.shown == |out.shown|
    && (!out.broken ==> out.sent + left.0 == sent0 + all.0 && q.sent == |out.sent|)
    && Later(p, q)
  }

  /** What the two writers have. */
  datatype Output = Output(sent: seq<Byte>, shown: seq<Byte>, broken: bool)

  lemma SettledNext(p: Point, q: Point, sent0: seq<Byte>, shown0: seq<Byte>, out: Output, now: Output)
    requires Settled(p, q, sent0, shown0, out) && Replies(q) && (out.broken ==> now.broken)
    requires now.shown == out.shown + Cstr(NextPoint(q).memory)
    requires !now.broken ==> now.sent == out.sent + Cstr(Cut(q.input))
    ensures Settled(p, NextPoint(q), sent0, shown0, now)
  {
    var line, text, more, morePrint := LockstepStep(q.input, q.stream, q.memory);
    PrintAndMove(out.shown, text, morePrint);
    PrintAndMove(out.sent, line, more);
    NextIsLater(p, q);
  }

  lemma SettledGone(p: Point, q: Point, sent0: seq<Byte>, shown0: seq<Byte>, out: Output, now: Output)
    requires Settled(p, q, sent0, shown0, out) && q.input != [] && !Replies(q) && (out.broken ==> now.broken)
    requires now.shown == out.shown && (!now.broken ==> now.sent == out.sent + Cstr(Cut(q.input)))
    ensures var all := Lockstep(p.input, p.stream, p.memory);
            !all.2 && now.shown == shown0 + all.1 && (!now.broken ==> now.sent == sent0 + all.0)
  {
    var line, text, more, morePrint := LockstepStep(q.input, q.stream, q.memory);
    NothingMore(out.shown);
    NothingMore(line);
  }

  /** One exchange in the course of those that began at `p`. */
  method ExchangeInStep(sockIn: Descriptor, buffer: Rline, sockOut: Writer, stdout: Writer, sendline: array<Byte>,
                        recvline: array<Byte>, ghost p: Point, ghost q: Point, ghost sent0: seq<Byte>,
                        ghost shown0: seq<Byte>, ghost replies: seq<Mark>) returns (n: int)
    requires buffer.Valid() && sockOut != stdout && recvline.Length == MAXLINE
    requires sockIn.peer == sockOut && sockIn.screen == stdout
    requires recvline != buffer.buf && sendline != buffer.buf && recvline != sendline
    requires q.input != [] && Cstr(sendline[..]) == Cstr(Cut(q.input))
    requires q.stream == buffer.Abs(sockIn) && q.memory == recvline[..]
    requires Settled(p, q, sent0, shown0, Output(sockOut.log, stdout.log, sockOut.broken))
    requires !sockOut.broken ==> RepliesInStep(replies, sockIn.marks, p)
    modifies sockIn, buffer, buffer.buf, recvline, sockOut`log, sockOut`signals, sockOut`broken, stdout`log
    ensures buffer.Valid() && (old(sockOut.broken) ==> sockOut.broken)
    ensures !sockOut.broken ==> RepliesInStep(replies, sockIn.marks, p)
    ensures n == 0 ==>
              var all := Lockstep(p.input, p.stream, p.memory);
              !all.2 && stdout.log == shown0 + all.1 && (!sockOut.broken ==> sockOut.log == sent0 + all.0)
    ensures n != 0 ==>
              && |NextPoint(q).input| < |q.input|
              && NextPoint(q).stream == buffer.Abs(sockIn) && NextPoint(q).memory == recvline[..]
              && Settled(p, NextPoint(q), sent0, shown0, Output(sockOut.log, stdout.log, sockOut.broken))
  {
    ghost var out, soFar := Output(sockOut.log, stdout.log, sockOut.broken), sockIn.marks;
    n := ExchangeLine(sockIn, buffer, sockOut, stdout, sendline, recvline, q.input);
    ghost var now := Output(sockOut.log, stdout.log, sockOut.broken);
    if !sockOut.broken {
      ReadsInStep(replies, soFar, sockIn.marks, p, q);
    }
    if n == 0 {
      NothingMore(out.shown);
      SettledGone(p, q, sent0, shown0, out, now);
    } else {
      SettledNext(p, q, sent0, shown0, out, now);
    }
  }

  /** What fgets has left. */
  ghost predicate Fetched(got: bool, line: seq<Byte>, input: seq<Byte>, rest: seq<Byte>, failed: bool) {
    if got then input != [] && Cstr(line) == Cstr(Cut(input)) && rest == AfterCut(input)
    else rest == input && (input == [] || failed)
  }

  /** fgets in the course of the exchanges that began at `p`. */
  method FgetsInStep(fp: InFile, line: array<Byte>, ghost p: Point, ghost q: Point, ghost fetches: seq<Mark>,
                     ghost inStep: bool) returns (got: bool)
    requires line.Length == MAXLINE && fp.rest == q.input
    requires inStep ==> FetchesInStep(fetches, fp.marks, p) && Later(p, q)
                        && q.sent == LogLength(fp.peer) && q.shown == LogLength(fp.screen)
    modifies fp, line
    ensures Fetched(got, line[..], q.input, fp.rest, fp.failed)
    ensures inStep ==> FetchesInStep(fetches, fp.marks, p)
  {
    if inStep {
      FetchInStep(fetches, fp.marks, |fp.rest|, p, q);
    }
    got := fp.Fgets(line);
  }

  /** Once round the loop of str_cli: an exchange, and the next fgets. */
  method Turn(fp: InFile, sockIn: Descriptor, buffer: Rline, sockOut: Writer, stdout: Writer, sendline: array<Byte>,
              recvline: array<Byte>, ghost p: Point, ghost q: Point, ghost sent0: seq<Byte>, ghost shown0: seq<Byte>,
              ghost replies: seq<Mark>, ghost fetches: seq<Mark>) returns (n: int, got: bool)
    requires buffer.Valid() && sockOut != stdout && recvline.Length == sendline.Length == MAXLINE
    requires sockIn.peer == fp.peer == sockOut && sockIn.screen == fp.screen == stdout
    requires recvline != buffer.buf && sendline != buffer.buf && recvline != sendline
    requires Fetched(true, sendline[..], q.input, fp.rest, fp.failed)
    requires q.stream == buffer.Abs(sockIn) && q.memory == recvline[..]
    requires Settled(p, q, sent0, shown0, Output(sockOut.log, stdout.log, sockOut.broken))
    requires !sockOut.broken ==> RepliesInStep(replies, sockIn.marks, p) && FetchesInStep(fetches, fp.marks, p)
    modifies fp, sendline, sockIn, buffer, buffer.buf, recvline
    modifies sockOut`log, sockOut`signals, sockOut`broken, stdout`log
    ensures buffer.Valid() && (old(sockOut.broken) ==> sockOut.broken)
    ensures !sockOut.broken ==> RepliesInStep(replies, sockIn.marks, p) && FetchesInStep(fetches, fp.marks, p)
    ensures n == 0 ==>
              var all := Lockstep(p.input, p.stream, p.memory);
              !all.2 && stdout.log == shown0 + all.1 && (!sockOut.broken ==> sockOut.log == sent0 + all.0)
    ensures n != 0 ==>
              && |NextPoint(q).input| < |q.input|
              && Fetched(got, sendline[..], NextPoint(q).input, fp.rest, fp.failed)
              && NextPoint(q).stream == buffer.Abs(sockIn) && NextPoint(q).memory == recvline[..]
              && Settled(p, NextPoint(q), sent0, shown0, Output(sockOut.log, stdout.log, sockOut.broken))
  {
    n := ExchangeInStep(sockIn, buffer, sockOut, stdout, sendline, recvline, p, q, sent0, shown0, replies);
    got := false;
    if n != 0 {
      got := FgetsInStep(fp, sendline, p, NextPoint(q), fetches, !sockOut.broken);
    }
  }

  /** str_cli: false when it exits because the server has gone. `recvline` is its line buffer, with whatever
      it holds at first. Nothing is left of the input unless an fgets was interrupted. Fetching, sending,
      reading and showing alternate: each line is whole on the socket before its reply is read, and the reply
      shown before the next line is fetched. */
  method StrCli(fp: InFile, sockIn: Descriptor, buffer: Rline, sockOut: Writer, stdout: Writer, recvline: array<Byte>)
      returns (done: bool)
    requires buffer.Valid() && sockOut != stdout && recvline.Length == MAXLINE && recvline != buffer.buf
    requires sockIn.peer == fp.peer == sockOut && sockIn.screen == fp.screen == stdout
    modifies fp, sockIn, buffer, buffer.buf, sockOut`log, sockOut`signals, sockOut`broken, stdout`log, recvline
    ensures buffer.Valid() && (done ==> fp.rest == [] || fp.failed)
    ensures var all := Lockstep(old(fp.rest), old(buffer.Abs(sockIn)), old(recvline[..]));
            var left := Lockstep(fp.rest, buffer.Abs(sockIn), recvline[..]);
            if done then
              all.2 == left.2 && stdout.log + left.1 == old(stdout.log) + all.1
              && (!sockOut.broken ==> sockOut.log + left.0 == old(sockOut.log) + all.0)
            else
              !all.2 && stdout.log == old(stdout.log) + all.1
              && (!sockOut.broken ==> sockOut.log == old(sockOut.log) + all.0)
    ensures !sockOut.broken ==>
              var p := Point(old(fp.rest), old(buffer.Abs(sockIn)), old(recvline[..]), old(|sockOut.log|),
                             old(|stdout.log|));
              RepliesInStep(old(sockIn.marks), sockIn.marks, p) && FetchesInStep(old(fp.marks), fp.marks, p)
  {
    var sendline := new Byte[MAXLINE](_ => 0);
    ghost var p := Point(fp.rest, buffer.Abs(sockIn), recvline[..], |sockOut.log|, |stdout.log|);
    ghost var q, sent0, shown0, replies, fetches := p, sockOut.log, stdout.log, sockIn.marks, fp.marks;
    var got := FgetsInStep(fp, sendline, p, q, fetches, true);
    while got
      invariant buffer.Valid() && recvline != buffer.buf && sendline != buffer.buf && recvline != sendline
      invariant sendline.Length == MAXLINE
      invariant Fetched(got, sendline[..], q.input, fp.rest, fp.failed)
      invariant q.stream == buffer.Abs(sockIn) && q.memory == recvline[..]
      invariant Settled(p, q, sent0, shown0, Output(sockOut.log, stdout.log, sockOut.broken))
      invariant !sockOut.broken ==> RepliesInStep(replies, sockIn.marks, p) && FetchesInStep(fetches, fp.marks, p)
      invariant old(sockOut.broken) ==> sockOut.broken
      decreases |q.input|, got
    {
      var n;
      n, got := Turn(fp, sockIn, buffer, sockOut, stdout, sendline, recvline, p, q, sent0, shown0, replies, fetches);
      if n == 0 {
        return false;
      }
      q := NextPoint(q);
    }
    return true;
  }

  /** After a read error the line buffer is shown with what has been read of a line laid over it, and the
      next line is fetched all the same. */
  lemma ErrorShowsBuffer(input: seq<Byte>, part: seq<Event>, code: nat, stream: seq<Event>, memory: seq<Byte>)
    requires input != [] && |memory| == MAXLINE && OnlyBytes(part)
    requires |DataOf(part)| + 1 < MAXLINE && NEWLINE !in DataOf(part)
    ensures var o, all := Lockstep(AfterCut(input), stream, DataOf(part) + memory[|DataOf(part)|..]),
                          Lockstep(input, part + [Fault(code)] + stream, memory);
            all == (Cstr(Cut(input)) + o.0, Cstr(DataOf(part) + memory[|DataOf(part)|..]) + o.1, o.2)
  {
    ErrorEndsLine(part, code, stream);
    CutProgress(input);
    NothingMore(DataOf(part));
    var line, text, more, morePrint := LockstepStep(input, part + [Fault(code)] + stream, memory);
  }

  /** The partial line is returned as an error, unterminated. */
  lemma ErrorEndsLine(part: seq<Event>, code: nat, stream: seq<Event>)
    requires OnlyBytes(part) && |DataOf(part)| + 1 < MAXLINE && NEWLINE !in DataOf(part)
    ensures Line(part + [Fault(code)] + stream, MAXLINE, [])
         == Outcome(-1, Some(code), DataOf(part), false, stream)
  {
    var used := part + [Fault(code)];
    DataOfConcat(part, [Fault(code)]);
    DataOfAll(part);
    assert DataOf([Fault(code)]) == [] by { assert [Fault(code)][1..] == []; }
    assert [] + DataOf(used) == DataOf(part);
    LineIsUnique(used + stream, MAXLINE, [], Outcome(-1, Some(code), DataOf(part), false, stream), used, AtFault(code));
  }

  lemma {:induction false} DataOfAll(part: seq<Event>)
    ensures forall ev :: ev in part && ev.Data? ==> ev.b in DataOf(part)
  {
    if part == [] {
    } else {
      DataOfAll(part[1..]);
      assert part == [part[0]] + part[1..];
    }
  }

  /** main prints nothing of a line that a read error cuts off, and nothing after it. */
  lemma ErrorEndsPrinting(part: seq<Event>, code: nat, stream: seq<Event>)
    requires OnlyBytes(part) && |DataOf(part)| + 1 < MAXLINE && NEWLINE !in DataOf(part)
    ensures Printed(part + [Fault(code)] + stream) == []
  {
    ErrorEndsLine(part, code, stream);
  }

  /** What the client does next with one line, and what it does after that. */
  lemma LockstepStep(input: seq<Byte>, stream: seq<Event>, memory: seq<Byte>)
      returns (line: seq<Byte>, text: seq<Byte>, more: seq<Byte>, morePrint: seq<Byte>)
    requires input != []
    ensures |AfterCut(input)| < |input| && line == Cstr(Cut(input))
    ensures var o := Line(stream, MAXLINE, []);
            var all := Lockstep(input, stream, memory);
            && text == Cstr(Over(o, memory))
            && if o.ret == 0 then more == [] && morePrint == [] && all == (line + more, [], false)
               else Lockstep(AfterCut(input), o.rest, Over(o, memory)) == (more, morePrint, all.2)
                    && all == (line + more, text + morePrint, all.2)
  {
    CutProgress(input);
    var o := Line(stream, MAXLINE, []);
    line, text := Cstr(Cut(input)), Cstr(Over(o, memory));
    if o.ret == 0 {
      more, morePrint := [], [];
      assert line + [] == line;
    } else {
      var rest := Lockstep(AfterCut(input), o.rest, Over(o, memory));
      more, morePrint := rest.0, rest.1;
    }
  }

  /** readline on a stream that starts with a cut of fgets reads just that cut. */
  lemma {:induction false} CutIsRead(stream: seq<Event>, stored: seq<Byte>, cut: seq<Byte>, rest: seq<Byte>)
    requires OnlyBytes(stream) && DataOf(stream) == cut + rest
    requires LockstepClient.EndsLine(stored + cut) && LockstepClient.OneLine(cut) && cut != []
             && |stored + cut| < MAXLINE
    ensures var o := Line(stream, MAXLINE, stored);
            o.stored == stored + cut && DataOf(o.rest) == rest && OnlyBytes(o.rest) && o.ret > 0 && o.terminated
    decreases |stream|
  {
    if stream[0].Intr? {
      CutIsRead(stream[1..], stored, cut, rest);
    } else {
      var b := stream[0].b;
      assert DataOf(stream)[0] == cut[0] && DataOf(stream)[1..] == cut[1..] + rest;
      assert (stored + cut)[|stored + cut| - 1] == cut[|cut| - 1];
      if |cut| == 1 {
        assert cut == [b] && cut[1..] + rest == rest;
      } else {
        assert stored + cut == (stored + [b]) + cut[1..];
        CutIsRead(stream[1..], stored + [b], cut[1..], rest);
      }
    }
  }

  /** If what was sent comes back, with reads interrupted anywhere, and every cut of the input ends as a line,
      the cuts of fgets and of readline coincide: the client prints its input. */
  lemma {:induction false} EchoIsPrinted(input: seq<Byte>, stream: seq<Event>, memory: seq<Byte>)
    requires NUL !in input && CutsEndAsLines(input) && |memory| == MAXLINE
    requires OnlyBytes(stream) && DataOf(stream) == input
    ensures Lockstep(input, stream, memory) == (input, input, true)
    decreases |input|
  {
    if input == [] {
    } else {
      CutProgress(input);
      var cut, rest := Cut(input), AfterCut(input);
      CstrWhole(cut);
      LockstepClient.CutIsOneLine(input);
      assert [] + cut == cut;
      CutIsRead(stream, [], cut, rest);
      var o := Line(stream, MAXLINE, []);
      CstrStops(cut, Over(o, memory));
      EchoIsPrinted(rest, o.rest, Over(o, memory));
      var line, text, more, morePrint := LockstepStep(input, stream, memory);
      assert line == text == cut && more == morePrint == rest;
    }
  }

  predicate CutsEndAsLines(input: seq<Byte>)
    decreases |input|
  {
    input == [] || (CutProgress(input); LockstepClient.EndsLine(Cut(input)) && CutsEndAsLines(AfterCut(input)))
  }
}
