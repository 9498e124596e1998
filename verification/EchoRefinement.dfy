/** The step systems of the echo service against its code: what the server, copyto, the reader thread and
    the lock-step client do in a run is what the contracts of EchoPrograms say of the bytes they are given. */
module EchoRefinement {
  import opened Bytes
  import opened Stdio
  import opened Streams
  import opened Readline
  import opened EchoNet
  import opened Runs
  import EchoPrograms
  import ThreadClient
  import LockstepClient

  // ------------------------------------------------------------------------ str_echo

  /** The server's moves, with the connection before each and at the end. Between them others may do to the
      channels what they like. */
  ghost predicate ServerRun(nets: seq<Net>, moves: seq<ServerMove>) {
    && |nets| == |moves| + 1
    && forall i :: 0 <= i < |moves| ==>
         ServerNext(nets[i], moves[i]).Some? && nets[i + 1].server == ServerNext(nets[i], moves[i]).value.server
  }

  function ReadBy(nets: seq<Net>, moves: seq<ServerMove>): seq<Event>
    requires |nets| == |moves| + 1
  {
    if moves == [] then [] else ReadIn(nets[0], moves[0]) + ReadBy(nets[1..], moves[1..])
  }

  function ReadIn(n: Net, m: ServerMove): seq<Event> {
    match m
    case SRead(k) => if k <= |n.c2s| then Events(n.c2s[..k]) else []
    case SEof => [Eof]
    case SIntr => [Intr]
    case SWrite(_) => []
  }

  function WrittenBy(nets: seq<Net>, moves: seq<ServerMove>): seq<Byte>
    requires |nets| == |moves| + 1
  {
    if moves == [] then [] else WrittenIn(nets[0], moves[0]) + WrittenBy(nets[1..], moves[1..])
  }

  function WrittenIn(n: Net, m: ServerMove): seq<Byte> {
    if m.SWrite? && m.k <= |Unsent(n.server)| then Unsent(n.server)[..m.k] else []
  }

  lemma ServerReads(n: Net, k: nat, later: seq<Event>)
    requires ServerNext(n, SRead(k)).Some?
    ensures ServerSteps(n, SRead(k), later)
  {
    EchoPrograms.ToEndOfData(n.c2s[..k], later);
  }

  lemma ServerWrites(n: Net, k: nat, later: seq<Event>)
    requires ServerNext(n, SWrite(k)).Some?
    ensures ServerSteps(n, SWrite(k), later)
  {
    assert ReadIn(n, SWrite(k)) + later == later;
    var rest := n.server.rest;
    assert rest == rest[..k] + rest[k..];
    assert rest[..k] + (rest[k..] + EchoPrograms.ToEnd(later)) == rest + EchoPrograms.ToEnd(later);
  }

  /** What is unsent and what is to be read, before a move and after it. */
  ghost predicate ServerSteps(n: Net, m: ServerMove, later: seq<Event>)
    requires ServerNext(n, m).Some?
  {
    Unsent(n.server) + EchoPrograms.ToEnd(ReadIn(n, m) + later)
    == WrittenIn(n, m) + (Unsent(ServerNext(n, m).value.server) + EchoPrograms.ToEnd(later))
  }

  lemma ServerStep(n: Net, m: ServerMove, later: seq<Event>)
    requires ServerNext(n, m).Some? && !m.SEof?
    ensures ServerSteps(n, m, later)
  {
    match m {
      case SRead(k) => ServerReads(n, k, later);
      case SWrite(k) => ServerWrites(n, k, later);
      case SIntr =>
        assert ([Intr] + later)[1..] == later;
    }
  }

  lemma Chain(x: seq<Byte>, a: seq<Byte>, y: seq<Byte>, b: seq<Byte>, z: seq<Byte>)
    requires x == a + y && y == b + z
    ensures x == (a + b) + z
  {
  }

  lemma RunOfRest(nets: seq<Net>, moves: seq<ServerMove>)
    requires ServerRun(nets, moves) && moves != []
    ensures ServerRun(nets[1..], moves[1..])
  {
  }

  lemma NothingAfterEof(nets: seq<Net>, moves: seq<ServerMove>)
    requires ServerRun(nets, moves) && moves != [] && moves[0].SEof?
    ensures moves[1..] == []
  {
    if |moves| > 1 {
      GoneIsStuck(nets[1], moves[1]);
    }
  }

  lemma GoneIsStuck(n: Net, m: ServerMove)
    requires n.server.Closed?
    ensures ServerNext(n, m).None?
  {
  }

  /** str_echo: at every point of every run what the server has written, and what it has yet to write, is
      what EchoPrograms.StrEcho sends back for what has been read. */
  lemma {:induction false} ServerIsStrEcho(nets: seq<Net>, moves: seq<ServerMove>)
    requires ServerRun(nets, moves)
    ensures Unsent(nets[0].server) + EchoPrograms.ToEnd(ReadBy(nets, moves))
         == WrittenBy(nets, moves) + Unsent(nets[|moves|].server)
    decreases |moves|
  {
    if moves == [] {
    } else {
      RunOfRest(nets, moves);
      ServerIsStrEcho(nets[1..], moves[1..]);
      var later := ReadBy(nets[1..], moves[1..]);
      var written, last := WrittenBy(nets[1..], moves[1..]), Unsent(nets[|moves|].server);
      if moves[0].SEof? {
        NothingAfterEof(nets, moves);
      } else {
        ServerStep(nets[0], moves[0], later);
        Chain(Unsent(nets[0].server) + EchoPrograms.ToEnd(ReadBy(nets, moves)), WrittenIn(nets[0], moves[0]),
              Unsent(nets[1].server) + EchoPrograms.ToEnd(later), written, last);
      }
    }
  }

  /** When the server is gone, it has read to the end of file. */
  lemma {:induction false} GoneAtEof(nets: seq<Net>, moves: seq<ServerMove>)
    requires ServerRun(nets, moves) && !nets[0].server.Closed? && nets[|moves|].server.Closed?
    ensures var read := ReadBy(nets, moves); read != [] && read[|read| - 1] == Eof
    decreases |moves|
  {
    RunOfRest(nets, moves);
    if moves[0].SEof? {
      NothingAfterEof(nets, moves);
    } else {
      GoneAtEof(nets[1..], moves[1..]);
    }
  }

  // -------------------------------------------------------------- the reader thread

  /** What the reader thread's reads run into. */
  function ReaderGets(s: ThreadClient.State, m: ThreadClient.Move): seq<Event> {
    match m
    case Read(k) => if k <= |s.net.s2c| then Events(s.net.s2c[..k]) else []
    case ReadEof => [Eof]
    case _ => []
  }

  /** What is printed of a stream with `line` already stored. */
  function PrintedFrom(line: seq<Byte>, stream: seq<Event>): seq<Byte> {
    var o := Line(stream, MAXLINE, line);
    if o.ret > 0 then Cstr(o.stored) + EchoPrograms.Printed(o.rest) else []
  }

  /** What the thread will still print if `future` is what its reads run into. */
  function StillToPrint(s: ThreadClient.State, future: seq<Event>): seq<Byte> {
    if s.returned then [] else PrintedFrom(s.line, Events(s.unread) + future)
  }

  lemma TakenByte(line: seq<Byte>, unread: seq<Byte>, future: seq<Event>)
    requires |line| + 1 < MAXLINE && unread != []
    ensures var more, rest := line + [unread[0]], Events(unread[1..]) + future;
            var ends := unread[0] == NEWLINE || |more| + 1 >= MAXLINE;
            var o := Line(Events(unread) + future, MAXLINE, line);
            if ends then o.stored == more && o.rest == rest && o.ret > 0 && o.terminated
            else o == Line(rest, MAXLINE, more)
  {
    assert (Events(unread) + future)[1..] == Events(unread[1..]) + future;
  }

  predicate LineHasRoom(s: ThreadClient.State) {
    |s.line| + 1 < MAXLINE
  }

  /** What a move prints. */
  function ReaderPrints(s: ThreadClient.State, m: ThreadClient.Move): seq<Byte> {
    if ThreadClient.Next(s, m).None? then []
    else ThreadClient.Next(s, m).value.stdout[Min(|s.stdout|, |ThreadClient.Next(s, m).value.stdout|)..]
  }

  /** What is to be printed before a move and after it. */
  ghost predicate ReaderSteps(s: ThreadClient.State, m: ThreadClient.Move, t: ThreadClient.State, future: seq<Event>) {
    LineHasRoom(t)
    && StillToPrint(s, ReaderGets(s, m) + future) == ReaderPrints(s, m) + StillToPrint(t, future)
  }

  lemma ReaderReads(s: ThreadClient.State, k: nat, future: seq<Event>)
    requires ThreadClient.Next(s, ThreadClient.Read(k)).Some? && LineHasRoom(s)
    ensures ReaderSteps(s, ThreadClient.Read(k), ThreadClient.Next(s, ThreadClient.Read(k)).value, future)
  {
    var got := Events(s.net.s2c[..k]);
    assert Events([]) + (got + future) == got + future;
  }

  lemma ReaderTakes(s: ThreadClient.State, future: seq<Event>)
    requires ThreadClient.Next(s, ThreadClient.TakeByte).Some? && LineHasRoom(s)
    ensures ReaderSteps(s, ThreadClient.TakeByte, ThreadClient.Next(s, ThreadClient.TakeByte).value, future)
  {
    assert [] + future == future;
    TakenByte(s.line, s.unread, future);
    var more, rest := s.line + [s.unread[0]], Events(s.unread[1..]) + future;
    assert PrintedFrom([], rest) == EchoPrograms.Printed(rest);
    assert (s.stdout + Cstr(more))[|s.stdout|..] == Cstr(more);
  }

  lemma ReaderAtEof(s: ThreadClient.State, future: seq<Event>)
    requires ThreadClient.Next(s, ThreadClient.ReadEof).Some? && LineHasRoom(s)
    ensures ReaderSteps(s, ThreadClient.ReadEof, ThreadClient.Next(s, ThreadClient.ReadEof).value, future)
  {
    assert Events([]) + ([Eof] + future) == [Eof] + future && ([Eof] + future)[1..] == future;
    assert Events([]) + future == future;
    assert PrintedFrom([], future) == EchoPrograms.Printed(future);
    assert (s.stdout + Cstr(s.line))[|s.stdout|..] == Cstr(s.line);
  }

  lemma ReaderStep(s: ThreadClient.State, m: ThreadClient.Move, future: seq<Event>)
    requires ThreadClient.Next(s, m).Some? && LineHasRoom(s)
    ensures ReaderSteps(s, m, ThreadClient.Next(s, m).value, future)
  {
    match m {
      case Read(k) => ReaderReads(s, k, future);
      case TakeByte => ReaderTakes(s, future);
      case ReadEof => ReaderAtEof(s, future);
      case _ =>
        assert [] + future == future;
    }
  }

  lemma ReaderRun(s: ThreadClient.State, moves: seq<ThreadClient.Move>, future: seq<Event>)
    requires Exec(ThreadClient.Next, s, moves).Some? && LineHasRoom(s)
    ensures var t := Exec(ThreadClient.Next, s, moves).value;
            StillToPrint(s, Trace(ThreadClient.Next, ReaderGets, s, moves) + future)
            == Trace(ThreadClient.Next, ReaderPrints, s, moves) + StillToPrint(t, future)
  {
    forall t, m | LineHasRoom(t) && ThreadClient.Next(t, m).Some?
      ensures LineHasRoom(ThreadClient.Next(t, m).value)
    {
      ReaderStep(t, m, []);
    }
    forall t, m, later | LineHasRoom(t) && ThreadClient.Next(t, m).Some?
      ensures StillToPrint(t, ReaderGets(t, m) + later)
           == ReaderPrints(t, m) + StillToPrint(ThreadClient.Next(t, m).value, later)
    {
      ReaderStep(t, m, later);
    }
    HandsOut(ThreadClient.Next, LineHasRoom, ReaderGets, ReaderPrints, StillToPrint, s, moves, future);
  }

  function Stdout(s: ThreadClient.State): seq<Byte> {
    s.stdout
  }

  lemma StdoutIsTrace(s: ThreadClient.State, moves: seq<ThreadClient.Move>)
    requires Exec(ThreadClient.Next, s, moves).Some?
    ensures Exec(ThreadClient.Next, s, moves).value.stdout
         == s.stdout + Trace(ThreadClient.Next, ReaderPrints, s, moves)
  {
    forall t, m | ThreadClient.Next(t, m).Some?
      ensures Stdout(ThreadClient.Next(t, m).value) == Stdout(t) + ReaderPrints(t, m)
    {
      StdoutGrows(t, m);
    }
    Accumulates(ThreadClient.Next, ReaderPrints, Stdout, s, moves);
  }

  lemma StdoutGrows(s: ThreadClient.State, m: ThreadClient.Move)
    requires ThreadClient.Next(s, m).Some?
    ensures ThreadClient.Next(s, m).value.stdout == s.stdout + ReaderPrints(s, m)
  {
  }

  /** The reader thread: what it prints in a run is the beginning of what EchoPrograms.StrCliThread prints of
      what its reads have run into, and when str_cli returns it is all of that. */
  lemma ReaderIsStrCliThread(start: ThreadClient.State, moves: seq<ThreadClient.Move>)
    requires ThreadClient.Start(start) && Exec(ThreadClient.Next, start, moves).Some?
    ensures var t := Exec(ThreadClient.Next, start, moves).value;
            var got := Trace(ThreadClient.Next, ReaderGets, start, moves);
            t.stdout <= EchoPrograms.Printed(got) && (t.returned ==> t.stdout == EchoPrograms.Printed(got))
  {
    var got := Trace(ThreadClient.Next, ReaderGets, start, moves);
    ReaderRun(start, moves, []);
    StdoutIsTrace(start, moves);
    assert got + [] == got && Events([]) + got == got;
    assert StillToPrint(start, got) == EchoPrograms.Printed(got);
  }

  // -------------------------------------------------------------------------- copyto

  function CopierSends(s: ThreadClient.State, m: ThreadClient.Move): seq<Byte> {
    if m.Write? && s.copier.Sending? && m.k <= |s.copier.rest| then s.copier.rest[..m.k] else []
  }

  lemma CopierStep(s: ThreadClient.State, m: ThreadClient.Move)
    requires ThreadClient.Next(s, m).Some?
    ensures var t := ThreadClient.Next(s, m).value;
            ThreadClient.Pending(s.copier) + Wire(s.stdin)
            == CopierSends(s, m) + (ThreadClient.Pending(t.copier) + Wire(t.stdin))
  {
    match m {
      case Fgets => CopierFetches(s);
      case Write(k) => CopierWrites(s, k);
      case _ =>
    }
  }

  lemma CopierFetches(s: ThreadClient.State)
    requires ThreadClient.Next(s, ThreadClient.Fgets).Some?
    ensures var t := ThreadClient.Next(s, ThreadClient.Fgets).value;
            ThreadClient.Pending(s.copier) + Wire(s.stdin) == [] + (ThreadClient.Pending(t.copier) + Wire(t.stdin))
  {
    if s.stdin != [] {
      ThreadClient.WireStep(s.stdin);
    }
  }

  lemma CopierWrites(s: ThreadClient.State, k: nat)
    requires ThreadClient.Next(s, ThreadClient.Write(k)).Some?
    ensures var t := ThreadClient.Next(s, ThreadClient.Write(k)).value;
            k <= |ThreadClient.Pending(s.copier)| && ThreadClient.Pending(s.copier) + Wire(s.stdin)
            == ThreadClient.Pending(s.copier)[..k] + (ThreadClient.Pending(t.copier) + Wire(t.stdin))
  {
    var rest, wire := s.copier.rest, Wire(s.stdin);
    assert rest == rest[..k] + rest[k..];
    assert rest[..k] + (rest[k..] + wire) == rest + wire;
  }

  /** copyto: what it has sent at any point of a run, with what it has yet to send, is what
      EchoPrograms.CopyTo sends of the same input; and it goes only with a FIN and nothing left in sendline. */
  lemma {:induction false} CopierIsCopyTo(s: ThreadClient.State, moves: seq<ThreadClient.Move>)
    requires Exec(ThreadClient.Next, s, moves).Some? && (s.copier.Stopped? ==> s.net.fin)
    ensures var t := Exec(ThreadClient.Next, s, moves).value;
            && ThreadClient.Pending(s.copier) + Wire(s.stdin)
               == Trace(ThreadClient.Next, CopierSends, s, moves) + (ThreadClient.Pending(t.copier) + Wire(t.stdin))
            && (t.copier.Stopped? ==> t.net.fin && ThreadClient.Pending(t.copier) == [])
    decreases |moves|
  {
    if moves == [] {
    } else {
      var u := ThreadClient.Next(s, moves[0]).value;
      var t := Exec(ThreadClient.Next, s, moves).value;
      CopierStep(s, moves[0]);
      StoppedHasFin(s, moves[0]);
      CopierIsCopyTo(u, moves[1..]);
      Chain(ThreadClient.Pending(s.copier) + Wire(s.stdin), CopierSends(s, moves[0]),
            ThreadClient.Pending(u.copier) + Wire(u.stdin), Trace(ThreadClient.Next, CopierSends, u, moves[1..]),
            ThreadClient.Pending(t.copier) + Wire(t.stdin));
    }
  }

  lemma StoppedHasFin(s: ThreadClient.State, m: ThreadClient.Move)
    requires ThreadClient.Next(s, m).Some? && (s.copier.Stopped? ==> s.net.fin)
    ensures var t := ThreadClient.Next(s, m).value; t.copier.Stopped? ==> t.net.fin
  {
  }

  // ------------------------------------------------------------- the lock-step client

  function ClientGets(s: LockstepClient.State, m: LockstepClient.Move): seq<Event> {
    match m
    case Read(k) => if k <= |s.net.s2c| then Events(s.net.s2c[..k]) else []
    case ReadEof => [Eof]
    case _ => []
  }

  function ClientSends(s: LockstepClient.State, m: LockstepClient.Move): seq<Byte> {
    if m.Write? && s.phase.Sending? && m.k <= |s.phase.rest| then s.phase.rest[..m.k] else []
  }

  /** What the client is to send and to print, and whether it ends without missing the server. */
  datatype Owed = Owed(sent: seq<Byte>, printed: seq<Byte>, done: bool)

  /** EchoPrograms.Lockstep where no read fails, so that the line buffer's old contents do not show. */
  function Exchange(input: seq<Byte>, stream: seq<Event>): Owed
    decreases |input|, 0
  {
    if input == [] then Owed([], [], true)
    else
      CutProgress(input);
      var reply := Reply(AfterCut(input), stream, []);
      Owed(Cstr(Cut(input)) + reply.sent, reply.printed, reply.done)
  }

  /** From the reading of a reply on, with `line` already stored; `rest` is the input behind it. */
  function Reply(rest: seq<Byte>, stream: seq<Event>, line: seq<Byte>): Owed
    decreases |rest|, 1
  {
    var o := Line(stream, MAXLINE, line);
    if o.ret == 0 then Owed([], [], false)
    else
      var left := Exchange(rest, o.rest);
      Owed(left.sent, Cstr(o.stored) + left.printed, left.done)
  }

  function StillOwed(s: LockstepClient.State, future: seq<Event>): Owed {
    var stream := Events(s.unread) + future;
    match s.phase
    case Fetching => Exchange(s.stdin, stream)
    case Sending(_, rest) =>
      var left := Reply(s.stdin, stream, []);
      Owed(rest + left.sent, left.printed, left.done)
    case Receiving(_, line) => Reply(s.stdin, stream, line)
    case Done => Exchange(s.stdin, stream)
    case Terminated => Owed([], [], false)
  }

  predicate RoomForLine(s: LockstepClient.State) {
    s.phase.Receiving? ==> |s.phase.line| + 1 < MAXLINE
  }

  function ToSend(s: LockstepClient.State, future: seq<Event>): seq<Byte> {
    StillOwed(s, future).sent
  }

  /** What is printed and to be printed, and whether it ends well. */
  function Printing(s: LockstepClient.State, future: seq<Event>): (seq<Byte>, bool) {
    (s.stdout + StillOwed(s, future).printed, StillOwed(s, future).done)
  }

  /** One move on, from `s` to `t`. */
  ghost predicate Pays(s: LockstepClient.State, m: LockstepClient.Move, t: LockstepClient.State, future: seq<Event>) {
    && ToSend(s, ClientGets(s, m) + future) == ClientSends(s, m) + ToSend(t, future)
    && Printing(s, ClientGets(s, m) + future) == Printing(t, future)
    && RoomForLine(t)
  }

  lemma ClientTakesByte(s: LockstepClient.State, future: seq<Event>)
    requires LockstepClient.Next(s, LockstepClient.TakeByte).Some? && RoomForLine(s)
    ensures Pays(s, LockstepClient.TakeByte, LockstepClient.Next(s, LockstepClient.TakeByte).value, future)
  {
    assert [] + future == future;
    TakenByte(s.phase.line, s.unread, future);
    var line := s.phase.line + [s.unread[0]];
    assert line[|line| - 1] == s.unread[0];
    PrintedThenLater(s.stdout, Cstr(line), Exchange(s.stdin, Events(s.unread[1..]) + future).printed);
  }

  lemma PrintedThenLater(out: seq<Byte>, text: seq<Byte>, later: seq<Byte>)
    ensures out + (text + later) == (out + text) + later
  {
  }

  lemma ClientAtEof(s: LockstepClient.State, future: seq<Event>)
    requires LockstepClient.Next(s, LockstepClient.ReadEof).Some? && RoomForLine(s)
    ensures Pays(s, LockstepClient.ReadEof, LockstepClient.Next(s, LockstepClient.ReadEof).value, future)
  {
    assert Events([]) + ([Eof] + future) == [Eof] + future && ([Eof] + future)[1..] == future;
    assert Events([]) + future == future;
    PrintedThenLater(s.stdout, Cstr(s.phase.line), Exchange(s.stdin, future).printed);
  }

  lemma ClientFetches(s: LockstepClient.State, future: seq<Event>)
    requires LockstepClient.Next(s, LockstepClient.Fgets).Some?
    ensures Pays(s, LockstepClient.Fgets, LockstepClient.Next(s, LockstepClient.Fgets).value, future)
  {
    assert [] + future == future;
    if s.stdin != [] {
      CutProgress(s.stdin);
    }
  }

  lemma ClientWrites(s: LockstepClient.State, k: nat, future: seq<Event>)
    requires LockstepClient.Next(s, LockstepClient.Write(k)).Some?
    ensures Pays(s, LockstepClient.Write(k), LockstepClient.Next(s, LockstepClient.Write(k)).value, future)
  {
    assert [] + future == future;
    var rest := s.phase.rest;
    var left := Reply(s.stdin, Events(s.unread) + future, []);
    assert rest == rest[..k] + rest[k..];
    assert rest[..k] + (rest[k..] + left.sent) == rest + left.sent;
  }

  lemma ClientStep(s: LockstepClient.State, m: LockstepClient.Move, future: seq<Event>)
    requires LockstepClient.Next(s, m).Some? && RoomForLine(s)
    ensures Pays(s, m, LockstepClient.Next(s, m).value, future)
  {
    match m {
      case Fgets => ClientFetches(s, future);
      case Write(k) => ClientWrites(s, k, future);
      case Read(k) =>
        var got := s.net.s2c[..k];
        assert Events([]) + (Events(got) + future) == Events(got) + future;
      case TakeByte => ClientTakesByte(s, future);
      case ReadEof => ClientAtEof(s, future);
      case _ =>
        assert [] + future == future;
    }
  }

  lemma ClientRunSends(s: LockstepClient.State, moves: seq<LockstepClient.Move>, future: seq<Event>)
    requires Exec(LockstepClient.Next, s, moves).Some? && RoomForLine(s)
    ensures ToSend(s, Trace(LockstepClient.Next, ClientGets, s, moves) + future)
         == Trace(LockstepClient.Next, ClientSends, s, moves)
            + ToSend(Exec(LockstepClient.Next, s, moves).value, future)
  {
    forall t, m | RoomForLine(t) && LockstepClient.Next(t, m).Some?
      ensures RoomForLine(LockstepClient.Next(t, m).value)
    {
      ClientStep(t, m, []);
    }
    forall t, m, later | RoomForLine(t) && LockstepClient.Next(t, m).Some?
      ensures ToSend(t, ClientGets(t, m) + later)
           == ClientSends(t, m) + ToSend(LockstepClient.Next(t, m).value, later)
    {
      ClientStep(t, m, later);
    }
    HandsOut(LockstepClient.Next, RoomForLine, ClientGets, ClientSends, ToSend, s, moves, future);
  }

  lemma {:induction false} ClientRunPrints(s: LockstepClient.State, moves: seq<LockstepClient.Move>, future: seq<Event>)
    requires Exec(LockstepClient.Next, s, moves).Some? && RoomForLine(s)
    ensures Printing(s, Trace(LockstepClient.Next, ClientGets, s, moves) + future)
         == Printing(Exec(LockstepClient.Next, s, moves).value, future)
    decreases |moves|
  {
    if moves == [] {
      assert [] + future == future;
    } else {
      var u := LockstepClient.Next(s, moves[0]).value;
      var later := Trace(LockstepClient.Next, ClientGets, u, moves[1..]);
      ClientStep(s, moves[0], later + future);
      ClientRunPrints(u, moves[1..], future);
      assert Trace(LockstepClient.Next, ClientGets, s, moves) + future == ClientGets(s, moves[0]) + (later + future);
    }
  }

  lemma {:induction false} ExchangeIsLockstep(input: seq<Byte>, stream: seq<Event>, memory: seq<Byte>)
    requires |memory| == MAXLINE && forall ev :: ev in stream ==> !ev.Fault?
    ensures var all, owed := EchoPrograms.Lockstep(input, stream, memory), Exchange(input, stream);
            all == (owed.sent, owed.printed, owed.done)
    decreases |input|
  {
    if input == [] {
    } else {
      CutProgress(input);
      var o := Line(stream, MAXLINE, []);
      LineWithoutFault(stream, memory);
      if o.ret == 0 {
        assert Cstr(Cut(input)) + [] == Cstr(Cut(input));
      } else {
        ExchangeIsLockstep(AfterCut(input), o.rest, EchoPrograms.Over(o, memory));
      }
    }
  }

  lemma LineWithoutFault(stream: seq<Event>, memory: seq<Byte>)
    requires |memory| == MAXLINE && forall ev :: ev in stream ==> !ev.Fault?
    ensures var o := Line(stream, MAXLINE, []);
            && (forall ev :: ev in o.rest ==> !ev.Fault?)
            && |EchoPrograms.Over(o, memory)| == MAXLINE && Cstr(EchoPrograms.Over(o, memory)) == Cstr(o.stored)
  {
    var used, ending := LineIsLine(stream, MAXLINE, []);
    var o := Line(stream, MAXLINE, []);
    assert used != [] ==> used[|used| - 1] == stream[|used| - 1];
    assert forall i :: 0 <= i < |o.rest| ==> o.rest[i] == stream[|used| + i];
    EchoPrograms.CstrStops(o.stored, EchoPrograms.Over(o, memory));
  }

  lemma {:induction false} NoFaultIsRead(s: LockstepClient.State, moves: seq<LockstepClient.Move>)
    ensures forall ev :: ev in Trace(LockstepClient.Next, ClientGets, s, moves) ==> !ev.Fault?
    decreases |moves|
  {
    if moves == [] || LockstepClient.Next(s, moves[0]).None? {
    } else {
      NoFaultIsRead(LockstepClient.Next(s, moves[0]).value, moves[1..]);
    }
  }

  /** The lock-step client: in a run it sends and prints the beginnings of what EchoPrograms.StrCli does with
      the same input and what its reads have run into, whatever its line buffer held; when it is done it has
      sent and printed what StrCli promises, and when it has missed the server, StrCli exits. */
  lemma ClientIsStrCli(start: LockstepClient.State, moves: seq<LockstepClient.Move>, memory: seq<Byte>)
    requires LockstepClient.Start(start) && Exec(LockstepClient.Next, start, moves).Some? && |memory| == MAXLINE
    ensures var t := Exec(LockstepClient.Next, start, moves).value;
            var got := Trace(LockstepClient.Next, ClientGets, start, moves);
            var sent := Trace(LockstepClient.Next, ClientSends, start, moves);
            var all := EchoPrograms.Lockstep(start.stdin, got, memory);
            var left := EchoPrograms.Lockstep(t.stdin, Events(t.unread), memory);
            && sent <= all.0 && t.stdout <= all.1
            && (t.phase.Done? ==> sent + left.0 == all.0 && t.stdout + left.1 == all.1 && left.2 == all.2)
            && (t.phase.Terminated? ==> sent == all.0 && t.stdout == all.1 && !all.2)
  {
    var t := Exec(LockstepClient.Next, start, moves).value;
    var got := Trace(LockstepClient.Next, ClientGets, start, moves);
    ClientRunSends(start, moves, []);
    ClientRunPrints(start, moves, []);
    NothingMore(got, t.unread);
    NoFaultIsRead(start, moves);
    ExchangeIsLockstep(start.stdin, got, memory);
    ExchangeIsLockstep(t.stdin, Events(t.unread), memory);
    AtTheEnd(start.stdout, t, Trace(LockstepClient.Next, ClientSends, start, moves), Exchange(start.stdin, got));
  }

  lemma NothingMore(got: seq<Event>, unread: seq<Byte>)
    ensures Events([]) + (got + []) == got && Events(unread) + [] == Events(unread)
  {
  }

  lemma AtTheEnd(before: seq<Byte>, t: LockstepClient.State, sent: seq<Byte>, all: Owed)
    requires before == [] && var after := StillOwed(t, []);
             all.sent == sent + after.sent && before + all.printed == t.stdout + after.printed && all.done == after.done
    ensures sent <= all.sent && t.stdout <= all.printed
    ensures t.phase.Done? ==>
              var left := Exchange(t.stdin, Events(t.unread));
              sent + left.sent == all.sent && t.stdout + left.printed == all.printed && left.done == all.done
    ensures t.phase.Terminated? ==> sent == all.sent && t.stdout == all.printed && !all.done
  {
    NothingMore([], t.unread);
    assert before + all.printed == all.printed;
  }

  // ------------------------------------------------------------------ in the same order

  /** EchoPrograms.AtReply where no read fails. */
  ghost predicate AtReplyTo(m: Mark, input: seq<Byte>, stream: seq<Event>, sent: nat, shown: nat)
    decreases |input|, 0
  {
    input != [] && (CutProgress(input);
                    Awaits(m, AfterCut(input), stream, [], sent + |Cstr(Cut(input))|, shown))
  }

  /** In the middle of a reply, with `line` already stored. */
  ghost predicate Awaits(m: Mark, rest: seq<Byte>, stream: seq<Event>, line: seq<Byte>, sent: nat, shown: nat)
    decreases |rest|, 1
  {
    var o := Line(stream, MAXLINE, line);
    (m.sent == sent && m.shown == shown) || (o.ret != 0 && AtReplyTo(m, rest, o.rest, sent, shown + |Cstr(o.stored)|))
  }

  /** The reads from state `s` on, with that much sent and shown before. */
  ghost predicate ReadsFrom(m: Mark, s: LockstepClient.State, future: seq<Event>, sent: nat) {
    var stream, shown := Events(s.unread) + future, |s.stdout|;
    match s.phase
    case Fetching => AtReplyTo(m, s.stdin, stream, sent, shown)
    case Sending(_, rest) => Awaits(m, s.stdin, stream, [], sent + |rest|, shown)
    case Receiving(_, line) => Awaits(m, s.stdin, stream, line, sent, shown)
    case _ => false
  }

  ghost predicate StaysInStep(m: Mark, s: LockstepClient.State, mv: LockstepClient.Move, t: LockstepClient.State,
                              future: seq<Event>, sent: nat) {
    ReadsFrom(m, t, future, sent + |ClientSends(s, mv)|) ==> ReadsFrom(m, s, ClientGets(s, mv) + future, sent)
  }

  lemma TakesByteInStep(m: Mark, s: LockstepClient.State, future: seq<Event>, sent: nat)
    requires LockstepClient.Next(s, LockstepClient.TakeByte).Some? && RoomForLine(s)
    ensures StaysInStep(m, s, LockstepClient.TakeByte, LockstepClient.Next(s, LockstepClient.TakeByte).value, future,
                        sent)
  {
    assert [] + future == future;
    TakenByte(s.phase.line, s.unread, future);
    var line := s.phase.line + [s.unread[0]];
    assert line[|line| - 1] == s.unread[0];
  }

  lemma AtEofInStep(m: Mark, s: LockstepClient.State, future: seq<Event>, sent: nat)
    requires LockstepClient.Next(s, LockstepClient.ReadEof).Some? && RoomForLine(s)
    ensures StaysInStep(m, s, LockstepClient.ReadEof, LockstepClient.Next(s, LockstepClient.ReadEof).value, future,
                        sent)
  {
    assert Events([]) + ([Eof] + future) == [Eof] + future && ([Eof] + future)[1..] == future;
    assert Events([]) + future == future;
  }

  lemma MoveInStep(m: Mark, s: LockstepClient.State, mv: LockstepClient.Move, future: seq<Event>, sent: nat)
    requires LockstepClient.Next(s, mv).Some? && RoomForLine(s)
    ensures StaysInStep(m, s, mv, LockstepClient.Next(s, mv).value, future, sent)
  {
    match mv {
      case Fgets =>
        assert [] + future == future;
        if s.stdin != [] { CutProgress(s.stdin); }
      case Read(k) =>
        var got := s.net.s2c[..k];
        assert Events([]) + (Events(got) + future) == Events(got) + future;
      case TakeByte => TakesByteInStep(m, s, future, sent);
      case ReadEof => AtEofInStep(m, s, future, sent);
      case _ =>
        assert [] + future == future;
    }
  }

  lemma RunInStep(m: Mark, s: LockstepClient.State, moves: seq<LockstepClient.Move>, future: seq<Event>, sent: nat)
    requires Exec(LockstepClient.Next, s, moves).Some? && RoomForLine(s)
    requires ReadsFrom(m, Exec(LockstepClient.Next, s, moves).value, future,
                       sent + |Trace(LockstepClient.Next, ClientSends, s, moves)|)
    ensures ReadsFrom(m, s, Trace(LockstepClient.Next, ClientGets, s, moves) + future, sent)
  {
    var there := (s: LockstepClient.State, future: seq<Event>, sent: nat) => ReadsFrom(m, s, future, sent);
    forall t, mv | RoomForLine(t) && LockstepClient.Next(t, mv).Some?
      ensures RoomForLine(LockstepClient.Next(t, mv).value)
    {
      ClientStep(t, mv, []);
    }
    forall t, mv, later, k: nat | RoomForLine(t) && LockstepClient.Next(t, mv).Some?
                                  && there(LockstepClient.Next(t, mv).value, later, k + |ClientSends(t, mv)|)
      ensures there(t, ClientGets(t, mv) + later, k)
    {
      MoveInStep(m, t, mv, later, k);
    }
    CarriesBack(LockstepClient.Next, RoomForLine, ClientGets, ClientSends, there, s, moves, future, sent);
  }

  lemma {:induction false} InStepIsAtReply(m: Mark, input: seq<Byte>, stream: seq<Event>, memory: seq<Byte>, sent: nat,
                                           shown: nat)
    requires |memory| == MAXLINE && forall ev :: ev in stream ==> !ev.Fault?
    ensures AtReplyTo(m, input, stream, sent, shown)
            <==> EchoPrograms.AtReply(m, EchoPrograms.Point(input, stream, memory, sent, shown))
    decreases |input|
  {
    if input == [] {
    } else {
      CutProgress(input);
      LineWithoutFault(stream, memory);
      var o := Line(stream, MAXLINE, []);
      InStepIsAtReply(m, AfterCut(input), o.rest, EchoPrograms.Over(o, memory), sent + |Cstr(Cut(input))|,
                      shown + |Cstr(o.stored)|);
    }
  }

  /** The lock-step client of the step system is in the same order as the code: whenever it reads a reply, that
      line and all before have been sent, nothing of a later one has, and all earlier replies are shown. */
  lemma ClientReadsInStep(start: LockstepClient.State, moves: seq<LockstepClient.Move>, memory: seq<Byte>, left: nat)
    requires LockstepClient.Start(start) && Exec(LockstepClient.Next, start, moves).Some? && |memory| == MAXLINE
    requires Exec(LockstepClient.Next, start, moves).value.phase.Receiving?
    ensures var t := Exec(LockstepClient.Next, start, moves).value;
            var got := Trace(LockstepClient.Next, ClientGets, start, moves);
            var sent := Trace(LockstepClient.Next, ClientSends, start, moves);
            EchoPrograms.AtReply(Mark(|sent|, |t.stdout|, left), EchoPrograms.Point(start.stdin, got, memory, 0, 0))
  {
    var t := Exec(LockstepClient.Next, start, moves).value;
    var got := Trace(LockstepClient.Next, ClientGets, start, moves);
    var m := Mark(|Trace(LockstepClient.Next, ClientSends, start, moves)|, |t.stdout|, left);
    RunInStep(m, start, moves, [], 0);
    NothingMore(got, []);
    NoFaultIsRead(start, moves);
    InStepIsAtReply(m, start.stdin, got, memory, 0, 0);
  }
}
