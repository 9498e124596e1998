/** nonblock/strclinonb.c: str_cli relays standard input to the socket and the socket to standard
    output through two buffers, with non-blocking calls throughout. */
module NonblockRelay {
  import opened Bytes
  import opened Runs

  /** A buffer as seen from outside: where its data starts, and the data. */
  datatype Buf = Buf(off: nat, data: seq<Byte>) {
    /** Bytes free behind the data: what the code passes to read. */
    function Room(): int {
      MAXLINE - (off + |data|)
    }
    ghost predicate Valid() {
      Room() >= 0 && (data == [] ==> off == 0)
    }
    /** read stored bytes behind the data. */
    function Filled(bytes: seq<Byte>): Buf {
      Buf(off, data + bytes)
    }
    /** write took `n` bytes; a buffer that is empty then starts over at its base. */
    function Drained(n: nat): Buf {
      if n >= |data| then Buf(0, []) else Buf(off + n, data[n..])
    }
  }

  /** How str_cli ends: at the socket's EOF, after or before that of standard input, or on an error. */
  datatype Ending = Running | Normal | Premature | Failed

  /** `fins` counts the calls of shutdown. */
  datatype Relay = Relay(to: Buf, fr: Buf, stdinEof: bool, fins: nat, ending: Ending)

  /** The four descriptor-set bits that an iteration works on. */
  datatype Ready = Ready(stdin: bool, sockIn: bool, sockOut: bool, stdout: bool)

  datatype ReadResult = Got(bytes: seq<Byte>) | EndOfFile | ReadAgain | ReadError
  datatype WriteResult = Wrote(n: nat) | WriteAgain | WriteError

  /** The bits set before select: lines 47 to 56. */
  function Interest(r: Relay): Ready {
    Ready(!r.stdinEof && r.to.Room() > 0, r.fr.Room() > 0, r.to.data != [], r.fr.data != [])
  }

  predicate Within(ready: Ready, interest: Ready) {
    && (ready.stdin ==> interest.stdin) && (ready.sockIn ==> interest.sockIn)
    && (ready.sockOut ==> interest.sockOut) && (ready.stdout ==> interest.stdout)
  }

  predicate LegalRead(b: Buf, res: ReadResult) {
    res.Got? ==> 1 <= |res.bytes| <= b.Room()
  }

  predicate LegalWrite(b: Buf, res: WriteResult) {
    res.Wrote? ==> res.n <= |b.data|
  }

  // ---------------------------------------------------- the four parts of an iteration

  /** Lines 60 to 85, with the read's result. */
  function OnStdin(r: Relay, res: ReadResult): Relay {
    match res
    case Got(bytes) => r.(to := r.to.Filled(bytes))
    case EndOfFile => r.(stdinEof := true, fins := if r.to.data == [] then r.fins + 1 else r.fins)
    case ReadAgain => r
    case ReadError => r.(ending := Failed)
  }

  /** Lines 87 to 115. */
  function OnSocket(r: Relay, res: ReadResult): Relay {
    match res
    case Got(bytes) => r.(fr := r.fr.Filled(bytes))
    case EndOfFile => r.(ending := if r.stdinEof then Normal else Premature)
    case ReadAgain => r
    case ReadError => r.(ending := Failed)
  }

  /** Lines 117 to 134. */
  function OnStdout(r: Relay, res: WriteResult): Relay {
    match res
    case Wrote(n) => r.(fr := r.fr.Drained(n))
    case WriteAgain => r
    case WriteError => r.(ending := Failed)
  }

  /** Lines 136 to 158: the deferred FIN goes out when the last byte has. */
  function OnSocketOut(r: Relay, res: WriteResult): Relay {
    match res
    case Wrote(n) =>
      r.(to := r.to.Drained(n), fins := if n >= |r.to.data| && r.stdinEof then r.fins + 1 else r.fins)
    case WriteAgain => r
    case WriteError => r.(ending := Failed)
  }

  // ------------------------------------------------------------------------- the code

  class StrCli {
    const to: array<Byte>
    const fr: array<Byte>
    var toiptr: nat
    var tooptr: nat
    var friptr: nat
    var froptr: nat
    var stdineof: bool
    var shutdowns: nat
    var ending: Ending

    ghost predicate Valid()
      reads this
    {
      && to.Length == fr.Length == MAXLINE && to != fr
      && tooptr <= toiptr <= MAXLINE && froptr <= friptr <= MAXLINE
    }

    ghost function State(): Relay
      requires Valid()
      reads this, to, fr
    {
      Relay(Buf(tooptr, to[tooptr..toiptr]), Buf(froptr, fr[froptr..friptr]), stdineof, shutdowns, ending)
    }

    constructor ()
      ensures Valid() && fresh(to) && fresh(fr)
      ensures State() == Relay(Buf(0, []), Buf(0, []), false, 0, Running)
    {
      to := new Byte[MAXLINE](_ => 0);
      fr := new Byte[MAXLINE](_ => 0);
      toiptr, tooptr, friptr, froptr := 0, 0, 0, 0;
      stdineof, shutdowns, ending := false, 0, Running;
    }

    method Select() returns (interest: Ready)
      requires Valid()
      ensures interest == Interest(State())
    {
      interest := Ready(!stdineof && toiptr < MAXLINE, friptr < MAXLINE, tooptr != toiptr, froptr != friptr);
    }

    /** read(STDIN_FILENO, toiptr, &to[MAXLINE]-toiptr) and what follows from its result. */
    method ReadStdin(res: ReadResult) returns (tryWrite: bool)
      requires Valid() && LegalRead(State().to, res)
      modifies this, to
      ensures Valid() && State() == OnStdin(old(State()), res) && tryWrite == res.Got?
    {
      tryWrite := false;
      match res {
        case ReadError => ending := Failed;
        case ReadAgain =>
        case EndOfFile =>
          stdineof := true;
          if tooptr == toiptr {
            shutdowns := shutdowns + 1;
          }
        case Got(bytes) =>
          forall i | 0 <= i < |bytes| {
            to[toiptr + i] := bytes[i];
          }
          toiptr := toiptr + |bytes|;
          tryWrite := true;
          assert to[tooptr..toiptr] == old(to[tooptr..toiptr]) + bytes;
      }
    }

    /** read(sockfd, friptr, &fr[MAXLINE]-friptr); EOF ends str_cli, whatever fr still holds. */
    method ReadSocket(res: ReadResult) returns (tryWrite: bool)
      requires Valid() && LegalRead(State().fr, res)
      modifies this, fr
      ensures Valid() && State() == OnSocket(old(State()), res) && tryWrite == res.Got?
    {
      tryWrite := false;
      match res {
        case ReadError => ending := Failed;
        case ReadAgain =>
        case EndOfFile =>
          if stdineof {
            ending := Normal;
          } else {
            ending := Premature;
          }
        case Got(bytes) =>
          forall i | 0 <= i < |bytes| {
            fr[friptr + i] := bytes[i];
          }
          friptr := friptr + |bytes|;
          tryWrite := true;
          assert fr[froptr..friptr] == old(fr[froptr..friptr]) + bytes;
      }
    }

    method WriteStdout(res: WriteResult)
      requires Valid() && friptr - froptr > 0 && LegalWrite(State().fr, res)
      modifies this
      ensures Valid() && State() == OnStdout(old(State()), res)
    {
      match res {
        case WriteError => ending := Failed;
        case WriteAgain =>
        case Wrote(n) =>
          froptr := froptr + n;
          assert fr[froptr..friptr] == old(fr[froptr..friptr])[n..];
          if froptr == friptr {
            froptr, friptr := 0, 0;
          }
      }
    }

    method WriteSocket(res: WriteResult)
      requires Valid() && toiptr - tooptr > 0 && LegalWrite(State().to, res)
      modifies this
      ensures Valid() && State() == OnSocketOut(old(State()), res)
    {
      match res {
        case WriteError => ending := Failed;
        case WriteAgain =>
        case Wrote(n) =>
          tooptr := tooptr + n;
          assert to[tooptr..toiptr] == old(to[tooptr..toiptr])[n..];
          if tooptr == toiptr {
            toiptr, tooptr := 0, 0;
            if stdineof {
              shutdowns := shutdowns + 1;
            }
          }
      }
    }

    /** The reading half of the loop body; `wset` is the write set with the bits added at 83 and 112. */
    method Reads(ready: Ready, fromStdin: ReadResult, fromSocket: ReadResult) returns (wset: Ready)
      requires Valid() && ending == Running
      requires LegalRead(State().to, fromStdin) && LegalRead(State().fr, fromSocket)
      modifies this, to, fr
      ensures Valid() && State() == AfterReads(old(State()), ready, fromStdin, fromSocket)
      ensures ending == Running ==> wset == WriteSet(ready, fromStdin, fromSocket)
    {
      wset := ready;
      if ready.stdin {
        var tryWrite := ReadStdin(fromStdin);
        if ending != Running { return; }
        wset := wset.(sockOut := wset.sockOut || tryWrite);
      }
      if ready.sockIn {
        var tryWrite := ReadSocket(fromSocket);
        wset := wset.(stdout := wset.stdout || tryWrite);
      }
    }

    /** The writing half of the loop body. */
    method Writes(wset: Ready, toStdout: WriteResult, toSocket: WriteResult)
      requires Valid() && ending == Running
      requires LegalWrite(State().fr, toStdout) && LegalWrite(State().to, toSocket)
      modifies this
      ensures Valid() && State() == AfterWrites(old(State()), wset, toStdout, toSocket)
    {
      if wset.stdout && friptr - froptr > 0 {
        ghost var pending := to[tooptr..toiptr];
        WriteStdout(toStdout);
        if ending != Running { return; }
        assert to[tooptr..toiptr] == pending;
      }
      if wset.sockOut && toiptr - tooptr > 0 {
        WriteSocket(toSocket);
      }
    }

    /** The loop body after select has left `ready`, with the result that each call would have. */
    method Iterate(ready: Ready, fromStdin: ReadResult, fromSocket: ReadResult, toStdout: WriteResult,
                   toSocket: WriteResult)
      requires Valid() && ending == Running
      requires Legal(State(), ready, fromStdin, fromSocket, toStdout, toSocket)
      modifies this, to, fr
      ensures Valid()
      ensures State() == AfterIteration(old(State()), ready, fromStdin, fromSocket, toStdout, toSocket)
    {
      var wset := Reads(ready, fromStdin, fromSocket);
      if ending == Running {
        Writes(wset, toStdout, toSocket);
      }
    }
  }

  /** Both reads of an iteration. */
  function AfterReads(r: Relay, ready: Ready, fromStdin: ReadResult, fromSocket: ReadResult): Relay {
    var r1 := if ready.stdin then OnStdin(r, fromStdin) else r;
    if r1.ending.Running? && ready.sockIn then OnSocket(r1, fromSocket) else r1
  }

  /** What was just read is written at once if it can be. */
  function WriteSet(ready: Ready, fromStdin: ReadResult, fromSocket: ReadResult): Ready {
    ready.(sockOut := ready.sockOut || (ready.stdin && fromStdin.Got?),
           stdout := ready.stdout || (ready.sockIn && fromSocket.Got?))
  }

  /** Both writes. */
  function AfterWrites(r: Relay, wset: Ready, toStdout: WriteResult, toSocket: WriteResult): Relay {
    var r1 := if wset.stdout && r.fr.data != [] then OnStdout(r, toStdout) else r;
    if r1.ending.Running? && wset.sockOut && r1.to.data != [] then OnSocketOut(r1, toSocket) else r1
  }

  /** Results that the four calls can have in turn. */
  predicate Legal(r: Relay, ready: Ready, fromStdin: ReadResult, fromSocket: ReadResult,
                  toStdout: WriteResult, toSocket: WriteResult)
  {
    var r1 := AfterReads(r, ready, fromStdin, fromSocket);
    LegalRead(r.to, fromStdin) && LegalRead(r.fr, fromSocket) && LegalWrite(r1.fr, toStdout)
        && LegalWrite(r1.to, toSocket)
  }

  /** A whole iteration. */
  function AfterIteration(r: Relay, ready: Ready, fromStdin: ReadResult, fromSocket: ReadResult,
                          toStdout: WriteResult, toSocket: WriteResult): Relay
  {
    var r1 := AfterReads(r, ready, fromStdin, fromSocket);
    if r1.ending.Running? then AfterWrites(r1, WriteSet(ready, fromStdin, fromSocket), toStdout, toSocket) else r1
  }

  // --------------------------------------------------------------- how str_cli ends

  /** One iteration: the bits select has left and the result that each call has or would have. */
  datatype Turn = Turn(ready: Ready, fromStdin: ReadResult, fromSocket: ReadResult,
                       toStdout: WriteResult, toSocket: WriteResult)

  function TurnNext(r: Relay, t: Turn): Option<Relay> {
    if r.ending.Running? && Legal(r, t.ready, t.fromStdin, t.fromSocket, t.toStdout, t.toSocket)
    then Some(AfterIteration(r, t.ready, t.fromStdin, t.fromSocket, t.toStdout, t.toSocket)) else None
  }

  predicate StdinEnds(r: Relay, t: Turn) {
    t.ready.stdin && t.fromStdin.EndOfFile?
  }

  predicate StdinFails(t: Turn) {
    t.ready.stdin && t.fromStdin.ReadError?
  }

  predicate SocketEnds(t: Turn) {
    !StdinFails(t) && t.ready.sockIn && t.fromSocket.EndOfFile?
  }

  predicate SocketFails(t: Turn) {
    !StdinFails(t) && t.ready.sockIn && t.fromSocket.ReadError?
  }

  /** Neither read ends the iteration. */
  predicate ReadsOn(t: Turn) {
    !StdinFails(t) && !SocketFails(t) && !SocketEnds(t)
  }

  /** The write to standard output is made if its bit was left or something has just come from the socket,
      and something is there; and it fails. */
  predicate StdoutFails(r: Relay, t: Turn) {
    var got := if t.ready.sockIn && t.fromSocket.Got? then t.fromSocket.bytes else [];
    ReadsOn(t) && (t.ready.stdout || (t.ready.sockIn && t.fromSocket.Got?)) && r.fr.data + got != []
    && t.toStdout.WriteError?
  }

  predicate SocketWriteFails(r: Relay, t: Turn) {
    var got := if t.ready.stdin && t.fromStdin.Got? then t.fromStdin.bytes else [];
    ReadsOn(t) && !StdoutFails(r, t) && (t.ready.sockOut || (t.ready.stdin && t.fromStdin.Got?))
    && r.to.data + got != [] && t.toSocket.WriteError?
  }

  lemma TurnEnding(r: Relay, t: Turn)
    requires TurnNext(r, t).Some?
    ensures var u := TurnNext(r, t).value;
            && (u.ending.Failed? <==> StdinFails(t) || SocketFails(t) || StdoutFails(r, t) || SocketWriteFails(r, t))
            && (u.ending.Normal? <==> SocketEnds(t) && (r.stdinEof || StdinEnds(r, t)))
            && (u.ending.Premature? <==> SocketEnds(t) && !(r.stdinEof || StdinEnds(r, t)))
            && (u.stdinEof <==> r.stdinEof || StdinEnds(r, t))
  {
  }

  predicate AtStdinEof(r: Relay) {
    r.stdinEof
  }

  /** Over any sequence of iterations from the start: str_cli ends normally exactly at the first end of file on
      the socket if standard input has ended by then, in the same iteration at the latest; it reports a
      premature end exactly if it has not; and it fails exactly at the first call that does. */
  lemma EndingsOverRuns(turns: seq<Turn>, last: Turn)
    requires Exec(TurnNext, AtStart(), turns).Some? && TurnNext(Exec(TurnNext, AtStart(), turns).value, last).Some?
    ensures var r := Exec(TurnNext, AtStart(), turns).value;
            var u := TurnNext(r, last).value;
            var ended := Happens(TurnNext, StdinEnds, AtStart(), turns) || StdinEnds(r, last);
            && r.ending.Running?
            && (u.ending.Normal? <==> SocketEnds(last) && ended)
            && (u.ending.Premature? <==> SocketEnds(last) && !ended)
            && (u.ending.Failed? <==>
                  StdinFails(last) || SocketFails(last) || StdoutFails(r, last) || SocketWriteFails(r, last))
  {
    forall r, t | TurnNext(r, t).Some?
      ensures AtStdinEof(TurnNext(r, t).value) <==> AtStdinEof(r) || StdinEnds(r, t)
    {
      TurnEnding(r, t);
    }
    Tells(TurnNext, StdinEnds, AtStdinEof, AtStart(), turns);
    TurnEnding(Exec(TurnNext, AtStart(), turns).value, last);
  }

  function AtStart(): Relay {
    Relay(Buf(0, []), Buf(0, []), false, 0, Running)
  }
}
