/** threads/readline.c called by any number of threads at once. The buffers live on one heap; a
    thread finds its own through its thread-specific value, which its first call sets. */
module ReadlineThreads {
  import opened Bytes
  import opened Streams
  import opened Readline
  import opened Runs

  /** `todo` holds the maxlen arguments of the calls still to make, `call` the bytes stored so far by
      the call in progress, `key` the thread-specific pointer. */
  datatype Thread = Thread(fd: nat, key: Option<nat>, todo: seq<nat>, call: Option<seq<Byte>>, results: seq<Outcome>)

  /** The unread bytes of every Rline, and what every descriptor has still to deliver. */
  datatype State = State(threads: map<nat, Thread>, heap: seq<seq<Byte>>, streams: map<nat, seq<Event>>)

  datatype Op = Enter | ReadData(k: nat) | ReadOther | TakeByte | Leave
  datatype Move = Move(tid: nat, op: Op)

  /** A result as the caller sees it, without the stream. */
  function Seen(o: Outcome): Outcome {
    o.(rest := [])
  }

  function Finish(t: Thread, o: Outcome): Thread
    requires t.todo != []
  {
    t.(results := t.results + [Seen(o)], todo := t.todo[1..], call := None)
  }

  /** A thread with what its call works on: its Rline's unread bytes and its descriptor's stream. */
  datatype View = View(thread: Thread, unread: seq<Byte>, stream: seq<Event>)

  /** One action inside a call; the kernel decides how many bytes a read returns. */
  function Step(v: View, op: Op): Option<View> {
    var t := v.thread;
    if t.todo == [] || t.call.None? then None
    else
      var stored := t.call.value;
      if op.Leave? then
        if |stored| + 1 < t.todo[0] then None
        else Some(v.(thread := Finish(t, Outcome(|stored| + 1, None, stored, true, []))))
      else if |stored| + 1 >= t.todo[0] then None
      else if op.TakeByte? then
        if v.unread == [] then None
        else
          var c := v.unread[0];
          Some(v.(unread := v.unread[1..],
                  thread := if c == NEWLINE then Finish(t, Outcome(|stored| + 1, None, stored + [c], true, []))
                            else t.(call := Some(stored + [c]))))
      else if v.unread != [] then None
      else match op
        case ReadData(k) =>
          if !(1 <= k <= MAXLINE) || k > |v.stream| || exists i :: 0 <= i < k && !v.stream[i].Data? then None
          else Some(v.(unread := DataOf(v.stream[..k]), stream := v.stream[k..]))
        case ReadOther =>
          if v.stream == [] then Some(v.(thread := Finish(t, Outcome(|stored|, None, stored, true, []))))
          else (match v.stream[0]
            case Data(_) => None
            case Intr => Some(v.(stream := v.stream[1..]))
            case Fault(c) =>
              Some(v.(stream := v.stream[1..], thread := Finish(t, Outcome(-1, Some(c), stored, false, []))))
            case Eof =>
              Some(v.(stream := v.stream[1..], thread := Finish(t, Outcome(|stored|, None, stored, true, [])))))
        case Enter => None
  }

  /** One action of one thread of the process. */
  function Next(s: State, m: Move): Option<State> {
    if m.tid !in s.threads then None
    else
      var t := s.threads[m.tid];
      if t.todo == [] || t.fd !in s.streams then None
      else if m.op.Enter? then
        if t.call.Some? then None
        else if t.key.Some? then Some(s.(threads := s.threads[m.tid := t.(call := Some([]))]))
        else Some(s.(heap := s.heap + [[]], threads := s.threads[m.tid := t.(key := Some(|s.heap|), call := Some([]))]))
      else if t.key.None? || t.key.value >= |s.heap| then None
      else match Step(View(t, s.heap[t.key.value], s.streams[t.fd]), m.op)
        case None => None
        case Some(v) => Some(State(s.threads[m.tid := v.thread], s.heap[t.key.value := v.unread],
            s.streams[t.fd := v.stream]))
  }

  /** Calls of the byte-at-a-time reader, one after the other, by a thread that is alone. */
  function Solo(stream: seq<Event>, todo: seq<nat>): (seq<Outcome>, seq<Event>)
    decreases |todo|
  {
    if todo == [] then ([], stream)
    else
      var o := Line(stream, todo[0], []);
      var (more, rest) := Solo(o.rest, todo[1..]);
      ([Seen(o)] + more, rest)
  }

  /** What a thread can still read: its own unread bytes, then its descriptor. */
  ghost function Abs(s: State, t: Thread): seq<Event>
    requires t.fd in s.streams && (t.key.Some? ==> t.key.value < |s.heap|)
  {
    if t.key.Some? then Events(s.heap[t.key.value]) + s.streams[t.fd] else s.streams[t.fd]
  }

  /** The results so far and all the later ones, if the thread went on alone with the simple reader. */
  ghost function Ahead(s: State, t: Thread): (seq<Outcome>, seq<Event>)
    requires t.fd in s.streams && (t.key.Some? ==> t.key.value < |s.heap|)
    requires t.call.Some? ==> t.todo != []
  {
    RunAhead(t, Abs(s, t))
  }

  /** Every thread has its own descriptor and, once it has one, its own Rline. */
  ghost predicate Apart(s: State) {
    && (forall i :: i in s.threads ==>
          && s.threads[i].fd in s.streams
          && (s.threads[i].key.Some? ==> s.threads[i].key.value < |s.heap|)
          && (s.threads[i].call.Some? ==> s.threads[i].todo != [] && s.threads[i].key.Some?))
    && (forall i, j :: i in s.threads && j in s.threads && i != j ==>
          s.threads[i].fd != s.threads[j].fd
          && (s.threads[i].key.None? || s.threads[i].key != s.threads[j].key))
  }

  lemma StepKeepsOwner(v: View, op: Op)
    requires Step(v, op).Some?
    ensures var t := Step(v, op).value.thread;
            t.fd == v.thread.fd && t.key == v.thread.key && (t.call.Some? ==> t.todo != [])
  {
  }

  lemma MoveKeepsApart(s: State, m: Move)
    requires Apart(s) && Next(s, m).Some?
    ensures Apart(Next(s, m).value) && Next(s, m).value.threads.Keys == s.threads.Keys
  {
    var t := s.threads[m.tid];
    if !m.op.Enter? {
      StepKeepsOwner(View(t, s.heap[t.key.value], s.streams[t.fd]), m.op);
    }
  }

  /** Another thread's move leaves a thread, its unread bytes and its descriptor alone. */
  lemma OthersUnaffected(s: State, m: Move, i: nat)
    requires Apart(s) && Next(s, m).Some? && i in s.threads && i != m.tid
    ensures Apart(Next(s, m).value)
    ensures var u := Next(s, m).value; u.threads[i] == s.threads[i] && Abs(u, u.threads[i]) == Abs(s, s.threads[i])
  {
    MoveKeepsApart(s, m);
  }

  lemma {:induction false} EventsOfData(evs: seq<Event>)
    requires forall i :: 0 <= i < |evs| ==> evs[i].Data?
    ensures Events(DataOf(evs)) == evs
  {
    if evs == [] {
    } else {
      EventsOfData(evs[1..]);
      assert DataOf(evs) == [evs[0].b] + DataOf(evs[1..]);
      EventsConcat([evs[0].b], DataOf(evs[1..]));
      assert evs == [evs[0]] + evs[1..];
    }
  }

  /** The run ahead of a thread in mid-call. */
  ghost function RunAhead(t: Thread, abs: seq<Event>): (seq<Outcome>, seq<Event>)
    requires t.call.Some? ==> t.todo != []
  {
    if t.call.None? then
      (t.results + Solo(abs, t.todo).0, Solo(abs, t.todo).1)
    else
      var o := Line(abs, t.todo[0], t.call.value);
      (t.results + [Seen(o)] + Solo(o.rest, t.todo[1..]).0, Solo(o.rest, t.todo[1..]).1)
  }

  lemma TakeFollows(v: View)
    requires Step(v, TakeByte).Some?
    ensures var u := Step(v, TakeByte).value;
            (u.thread.call.Some? ==> u.thread.todo != [])
            && RunAhead(u.thread, Events(u.unread) + u.stream) == RunAhead(v.thread, Events(v.unread) + v.stream)
  {
    var u := Step(v, TakeByte).value;
    EventsConcat([v.unread[0]], v.unread[1..]);
    assert v.unread == [v.unread[0]] + v.unread[1..];
    assert (Events(v.unread) + v.stream)[1..] == Events(u.unread) + u.stream;
  }

  /** An action inside a call takes the thread one step along the run it would make alone. */
  lemma StepFollows(v: View, op: Op)
    requires Step(v, op).Some?
    ensures var u := Step(v, op).value;
            (u.thread.call.Some? ==> u.thread.todo != [])
            && RunAhead(u.thread, Events(u.unread) + u.stream) == RunAhead(v.thread, Events(v.unread) + v.stream)
  {
    var u := Step(v, op).value;
    match op {
      case TakeByte => TakeFollows(v);
      case ReadData(k) =>
        EventsOfData(v.stream[..k]);
        assert Events(v.unread) + v.stream == v.stream == Events(u.unread) + u.stream;
      case ReadOther =>
        assert Events(v.unread) + v.stream == v.stream && Events(u.unread) + u.stream == u.stream;
      case Leave =>
      case Enter =>
    }
  }

  /** A thread's own move takes it one step along the run it would make alone. */
  lemma OwnMoveFollows(s: State, m: Move)
    requires Apart(s) && Next(s, m).Some?
    ensures Apart(Next(s, m).value) && m.tid in Next(s, m).value.threads
    ensures var u := Next(s, m).value; Ahead(u, u.threads[m.tid]) == Ahead(s, s.threads[m.tid])
  {
    MoveKeepsApart(s, m);
    var t := s.threads[m.tid];
    var u := Next(s, m).value;
    if m.op.Enter? {
      assert Abs(u, u.threads[m.tid]) == Abs(s, t);
      EnterFollows(t, u.threads[m.tid], Abs(s, t));
    } else {
      var v := View(t, s.heap[t.key.value], s.streams[t.fd]);
      StepFollows(v, m.op);
      var w := Step(v, m.op).value;
      StepKeepsOwner(v, m.op);
      assert u.threads[m.tid] == w.thread && Abs(u, w.thread) == Events(w.unread) + w.stream;
    }
  }

  lemma EnterFollows(t: Thread, u: Thread, abs: seq<Event>)
    requires t.todo != [] && t.call.None? && u == t.(key := u.key, call := Some([]))
    ensures RunAhead(u, abs) == RunAhead(t, abs)
  {
    var o := Line(abs, t.todo[0], []);
    assert t.results + ([Seen(o)] + Solo(o.rest, t.todo[1..]).0) == t.results + [Seen(o)] + Solo(o.rest, t.todo[1..]).0;
  }

  ghost predicate Follows(init: State, s: State) {
    && Apart(init) && Apart(s) && s.threads.Keys == init.threads.Keys
    && forall i :: i in s.threads ==> Ahead(s, s.threads[i]) == Ahead(init, init.threads[i])
  }

  lemma MoveFollows(init: State, s: State, m: Move)
    requires Follows(init, s) && Next(s, m).Some?
    ensures Follows(init, Next(s, m).value)
  {
    MoveKeepsApart(s, m);
    OwnMoveFollows(s, m);
    var u := Next(s, m).value;
    forall i | i in u.threads
      ensures Ahead(u, u.threads[i]) == Ahead(init, init.threads[i])
    {
      if i != m.tid {
        OthersUnaffected(s, m, i);
      }
    }
  }

  ghost predicate Start(s: State) {
    && Apart(s) && forall i :: i in s.threads ==>
         s.threads[i].key.None? && s.threads[i].call.None? && s.threads[i].results == []
  }

  /** In every interleaving, every thread gets what the byte-at-a-time reader would give it alone:
      at any time its results are the first of those, and when it has made all its calls they are
      all of them, with the rest of its stream still there: unread bytes first, then the kernel's. */
  lemma ThreadsAreIsolated(init: State, moves: seq<Move>, i: nat)
    requires Start(init) && i in init.threads && Exec(Next, init, moves).Some?
    ensures var s := Exec(Next, init, moves).value;
            && Apart(s) && i in s.threads
            && var t, alone := s.threads[i], Solo(init.streams[init.threads[i].fd], init.threads[i].todo);
            && t.results <= alone.0
            && (t.todo == [] ==> t.results == alone.0 && Abs(s, t) == alone.1)
  {
    forall t, m | Follows(init, t) && Next(t, m).Some?
      ensures Follows(init, Next(t, m).value)
    {
      MoveFollows(init, t, m);
    }
    Invariant(Next, t => Follows(init, t), init, moves);
    var s := Exec(Next, init, moves).value;
    assert Ahead(s, s.threads[i]) == Ahead(init, init.threads[i]);
    var alone := Solo(init.streams[init.threads[i].fd], init.threads[i].todo);
    assert [] + alone.0 == alone.0;
  }

  // ------------------------------------------------------------------------ progress

  /** Work left in a thread's calls, if it has that much to read. */
  function Work(t: Thread, unread: nat, stream: nat): nat {
    3 * |t.todo| + (if t.call.None? then 1 else 0) + unread + 2 * stream
  }

  ghost function WorkOf(s: State, i: nat): nat {
    if i !in s.threads || s.threads[i].fd !in s.streams then 0
    else
      var t := s.threads[i];
      Work(t, if t.key.Some? && t.key.value < |s.heap| then |s.heap[t.key.value]| else 0, |s.streams[t.fd]|)
  }

  lemma {:induction false} DataIsNoMore(evs: seq<Event>)
    ensures |DataOf(evs)| <= |evs|
  {
    if evs == [] {
    } else {
      DataIsNoMore(evs[1..]);
    }
  }

  lemma StepWorks(v: View, op: Op)
    requires Step(v, op).Some?
    ensures var u := Step(v, op).value;
            Work(u.thread, |u.unread|, |u.stream|) < Work(v.thread, |v.unread|, |v.stream|)
  {
    if op.ReadData? {
      DataIsNoMore(v.stream[..op.k]);
    }
  }

  lemma MoveWorks(s: State, m: Move, i: nat)
    requires Apart(s) && i in s.threads && Next(s, m).Some?
    ensures WorkOf(Next(s, m).value, i) + (if m.tid == i then 1 else 0) <= WorkOf(s, i)
  {
    if m.tid != i {
      OthersUnaffected(s, m, i);
      SameWork(s, m, i);
    } else if !m.op.Enter? {
      var t := s.threads[i];
      StepWorks(View(t, s.heap[t.key.value], s.streams[t.fd]), m.op);
      StepKeepsOwner(View(t, s.heap[t.key.value], s.streams[t.fd]), m.op);
    }
  }

  lemma SameWork(s: State, m: Move, i: nat)
    requires Apart(s) && i in s.threads && Next(s, m).Some? && m.tid != i
    ensures WorkOf(Next(s, m).value, i) == WorkOf(s, i)
  {
    if !m.op.Enter? {
      var t := s.threads[m.tid];
      StepKeepsOwner(View(t, s.heap[t.key.value], s.streams[t.fd]), m.op);
    }
  }

  /** A thread with calls to make always has a move, whatever the others do. */
  lemma ThreadCanMove(s: State, i: nat) returns (op: Op)
    requires Apart(s) && i in s.threads && s.threads[i].todo != []
    ensures Next(s, Move(i, op)).Some?
  {
    var t := s.threads[i];
    if t.call.None? {
      op := Enter;
    } else {
      var unread, stream := s.heap[t.key.value], s.streams[t.fd];
      op := if |t.call.value| + 1 >= t.todo[0] then Leave
            else if unread != [] then TakeByte
            else if stream != [] && stream[0].Data? then ReadData(1) else ReadOther;
    }
  }

  function ByThread(i: nat): Move -> bool {
    (m: Move) => m.tid == i
  }

  /** No thread runs for ever: its actions are bounded by its calls and what it can read, however the threads
      interleave; and when it has no action left it has made all its calls. */
  lemma ThreadsFinish(init: State, moves: seq<Move>, i: nat)
    requires Start(init) && i in init.threads && Exec(Next, init, moves).Some?
    ensures Counted(ByThread(i), moves) <= 3 * |init.threads[i].todo| + 1 + 2 * |init.streams[init.threads[i].fd]|
    ensures var s := Exec(Next, init, moves).value;
            i in s.threads && ((forall op :: Next(s, Move(i, op)).None?) ==> s.threads[i].todo == [])
  {
    var inv := (s: State) => Apart(s) && i in s.threads;
    var own := ByThread(i);
    var work := (s: State) => WorkOf(s, i);
    forall s, m | inv(s) && Next(s, m).Some?
      ensures inv(Next(s, m).value) && work(Next(s, m).value) + (if own(m) then 1 else 0) <= work(s)
    {
      MoveKeepsApart(s, m);
      MoveWorks(s, m, i);
    }
    Invariant(Next, inv, init, moves);
    BoundedRuns(Next, inv, own, work, init, moves);
    var s := Exec(Next, init, moves).value;
    if s.threads[i].todo != [] {
      var op := ThreadCanMove(s, i);
    }
  }
}
