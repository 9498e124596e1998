/** sigio/dgecho01.c: datagrams are read into a ring by the SIGIO handler and echoed from it by the
    main loop. */
module RingQueue {
  import opened Bytes

  const QSIZE: nat := 8
  const MAXDG: nat := 4096

  datatype Dgram = Dgram(data: seq<Byte>, addr: seq<Byte>)

  /** A DG: the whole buffer, the length of the datagram in it, and the client's address. */
  datatype Slot = Slot(buf: seq<Byte>, len: nat, sa: seq<Byte>)

  /** The part of a datagram that fits a buffer. */
  function Clip(d: Dgram): Dgram {
    Dgram(d.data[..Min(|d.data|, MAXDG)], d.addr)
  }

  /** A datagram of at most MAXDG bytes is kept as it is, of a longer one the first MAXDG; and always the
      address. */
  lemma ClipMeaning(d: Dgram)
    ensures |d.data| <= MAXDG ==> Clip(d) == d
    ensures |d.data| > MAXDG ==> |Clip(d).data| == MAXDG && forall i :: 0 <= i < MAXDG ==> Clip(d).data[i] == d.data[i]
    ensures Clip(d).addr == d.addr
  {
  }

  predicate Fit(ds: seq<Dgram>) {
    forall d :: d in ds ==> |d.data| <= MAXDG
  }

  lemma FitStayWhole(ds: seq<Dgram>)
    requires Fit(ds)
    ensures Clips(ds) == ds
  {
    forall i | 0 <= i < |ds|
      ensures Clips(ds)[i] == ds[i]
    {
      assert ds[i] in ds;
      ClipMeaning(ds[i]);
    }
  }

  /** What sendto sends of a slot. */
  function Content(s: Slot): Dgram {
    Dgram(if s.len <= |s.buf| then s.buf[..s.len] else s.buf, s.sa)
  }

  /** recvfrom into a slot: the bytes behind a shorter datagram stay as they were. */
  function Store(s: Slot, d: Dgram): (t: Slot)
    requires |s.buf| == MAXDG
    ensures |t.buf| == MAXDG && Content(t) == Clip(d)
  {
    var data := Clip(d).data;
    Slot(data + s.buf[|data|..], |data|, d.addr)
  }

  /** The static variables of the program. */
  datatype Ring = Ring(dg: seq<Slot>, cntread: seq<nat>, iget: nat, iput: nat, nqueue: int) {
    ghost predicate Valid() {
      && |dg| == QSIZE && (forall i :: 0 <= i < QSIZE ==> |dg[i].buf| == MAXDG)
      && |cntread| == QSIZE + 1 && iget < QSIZE && iput < QSIZE
    }
  }

  /** The slot `n` places behind `start`. */
  function At(start: nat, n: nat): (i: nat)
    ensures i < QSIZE
  {
    (start + n) % QSIZE
  }

  function Bump(i: nat): nat {
    if i + 1 >= QSIZE then 0 else i + 1
  }

  function Clips(ds: seq<Dgram>): seq<Dgram> {
    seq(|ds|, k requires 0 <= k < |ds| => Clip(ds[k]))
  }

  /** The ring after `got` has been stored from slot `start` on. */
  function StoreAll(dg: seq<Slot>, start: nat, got: seq<Dgram>): (after: seq<Slot>)
    requires |dg| == QSIZE && forall i :: 0 <= i < QSIZE ==> |dg[i].buf| == MAXDG
    ensures |after| == QSIZE && forall i :: 0 <= i < QSIZE ==> |after[i].buf| == MAXDG
  {
    if got == [] then dg
    else
      var n := |got| - 1;
      var before, at := StoreAll(dg, start, got[..n]), At(start, n);
      before[at := Store(before[at], got[n])]
  }

  /** The program's variables with `got` read into the ring. */
  function Taken(r: Ring, got: seq<Dgram>): Ring
    requires r.Valid()
  {
    r.(dg := StoreAll(r.dg, r.iput, got), iput := At(r.iput, |got|), nqueue := r.nqueue + |got|)
  }

  /** What a handler call that reads `got` makes of them: unless it quits it is counted. */
  function AfterSigIo(r: Ring, got: seq<Dgram>): Ring
    requires r.Valid() && r.nqueue + |got| <= QSIZE && |got| <= QSIZE
  {
    Taken(r, got).(cntread := if r.nqueue + |got| == QSIZE then r.cntread else r.cntread[|got| := r.cntread[|got|] + 1])
  }

  /** The first `n` datagrams from the head of the ring. */
  function Waiting(r: Ring, n: nat): seq<Dgram>
    requires |r.dg| == QSIZE
  {
    seq(n, i requires 0 <= i < n => Content(r.dg[At(r.iget, i)]))
  }

  /** The socket's receive queue. Datagrams may arrive before any recvfrom. */
  class DgSocket {
    var queue: seq<Dgram>

    constructor ()
      ensures queue == []
    {
      queue := [];
    }

    /** None for EWOULDBLOCK. */
    method RecvFrom() returns (d: Option<Dgram>)
      modifies this
      ensures d.None? ==> queue == [] && old(queue) == []
      ensures d.Some? ==> (old(queue) != [] ==> d.value == old(queue)[0] && old(queue)[1..] <= queue)
    {
      var arrived: seq<Dgram> := *;
      queue := queue + arrived;
      if queue == [] {
        return None;
      }
      d := Some(queue[0]);
      queue := queue[1..];
    }
  }

  class DgEcho {
    const dg: array<Slot>
    const cntread: array<nat>
    var iget: nat
    var iput: nat
    var nqueue: int

    ghost predicate Valid()
      reads this, dg, cntread
    {
      && dg.Length == QSIZE && (forall i :: 0 <= i < QSIZE ==> |dg[i].buf| == MAXDG)
      && cntread.Length == QSIZE + 1 && iget < QSIZE && iput < QSIZE && 0 <= nqueue <= QSIZE
    }

    ghost function State(): Ring
      reads this, dg, cntread
    {
      Ring(dg[..], cntread[..], iget, iput, nqueue)
    }

    constructor ()
      ensures Valid() && fresh(dg) && fresh(cntread)
      ensures iget == iput == nqueue == 0 && forall k :: 0 <= k <= QSIZE ==> cntread[k] == 0
    {
      dg := new Slot[QSIZE](_ => Slot(seq(MAXDG, _ => 0), 0, []));
      cntread := new nat[QSIZE + 1](_ => 0);
      iget, iput, nqueue := 0, 0, 0;
    }

    /** Lines 86 to 102 with a datagram: it goes into the slot at iput. */
    method Receive(d: Dgram)
      requires Valid() && nqueue < QSIZE
      modifies this`iput, this`nqueue, dg
      ensures Valid() && State() == Taken(old(State()), [d])
      ensures var slot := dg[old(iput)];
              && slot.len == (if |d.data| <= MAXDG then |d.data| else MAXDG) && slot.sa == d.addr
              && forall i :: 0 <= i < slot.len ==> slot.buf[i] == d.data[i]
    {
      TakenOne(State(), d);
      ClipMeaning(d);
      dg[iput] := Store(dg[iput], d);
      nqueue := nqueue + 1;
      iput := iput + 1;
      if iput >= QSIZE {
        iput := 0;
      }
    }

    /** sig_io: reads datagrams until there are none, or quits with the ring full. `got` lists what it
        read, in order; those already queued come first. No call reads QSIZE datagrams and returns. */
    method SigIo(sock: DgSocket) returns (quit: bool, got: seq<Dgram>)
      requires Valid()
      modifies this`iput, this`nqueue, dg, cntread, sock
      ensures Valid() && iget == old(iget)
      ensures old(nqueue) + |got| <= QSIZE && State() == AfterSigIo(old(State()), got)
      ensures quit <==> nqueue == QSIZE
      ensures !quit ==> |got| < QSIZE && sock.queue == [] && old(sock.queue) <= got
      ensures quit ==> old(sock.queue) <= got || got <= old(sock.queue)
      ensures old(iput) == At(iget, old(nqueue)) && Fit(got) ==>
                Waiting(State(), old(nqueue) + |got|) == Waiting(old(State()), old(nqueue)) + got
    {
      var nread := 0;
      got := [];
      ghost var start, queue := State(), sock.queue;
      TakenNone(start);
      while true
        invariant Valid() && State() == Taken(start, got) && nread == |got|
        invariant Drawn(queue, got, sock.queue)
        decreases QSIZE - nqueue
      {
        if nqueue >= QSIZE {
          QueuedAtHead(start, got);
          return true, got;
        }
        ghost var queued := sock.queue;
        var d := sock.RecvFrom();
        if d.None? {
          break;
        }
        TakenMore(start, got, d.value);
        DrawnMore(queue, got, queued, d.value, sock.queue);
        Receive(d.value);
        nread := nread + 1;
        got := got + [d.value];
      }
      CallCounts(nread);
      QueuedAtHead(start, got);
      quit := false;
    }

    /** Line 105. */
    method CallCounts(nread: nat)
      requires Valid() && nread <= QSIZE
      modifies cntread
      ensures Valid() && State() == old(State()).(cntread := old(cntread[..])[nread := old(cntread[nread]) + 1])
    {
      cntread[nread] := cntread[nread] + 1;
    }

    /** Lines 64 to 67: of the datagrams waiting the first is sent back, the others wait on, in order. */
    method EchoHead() returns (sent: Dgram)
      requires Valid() && nqueue > 0
      modifies this`iget
      ensures Valid() && State() == old(State()).(iget := iget)
      ensures Waiting(old(State()), nqueue) == [sent] + Waiting(State(), nqueue - 1)
    {
      sent := Content(dg[iget]);
      iget := iget + 1;
      if iget >= QSIZE {
        iget := 0;
      }
      HeadIsFirst(old(State()), nqueue);
    }

    /** Line 71, with SIGIO blocked. */
    method Uncount()
      requires Valid() && nqueue > 0
      modifies this`nqueue
      ensures Valid() && nqueue == old(nqueue) - 1
    {
      nqueue := nqueue - 1;
    }
  }

  /** `got` was taken from the front of a queue that datagrams may have joined. */
  ghost predicate Drawn(before: seq<Dgram>, got: seq<Dgram>, now: seq<Dgram>) {
    (got <= before && before[|got|..] <= now) || before <= got
  }

  lemma DrawnMore(before: seq<Dgram>, got: seq<Dgram>, now: seq<Dgram>, d: Dgram, later: seq<Dgram>)
    requires Drawn(before, got, now)
    requires now != [] ==> d == now[0] && now[1..] <= later
    ensures Drawn(before, got + [d], later)
  {
    if !(before <= got) {
      assert before[|got|..] != [] && before[|got|..][0] == before[|got|];
      assert before[|got| + 1..] == before[|got|..][1..];
    } else {
      assert before <= got + [d];
    }
  }

  lemma StoreOneMore(dg: seq<Slot>, start: nat, got: seq<Dgram>, d: Dgram)
    requires |dg| == QSIZE && (forall i :: 0 <= i < QSIZE ==> |dg[i].buf| == MAXDG) && start < QSIZE && |got| < QSIZE
    ensures var at, before := At(start, |got|), StoreAll(dg, start, got);
            StoreAll(dg, start, got + [d]) == before[at := Store(before[at], d)] && Bump(at) == At(start, |got| + 1)
  {
    assert (got + [d])[..|got|] == got;
    DistinctSlots(start, |got|);
  }

  lemma TakenNone(r: Ring)
    requires r.Valid()
    ensures Taken(r, []) == r
  {
  }

  lemma TakenOne(r: Ring, d: Dgram)
    requires r.Valid() && r.nqueue < QSIZE
    ensures Taken(r, [d])
            == r.(dg := r.dg[r.iput := Store(r.dg[r.iput], d)], iput := Bump(r.iput), nqueue := r.nqueue + 1)
  {
    StoreOneMore(r.dg, r.iput, [], d);
    assert [] + [d] == [d];
  }

  lemma TakenMore(r: Ring, got: seq<Dgram>, d: Dgram)
    requires r.Valid() && 0 <= r.nqueue && r.nqueue + |got| < QSIZE
    ensures Taken(r, got).Valid() && Taken(Taken(r, got), [d]) == Taken(r, got + [d])
  {
    StoreOneMore(r.dg, r.iput, got, d);
    TakenOne(Taken(r, got), d);
  }

  /** The slots from `start` on hold `got`, clipped, and the others are as before. */
  lemma {:induction false} StoredInOrder(dg: seq<Slot>, start: nat, got: seq<Dgram>)
    requires |dg| == QSIZE && (forall i :: 0 <= i < QSIZE ==> |dg[i].buf| == MAXDG) && start < QSIZE && |got| <= QSIZE
    ensures var after := StoreAll(dg, start, got);
            && (forall i :: 0 <= i < |got| ==> Content(after[At(start, i)]) == Clip(got[i]))
            && (forall i :: |got| <= i < QSIZE ==> after[At(start, i)] == dg[At(start, i)])
  {
    if got == [] {
    } else {
      var n := |got| - 1;
      StoredInOrder(dg, start, got[..n]);
      DistinctSlots(start, n);
    }
  }

  /** A handler call puts what it reads behind what is waiting, each datagram clipped and with its
      address, and disturbs nothing that waits. Between lines 66 and 71 `n` is nqueue less one. */
  lemma SigIoQueues(r: Ring, got: seq<Dgram>, n: nat)
    requires r.Valid() && r.nqueue + |got| <= QSIZE && n + |got| <= QSIZE && r.iput == At(r.iget, n)
    ensures var after := AfterSigIo(r, got);
            && Waiting(after, n + |got|) == Waiting(r, n) + Clips(got) && after.iput == At(after.iget, n + |got|)
            && (Fit(got) ==> Waiting(after, n + |got|) == Waiting(r, n) + got)
  {
    if Fit(got) {
      FitStayWhole(got);
    }
    var after := AfterSigIo(r, got);
    forall i | 0 <= i < n + |got|
      ensures Content(after.dg[At(r.iget, i)]) == if i < n then Content(r.dg[At(r.iget, i)]) else Clip(got[i - n])
    {
      SlotAfter(r.dg, r.iget, got, n, i);
    }
    SameSlot(r.iget, n, |got|);
  }

  /** With everything counted, as when main sleeps. */
  lemma QueuedAtHead(r: Ring, got: seq<Dgram>)
    requires r.Valid() && 0 <= r.nqueue && r.nqueue + |got| <= QSIZE
    ensures r.iput == At(r.iget, r.nqueue) && Fit(got) ==>
              Waiting(AfterSigIo(r, got), r.nqueue + |got|) == Waiting(r, r.nqueue) + got
  {
    if r.iput == At(r.iget, r.nqueue) {
      SigIoQueues(r, got, r.nqueue);
    }
  }

  lemma SlotAfter(dg: seq<Slot>, head: nat, got: seq<Dgram>, n: nat, i: nat)
    requires |dg| == QSIZE && (forall k :: 0 <= k < QSIZE ==> |dg[k].buf| == MAXDG)
    requires i < n + |got| <= QSIZE && head < QSIZE
    ensures var after := StoreAll(dg, At(head, n), got);
            Content(after[At(head, i)]) == if i < n then Content(dg[At(head, i)]) else Clip(got[i - n])
  {
    var start := At(head, n);
    StoredInOrder(dg, start, got);
    if i < n {
      var k := QSIZE - n + i;
      SameSlot(head, n, k);
      FullTurn(head, i);
      assert At(start, k) == At(head, i);
      assert StoreAll(dg, start, got)[At(start, k)] == dg[At(start, k)];
    } else {
      SameSlot(head, n, i - n);
      assert At(start, i - n) == At(head, i);
    }
  }

  lemma SameSlot(start: nat, a: nat, b: nat)
    ensures At(At(start, a), b) == At(start, a + b)
  {
  }

  lemma FullTurn(start: nat, a: nat)
    ensures At(start, QSIZE + a) == At(start, a)
  {
  }

  lemma HeadIsFirst(r: Ring, n: nat)
    requires r.Valid() && n > 0
    ensures Waiting(r, n) == [Content(r.dg[r.iget])] + Waiting(r.(iget := Bump(r.iget)), n - 1)
  {
    forall i | 0 < i < n
      ensures At(r.iget, i) == At(Bump(r.iget), i - 1)
    {
      SameSlot(r.iget, 1, i - 1);
    }
  }

  lemma DistinctSlots(start: nat, n: nat)
    requires start < QSIZE && n < QSIZE
    ensures forall i :: 0 <= i < QSIZE && i != n ==> At(start, i) != At(start, n)
    ensures Bump(At(start, n)) == At(start, n + 1)
  {
  }
}
