/** select/tcpservselect01.c: one process serves all clients from a table, a descriptor set and three
    counters that must agree. */
module SelectServer {
  import opened Bytes

  const FD_SETSIZE: nat := 1024

  /** A client that was read: the bytes echoed, or none when it had closed. */
  datatype Served = Served(fd: int, data: seq<Byte>)

  /** The bound of the client scan. The code stops before maxi; with `Inclusive` it would not. */
  datatype Bound = BeforeMaxi | Inclusive

  function ScanEnd(b: Bound, maxi: int): int {
    if b.Inclusive? then maxi + 1 else maxi
  }

  /** The clients among the slots from `lo` to `hi` that are ready, in slot order. */
  function ReadyIn(clients: seq<int>, rset: set<int>, lo: nat, hi: int): seq<int>
    requires hi <= |clients|
    decreases hi - lo
  {
    if lo >= hi then []
    else (if clients[lo] >= 0 && clients[lo] in rset then [clients[lo]] else []) + ReadyIn(clients, rset, lo + 1, hi)
  }

  /** What reading each of them in turn does. */
  function ServeAll(fds: seq<int>, input: int -> seq<Byte>): seq<Served> {
    if fds == [] then [] else [Served(fds[0], input(fds[0]))] + ServeAll(fds[1..], input)
  }

  /** A slot after the scan has been at it: free if its client was ready and had closed. */
  function SlotAfter(fd: int, rset: set<int>, input: int -> seq<Byte>): int {
    if fd >= 0 && fd in rset && input(fd) == [] then -1 else fd
  }

  /** The descriptors in a table, free slots left out. */
  ghost function Occupants(clients: seq<int>): set<int> {
    if clients == [] then {} else (if clients[0] >= 0 then {clients[0]} else {}) + Occupants(clients[1..])
  }

  /** No descriptor is in two slots. */
  ghost predicate Distinct(clients: seq<int>) {
    clients == [] || ((clients[0] >= 0 ==> clients[0] !in Occupants(clients[1..])) && Distinct(clients[1..]))
  }

  lemma {:induction false} OccupantsMeaning(clients: seq<int>, fd: int)
    ensures fd in Occupants(clients) <==> fd >= 0 && fd in clients
  {
    if clients == [] {
    } else {
      OccupantsMeaning(clients[1..], fd);
      assert clients == [clients[0]] + clients[1..];
    }
  }

  lemma {:induction false} DistinctMeaning(clients: seq<int>, i: nat, j: nat)
    requires Distinct(clients) && i < j < |clients| && clients[i] >= 0
    ensures clients[i] != clients[j]
  {
    if i == 0 {
      OccupantsMeaning(clients[1..], clients[0]);
      assert clients[j] == clients[1..][j - 1];
    } else {
      DistinctMeaning(clients[1..], i - 1, j - 1);
    }
  }

  lemma {:induction false} ReadyInMeaning(clients: seq<int>, rset: set<int>, lo: nat, hi: int)
    requires hi <= |clients|
    ensures forall fd :: fd in ReadyIn(clients, rset, lo, hi)
                         <==> exists i :: lo <= i < hi && clients[i] == fd && fd >= 0 && fd in rset
    decreases hi - lo
  {
    if lo >= hi {
    } else {
      ReadyInMeaning(clients, rset, lo + 1, hi);
    }
  }

  /** No client is read twice. */
  lemma {:induction false} ReadyInOnce(clients: seq<int>, rset: set<int>, lo: nat, hi: int)
    requires hi <= |clients| && Distinct(clients)
    ensures forall fd :: multiset(ReadyIn(clients, rset, lo, hi))[fd] <= 1
    decreases hi - lo
  {
    if lo >= hi {
    } else {
      ReadyInOnce(clients, rset, lo + 1, hi);
      var rest := ReadyIn(clients, rset, lo + 1, hi);
      if clients[lo] >= 0 && clients[lo] in rset {
        ReadyInMeaning(clients, rset, lo + 1, hi);
        if clients[lo] in rest {
          var i :| lo + 1 <= i < hi && clients[i] == clients[lo];
          DistinctMeaning(clients, lo, i);
        }
        assert multiset(ReadyIn(clients, rset, lo, hi)) == multiset{clients[lo]} + multiset(rest);
      } else {
        PassBy(clients, rset, lo, hi);
      }
    }
  }

  lemma PassBy(clients: seq<int>, rset: set<int>, lo: nat, hi: int)
    requires lo < hi <= |clients| && !(clients[lo] >= 0 && clients[lo] in rset)
    ensures ReadyIn(clients, rset, lo, hi) == ReadyIn(clients, rset, lo + 1, hi)
  {
  }

  /** client[] and maxi. */
  datatype Table = Table(clients: seq<int>, maxi: int)

  /** The first free slot, or the table's size. */
  function FirstFree(clients: seq<int>): (slot: nat)
    ensures slot <= |clients| && (slot < |clients| ==> clients[slot] < 0)
    ensures forall i :: 0 <= i < slot ==> clients[i] >= 0
  {
    if clients == [] || clients[0] < 0 then 0 else 1 + FirstFree(clients[1..])
  }

  /** A new connection takes the first free slot. */
  function Admit(t: Table, connfd: int): Table
    requires FirstFree(t.clients) < |t.clients|
  {
    var slot := FirstFree(t.clients);
    Table(t.clients[slot := connfd], if slot > t.maxi then slot else t.maxi)
  }

  /** What select reports, the connection that accept would give, and the clients' data. */
  datatype Round = Round(rset: set<int>, connfd: int, input: int -> seq<Byte>)

  /** There is room for the connection, and its descriptor is a new one. */
  predicate Admissible(t: Table, listenfd: int, r: Round) {
    listenfd in r.rset ==> r.connfd >= 0 && r.connfd !in t.clients && FirstFree(t.clients) < |t.clients|
  }

  /** The table when the scan begins. */
  function AtScan(t: Table, listenfd: int, r: Round): Table
    requires Admissible(t, listenfd, r)
  {
    if listenfd in r.rset then Admit(t, r.connfd) else t
  }

  /** One iteration of the loop: the ready clients in the range are served in slot order, and of those
      that have closed the slots are freed. */
  ghost predicate Iterates(t: Table, listenfd: int, r: Round, bound: Bound, after: Table, served: seq<Served>) {
    && Admissible(t, listenfd, r)
    && var mid := AtScan(t, listenfd, r);
       var end := ScanEnd(bound, mid.maxi);
       end <= |mid.clients| && after.maxi == mid.maxi && Swept(mid.clients, after.clients, end, r.rset, r.input)
       && served == ServeAll(ReadyIn(mid.clients, r.rset, 0, end), r.input)
  }

  class Server {
    const listenfd: int
    const client: array<int>
    var allset: set<int>
    var maxfd: int
    var maxi: int

    /** What holds at every head of the loop. */
    ghost predicate Valid()
      reads this, client
    {
      && listenfd >= 0 && client.Length == FD_SETSIZE
      && allset == {listenfd} + Occupants(client[..])
      && listenfd !in Occupants(client[..]) && Distinct(client[..])
      && (forall fd :: fd in allset ==> fd <= maxfd)
      && -1 <= maxi < FD_SETSIZE && forall i :: 0 <= i < FD_SETSIZE && client[i] >= 0 ==> i <= maxi
    }

    ghost function State(): Table
      reads this, client
    {
      Table(client[..], maxi)
    }

    constructor (listenfd: int)
      requires listenfd >= 0
      ensures Valid() && fresh(client) && this.listenfd == listenfd
      ensures forall i :: 0 <= i < FD_SETSIZE ==> client[i] == -1
    {
      this.listenfd := listenfd;
      client := new int[FD_SETSIZE](_ => -1);
      allset := {listenfd};
      maxfd := listenfd;
      maxi := -1;
      new;
      NobodyYet(client[..]);
    }

    /** Lines 40 to 62: the new connection gets the first free slot; false when there is none. The
        kernel hands out a descriptor that is not in use. */
    method Accept(connfd: int) returns (ok: bool)
      requires Valid() && connfd >= 0 && connfd !in allset
      modifies this`allset, this`maxfd, this`maxi, client
      ensures Valid()
      ensures ok <==> FirstFree(old(client[..])) < FD_SETSIZE
      ensures ok ==> State() == Admit(old(State()), connfd) && allset == old(allset) + {connfd}
                     && maxfd == (if connfd > old(maxfd) then connfd else old(maxfd))
      ensures !ok ==> State() == old(State()) && allset == old(allset)
    {
      var i := 0;
      while i < FD_SETSIZE
        invariant 0 <= i <= FD_SETSIZE
        invariant forall j :: 0 <= j < i ==> client[j] >= 0
        invariant client[..] == old(client[..])
      {
        if client[i] < 0 {
          break;
        }
        i := i + 1;
      }
      ghost var before := client[..];
      FirstFreeIs(before, i);
      if i == FD_SETSIZE {
        return false;
      }
      client[i] := connfd;
      OccupantsAdd(before, i, connfd);
      assert client[..] == before[i := connfd];
      allset := allset + {connfd};
      if connfd > maxfd {
        maxfd := connfd;
      }
      if i > maxi {
        maxi := i;
      }
      ok := true;
    }

    /** Lines 71 to 86: a ready client is closed and its slot freed, or its bytes go back to it. */
    method Visit(i: nat, rset: set<int>, input: int -> seq<Byte>, ghost clients: seq<int>) returns (one: Option<Served>)
      requires Valid() && i < FD_SETSIZE
      requires Swept(clients, client[..], i, rset, input)
      modifies this`allset, client
      ensures Valid() && Swept(clients, client[..], i + 1, rset, input)
      ensures var fd := old(client[i]);
              if fd >= 0 && fd in rset && input(fd) == [] then
                client[..] == old(client[..])[i := -1] && allset == old(allset) - {fd}
              else client[..] == old(client[..]) && allset == old(allset)
      ensures one == if clients[i] >= 0 && clients[i] in rset then Some(Served(clients[i], input(clients[i]))) else None
    {
      var sockfd := client[i];
      ghost var before := client[..];
      SweptMore(clients, before, i, rset, input);
      if sockfd < 0 || sockfd !in rset {
        assert before == before[i := SlotAfter(sockfd, rset, input)];
        return None;
      }
      var n := |input(sockfd)|;
      if n == 0 {
        OccupantsRemove(before, i);
        allset := allset - {sockfd};
        client[i] := -1;
      }
      assert client[..] == before[i := SlotAfter(sockfd, rset, input)];
      one := Some(Served(sockfd, input(sockfd)));
    }

    /** Lines 71 to 89 for slot `i`: what is served is noted, and counted down. */
    method VisitAndCount(i: nat, rset: set<int>, count: int, before: seq<Served>, input: int -> seq<Byte>,
                         ghost clients: seq<int>, ghost end: int, ghost all: seq<Served>)
        returns (nready: int, served: seq<Served>)
      requires Valid() && i < end <= FD_SETSIZE
      requires Swept(clients, client[..], i, rset, input) && Scanning(clients, rset, i, end, input, count, before, all)
      modifies this`allset, client
      ensures Valid()
      ensures Swept(clients, client[..], i + 1, rset, input)
              && Scanning(clients, rset, i + 1, end, input, nready, served, all)
      ensures nready <= count
    {
      Scanned(clients, rset, i, end, input, count, before, all);
      var one := Visit(i, rset, input, clients);
      nready, served := count, before;
      if one.Some? {
        served := served + [one.value];
        nready := nready - 1;
      }
    }

    /** Lines 68 to 92: reads the ready clients in slots before `end`, in order, until `count` of them are done. */
    method Scan(rset: set<int>, count: int, end: int, input: int -> seq<Byte>) returns (served: seq<Served>)
      requires Valid() && rset <= allset && end <= FD_SETSIZE
      requires count == |rset - {listenfd}|
      modifies this`allset, client
      ensures Valid()
      ensures served == ServeAll(ReadyIn(old(client[..]), rset, 0, end), input)
      ensures Swept(old(client[..]), client[..], end, rset, input)
    {
      var nready := count;
      ghost var clients := client[..];
      ghost var all := ServeAll(ReadyIn(clients, rset, 0, end), input);
      served := [];
      var i := 0;
      StartScan(clients, rset, listenfd, end, input);
      while i < end
        invariant 0 <= i && (i <= end || i == 0)
        invariant Valid() && Swept(clients, client[..], i, rset, input)
        invariant Scanning(clients, rset, i, end, input, nready, served, all)
      {
        var before := nready;
        nready, served := VisitAndCount(i, rset, nready, served, input, clients, end, all);
        i := i + 1;
        if nready < before && nready <= 0 {
          break;
        }
      }
      Stopped(clients, client[..], rset, i, end, input, nready, served, all);
    }

    /** Lines 37 to 66: a waiting connection is taken, and counted. */
    method Listen(rset: set<int>, count: int, connfd: int, ghost r: Round) returns (ok: bool, nready: int)
      requires Valid() && rset <= allset && count == |rset| && r.rset == rset && r.connfd == connfd
      requires listenfd in rset ==> connfd >= 0 && connfd !in allset
      modifies this`allset, this`maxfd, this`maxi, client
      ensures Valid()
      ensures ok <==> Admissible(old(State()), listenfd, r)
      ensures !ok ==> State() == old(State())
      ensures ok ==> State() == AtScan(old(State()), listenfd, r) && rset <= allset && nready == |rset - {listenfd}|
    {
      nready := count;
      if listenfd !in rset {
        assert rset - {listenfd} == rset;
        return true, nready;
      }
      NotListed(client[..], connfd);
      ok := Accept(connfd);
      nready := nready - 1;
      OneLess(rset, listenfd);
    }

    /** Lines 37 to 92: a waiting connection is taken, then the ready clients are served. False when the table
        is full, which ends the program. */
    method TakeAndServe(rset: set<int>, count: int, connfd: int, bound: Bound, input: int -> seq<Byte>)
        returns (ok: bool, served: seq<Served>)
      requires Valid() && rset <= allset && count == |rset|
      requires listenfd in rset ==> connfd >= 0 && connfd !in allset
      modifies this, client
      ensures Valid()
      ensures ok <==> Admissible(old(State()), listenfd, Round(rset, connfd, input))
      ensures !ok ==> served == [] && State() == old(State())
      ensures ok ==> Iterates(old(State()), listenfd, Round(rset, connfd, input), bound, State(), served)
    {
      var nready;
      served := [];
      ok, nready := Listen(rset, count, connfd, Round(rset, connfd, input));
      if ok {
        if listenfd in rset && nready <= 0 {
          NoClientReady(client[..], rset, listenfd, ScanEnd(bound, maxi), input);
        } else {
          served := Scan(rset, nready, ScanEnd(bound, maxi), input);
        }
      }
    }

    /** The loop body after select has left `rset`, the descriptors that are ready: `nready` of them. A client
        below the bound that is ready and has closed leaves table and set; every other one keeps its slot and
        its bit, and nothing is added but the new connection. */
    method Iterate(rset: set<int>, count: int, connfd: int, bound: Bound, input: int -> seq<Byte>)
        returns (ok: bool, served: seq<Served>)
      requires Valid() && rset <= allset && count == |rset|
      requires listenfd in rset ==> connfd >= 0 && connfd !in allset
      modifies this, client
      ensures Valid()
      ensures ok <==> Admissible(old(State()), listenfd, Round(rset, connfd, input))
      ensures !ok ==> served == [] && State() == old(State())
      ensures ok ==> Iterates(old(State()), listenfd, Round(rset, connfd, input), bound, State(), served)
      ensures ok ==> forall i :: 0 <= i < FD_SETSIZE && old(client[i]) >= 0 ==>
                if i < ScanEnd(bound, maxi) && old(client[i]) in rset && input(old(client[i])) == []
                then client[i] == -1 && old(client[i]) !in allset
                else client[i] == old(client[i]) && client[i] in allset
      ensures ok ==> forall i :: 0 <= i < FD_SETSIZE && old(client[i]) < 0 && client[i] >= 0 ==>
                listenfd in rset && client[i] == connfd
      ensures ok && listenfd in rset ==> connfd in client[..] && connfd in allset
      ensures ok ==> listenfd in allset
      ensures ok ==> forall fd :: fd in allset && fd !in old(allset) ==> listenfd in rset && fd == connfd
    {
      ghost var t, r, before := State(), Round(rset, connfd, input), allset;
      NotListed(client[..], if connfd >= 0 then connfd else 0);
      ok, served := TakeAndServe(rset, count, connfd, bound, input);
      if ok {
        SlotsAfter(t, listenfd, r, bound, State(), served);
        SetAfter(t, State(), listenfd, r, before, allset);
      }
    }
  }

  /** An iteration slot by slot: a client below the bound that is ready and has closed is gone from the table,
      every other client keeps its slot, and only the new connection takes one. */
  lemma SlotsAfter(t: Table, listenfd: int, r: Round, bound: Bound, after: Table, served: seq<Served>)
    requires Iterates(t, listenfd, r, bound, after, served) && Distinct(t.clients)
    requires listenfd in r.rset ==> r.connfd !in r.rset
    ensures |after.clients| == |t.clients|
    ensures forall i :: 0 <= i < |t.clients| && t.clients[i] >= 0 ==>
              if i < ScanEnd(bound, after.maxi) && t.clients[i] in r.rset && r.input(t.clients[i]) == []
              then after.clients[i] == -1 && t.clients[i] !in after.clients
              else after.clients[i] == t.clients[i]
    ensures forall i :: 0 <= i < |t.clients| && t.clients[i] < 0 && after.clients[i] >= 0 ==>
              listenfd in r.rset && after.clients[i] == r.connfd
    ensures listenfd in r.rset ==> r.connfd in after.clients
  {
    var mid := AtScan(t, listenfd, r);
    if listenfd in r.rset {
      var slot := FirstFree(t.clients);
      assert after.clients[slot] == r.connfd;
    }
    forall i | 0 <= i < |t.clients| && t.clients[i] >= 0 && i < ScanEnd(bound, after.maxi)
               && t.clients[i] in r.rset && r.input(t.clients[i]) == []
      ensures after.clients[i] == -1 && t.clients[i] !in after.clients
    {
      GoneFromTable(t.clients, after.clients, i, if listenfd in r.rset then r.connfd else -1);
    }
  }

  lemma GoneFromTable(before: seq<int>, after: seq<int>, i: nat, connfd: int)
    requires i < |before| == |after| && Distinct(before) && before[i] >= 0 && after[i] < 0
    requires connfd !in before || connfd < 0
    requires forall j :: 0 <= j < |after| ==> after[j] < 0 || after[j] == before[j] || after[j] == connfd
    ensures before[i] !in after
  {
    forall j | 0 <= j < |after|
      ensures after[j] != before[i]
    {
      if j < i && before[j] >= 0 {
        DistinctMeaning(before, j, i);
      } else if i < j {
        DistinctMeaning(before, i, j);
      }
    }
  }

  /** The set follows the table. */
  lemma SetAfter(t: Table, after: Table, listenfd: int, r: Round, before: set<int>, now: set<int>)
    requires before == {listenfd} + Occupants(t.clients) && now == {listenfd} + Occupants(after.clients)
    requires |after.clients| == |t.clients| && listenfd !in Occupants(t.clients)
    requires forall i :: 0 <= i < |t.clients| && t.clients[i] >= 0 ==>
               after.clients[i] == t.clients[i] || (after.clients[i] == -1 && t.clients[i] !in after.clients)
    requires forall i :: 0 <= i < |t.clients| && t.clients[i] < 0 && after.clients[i] >= 0 ==>
               listenfd in r.rset && after.clients[i] == r.connfd
    ensures forall i :: 0 <= i < |t.clients| && t.clients[i] >= 0 ==>
              (t.clients[i] in now <==> t.clients[i] in after.clients)
    ensures forall fd :: fd in after.clients && fd >= 0 ==> fd in now
    ensures forall fd :: fd in now && fd !in before ==> listenfd in r.rset && fd == r.connfd
  {
    forall fd
      ensures fd in Occupants(after.clients) <==> fd >= 0 && fd in after.clients
      ensures fd in Occupants(t.clients) <==> fd >= 0 && fd in t.clients
    {
      OccupantsMeaning(after.clients, fd);
      OccupantsMeaning(t.clients, fd);
    }
  }

  lemma OneLess(rset: set<int>, fd: int)
    requires fd in rset
    ensures |rset - {fd}| == |rset| - 1
  {
  }

  lemma NotListed(clients: seq<int>, fd: int)
    requires fd >= 0
    ensures fd !in Occupants(clients) ==> fd !in clients
  {
    OccupantsMeaning(clients, fd);
  }

  lemma {:induction false} FirstFreeIs(clients: seq<int>, slot: nat)
    requires slot <= |clients| && (forall i :: 0 <= i < slot ==> clients[i] >= 0)
             && (slot < |clients| ==> clients[slot] < 0)
    ensures FirstFree(clients) == slot
  {
  }

  lemma NoClientReady(table: seq<int>, rset: set<int>, listenfd: int, end: int, input: int -> seq<Byte>)
    requires end <= |table| && |rset - {listenfd}| <= 0 && Agrees(table, rset, listenfd)
    ensures ServeAll(ReadyIn(table, rset, 0, end), input) == [] && Swept(table, table, end, rset, input)
  {
    StartScan(table, rset, listenfd, end, input);
    NobodyLeft(table, rset, 0, end, input, |rset - {listenfd}|, [], ServeAll(ReadyIn(table, rset, 0, end), input));
  }

  /** What select can report for a table. */
  ghost predicate Agrees(clients: seq<int>, rset: set<int>, listenfd: int) {
    Distinct(clients) && listenfd !in Occupants(clients) && rset <= {listenfd} + Occupants(clients)
  }

  /** Before slot `i` is looked at: what is served so far and what a full scan would still serve make
      up the whole, and the count is that of the ready clients from here to the end of the table. */
  ghost predicate Scanning(clients: seq<int>, rset: set<int>, i: nat, end: int, input: int -> seq<Byte>,
                           left: int, served: seq<Served>, all: seq<Served>)
    requires end <= |clients|
  {
    && served + ServeAll(ReadyIn(clients, rset, i, end), input) == all
    && left == |ReadyIn(clients, rset, i, |clients|)|
  }

  lemma StartScan(clients: seq<int>, rset: set<int>, listenfd: int, end: int, input: int -> seq<Byte>)
    requires end <= |clients| && Agrees(clients, rset, listenfd)
    ensures Scanning(clients, rset, 0, end, input, |rset - {listenfd}|, [],
                     ServeAll(ReadyIn(clients, rset, 0, end), input))
  {
    assert [] + ServeAll(ReadyIn(clients, rset, 0, end), input) == ServeAll(ReadyIn(clients, rset, 0, end), input);
    ReadyCount(clients, rset, 0);
    assert clients[0..] == clients && Occupants(clients) * rset == rset - {listenfd};
  }

  lemma OneMoreReady(others: set<int>, rset: set<int>, fd: int)
    requires fd !in others
    ensures |(others + {fd}) * rset| == |others * rset| + if fd in rset then 1 else 0
  {
    assert (others + {fd}) * rset == others * rset + if fd in rset then {fd} else {};
  }

  /** As many clients are ready as there are ready descriptors in the table. */
  lemma {:induction false} ReadyCount(clients: seq<int>, rset: set<int>, i: nat)
    requires i <= |clients| && Distinct(clients[i..])
    ensures |ReadyIn(clients, rset, i, |clients|)| == |Occupants(clients[i..]) * rset|
    decreases |clients| - i
  {
    if i < |clients| {
      assert clients[i..][1..] == clients[i + 1..];
      ReadyCount(clients, rset, i + 1);
      if clients[i] >= 0 {
        OneMoreReady(Occupants(clients[i + 1..]), rset, clients[i]);
        assert Occupants(clients[i..]) == Occupants(clients[i + 1..]) + {clients[i]};
      } else {
        assert Occupants(clients[i..]) == Occupants(clients[i + 1..]);
      }
      if clients[i] < 0 || clients[i] !in rset {
        PassBy(clients, rset, i, |clients|);
      }
    } else {
      assert Occupants(clients[i..]) * rset == {};
    }
  }

  /** One slot further: if its client was ready, it is served and counted. */
  lemma Scanned(clients: seq<int>, rset: set<int>, i: nat, end: int, input: int -> seq<Byte>,
                left: int, served: seq<Served>, all: seq<Served>)
    requires i < end <= |clients| && Scanning(clients, rset, i, end, input, left, served, all)
    ensures if clients[i] >= 0 && clients[i] in rset
            then Scanning(clients, rset, i + 1, end, input, left - 1,
                          served + [Served(clients[i], input(clients[i]))], all)
            else Scanning(clients, rset, i + 1, end, input, left, served, all)
  {
    var later := ReadyIn(clients, rset, i + 1, end);
    if clients[i] >= 0 && clients[i] in rset {
      var one := Served(clients[i], input(clients[i]));
      assert ([clients[i]] + later)[1..] == later;
      assert served + ([one] + ServeAll(later, input)) == (served + [one]) + ServeAll(later, input);
    } else {
      PassBy(clients, rset, i, end);
      PassBy(clients, rset, i, |clients|);
    }
  }

  /** When the count has run out, the rest of the table has nobody to serve. */
  lemma NobodyLeft(clients: seq<int>, rset: set<int>, i: nat, end: int, input: int -> seq<Byte>,
                   left: int, served: seq<Served>, all: seq<Served>)
    requires end <= |clients| && Scanning(clients, rset, i, end, input, left, served, all)
    requires left <= 0
    ensures served == all
    ensures forall j :: i <= j < |clients| && clients[j] >= 0 ==> clients[j] !in rset
  {
    ReadyInMeaning(clients, rset, i, |clients|);
    NoneInRange(clients, rset, i, end);
    assert served + [] == served;
  }

  lemma {:induction false} NoneInRange(clients: seq<int>, rset: set<int>, i: nat, end: int)
    requires end <= |clients| && ReadyIn(clients, rset, i, |clients|) == []
    ensures ReadyIn(clients, rset, i, end) == []
    decreases end - i
  {
    if i >= end {
    } else {
      PassBy(clients, rset, i, |clients|);
      NoneInRange(clients, rset, i + 1, end);
    }
  }

  /** The slots before `end` are as the scan leaves them, the others as they were. */
  ghost predicate Swept(before: seq<int>, after: seq<int>, end: int, rset: set<int>, input: int -> seq<Byte>) {
    && |after| == |before|
    && (forall i :: 0 <= i < end && i < |before| ==> after[i] == SlotAfter(before[i], rset, input))
    && (forall i :: 0 <= i < |before| && end <= i ==> after[i] == before[i])
  }

  lemma SweptMore(before: seq<int>, after: seq<int>, i: nat, rset: set<int>, input: int -> seq<Byte>)
    requires Swept(before, after, i, rset, input) && i < |before|
    ensures Swept(before, after[i := SlotAfter(before[i], rset, input)], i + 1, rset, input)
  {
  }

  /** The loop has come to the end of its range, or the count has run out before that. */
  lemma Stopped(clients: seq<int>, after: seq<int>, rset: set<int>, i: nat, end: int, input: int -> seq<Byte>,
                left: int, served: seq<Served>, all: seq<Served>)
    requires end <= |clients| && (i == end || (i == 0 && end <= 0) || (i <= end && left <= 0))
    requires Scanning(clients, rset, i, end, input, left, served, all) && Swept(clients, after, i, rset, input)
    ensures served == all && Swept(clients, after, end, rset, input)
  {
    if i < end {
      NobodyLeft(clients, rset, i, end, input, left, served, all);
      SweptToTheEnd(clients, after, i, end, rset, input);
    } else {
      assert served + [] == served;
    }
  }

  lemma SweptToTheEnd(before: seq<int>, after: seq<int>, lo: nat, hi: int, rset: set<int>, input: int -> seq<Byte>)
    requires Swept(before, after, lo, rset, input) && lo <= hi
    requires forall i :: lo <= i < |before| && before[i] >= 0 ==> before[i] !in rset
    ensures Swept(before, after, hi, rset, input)
  {
  }

  lemma {:induction false} OccupantsAdd(before: seq<int>, i: nat, fd: int)
    requires i < |before| && before[i] < 0 && fd >= 0 && fd !in Occupants(before) && Distinct(before)
    ensures Occupants(before[i := fd]) == Occupants(before) + {fd} && Distinct(before[i := fd])
  {
    var after := before[i := fd];
    if i == 0 {
      assert after[1..] == before[1..];
    } else {
      assert after[1..] == before[1..][i - 1 := fd];
      OccupantsAdd(before[1..], i - 1, fd);
    }
  }

  lemma {:induction false} OccupantsRemove(before: seq<int>, i: nat)
    requires i < |before| && before[i] >= 0 && Distinct(before)
    ensures before[i] in Occupants(before)
    ensures Occupants(before[i := -1]) == Occupants(before) - {before[i]} && Distinct(before[i := -1])
  {
    var after := before[i := -1];
    if i == 0 {
      assert after[1..] == before[1..];
    } else {
      assert after[1..] == before[1..][i - 1 := -1];
      OccupantsRemove(before[1..], i - 1);
    }
  }

  lemma {:induction false} NobodyYet(clients: seq<int>)
    requires forall i :: 0 <= i < |clients| ==> clients[i] < 0
    ensures Occupants(clients) == {} && Distinct(clients)
  {
    if clients == [] {
    } else {
      NobodyYet(clients[1..]);
    }
  }

  /** Whom an iteration reaches: with the code's bound every ready client except one in slot maxi, so
      all of them exactly when that slot's client is not ready; with the inclusive bound, all. */
  lemma WhoIsServed(clients: seq<int>, rset: set<int>, maxi: int, bound: Bound)
    requires -1 <= maxi < |clients| && Distinct(clients)
    requires forall i :: 0 <= i < |clients| && clients[i] >= 0 ==> i <= maxi
    ensures (forall i :: 0 <= i < |clients| && clients[i] >= 0 && clients[i] in rset
               ==> clients[i] in ReadyIn(clients, rset, 0, ScanEnd(bound, maxi)))
            <==> bound.Inclusive? || maxi < 0 || clients[maxi] < 0 || clients[maxi] !in rset
  {
    ReadyInMeaning(clients, rset, 0, ScanEnd(bound, maxi));
    if bound.BeforeMaxi? && maxi >= 0 && clients[maxi] >= 0 && clients[maxi] in ReadyIn(clients, rset, 0, maxi) {
      var i :| 0 <= i < maxi && clients[i] == clients[maxi];
      DistinctMeaning(clients, i, maxi);
    }
  }

  // --------------------------------------------------------------------- over many iterations

  /** Tables and what was served, iteration by iteration. */
  ghost predicate Run(tables: seq<Table>, listenfd: int, rounds: seq<Round>, bound: Bound, served: seq<seq<Served>>) {
    && |tables| == |rounds| + 1 && |served| == |rounds|
    && forall k :: 0 <= k < |rounds| ==> Iterates(tables[k], listenfd, rounds[k], bound, tables[k + 1], served[k])
  }

  /** The table has slot `m` as its last, with client `fd` in it and nowhere below. */
  ghost predicate LastIs(t: Table, m: nat, fd: int) {
    t.maxi == m < |t.clients| && t.clients[m] == fd && fd !in t.clients[..m]
  }

  ghost predicate WasServed(served: seq<Served>, fd: int) {
    exists i :: 0 <= i < |served| && served[i].fd == fd
  }

  lemma {:induction false} ServedAre(fds: seq<int>, input: int -> seq<Byte>, fd: int)
    ensures WasServed(ServeAll(fds, input), fd) <==> fd in fds
  {
    var all := ServeAll(fds, input);
    if fds == [] {
    } else {
      ServedAre(fds[1..], input, fd);
      assert fds == [fds[0]] + fds[1..];
      if WasServed(ServeAll(fds[1..], input), fd) {
        var i :| 0 <= i < |all| - 1 && ServeAll(fds[1..], input)[i].fd == fd;
        assert all[i + 1].fd == fd;
      } else if fd == fds[0] {
        assert all[0].fd == fd;
      } else {
        assert forall i :: 0 < i < |all| ==> all[i] == ServeAll(fds[1..], input)[i - 1];
      }
    }
  }

  /** One iteration of the code's loop: while its slot is the last, a client is neither served nor moved;
      once another has taken a higher slot it is served if it is ready. */
  lemma LastIsPassedOver(t: Table, listenfd: int, r: Round, after: Table, served: seq<Served>, m: nat, fd: int)
    requires Iterates(t, listenfd, r, BeforeMaxi, after, served) && LastIs(t, m, fd) && fd >= 0
    ensures after.maxi >= m
    ensures after.maxi == m ==> LastIs(after, m, fd) && !WasServed(served, fd)
    ensures after.maxi > m && fd in r.rset ==> WasServed(served, fd)
  {
    var mid := AtScan(t, listenfd, r);
    assert mid.clients[m] == fd && |mid.clients| == |t.clients|;
    ReadyInMeaning(mid.clients, r.rset, 0, mid.maxi);
    ServedAre(ReadyIn(mid.clients, r.rset, 0, mid.maxi), r.input, fd);
    if mid.maxi == m {
      OthersBelow(t, listenfd, r, m, fd);
    }
  }

  /** A new connection has a descriptor of its own. */
  lemma OthersBelow(t: Table, listenfd: int, r: Round, m: nat, fd: int)
    requires Admissible(t, listenfd, r) && LastIs(t, m, fd) && fd >= 0
    ensures var mid := AtScan(t, listenfd, r); m < |mid.clients| && forall i :: 0 <= i < m ==> mid.clients[i] != fd
  {
    assert forall i :: 0 <= i < m ==> t.clients[..m][i] == t.clients[i];
    assert t.clients[m] in t.clients;
  }

  lemma {:induction false} LastWaits(tables: seq<Table>, listenfd: int, rounds: seq<Round>, served: seq<seq<Served>>,
                                    m: nat, fd: int, k: nat)
    requires Run(tables, listenfd, rounds, BeforeMaxi, served) && LastIs(tables[0], m, fd) && fd >= 0
    requires k <= |rounds|
    ensures tables[k].maxi >= m
    ensures tables[k].maxi == m ==> LastIs(tables[k], m, fd) && forall j :: 0 <= j < k ==> !WasServed(served[j], fd)
  {
    if k == 0 {
    } else {
      LastWaits(tables, listenfd, rounds, served, m, fd, k - 1);
      MaxiGrows(tables[k - 1], listenfd, rounds[k - 1], tables[k], served[k - 1]);
      if tables[k].maxi == m {
        LastIsPassedOver(tables[k - 1], listenfd, rounds[k - 1], tables[k], served[k - 1], m, fd);
      }
    }
  }

  lemma MaxiGrows(t: Table, listenfd: int, r: Round, after: Table, served: seq<Served>)
    requires Iterates(t, listenfd, r, BeforeMaxi, after, served)
    ensures after.maxi >= t.maxi
  {
  }

  /** A connection comes in round `k` while slots 0 to `m` are taken. */
  ghost predicate ComesOnTop(tables: seq<Table>, listenfd: int, rounds: seq<Round>, m: nat, k: nat)
    requires k < |rounds| && k < |tables|
  {
    listenfd in rounds[k].rset && FirstFree(tables[k].clients) > m
  }

  lemma OnTopRaisesMaxi(t: Table, listenfd: int, r: Round, after: Table, served: seq<Served>, m: nat)
    requires Iterates(t, listenfd, r, BeforeMaxi, after, served)
    ensures listenfd in r.rset && FirstFree(t.clients) > m ==> after.maxi > m
    ensures t.maxi <= m < after.maxi ==> listenfd in r.rset && FirstFree(t.clients) > m
  {
  }

  lemma {:induction false} MaxiStaysUp(tables: seq<Table>, listenfd: int, rounds: seq<Round>, served: seq<seq<Served>>,
                                       k: nat, n: nat)
    requires Run(tables, listenfd, rounds, BeforeMaxi, served) && k <= n <= |rounds|
    ensures tables[k].maxi <= tables[n].maxi
  {
    if k == n {
    } else {
      MaxiStaysUp(tables, listenfd, rounds, served, k, n - 1);
      MaxiGrows(tables[n - 1], listenfd, rounds[n - 1], tables[n], served[n - 1]);
    }
  }

  lemma OvertakenIffOnTop(tables: seq<Table>, listenfd: int, rounds: seq<Round>, served: seq<seq<Served>>, m: nat)
    requires Run(tables, listenfd, rounds, BeforeMaxi, served) && tables[0].maxi == m
    ensures tables[|rounds|].maxi > m <==> exists k :: 0 <= k < |rounds| && ComesOnTop(tables, listenfd, rounds, m, k)
  {
    if tables[|rounds|].maxi > m {
      var k := Overtaken(tables, m, |rounds|);
      MaxiGrows(tables[k], listenfd, rounds[k], tables[k + 1], served[k]);
      OnTopRaisesMaxi(tables[k], listenfd, rounds[k], tables[k + 1], served[k], m);
      assert ComesOnTop(tables, listenfd, rounds, m, k);
    }
    forall k | 0 <= k < |rounds| && ComesOnTop(tables, listenfd, rounds, m, k)
      ensures tables[|rounds|].maxi > m
    {
      OnTopRaisesMaxi(tables[k], listenfd, rounds[k], tables[k + 1], served[k], m);
      MaxiStaysUp(tables, listenfd, rounds, served, k + 1, |rounds|);
    }
  }

  /** Starvation: with the code's bound, and however often it is ready, the client in slot maxi is served in
      a run if and only if some connection comes while that slot and all below are taken. */
  lemma LastServedIffOvertaken(tables: seq<Table>, listenfd: int, rounds: seq<Round>, served: seq<seq<Served>>, m: nat,
                               fd: int)
    requires Run(tables, listenfd, rounds, BeforeMaxi, served) && LastIs(tables[0], m, fd) && fd >= 0
    requires forall k :: 0 <= k < |rounds| ==> fd in rounds[k].rset
    ensures (exists k :: 0 <= k < |served| && WasServed(served[k], fd))
            <==> exists k :: 0 <= k < |rounds| && ComesOnTop(tables, listenfd, rounds, m, k)
  {
    OvertakenIffOnTop(tables, listenfd, rounds, served, m);
    LastWaits(tables, listenfd, rounds, served, m, fd, |rounds|);
    if tables[|rounds|].maxi > m {
      var k := Overtaken(tables, m, |rounds|);
      LastWaits(tables, listenfd, rounds, served, m, fd, k);
      LastWaits(tables, listenfd, rounds, served, m, fd, k + 1);
      LastIsPassedOver(tables[k], listenfd, rounds[k], tables[k + 1], served[k], m, fd);
    }
  }

  /** The first time that maxi has changed. */
  lemma {:induction false} Overtaken(tables: seq<Table>, m: nat, n: nat) returns (k: nat)
    requires n < |tables| && tables[0].maxi == m && tables[n].maxi != m
    ensures k < n && tables[k].maxi == m && tables[k + 1].maxi != m
  {
    if tables[n - 1].maxi == m {
      k := n - 1;
    } else {
      k := Overtaken(tables, m, n - 1);
    }
  }
}
