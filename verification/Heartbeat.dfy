/** oob/heartbeatcli.c and oob/heartbeartserv.c: each end counts its alarms since it last heard from
    the other, and gives up when there are too many. */
module Heartbeat {
  datatype Tick = Alrm | Urg

  /** A signal handler's run, at a time counted in seconds from the start. */
  datatype Event = Event(at: nat, tick: Tick)

  /** Alarms since the last SIGURG, or since the start. */
  function Unanswered(h: seq<Event>): nat {
    if h == [] || h[|h| - 1].tick.Urg? then 0 else Unanswered(h[..|h| - 1]) + 1
  }

  /** Alarms in all. */
  function Alarms(h: seq<Event>): nat {
    if h == [] then 0 else Alarms(h[..|h| - 1]) + if h[|h| - 1].tick.Alrm? then 1 else 0
  }

  /** The static variables of either end. `limit` is maxnprobes of the client, maxnalarms of the
      server; `out` counts the out-of-band bytes sent. */
  class Monitor {
    var nsec: nat
    var limit: nat
    var nprobes: nat
    var exited: bool
    var out: nat
    ghost var history: seq<Event>

    ghost predicate Valid()
      reads this
    {
      && 1 <= nsec <= limit && nprobes == Unanswered(history)
      && (exited <==> Unanswered(history) > limit)
      && forall k :: 0 <= k < |history| ==> Unanswered(history[..k]) <= limit
    }

    /** heartbeat_cli and heartbeat_serv: both arguments are raised to their least sensible values. */
    constructor (nsecArg: int, limitArg: int)
      ensures Valid() && history == [] && !exited && out == 0
      ensures nsec == (if nsecArg < 1 then 1 else nsecArg)
      ensures limit == (if limitArg < nsec then nsec else limitArg)
    {
      var period := if nsecArg < 1 then 1 else nsecArg;
      nsec := period;
      limit := if limitArg < period then period else limitArg;
      nprobes, exited, out, history := 0, false, 0, [];
    }

    /** sig_urg of the client. */
    method ClientUrg(ghost at: nat)
      requires Valid() && !exited
      modifies this`nprobes, this`history
      ensures Valid() && !exited && history == old(history) + [Event(at, Urg)]
    {
      nprobes := 0;
      history := history + [Event(at, Urg)];
      KeepsPrefixes(old(history), history[|history| - 1]);
    }

    /** sig_urg of the server: the byte is echoed first. */
    method ServerUrg(ghost at: nat)
      requires Valid() && !exited
      modifies this`nprobes, this`history, this`out
      ensures Valid() && !exited && history == old(history) + [Event(at, Urg)] && out == old(out) + 1
    {
      out := out + 1;
      nprobes := 0;
      history := history + [Event(at, Urg)];
      KeepsPrefixes(old(history), history[|history| - 1]);
    }

    /** sig_alrm: exits when the count passes the limit; if not, a client sends a probe, a server does
        not. */
    method SigAlrm(client: bool, ghost at: nat)
      requires Valid() && !exited
      modifies this`nprobes, this`history, this`exited, this`out
      ensures Valid() && history == old(history) + [Event(at, Alrm)]
      ensures exited <==> Unanswered(old(history)) == limit
      ensures out == old(out) + if client && !exited then 1 else 0
    {
      nprobes := nprobes + 1;
      history := history + [Event(at, Alrm)];
      KeepsPrefixes(old(history), history[|history| - 1]);
      if nprobes > limit {
        exited := true;
        return;
      }
      if client {
        out := out + 1;
      }
    }
  }

  lemma KeepsPrefixes(h: seq<Event>, e: Event)
    ensures forall k :: 0 <= k <= |h| ==> (h + [e])[..k] == h[..k]
    ensures h[..|h|] == h && (h + [e])[..|h|] == h
  {
  }

  // ---------------------------------------------------------------------------- timing

  /** The alarm re-armed in its own handler: the nth comes at n periods; signals are in time order. */
  ghost predicate Timed(h: seq<Event>, nsec: nat) {
    && (forall i, j :: 0 <= i <= j < |h| ==> h[i].at <= h[j].at)
    && forall i :: 0 <= i < |h| && h[i].tick.Alrm? ==> h[i].at == nsec * Alarms(h[..i + 1])
  }

  /** Where the current silence began: the first alarm of an unanswered row of `n`. */
  lemma {:induction false} RowStart(h: seq<Event>) returns (i: nat)
    requires Unanswered(h) > 0
    ensures i < |h| && h[i].tick.Alrm? && Unanswered(h[..i]) == 0
    ensures forall j :: i <= j < |h| ==> h[j].tick.Alrm?
    ensures |h| - i == Unanswered(h) && Alarms(h) == Alarms(h[..i + 1]) + Unanswered(h) - 1
  {
    var before := h[..|h| - 1];
    if Unanswered(before) == 0 {
      i := |h| - 1;
      assert h[..i + 1] == h;
    } else {
      i := RowStart(before);
      assert before[..i] == h[..i] && before[..i + 1] == h[..i + 1];
    }
  }

  /** The row's last alarm comes a period later for each further one. */
  lemma RowLength(h: seq<Event>, nsec: nat) returns (i: nat)
    requires Timed(h, nsec) && Unanswered(h) > 0
    ensures i < |h| && h[i].tick.Alrm? && Unanswered(h[..i]) == 0 && forall j :: i <= j < |h| ==> h[j].tick.Alrm?
    ensures h[|h| - 1].at == h[i].at + nsec * (Unanswered(h) - 1)
  {
    i := RowStart(h);
    assert h[..|h| - 1 + 1] == h;
    Times(nsec, Alarms(h[..i + 1]), Unanswered(h) - 1);
  }

  lemma Times(a: nat, b: int, c: int)
    ensures a * (b + c) == a * b + a * c
  {
  }

  /** Every probe that has had `within` seconds to be answered has brought some SIGURG in less. */
  ghost predicate ProbesAnswered(h: seq<Event>, within: nat) {
    forall i, k :: 0 <= i < k < |h| && h[i].tick.Alrm? && h[k].at >= h[i].at + within ==>
      exists j :: i < j < |h| && h[j].tick.Urg? && h[j].at < h[i].at + within
  }

  /** A client whose probes are answered in less than maxnprobes periods never gives up. */
  lemma ClientStays(h: seq<Event>, nsec: nat, limit: nat, within: nat, k: nat)
    requires 1 <= nsec && 1 <= limit && within <= nsec * limit && Timed(h, nsec) && ProbesAnswered(h, within)
             && k <= |h|
    ensures Unanswered(h[..k]) <= limit
  {
    if Unanswered(h[..k]) > limit {
      var i, last := LongRow(h, nsec, limit, k);
      Grows(nsec, 1, limit);
      assert false;   // the row's first probe must bring a SIGURG before its last alarm
    }
  }

  /** The count passes the limit by one at first. */
  lemma {:induction false} FirstOver(h: seq<Event>, limit: nat, k: nat) returns (first: nat)
    requires k <= |h| && Unanswered(h[..k]) > limit
    ensures 0 < first <= k && Unanswered(h[..first]) == limit + 1
  {
    assert h[..k][..k - 1] == h[..k - 1];
    if Unanswered(h[..k]) == limit + 1 {
      first := k;
    } else {
      first := FirstOver(h, limit, k - 1);
    }
  }

  lemma TimedPrefix(h: seq<Event>, nsec: nat, k: nat)
    requires Timed(h, nsec) && k <= |h|
    ensures Timed(h[..k], nsec)
  {
    forall i | 0 <= i < k && h[..k][i].tick.Alrm?
      ensures h[..k][i].at == nsec * Alarms(h[..k][..i + 1])
    {
      assert h[..k][..i + 1] == h[..i + 1];
    }
  }

  /** The time of the last probe before event `k`, or the start. */
  function LastUrg(h: seq<Event>, k: nat): nat
    requires k <= |h|
  {
    if k == 0 then 0 else if h[k - 1].tick.Urg? then h[k - 1].at else LastUrg(h, k - 1)
  }

  /** Nothing happens more than `gap` seconds after the last probe or the start: so no gap between
      probes is longer, nor is the wait for the first or the one that is going on. */
  ghost predicate GapsAtMost(h: seq<Event>, gap: nat) {
    forall k :: 0 <= k < |h| ==> h[k].at <= LastUrg(h, k) + gap
  }

  /** Of an alarm and a probe in the same second, the alarm is always handled first. */
  ghost predicate AlarmsFirst(h: seq<Event>) {
    forall i, j :: 0 <= i < j < |h| && h[i].tick.Urg? && h[j].tick.Alrm? ==> h[i].at < h[j].at
  }

  lemma {:induction false} LastUrgBeforeRow(h: seq<Event>, i: nat, k: nat)
    requires i <= k <= |h| && forall j :: i <= j < k ==> h[j].tick.Alrm?
    ensures LastUrg(h, k) == LastUrg(h, i)
  {
    if i == k {
    } else {
      LastUrgBeforeRow(h, i, k - 1);
    }
  }

  lemma {:induction false} LastUrgIsEvent(h: seq<Event>, i: nat)
    requires i <= |h|
    ensures LastUrg(h, i) == 0 || exists u :: 0 <= u < i && h[u].tick.Urg? && h[u].at == LastUrg(h, i)
  {
    if i == 0 || h[i - 1].tick.Urg? {
    } else {
      LastUrgIsEvent(h, i - 1);
    }
  }

  /** When the server gives up, its row of alarms has lasted for `limit` periods, and from the last probe
      on it is no shorter. */
  lemma ServerGivesUp(h: seq<Event>, nsec: nat, limit: nat, k: nat) returns (i: nat, last: nat)
    requires 1 <= nsec && Timed(h, nsec) && k <= |h| && Unanswered(h[..k]) > limit
    ensures i <= last < |h| && h[i].tick.Alrm? && h[i].at >= LastUrg(h, i) == LastUrg(h, last) && h[i].at > 0
    ensures h[last].at == h[i].at + nsec * limit
  {
    i, last := LongRow(h, nsec, limit, k);
    LastUrgBeforeRow(h, i, last);
    UrgNotLater(h, nsec, i);
    AtLeastOne(h, nsec, i);
  }

  /** A row of alarms too many, and the time it takes. */
  lemma LongRow(h: seq<Event>, nsec: nat, limit: nat, k: nat) returns (i: nat, last: nat)
    requires Timed(h, nsec) && k <= |h| && Unanswered(h[..k]) > limit
    ensures i <= last < |h| && (forall j :: i <= j <= last ==> h[j].tick.Alrm?)
    ensures h[last].at == h[i].at + nsec * limit
  {
    var first := FirstOver(h, limit, k);
    TimedPrefix(h, nsec, first);
    var p := h[..first];
    i := RowLength(p, nsec);
    last := first - 1;
    assert forall j :: i <= j <= last ==> h[j] == p[j];
  }

  lemma UrgNotLater(h: seq<Event>, nsec: nat, i: nat)
    requires Timed(h, nsec) && i < |h|
    ensures LastUrg(h, i) <= h[i].at
  {
    LastUrgIsEvent(h, i);
  }

  lemma AtLeastOne(h: seq<Event>, nsec: nat, i: nat)
    requires nsec >= 1 && Timed(h, nsec) && i < |h| && h[i].tick.Alrm?
    ensures h[i].at >= 1
  {
    var n := Alarms(h[..i + 1]);
    assert h[..i + 1][i] == h[i];
    assert n >= 1;
    Times(nsec, 1, n - 1);
  }

  /** How alarms and probes of the same second are ordered: in any way, or the alarm always first. */
  datatype Ties = AnyOrder | AlarmFirst

  /** Histories that can happen with no gap longer than `gap` seconds. */
  ghost predicate Possible(h: seq<Event>, nsec: nat, gap: nat, ties: Ties) {
    Timed(h, nsec) && GapsAtMost(h, gap) && (ties.AlarmFirst? ==> AlarmsFirst(h))
  }

  /** The shortest gap in seconds with which the server may give up. */
  function FirstTooLong(nsec: nat, limit: nat, ties: Ties): nat {
    nsec * limit + if ties.AlarmFirst? then 1 else 0
  }

  lemma ServerStays(h: seq<Event>, nsec: nat, limit: nat, gap: nat, ties: Ties, k: nat)
    requires 1 <= nsec && Possible(h, nsec, gap, ties) && gap < FirstTooLong(nsec, limit, ties) && k <= |h|
    ensures Unanswered(h[..k]) <= limit
  {
    if Unanswered(h[..k]) > limit {
      var i, last := ServerGivesUp(h, nsec, limit, k);
      LastUrgIsEvent(h, i);
      assert false;
    }
  }

  /** A probe at `u`, then `n` alarms. */
  function Silence(nsec: nat, u: nat, n: nat): seq<Event> {
    if n == 0 then [Event(u, Urg)] else Silence(nsec, u, n - 1) + [Event(nsec * n, Alrm)]
  }

  lemma {:induction false} SilenceCounts(nsec: nat, u: nat, n: nat)
    ensures |Silence(nsec, u, n)| == n + 1 && Unanswered(Silence(nsec, u, n)) == n && Alarms(Silence(nsec, u, n)) == n
  {
    if n > 0 {
      SilenceCounts(nsec, u, n - 1);
      assert Silence(nsec, u, n)[..n] == Silence(nsec, u, n - 1);
    } else {
      assert Silence(nsec, u, 0)[..0] == [];
    }
  }

  lemma {:induction false} SilenceAt(nsec: nat, u: nat, n: nat, i: nat)
    requires i <= n
    ensures |Silence(nsec, u, n)| == n + 1 && Silence(nsec, u, n)[..i + 1] == Silence(nsec, u, i)
    ensures Silence(nsec, u, n)[i] == if i == 0 then Event(u, Urg) else Event(nsec * i, Alrm)
    decreases n - i
  {
    SilenceCounts(nsec, u, n);
    SilenceCounts(nsec, u, i);
    if i == n {
    } else {
      SilenceAt(nsec, u, n, i + 1);
      assert Silence(nsec, u, i + 1)[..i + 1] == Silence(nsec, u, i);
      assert Silence(nsec, u, n)[..i + 2][..i + 1] == Silence(nsec, u, n)[..i + 1];
    }
    assert Silence(nsec, u, n)[i] == Silence(nsec, u, n)[..i + 1][i];
  }

  lemma {:induction false} SilenceLastUrg(nsec: nat, u: nat, n: nat, k: nat)
    requires 1 <= k <= n + 1
    ensures |Silence(nsec, u, n)| == n + 1 && LastUrg(Silence(nsec, u, n), k) == u
  {
    SilenceAt(nsec, u, n, k - 1);
    if k == 1 {
    } else {
      SilenceLastUrg(nsec, u, n, k - 1);
    }
  }

  /** It is a run that can happen if the probe is not later than the first alarm. */
  lemma SilenceIsTimed(nsec: nat, u: nat, n: nat)
    requires u <= nsec
    ensures Timed(Silence(nsec, u, n), nsec)
  {
    var h := Silence(nsec, u, n);
    SilenceCounts(nsec, u, n);
    forall i, j | 0 <= i <= j < |h|
      ensures h[i].at <= h[j].at
    {
      SilenceAt(nsec, u, n, i);
      SilenceAt(nsec, u, n, j);
      Grows(nsec, if i == 0 then 1 else i, if j == 0 then 1 else j);
    }
    forall i | 0 <= i < |h| && h[i].tick.Alrm?
      ensures h[i].at == nsec * Alarms(h[..i + 1])
    {
      SilenceAt(nsec, u, n, i);
      SilenceCounts(nsec, u, i);
    }
  }

  /** Its longest gap is the one that is still going on. */
  lemma SilenceGap(nsec: nat, u: nat, limit: nat, gap: nat)
    requires u <= nsec <= nsec * limit && nsec * limit + nsec <= u + gap
    ensures GapsAtMost(Silence(nsec, u, limit + 1), gap)
  {
    var h := Silence(nsec, u, limit + 1);
    SilenceCounts(nsec, u, limit + 1);
    Times(nsec, limit, 1);
    forall k | 0 <= k < |h|
      ensures h[k].at <= LastUrg(h, k) + gap
    {
      SilenceAt(nsec, u, limit + 1, k);
      if k > 0 {
        SilenceLastUrg(nsec, u, limit + 1, k);
        Grows(nsec, k, limit + 1);
      }
    }
  }

  /** With gaps that long, for every setting there is such a run: the probe comes in the second of the
      first alarm, before it, or in the second before if ties go to the alarm. */
  lemma SilenceEndsIt(nsec: nat, limit: nat, gap: nat, ties: Ties) returns (h: seq<Event>)
    requires 1 <= nsec && 1 <= limit && gap >= FirstTooLong(nsec, limit, ties)
    ensures Possible(h, nsec, gap, ties) && Unanswered(h) == limit + 1
  {
    h := LongSilence(nsec, if ties.AlarmFirst? then nsec - 1 else nsec, limit, gap, ties);
  }

  lemma LongSilence(nsec: nat, u: nat, limit: nat, gap: nat, ties: Ties) returns (h: seq<Event>)
    requires 1 <= limit && u <= nsec && nsec * limit + nsec <= u + gap && (ties.AlarmFirst? ==> u < nsec)
    ensures Possible(h, nsec, gap, ties) && Unanswered(h) == limit + 1
  {
    h := Silence(nsec, u, limit + 1);
    OneMorePeriod(nsec, limit);
    SilenceIsTimed(nsec, u, limit + 1);
    SilenceGap(nsec, u, limit, gap);
    SilenceCounts(nsec, u, limit + 1);
    if ties.AlarmFirst? {
      ProbeBefore(nsec, u, limit + 1);
    }
    IsPossible(h, nsec, gap, ties);
  }

  lemma IsPossible(h: seq<Event>, nsec: nat, gap: nat, ties: Ties)
    requires Timed(h, nsec) && GapsAtMost(h, gap) && (ties.AlarmFirst? ==> AlarmsFirst(h))
    ensures Possible(h, nsec, gap, ties)
  {
  }

  lemma ProbeBefore(nsec: nat, u: nat, n: nat)
    requires u < nsec
    ensures AlarmsFirst(Silence(nsec, u, n))
  {
    var h := Silence(nsec, u, n);
    SilenceCounts(nsec, u, n);
    forall i, j | 0 <= i < j < |h| && h[i].tick.Urg? && h[j].tick.Alrm?
      ensures h[i].at < h[j].at
    {
      SilenceAt(nsec, u, n, i);
      SilenceAt(nsec, u, n, j);
      Grows(nsec, 1, j);
    }
  }

  /** Exactly when gaps between probes, the wait for the first included, are short enough to be sure that
      the server stays: shorter than maxnalarms periods, or no longer than that if of an alarm and a probe
      in the same second the alarm is always handled first. */
  lemma ServerStaysIff(nsec: nat, limit: nat, gap: nat, ties: Ties)
    requires 1 <= nsec && 1 <= limit
    ensures (forall h, k :: Possible(h, nsec, gap, ties) && 0 <= k <= |h| ==> Unanswered(h[..k]) <= limit)
            <==> gap < FirstTooLong(nsec, limit, ties)
  {
    if gap < FirstTooLong(nsec, limit, ties) {
      forall h, k | Possible(h, nsec, gap, ties) && 0 <= k <= |h|
        ensures Unanswered(h[..k]) <= limit
      {
        ServerStays(h, nsec, limit, gap, ties, k);
      }
    } else {
      var h := SilenceEndsIt(nsec, limit, gap, ties);
      assert h[..|h|] == h;
      assert Unanswered(h[..|h|]) > limit;
    }
  }

  /** Exactly which time limit on answers is sure to keep a client. */
  lemma ClientStaysIff(nsec: nat, limit: nat, within: nat)
    requires 1 <= nsec && 1 <= limit
    ensures (forall h, k :: Timed(h, nsec) && ProbesAnswered(h, within) && 0 <= k <= |h| ==>
               Unanswered(h[..k]) <= limit)
            <==> within <= nsec * limit
  {
    if within <= nsec * limit {
      forall h, k | Timed(h, nsec) && ProbesAnswered(h, within) && 0 <= k <= |h|
        ensures Unanswered(h[..k]) <= limit
      {
        ClientStays(h, nsec, limit, within, k);
      }
    } else {
      var h := Silence(nsec, 0, limit + 1);
      SilenceIsTimed(nsec, 0, limit + 1);
      SilenceCounts(nsec, 0, limit + 1);
      AnswersToCome(nsec, limit, within);
      assert h[..|h|] == h;
      assert Unanswered(h[..|h|]) > limit;
    }
  }

  /** In that silence no probe has had more than maxnprobes periods. */
  lemma AnswersToCome(nsec: nat, limit: nat, within: nat)
    requires 1 <= nsec && within > nsec * limit
    ensures ProbesAnswered(Silence(nsec, 0, limit + 1), within)
  {
    var h := Silence(nsec, 0, limit + 1);
    SilenceCounts(nsec, 0, limit + 1);
    forall i, k | 0 <= i < k < |h| && h[i].tick.Alrm?
      ensures h[k].at < h[i].at + within
    {
      SilenceAt(nsec, 0, limit + 1, i);
      SilenceAt(nsec, 0, limit + 1, k);
      Times(nsec, i, k - i);
      Grows(nsec, k - i, limit);
    }
  }

  lemma OneMorePeriod(nsec: nat, n: nat)
    requires 1 <= n
    ensures nsec * (n + 1) == nsec * n + nsec && nsec <= nsec * n
  {
    Times(nsec, n, 1);
    Grows(nsec, 1, n);
  }

  lemma Grows(a: nat, b: nat, c: nat)
    requires b <= c
    ensures a * b <= a * c
  {
    Times(a, b, c - b);
  }
}
