/** Runs of a step system. `next(s, m)` is the state after move `m`, or None when `m` is not
    possible in `s`; a run is the list of moves taken. */
module Runs {
  import opened Bytes

  function Exec<S, M>(next: (S, M) -> Option<S>, s: S, moves: seq<M>): Option<S>
    decreases |moves|
  {
    if moves == [] then Some(s)
    else match next(s, moves[0])
      case None => None
      case Some(t) => Exec(next, t, moves[1..])
  }

  ghost predicate Reaches<S(!new), M(!new)>(next: (S, M) -> Option<S>, s: S, t: S) {
    exists moves: seq<M> :: Exec(next, s, moves) == Some(t)
  }

  lemma {:induction false} ExecConcat<S, M>(next: (S, M) -> Option<S>, s: S, a: seq<M>, b: seq<M>)
    requires Exec(next, s, a).Some?
    ensures Exec(next, s, a + b) == Exec(next, Exec(next, s, a).value, b)
    decreases |a|
  {
    if a == [] {
      assert a + b == b;
    } else {
      assert (a + b)[1..] == a[1..] + b;
      ExecConcat(next, next(s, a[0]).value, a[1..], b);
    }
  }

  lemma ReachesByMove<S(!new), M(!new)>(next: (S, M) -> Option<S>, s: S, m: M)
    requires next(s, m).Some?
    ensures Reaches(next, s, next(s, m).value)
  {
    assert Exec(next, next(s, m).value, [m][1..]) == Some(next(s, m).value);
    assert Exec(next, s, [m]) == Some(next(s, m).value);
  }

  lemma ReachesItself<S(!new), M(!new)>(next: (S, M) -> Option<S>, s: S)
    ensures Reaches(next, s, s)
  {
    var none: seq<M> := [];
    assert Exec(next, s, none) == Some(s);
  }

  lemma ReachesTransitive<S(!new), M(!new)>(next: (S, M) -> Option<S>, s: S, t: S, u: S)
    requires Reaches(next, s, t) && Reaches(next, t, u)
    ensures Reaches(next, s, u)
  {
    var a: seq<M> :| Exec(next, s, a) == Some(t);
    var b: seq<M> :| Exec(next, t, b) == Some(u);
    ExecConcat(next, s, a, b);
    assert Exec(next, s, a + b) == Some(u);
  }

  /** What every move keeps, every run keeps. */
  lemma {:induction false} Invariant<S(!new), M(!new)>(next: (S, M) -> Option<S>, inv: S -> bool, s: S, moves: seq<M>)
    requires inv(s)
    requires forall t, m :: inv(t) && next(t, m).Some? ==> inv(next(t, m).value)
    requires Exec(next, s, moves).Some?
    ensures inv(Exec(next, s, moves).value)
    decreases |moves|
  {
    if moves == [] {
    } else {
      assert inv(next(s, moves[0]).value);
      Invariant(next, inv, next(s, moves[0]).value, moves[1..]);
    }
  }

  lemma ReachesThen<S(!new), M(!new)>(next: (S, M) -> Option<S>, s: S, t: S, m: M)
    requires Reaches(next, s, t) && next(t, m).Some?
    ensures Reaches(next, s, next(t, m).value)
  {
    ReachesByMove(next, t, m);
    ReachesTransitive(next, s, t, next(t, m).value);
  }

  /** If no move raises the measure and those that count lower it, they are at most as many as it. */
  function Counted<M>(counts: M -> bool, moves: seq<M>): nat {
    if moves == [] then 0 else (if counts(moves[0]) then 1 else 0) + Counted(counts, moves[1..])
  }

  lemma {:induction false} BoundedRuns<S(!new), M(!new)>(next: (S, M) -> Option<S>, inv: S -> bool, counts: M -> bool,
                                                        measure: S -> nat, s: S, moves: seq<M>)
    requires inv(s)
    requires forall t, m :: inv(t) && next(t, m).Some? ==>
               inv(next(t, m).value) && measure(next(t, m).value) + (if counts(m) then 1 else 0) <= measure(t)
    requires Exec(next, s, moves).Some?
    ensures Counted(counts, moves) + measure(Exec(next, s, moves).value) <= measure(s)
    decreases |moves|
  {
    if moves == [] {
    } else {
      BoundedRuns(next, inv, counts, measure, next(s, moves[0]).value, moves[1..]);
    }
  }

  /** At some point of the run a move is made of which `what` holds. */
  predicate Happens<S, M>(next: (S, M) -> Option<S>, what: (S, M) -> bool, s: S, moves: seq<M>)
    decreases |moves|
  {
    moves != [] && next(s, moves[0]).Some?
    && (what(s, moves[0]) || Happens(next, what, next(s, moves[0]).value, moves[1..]))
  }

  /** A state that only such a move brings about, and that stays, tells whether there was one. */
  lemma {:induction false} Tells<S(!new), M(!new)>(next: (S, M) -> Option<S>, what: (S, M) -> bool, since: S -> bool,
                                                 s: S, moves: seq<M>)
    requires forall t, m :: next(t, m).Some? ==> (since(next(t, m).value) <==> since(t) || what(t, m))
    requires Exec(next, s, moves).Some?
    ensures since(Exec(next, s, moves).value) <==> since(s) || Happens(next, what, s, moves)
    decreases |moves|
  {
    if moves == [] {
    } else {
      Tells(next, what, since, next(s, moves[0]).value, moves[1..]);
    }
  }

  /** What is observed of the moves of a run, in order. */
  function Trace<S, M, T>(next: (S, M) -> Option<S>, seen: (S, M) -> seq<T>, s: S, moves: seq<M>): seq<T>
    decreases |moves|
  {
    if moves == [] then []
    else match next(s, moves[0])
      case None => []
      case Some(t) => seen(s, moves[0]) + Trace(next, seen, t, moves[1..])
  }

  /** If each move hands out the next of what a state owes for what it is given, the run hands out all but
      what its end owes. */
  lemma {:induction false} HandsOut<S(!new), M(!new), T(!new), V>(next: (S, M) -> Option<S>, inv: S -> bool,
      given: (S, M) -> seq<T>, out: (S, M) -> seq<V>, owed: (S, seq<T>) -> seq<V>, s: S, moves: seq<M>, future: seq<T>)
    requires inv(s) && Exec(next, s, moves).Some?
    requires forall t, m :: inv(t) && next(t, m).Some? ==> inv(next(t, m).value)
    requires forall t, m, later :: inv(t) && next(t, m).Some? ==>
               owed(t, given(t, m) + later) == out(t, m) + owed(next(t, m).value, later)
    ensures owed(s, Trace(next, given, s, moves) + future)
         == Trace(next, out, s, moves) + owed(Exec(next, s, moves).value, future)
    decreases |moves|
  {
    if moves == [] {
      assert [] + future == future;
      assert [] + owed(s, future) == owed(s, future);
    } else {
      var m := moves[0];
      var t := next(s, m).value;
      var later, last := Trace(next, given, t, moves[1..]), owed(Exec(next, s, moves).value, future);
      HandsOut(next, inv, given, out, owed, t, moves[1..], future);
      assert (given(s, m) + later) + future == given(s, m) + (later + future);
      assert (out(s, m) + Trace(next, out, t, moves[1..])) + last
          == out(s, m) + (Trace(next, out, t, moves[1..]) + last);
    }
  }

  /** What every move appends to a log, a run appends. */
  lemma {:induction false} Accumulates<S(!new), M(!new), V>(next: (S, M) -> Option<S>, out: (S, M) -> seq<V>,
                                                            log: S -> seq<V>, s: S, moves: seq<M>)
    requires Exec(next, s, moves).Some?
    requires forall t, m :: next(t, m).Some? ==> log(next(t, m).value) == log(t) + out(t, m)
    ensures log(Exec(next, s, moves).value) == log(s) + Trace(next, out, s, moves)
    decreases |moves|
  {
    if moves == [] {
      assert log(s) + [] == log(s);
    } else {
      var m := moves[0];
      var later := Trace(next, out, next(s, m).value, moves[1..]);
      Accumulates(next, out, log, next(s, m).value, moves[1..]);
      assert (log(s) + out(s, m)) + later == log(s) + (out(s, m) + later);
    }
  }

  /** What every move carries back from its end to its beginning, a run does. */
  lemma {:induction false} CarriesBack<S(!new), M(!new), T(!new), V>(next: (S, M) -> Option<S>, inv: S -> bool,
      given: (S, M) -> seq<T>, out: (S, M) -> seq<V>, holds: (S, seq<T>, nat) -> bool, s: S, moves: seq<M>,
      future: seq<T>, n: nat)
    requires inv(s) && Exec(next, s, moves).Some?
    requires forall t, m :: inv(t) && next(t, m).Some? ==> inv(next(t, m).value)
    requires forall t, m, later, k: nat ::
               inv(t) && next(t, m).Some? && holds(next(t, m).value, later, k + |out(t, m)|) ==>
                 holds(t, given(t, m) + later, k)
    requires holds(Exec(next, s, moves).value, future, n + |Trace(next, out, s, moves)|)
    ensures holds(s, Trace(next, given, s, moves) + future, n)
    decreases |moves|
  {
    if moves == [] {
      assert [] + future == future;
    } else {
      var m := moves[0];
      var t := next(s, m).value;
      CarriesBack(next, inv, given, out, holds, t, moves[1..], future, n + |out(s, m)|);
      var later := Trace(next, given, t, moves[1..]);
      assert (given(s, m) + later) + future == given(s, m) + (later + future);
    }
  }
}
