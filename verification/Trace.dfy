/** Runs of a limiter: a step function applied to a sequence of events. */
module Trace {

  /** Outcome of one event; `Silent` marks events that decide nothing (a tick, a removal). */
  datatype Verdict = Admitted | Denied | Silent

  function Final<S, E>(step: (S, E) -> (S, Verdict), s: S, events: seq<E>): S {
    if events == [] then s else Final(step, step(s, events[0]).0, events[1..])
  }

  function Verdicts<S, E>(step: (S, E) -> (S, Verdict), s: S, events: seq<E>): (vs: seq<Verdict>)
    ensures |vs| == |events|
  {
    if events == [] then [] else [step(s, events[0]).1] + Verdicts(step, step(s, events[0]).0, events[1..])
  }

  function Admissions(vs: seq<Verdict>): nat {
    if vs == [] then 0 else (if vs[0] == Admitted then 1 else 0) + Admissions(vs[1..])
  }

  /** Admissions over a whole run. */
  function Admits<S, E>(step: (S, E) -> (S, Verdict), s: S, events: seq<E>): nat {
    Admissions(Verdicts(step, s, events))
  }

  /** The events of a run that were not denied. */
  function Kept<S, E>(step: (S, E) -> (S, Verdict), s: S, events: seq<E>): seq<E> {
    if events == [] then []
    else (if step(s, events[0]).1 == Denied then [] else [events[0]]) + Kept(step, step(s, events[0]).0, events[1..])
  }

  function WithoutDenied(vs: seq<Verdict>): seq<Verdict> {
    if vs == [] then [] else (if vs[0] == Denied then [] else [vs[0]]) + WithoutDenied(vs[1..])
  }

  lemma AdmitsCons<S, E>(step: (S, E) -> (S, Verdict), s: S, events: seq<E>)
    requires events != []
    ensures Admits(step, s, events)
         == (if step(s, events[0]).1 == Admitted then 1 else 0) + Admits(step, step(s, events[0]).0, events[1..])
  {
    var vs := Verdicts(step, s, events);
    assert vs[1..] == Verdicts(step, step(s, events[0]).0, events[1..]);
  }

  /** A run over `pre + win` is the run over `pre` followed by the run over `win` from where `pre` ended. */
  lemma {:induction false} RunSplit<S, E>(step: (S, E) -> (S, Verdict), s: S, pre: seq<E>, win: seq<E>)
    ensures Final(step, s, pre + win) == Final(step, Final(step, s, pre), win)
    ensures Verdicts(step, s, pre + win) == Verdicts(step, s, pre) + Verdicts(step, Final(step, s, pre), win)
  {
    if pre == [] {
      assert pre + win == win;
    } else {
      assert (pre + win)[1..] == pre[1..] + win;
      RunSplit(step, step(s, pre[0]).0, pre[1..], win);
    }
  }

  lemma {:induction false} AdmissionsSplit(a: seq<Verdict>, b: seq<Verdict>)
    ensures Admissions(a + b) == Admissions(a) + Admissions(b)
  {
    if a == [] {
      assert a + b == b;
    } else {
      assert (a + b)[1..] == a[1..] + b;
      AdmissionsSplit(a[1..], b);
    }
  }

  /** If a denied event never changes the state, denied events can be erased from any run:
      the final state and every other verdict stay the same. */
  lemma {:induction false} DeniedErased<S(!new), E(!new)>(step: (S, E) -> (S, Verdict), s: S, events: seq<E>)
    requires forall x: S, e: E :: step(x, e).1 == Denied ==> step(x, e).0 == x
    ensures Final(step, s, Kept(step, s, events)) == Final(step, s, events)
    ensures Verdicts(step, s, Kept(step, s, events)) == WithoutDenied(Verdicts(step, s, events))
    decreases |events|
  {
    if events != [] {
      var next := step(s, events[0]).0;
      var rest := Kept(step, next, events[1..]);
      DeniedErased(step, next, events[1..]);
      assert Verdicts(step, s, events)[1..] == Verdicts(step, next, events[1..]);
      if step(s, events[0]).1 == Denied {
        assert [] + rest == rest;
      } else {
        assert ([events[0]] + rest)[1..] == rest;
      }
    }
  }
}
