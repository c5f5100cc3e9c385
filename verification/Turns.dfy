/** Counting over runs, apart from what a run is: how often a block is called while a 32-bit
    streak counts its failures. */
module Turns {
  import opened Text

  /** Where the streak wraps. */
  const WRAP: nat := UINT32_MAX + 1

  /** One run: whether the function was called, whether the run failed, how many failures it
      logged, and the state after it. */
  datatype Turn<S> = Turn(called: bool, fails: bool, failures: nat, next: S)

  /** Consecutive runs from a state. */
  function TurnsFrom<S, O>(turn: (S, O) -> Turn<S>, s: S, os: seq<O>): (ts: seq<Turn<S>>)
    ensures |ts| == |os|
    decreases |os|
  {
    if os == [] then [] else [turn(s, os[0])] + TurnsFrom(turn, turn(s, os[0]).next, os[1..])
  }

  function End<S>(s: S, ts: seq<Turn<S>>): S {
    if ts == [] then s else ts[|ts| - 1].next
  }

  predicate AllFail<S>(ts: seq<Turn<S>>) {
    forall i :: 0 <= i < |ts| ==> ts[i].fails
  }

  predicate AllFailOnce<S>(ts: seq<Turn<S>>) {
    forall i :: 0 <= i < |ts| ==> ts[i].fails && ts[i].failures == 1
  }

  function Calls<S>(ts: seq<Turn<S>>): nat {
    if ts == [] then 0 else (if ts[0].called then 1 else 0) + Calls(ts[1..])
  }

  function Failures<S>(ts: seq<Turn<S>>): nat {
    if ts == [] then 0 else ts[0].failures + Failures(ts[1..])
  }

  /** Runs of a block under quarantine: called while the streak is below the limit, refused with
      a single failure from there on; a failing run raises the streak by its failures. */
  ghost predicate Counts<S(!new), O(!new)>(turn: (S, O) -> Turn<S>, streak: S -> UInt32, max: UInt32) {
    forall s, o {:trigger turn(s, o)} :: CountsTurn(turn(s, o), streak(s), streak(turn(s, o).next), max)
  }

  predicate CountsTurn<S>(r: Turn<S>, before: UInt32, after: UInt32, max: UInt32) {
    && (r.called <==> before < max)
    && (!r.called ==> r.fails && r.failures == 1)
    && (r.fails ==> r.failures >= 1 && after == (before + r.failures) % WRAP)
  }

  // ---------------------------------------------------------------------------------
  // Low counts
  // ---------------------------------------------------------------------------------

  /** How many of the n numbers from t on have the property p. */
  function HowMany(p: nat -> bool, t: nat, n: nat): nat {
    if n == 0 then 0 else HowMany(p, t, n - 1) + if p(t + n - 1) then 1 else 0
  }

  lemma {:induction false} HowManySplit(p: nat -> bool, t: nat, a: nat, b: nat)
    ensures HowMany(p, t, a + b) == HowMany(p, t, a) + HowMany(p, t + a, b)
  {
    if b > 0 {
      HowManySplit(p, t, a, b - 1);
      assert t + (a + b) - 1 == (t + a) + b - 1;
    }
  }

  lemma HowManyOne(p: nat -> bool, t: nat)
    ensures HowMany(p, t, 1) == if p(t) then 1 else 0
  {
    assert HowMany(p, t, 1) == HowMany(p, t, 0) + if p(t + 1 - 1) then 1 else 0;
  }

  lemma HowManyFirst(p: nat -> bool, t: nat, n: nat)
    requires n >= 1
    ensures HowMany(p, t, n) >= if p(t) then 1 else 0
  {
    HowManySplit(p, t, 1, n - 1);
    HowManyOne(p, t);
  }

  /** The counts at which a block may run: those whose 32-bit streak is below the limit. */
  function Low(max: UInt32): nat -> bool {
    (t: nat) => t % WRAP < max
  }

  lemma LowIs(max: UInt32, t: nat)
    ensures Low(max)(t) <==> t % WRAP < max
  {
  }

  lemma LowAt(max: UInt32, t: nat)
    requires t < WRAP
    ensures Low(max)(t) <==> t < max
    ensures Low(max)(WRAP + t) <==> t < max
  {
    assert t % WRAP == t;
    assert (WRAP + t) % WRAP == t;
  }

  /** Short of the wrap the low counts are those below the limit... */
  lemma {:induction false} LowBeforeWrap(max: UInt32, t: nat, n: nat)
    requires t + n <= WRAP
    ensures HowMany(Low(max), t, n) == Min(n, Monus(max, t))
  {
    hide Low;
    if n > 0 {
      LowBeforeWrap(max, t, n - 1);
      LowAt(max, t + n - 1);
    }
  }

  /** ...behind it they come again... */
  lemma {:induction false} LowAfterWrap(max: UInt32, n: nat)
    requires n <= WRAP
    ensures HowMany(Low(max), WRAP, n) == Min(n, max)
  {
    hide Low;
    if n > 0 {
      LowAfterWrap(max, n - 1);
      LowAt(max, n - 1);
      assert WRAP + n - 1 == WRAP + (n - 1);
    }
  }

  /** ...and among 2^32 counts in a row there are never more than the limit. */
  lemma LowAmongWrap(max: UInt32, t: nat, n: nat)
    requires t < WRAP && n <= WRAP
    ensures HowMany(Low(max), t, n) <= max
  {
    if t + n <= WRAP {
      LowBeforeWrap(max, t, n);
    } else {
      HowManySplit(Low(max), t, WRAP - t, t + n - WRAP);
      LowBeforeWrap(max, t, WRAP - t);
      LowAfterWrap(max, t + n - WRAP);
    }
  }

  // ---------------------------------------------------------------------------------
  // Calls
  // ---------------------------------------------------------------------------------

  lemma WrapAgain(t: nat, f: nat)
    ensures (t % WRAP + f) % WRAP == (t + f) % WRAP
  {
  }

  lemma TurnsTail<S, O>(turn: (S, O) -> Turn<S>, s: S, os: seq<O>)
    requires os != []
    ensures var ts := TurnsFrom(turn, s, os);
            var next := turn(s, os[0]).next;
            && ts[0] == turn(s, os[0]) && ts[1..] == TurnsFrom(turn, next, os[1..])
            && End(s, ts) == End(next, ts[1..])
  {
  }

  /** Failing runs count through the numbers from t on, and a call needs a low one. */
  lemma {:induction false} CallsAreLow<S(!new), O(!new)>(turn: (S, O) -> Turn<S>, streak: S -> UInt32, max: UInt32,
                                                         s: S, os: seq<O>, t: nat)
    requires Counts(turn, streak, max) && streak(s) == t % WRAP
    requires AllFail(TurnsFrom(turn, s, os))
    ensures var ts := TurnsFrom(turn, s, os);
            && Calls(ts) <= HowMany(Low(max), t, Failures(ts))
            && streak(End(s, ts)) == (t + Failures(ts)) % WRAP
    decreases |os|
  {
    hide HowMany, Low;
    if os != [] {
      var ts, r := TurnsFrom(turn, s, os), turn(s, os[0]);
      TurnsTail(turn, s, os);
      assert CountsTurn(r, streak(s), streak(r.next), max);
      WrapAgain(t, r.failures);
      CallsAreLow(turn, streak, max, r.next, os[1..], t + r.failures);
      LowIs(max, t);
      HowManyFirst(Low(max), t, r.failures);
      HowManySplit(Low(max), t, r.failures, Failures(ts[1..]));
    }
  }

  /** Runs that fail once each are called at exactly the low counts. */
  lemma {:induction false} CallsAreExactlyLow<S(!new), O(!new)>(turn: (S, O) -> Turn<S>, streak: S -> UInt32, max: UInt32,
                                                                s: S, os: seq<O>, t: nat)
    requires Counts(turn, streak, max) && streak(s) == t % WRAP
    requires AllFailOnce(TurnsFrom(turn, s, os))
    ensures var ts := TurnsFrom(turn, s, os);
            Calls(ts) == HowMany(Low(max), t, |os|) && Failures(ts) == |os|
    decreases |os|
  {
    hide Low;
    if os != [] {
      var r := turn(s, os[0]);
      TurnsTail(turn, s, os);
      assert CountsTurn(r, streak(s), streak(r.next), max);
      WrapAgain(t, 1);
      CallsAreExactlyLow(turn, streak, max, r.next, os[1..], t + 1);
      LowIs(max, t);
      HowManyOne(Low(max), t);
      HowManySplit(Low(max), t, 1, |os| - 1);
    }
  }

  /** The bounds that follow. */
  lemma BoundCalls<S(!new), O(!new)>(turn: (S, O) -> Turn<S>, streak: S -> UInt32, max: UInt32, s: S, os: seq<O>)
    requires Counts(turn, streak, max) && AllFail(TurnsFrom(turn, s, os))
    ensures var ts := TurnsFrom(turn, s, os);
            && streak(End(s, ts)) == (streak(s) + Failures(ts)) % WRAP
            && Calls(ts) <= HowMany(Low(max), streak(s), Failures(ts))
            && (Failures(ts) <= WRAP ==> Calls(ts) <= max)
            && (streak(s) + Failures(ts) <= WRAP ==> Calls(ts) <= Monus(max, streak(s)))
  {
    hide HowMany, TurnsFrom, Calls, Failures, AllFail, Counts, Low, End;
    var n := Failures(TurnsFrom(turn, s, os));
    CallsAreLow(turn, streak, max, s, os, streak(s));
    if n <= WRAP {
      LowAmongWrap(max, streak(s), n);
    }
    if streak(s) + n <= WRAP {
      LowBeforeWrap(max, streak(s), n);
    }
  }

  lemma ExactCalls<S(!new), O(!new)>(turn: (S, O) -> Turn<S>, streak: S -> UInt32, max: UInt32, s: S, os: seq<O>)
    requires Counts(turn, streak, max) && AllFailOnce(TurnsFrom(turn, s, os))
    ensures var ts := TurnsFrom(turn, s, os);
            && Failures(ts) == |os| && Calls(ts) == HowMany(Low(max), streak(s), |os|)
            && (streak(s) + |os| <= WRAP ==> Calls(ts) == Min(|os|, Monus(max, streak(s))))
  {
    hide HowMany, TurnsFrom, Calls, Failures, AllFailOnce, Counts, Low;
    CallsAreExactlyLow(turn, streak, max, s, os, streak(s));
    if streak(s) + |os| <= WRAP {
      LowBeforeWrap(max, streak(s), |os|);
    }
  }

  /** From a streak at the limit on, the next n runs are all refused exactly if n is at most what
      is left until the streak wraps. */
  lemma {:induction false} RefusalLasts<S(!new), O(!new)>(turn: (S, O) -> Turn<S>, streak: S -> UInt32, max: UInt32,
                                                          s: S, os: seq<O>)
    requires Counts(turn, streak, max) && 0 < max <= streak(s)
    ensures Calls(TurnsFrom(turn, s, os)) == 0 <==> |os| <= WRAP - streak(s)
    decreases |os|
  {
    if os != [] {
      var r := turn(s, os[0]);
      TurnsTail(turn, s, os);
      assert CountsTurn(r, streak(s), streak(r.next), max);
      if streak(s) < UINT32_MAX {
        RefusalLasts(turn, streak, max, r.next, os[1..]);
      } else if |os| > 1 {
        TurnsTail(turn, r.next, os[1..]);
        assert CountsTurn(turn(r.next, os[1]), streak(r.next), streak(turn(r.next, os[1]).next), max);
      }
    }
  }
}
