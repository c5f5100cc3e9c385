/** Whole runs of one block: how often its function is called while it keeps failing, and how
    long a block stays refused. */
module Quarantine {
  import opened Text
  import opened EventLine
  import opened SlotTable
  import opened FailureStreaks
  import opened BlockStates
  import opened GuardWorld
  import opened GuardRun
  import opened Turns

  /** The streak a lookup of the block would find. */
  function StreakIn(slots: seq<Slot<UInt32>>, name: string): UInt32
    requires |slots| == SLOTS
  {
    var m := FirstMatch(slots, name);
    if m < SLOTS then slots[m].value else 0
  }

  function StreakOf(w: World, name: string): UInt32 {
    StreakIn(w.streaks, name)
  }

  /** A lookup by a short name changes no streak of that name and is repeatable. */
  lemma LookupShort(slots: seq<Slot<UInt32>>, name: string)
    requires |slots| == SLOTS && |name| <= TEXT_MAX
    ensures var (t, i) := StreakLookup(slots, name);
            && FirstMatch(t, name) == i
            && t[i].value == StreakIn(slots, name)
  {
    var (t, i) := StreakLookup(slots, name);
    if FirstMatch(slots, name) >= SLOTS {
      assert Cut(name, TEXT_MAX) == name;
      FirstMatchIs(t, name, 0);
    }
  }

  lemma SightShort(slots: seq<Slot<UInt32>>, name: string, kind: Int32)
    requires |slots| == SLOTS && |name| <= TEXT_MAX
    ensures StreakIn(Sight(slots, Sighting(name, kind)), name) == Bump(kind, StreakIn(slots, name))
  {
    LookupShort(slots, name);
    var (l, i) := StreakLookup(slots, name);
    var t := Sight(slots, Sighting(name, kind));
    forall j | 0 <= j < i ensures !Matches(t[j], name) {
      assert t[j] == l[j];
    }
    FirstMatchIs(t, name, i);
  }

  /** A name of more than 63 bytes is never found again. */
  lemma LookupLong(slots: seq<Slot<UInt32>>, name: string)
    requires |slots| == SLOTS && |name| > TEXT_MAX
    ensures FirstMatch(slots, name) == SLOTS
    ensures var (t, i) := StreakLookup(slots, name); t[i].value == 0
  {
    FirstMatchIs(slots, name, SLOTS);
  }

  // ---------------------------------------------------------------------------------
  // One run
  // ---------------------------------------------------------------------------------

  /** How many of the events are failures. */
  function FailureCount(es: seq<Event>): nat {
    if es == [] then 0 else FailureCount(es[..|es| - 1]) + if IsFailure(es[|es| - 1].kind) then 1 else 0
  }

  predicate OfBlock(es: seq<Event>, name: string) {
    forall i :: 0 <= i < |es| ==> es[i].block == name
  }

  predicate NoOk(es: seq<Event>) {
    forall i :: 0 <= i < |es| ==> es[i].kind != OK
  }

  /** A streak after events of its own block. */
  function BumpAll(n: UInt32, es: seq<Event>): UInt32 {
    if es == [] then n else Bump(es[|es| - 1].kind, BumpAll(n, es[..|es| - 1]))
  }

  /** Without an OK the streak counts the failures, modulo 2^32; t is any count it stands for. */
  lemma {:induction false} BumpAllCounts(t: nat, es: seq<Event>)
    requires NoOk(es)
    ensures BumpAll(t % WRAP, es) == (t + FailureCount(es)) % WRAP
  {
    if es != [] {
      BumpAllCounts(t, es[..|es| - 1]);
      BumpWraps(es[|es| - 1].kind, t + FailureCount(es[..|es| - 1]));
    }
  }

  lemma {:induction false} SightingsStreak(slots: seq<Slot<UInt32>>, es: seq<Event>, name: string)
    requires |slots| == SLOTS && name != "" && |name| <= TEXT_MAX && OfBlock(es, name)
    ensures StreakIn(SightAll(slots, Sightings(es)), name) == BumpAll(StreakIn(slots, name), es)
  {
    if es != [] {
      var init, last := es[..|es| - 1], es[|es| - 1];
      SightingsStreak(slots, init, name);
      SightingStep(slots, Sightings(init), name, last.kind);
      assert Sightings(es) == Sightings(init) + [Sighting(name, last.kind)];
    }
  }

  lemma SightingStep(slots: seq<Slot<UInt32>>, h: seq<Sighting>, name: string, kind: Int32)
    requires |slots| == SLOTS && |name| <= TEXT_MAX
    ensures StreakIn(SightAll(slots, h + [Sighting(name, kind)]), name) == Bump(kind, StreakIn(SightAll(slots, h), name))
  {
    SightAllSnoc(slots, h, Sighting(name, kind));
    SightShort(SightAll(slots, h), name, kind);
  }

  /** Without an OK a block's own events raise its streak by their failures. */
  lemma PlayStreak(w: World, es: seq<Event>, name: string, t: nat)
    requires name != "" && |name| <= TEXT_MAX && OfBlock(es, name) && NoOk(es)
    requires StreakOf(w, name) == t % WRAP
    ensures StreakOf(Play(w, es), name) == (t + FailureCount(es)) % WRAP
  {
    PlayedStreaks(w, es);
    SightingsStreak(w.streaks, es, name);
    BumpAllCounts(t, es);
  }

  lemma {:induction false} FailureCountConcat(es: seq<Event>, fs: seq<Event>)
    ensures FailureCount(es + fs) == FailureCount(es) + FailureCount(fs)
  {
    if fs == [] {
      assert es + fs == es;
    } else {
      var all := es + fs;
      FailureCountConcat(es, fs[..|fs| - 1]);
      assert all[..|all| - 1] == es + fs[..|fs| - 1];
    }
  }

  /** The streak a run looks at is the streak before it: ENTERED is no failure. */
  lemma LookedStreak(w: World, cfg: Config)
    requires |BlockName(cfg)| <= TEXT_MAX
    ensures Looked(w, cfg).1 == StreakOf(w, BlockName(cfg))
    ensures StreakOf(Looked(w, cfg).0, BlockName(cfg)) == StreakOf(w, BlockName(cfg))
  {
    var name := BlockName(cfg);
    EmitStreaks(w, Entered(name));
    var t := Sight(w.streaks, Sighting(name, ENTERED));
    SightShort(w.streaks, name, ENTERED);
    LookupShort(t, name);
  }

  /** A block with a short name is refused exactly from the configured streak on; one with a
      long name never, as its streak is forgotten between any two lookups. */
  lemma RefusedExactly(w: World, cfg: Config)
    ensures Refusal(w, cfg).Some? <==>
            |BlockName(cfg)| <= TEXT_MAX && cfg.maxFailures > 0 && StreakOf(w, BlockName(cfg)) >= cfg.maxFailures
  {
    var name := BlockName(cfg);
    if |name| <= TEXT_MAX {
      LookedStreak(w, cfg);
    } else {
      EmitStreaks(w, Entered(name));
      LookupLong(Sight(w.streaks, Sighting(name, ENTERED)), name);
    }
  }

  /** The run is reported as anything but OK. */
  predicate Fails(w: World, cfg: Config, o: Outside) {
    ReportOf(cfg, o, Refusal(w, cfg)).result != ResultOk
  }

  lemma {:induction false} AllBoundsFail(name: string, bs: seq<BoundsCall>)
    ensures FailureCount(AllBounds(name, bs)) == |bs|
  {
    if bs != [] {
      AllBoundsFail(name, bs[..|bs| - 1]);
    }
  }

  lemma OneEvent(e: Event)
    ensures FailureCount([e]) == if IsFailure(e.kind) then 1 else 0
  {
    assert [e][..0] == [];
  }

  lemma ConcatKeeps(es: seq<Event>, fs: seq<Event>, name: string)
    requires OfBlock(es, name) && NoOk(es) && OfBlock(fs, name) && NoOk(fs)
    ensures OfBlock(es + fs, name) && NoOk(es + fs)
  {
  }

  lemma RefusedOnce(cfg: Config, o: Outside, streak: UInt32)
    ensures var es := Incidents(cfg, o, Some(streak));
            OfBlock(es, BlockName(cfg)) && NoOk(es) && FailureCount(es) == 1
  {
    OneEvent(Quarantined(BlockName(cfg), streak, cfg.maxFailures));
  }

  lemma VerdictCount(cfg: Config, o: Outside)
    ensures OfBlock(Verdict(cfg, o), BlockName(cfg))
    ensures Verdict(cfg, o) != [] && Verdict(cfg, o)[0].kind != OK ==>
              NoOk(Verdict(cfg, o)) && FailureCount(Verdict(cfg, o)) == 1
  {
    if Verdict(cfg, o) != [] {
      OneEvent(Verdict(cfg, o)[0]);
    }
  }

  lemma CalledCount(cfg: Config, o: Outside)
    requires LastIncident(cfg, o, None).kind != OK
    ensures var es := Incidents(cfg, o, None);
            OfBlock(es, BlockName(cfg)) && NoOk(es) && FailureCount(es) >= 1
  {
    CalledIncidents(cfg, o);
    VerdictCount(cfg, o);
    AllBoundsFail(BlockName(cfg), o.bounds);
    FailureCountConcat(AllBounds(BlockName(cfg), o.bounds), Verdict(cfg, o));
    ConcatKeeps(AllBounds(BlockName(cfg), o.bounds), Verdict(cfg, o), BlockName(cfg));
  }

  /** What a failing run emits after ENTERED: no OK, and at least one failure. */
  lemma FailingTrail(cfg: Config, o: Outside, refusal: Option<UInt32>)
    requires ReportOf(cfg, o, refusal).result != ResultOk
    ensures var es := Trail(cfg, o, refusal);
            OfBlock(es, BlockName(cfg)) && NoOk(es) && FailureCount(es) >= 1
  {
    if refusal.Some? {
      RefusedOnce(cfg, o, refusal.value);
    } else {
      CalledCount(cfg, o);
    }
    CompletedKeeps(Incidents(cfg, o, refusal), Completed(BlockName(cfg), Duration(o)), BlockName(cfg));
  }

  lemma CompletedKeeps(es: seq<Event>, done: Event, name: string)
    requires OfBlock(es, name) && NoOk(es) && done.block == name && done.kind == COMPLETED
    ensures OfBlock(es + [done], name) && NoOk(es + [done]) && FailureCount(es + [done]) == FailureCount(es)
  {
    ConcatKeeps(es, [done], name);
    FailureCountConcat(es, [done]);
    OneEvent(done);
  }

  /** A failing run raises its block's streak by its failures, which are at least one. */
  lemma FailingRun(w: World, cfg: Config, o: Outside, t: nat)
    requires |BlockName(cfg)| <= TEXT_MAX && Fails(w, cfg, o) && StreakOf(w, BlockName(cfg)) == t % WRAP
    ensures StreakOf(After(w, cfg, o), BlockName(cfg)) == (t + FailureCount(Trail(cfg, o, Refusal(w, cfg)))) % WRAP
    ensures FailureCount(Trail(cfg, o, Refusal(w, cfg))) >= 1
  {
    hide Refusal, ReportOf, Trail, StreakOf, FailureCount, Looked, Play;
    FailingTrail(cfg, o, Refusal(w, cfg));
    LookedStreak(w, cfg);
    PlayStreak(Looked(w, cfg).0, Trail(cfg, o, Refusal(w, cfg)), BlockName(cfg), t);
  }

  lemma SightingsSnoc(es: seq<Event>, e: Event)
    ensures Sightings(es + [e]) == Sightings(es) + [SightingOf(e)]
  {
    assert (es + [e])[..|es|] == es;
  }

  /** Only OK ends a streak: a run that ends OK leaves it at zero. */
  lemma OkRun(w: World, cfg: Config, o: Outside)
    requires |BlockName(cfg)| <= TEXT_MAX && !Fails(w, cfg, o)
    ensures StreakOf(After(w, cfg, o), BlockName(cfg)) == 0
  {
    var name, refusal := BlockName(cfg), Refusal(w, cfg);
    IncidentKinds(cfg, o, refusal);
    var es, done := Incidents(cfg, o, refusal), Completed(name, Duration(o));
    var ok := es[|es| - 1];
    OkIncident(cfg, o, refusal);
    assert es == es[..|es| - 1] + [ok];
    var slots := Looked(w, cfg).0.streaks;
    PlayedStreaks(Looked(w, cfg).0, Trail(cfg, o, refusal));
    SightingsSnoc(es[..|es| - 1], ok);
    SightingsSnoc(es, done);
    EndsWith(slots, Sightings(es[..|es| - 1]), name, OK);
  }

  lemma OkIncident(cfg: Config, o: Outside, refusal: Option<UInt32>)
    requires ReportOf(cfg, o, refusal).result == ResultOk
    ensures SightingOf(LastIncident(cfg, o, refusal)) == Sighting(BlockName(cfg), OK)
  {
    CalledIncidents(cfg, o);
    IncidentKinds(cfg, o, refusal);
  }

  /** A last incident and COMPLETED: the incident has the last word. */
  lemma EndsWith(slots: seq<Slot<UInt32>>, h: seq<Sighting>, name: string, kind: Int32)
    requires |slots| == SLOTS && |name| <= TEXT_MAX
    ensures StreakIn(SightAll(slots, h + [Sighting(name, kind)] + [Sighting(name, COMPLETED)]), name) ==
            Bump(kind, StreakIn(SightAll(slots, h), name))
  {
    SightingStep(slots, h, name, kind);
    SightingStep(slots, h + [Sighting(name, kind)], name, COMPLETED);
  }

  // ---------------------------------------------------------------------------------
  // Whole runs
  // ---------------------------------------------------------------------------------

  /** One run of a block. */
  function TurnOf(cfg: Config): (World, Outside) -> Turn<World> {
    (w: World, o: Outside) =>
      Turn(Refusal(w, cfg).None?, Fails(w, cfg, o), FailureCount(Trail(cfg, o, Refusal(w, cfg))), After(w, cfg, o))
  }

  /** Consecutive runs of a block. */
  function RunsOf(w: World, cfg: Config, os: seq<Outside>): (ts: seq<Turn<World>>)
    ensures |ts| == |os|
  {
    TurnsFrom<World, Outside>(TurnOf(cfg), w, os)
  }

  function StreakFor(name: string): World -> UInt32 {
    (w: World) => StreakOf(w, name)
  }

  lemma RefusedFails(cfg: Config, o: Outside, streak: UInt32)
    ensures ReportOf(cfg, o, Some(streak)).result != ResultOk
    ensures FailureCount(Trail(cfg, o, Some(streak))) == 1
  {
    RefusedOnce(cfg, o, streak);
    CompletedKeeps(Incidents(cfg, o, Some(streak)), Completed(BlockName(cfg), Duration(o)), BlockName(cfg));
  }

  lemma RunCounts(w: World, cfg: Config, o: Outside)
    requires |BlockName(cfg)| <= TEXT_MAX && cfg.maxFailures > 0
    ensures Refusal(w, cfg).None? <==> StreakOf(w, BlockName(cfg)) < cfg.maxFailures
    ensures Refusal(w, cfg).Some? ==> Fails(w, cfg, o) && FailureCount(Trail(cfg, o, Refusal(w, cfg))) == 1
    ensures Fails(w, cfg, o) ==>
              var n := FailureCount(Trail(cfg, o, Refusal(w, cfg)));
              n >= 1 && StreakOf(After(w, cfg, o), BlockName(cfg)) == (StreakOf(w, BlockName(cfg)) + n) % WRAP
  {
    hide Refusal, ReportOf, After, Trail, StreakOf, FailureCount;
    RefusedExactly(w, cfg);
    if Refusal(w, cfg).Some? {
      RefusedFails(cfg, o, Refusal(w, cfg).value);
    }
    if Fails(w, cfg, o) {
      FailingRun(w, cfg, o, StreakOf(w, BlockName(cfg)));
    }
  }

  lemma RunsCount(cfg: Config)
    requires |BlockName(cfg)| <= TEXT_MAX && cfg.maxFailures > 0
    ensures Counts<World, Outside>(TurnOf(cfg), StreakFor(BlockName(cfg)), cfg.maxFailures)
  {
    hide Refusal, Fails, After, Trail, StreakOf, FailureCount;
    var streak := StreakFor(BlockName(cfg));
    forall w: World, o: Outside
      ensures CountsTurn(TurnOf(cfg)(w, o), streak(w), streak(TurnOf(cfg)(w, o).next), cfg.maxFailures)
    {
      RunCounts(w, cfg, o);
    }
  }

  /** Quarantine over whole runs. While a block with a short name keeps failing its function is
      called at most `maxFailures` times in any stretch of runs with up to 2^32 failures, and at
      most as often as its streak still is below the limit until the streak wraps. In general
      calls are bounded by the low counts among those the failures pass through. */
  lemma QuarantineBound(w: World, cfg: Config, os: seq<Outside>)
    requires |BlockName(cfg)| <= TEXT_MAX && cfg.maxFailures > 0
    requires AllFail(RunsOf(w, cfg, os))
    ensures var ts, t := RunsOf(w, cfg, os), StreakOf(w, BlockName(cfg));
            && StreakOf(End<World>(w, ts), BlockName(cfg)) == (t + Failures(ts)) % WRAP
            && Calls(ts) <= HowMany(Low(cfg.maxFailures), t, Failures(ts))
            && (Failures(ts) <= WRAP ==> Calls(ts) <= cfg.maxFailures)
            && (t + Failures(ts) <= WRAP ==> Calls(ts) <= Monus(cfg.maxFailures, t))
  {
    hide TurnOf, TurnsFrom, StreakOf, HowMany, Low, Calls, Failures, End, AllFail, Counts;
    RunsCount(cfg);
    BoundCalls<World, Outside>(TurnOf(cfg), StreakFor(BlockName(cfg)), cfg.maxFailures, w, os);
  }

  /** A function that reports nothing itself and fails, by its return code or by its time. */
  predicate FailsOnce(cfg: Config, o: Outside) {
    o.bounds == [] && Verdict(cfg, o)[0].kind != OK
  }

  lemma CalledOnce(cfg: Config, o: Outside)
    requires FailsOnce(cfg, o)
    ensures Incidents(cfg, o, None) == Verdict(cfg, o)
  {
    assert AllBounds(BlockName(cfg), o.bounds) == [];
  }

  lemma OneIncident(cfg: Config, o: Outside, refusal: Option<UInt32>)
    requires FailsOnce(cfg, o)
    ensures var es := Incidents(cfg, o, refusal);
            OfBlock(es, BlockName(cfg)) && NoOk(es) && FailureCount(es) == 1
  {
    if refusal.Some? {
      RefusedOnce(cfg, o, refusal.value);
    } else {
      CalledOnce(cfg, o);
      VerdictCount(cfg, o);
    }
  }

  lemma OkReport(cfg: Config, o: Outside, refusal: Option<UInt32>)
    ensures ReportOf(cfg, o, refusal).result == ResultOk <==> LastIncident(cfg, o, refusal).kind == OK
  {
  }

  lemma FailingReport(cfg: Config, o: Outside, refusal: Option<UInt32>)
    requires FailsOnce(cfg, o)
    ensures ReportOf(cfg, o, refusal).result != ResultOk
  {
    OneIncident(cfg, o, refusal);
    OkReport(cfg, o, refusal);
  }

  lemma OneFailure(cfg: Config, o: Outside, refusal: Option<UInt32>)
    requires FailsOnce(cfg, o)
    ensures FailureCount(Trail(cfg, o, refusal)) == 1
  {
    OneIncident(cfg, o, refusal);
    CompletedKeeps(Incidents(cfg, o, refusal), Completed(BlockName(cfg), Duration(o)), BlockName(cfg));
  }

  predicate EachFailsOnce(cfg: Config, os: seq<Outside>) {
    forall i :: 0 <= i < |os| ==> FailsOnce(cfg, os[i])
  }

  lemma OnceRun(w: World, cfg: Config, o: Outside)
    requires FailsOnce(cfg, o)
    ensures TurnOf(cfg)(w, o).fails && TurnOf(cfg)(w, o).failures == 1
  {
    OneFailure(cfg, o, Refusal(w, cfg));
    FailingReport(cfg, o, Refusal(w, cfg));
  }

  lemma {:induction false} OnceRuns(turn: (World, Outside) -> Turn<World>, w: World, os: seq<Outside>)
    requires forall v: World, i {:trigger turn(v, os[i])} :: 0 <= i < |os| ==> turn(v, os[i]).fails && turn(v, os[i]).failures == 1
    ensures AllFailOnce(TurnsFrom<World, Outside>(turn, w, os))
    decreases |os|
  {
    if os != [] {
      forall v: World, i {:trigger turn(v, os[1..][i])} | 0 <= i < |os[1..]|
        ensures turn(v, os[1..][i]).fails && turn(v, os[1..][i]).failures == 1
      {
        assert os[1..][i] == os[i + 1];
      }
      OnceRuns(turn, turn(w, os[0]).next, os[1..]);
    }
  }

  /** The bound is exact: runs that fail once each are called at exactly the low counts, so until
      the streak is at the limit, and then not before it wraps. */
  lemma BoundIsReached(w: World, cfg: Config, os: seq<Outside>)
    requires |BlockName(cfg)| <= TEXT_MAX && cfg.maxFailures > 0 && EachFailsOnce(cfg, os)
    ensures var ts, t := RunsOf(w, cfg, os), StreakOf(w, BlockName(cfg));
            && AllFail(ts) && Failures(ts) == |os|
            && Calls(ts) == HowMany(Low(cfg.maxFailures), t, |os|)
            && (t + |os| <= WRAP ==> Calls(ts) == Min(|os|, Monus(cfg.maxFailures, t)))
  {
    hide TurnsFrom, StreakOf, HowMany, Low, Calls, Failures, Counts, TurnOf;
    RunsCount(cfg);
    forall v: World, i | 0 <= i < |os| ensures TurnOf(cfg)(v, os[i]).fails && TurnOf(cfg)(v, os[i]).failures == 1 {
      OnceRun(v, cfg, os[i]);
    }
    OnceRuns(TurnOf(cfg), w, os);
    ExactCalls<World, Outside>(TurnOf(cfg), StreakFor(BlockName(cfg)), cfg.maxFailures, w, os);
  }

  /** A refusal counts as a failure too, so a refused block is refused again exactly unless its
      32-bit streak was full: then it has wrapped to 0. */
  lemma RefusedAgainExactly(w: World, cfg: Config, o: Outside)
    requires Refusal(w, cfg).Some?
    ensures Refusal(After(w, cfg, o), cfg).Some? <==> StreakOf(w, BlockName(cfg)) != UINT32_MAX
  {
    hide Refusal, After;
    RefusedExactly(w, cfg);
    RunCounts(w, cfg, o);
    RefusedNext(After(w, cfg, o), cfg, StreakOf(w, BlockName(cfg)));
  }

  lemma RefusedNext(next: World, cfg: Config, streak: UInt32)
    requires |BlockName(cfg)| <= TEXT_MAX && 0 < cfg.maxFailures <= streak
    requires StreakOf(next, BlockName(cfg)) == (streak + 1) % WRAP
    ensures Refusal(next, cfg).Some? <==> streak != UINT32_MAX
  {
    hide Refusal;
    RefusedExactly(next, cfg);
  }

  /** How long a quarantine lasts: from a streak t on the function is not called in the next n
      runs, whatever they are, if and only if n is at most 2^32 - t. */
  lemma QuarantineLastsExactly(w: World, cfg: Config, os: seq<Outside>)
    requires Refusal(w, cfg).Some?
    ensures Calls(RunsOf(w, cfg, os)) == 0 <==> |os| <= WRAP - StreakOf(w, BlockName(cfg))
  {
    hide TurnOf, TurnsFrom, StreakOf, Calls, Counts, Refusal;
    RefusedExactly(w, cfg);
    RunsCount(cfg);
    RefusalLasts<World, Outside>(TurnOf(cfg), StreakFor(BlockName(cfg)), cfg.maxFailures, w, os);
  }

  lemma {:induction false} AlwaysCalled(turn: (World, Outside) -> Turn<World>, w: World, os: seq<Outside>)
    requires forall v: World, o: Outside {:trigger turn(v, o)} :: turn(v, o).called
    ensures Calls(TurnsFrom<World, Outside>(turn, w, os)) == |os|
    decreases |os|
  {
    if os != [] {
      AlwaysCalled(turn, turn(w, os[0]).next, os[1..]);
      TurnsTail<World, Outside>(turn, w, os);
    }
  }

  /** A block with a name of more than 63 bytes is called in every run. */
  lemma LongNamesAreAlwaysCalled(w: World, cfg: Config, os: seq<Outside>)
    requires |BlockName(cfg)| > TEXT_MAX
    ensures Calls(RunsOf(w, cfg, os)) == |os|
  {
    forall v: World, o: Outside ensures TurnOf(cfg)(v, o).called {
      RefusedExactly(v, cfg);
    }
    AlwaysCalled(TurnOf(cfg), w, os);
  }

  /** Quarantine is promised to every block with a limit; over more failing runs than the limit
      it bounds the calls exactly for the blocks whose name the table can store. */
  lemma QuarantineExactlyForShortNames(w: World, cfg: Config, os: seq<Outside>)
    requires 0 < cfg.maxFailures < |os|
    requires AllFail(RunsOf(w, cfg, os)) && Failures(RunsOf(w, cfg, os)) <= WRAP
    ensures Calls(RunsOf(w, cfg, os)) <= cfg.maxFailures <==> |BlockName(cfg)| <= TEXT_MAX
  {
    if |BlockName(cfg)| <= TEXT_MAX {
      QuarantineBound(w, cfg, os);
    } else {
      LongNamesAreAlwaysCalled(w, cfg, os);
    }
  }
}
