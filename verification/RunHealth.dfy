/** What a run leaves in the health and watchdog codes of its block, and for which blocks they
    can be read at all. */
module RunHealth {
  import opened Text
  import opened EventLine
  import opened SlotTable
  import opened FailureStreaks
  import opened BlockStates
  import opened GuardWorld
  import opened GuardRun
  import opened Quarantine
  import opened RunTrace

  // ---------------------------------------------------------------------------------
  // One emission
  // ---------------------------------------------------------------------------------

  /** The watchdog code an event leaves. */
  function WatchdogAfter(kind: Int32, before: int): int {
    if kind == TIMEOUT then 1
    else if kind == ERROR || kind == WRITE_OUT_OF_BOUNDS || kind == ARENA_OVERFLOW || kind == MEMORY_FAULT then 2
    else if kind == ENTERED || kind == OK then 0
    else before
  }

  /** The health code: a long streak decides, else the kind of the event, else it stays. */
  function HealthAfter(kind: Int32, streak: UInt32, before: int): int {
    if streak >= 5 then 5
    else if streak >= 3 then 4
    else if HealthCode(kind).Some? then HealthCode(kind).value
    else before
  }

  /** A block's codes after one of its events. */
  function StateAfter(kind: Int32, streak: UInt32, v: BlockState): BlockState {
    BlockState(HealthAfter(kind, streak, v.health), WatchdogAfter(kind, v.watchdog), v.recovery)
  }

  function WithCode(v: BlockState, code: Option<int>): BlockState {
    if code.Some? then v.(health := code.value) else v
  }

  lemma ThreeSteps(kind: Int32, streak: UInt32, v: BlockState)
    ensures WithCode(WithCode(Observed(kind)(v), HealthCode(kind)), Override(streak)) == StateAfter(kind, streak, v)
  {
  }

  lemma CompletedConfirms(kind: Int32, streak: UInt32, v: BlockState)
    ensures StateAfter(COMPLETED, streak, StateAfter(kind, streak, v)) == StateAfter(kind, streak, v)
  {
  }

  lemma SetHealthSettles(a: Adapter, key: string, v: BlockState, code: Option<int>)
    requires a.Sized() && Keeps(a.slots, key)
    ensures SetHealth(Settled(a, key, v), key, code) == Settled(a, key, WithCode(v, code))
  {
    SettledReads(a, key, v);
    if code.Some? {
      ChangeSettles(Settled(a, key, v), key, WithHealth(code.value));
      SettledAgain(a, key, v, v.(health := code.value));
    }
  }

  /** After every emission of a block the table can keep its codes are `StateAfter`, its slot is
      the active one, and nothing else has changed. */
  lemma BlocksAfterKept(a: Adapter, key: string, kind: Int32, streak: UInt32)
    requires a.Sized() && Keeps(a.slots, key)
    ensures BlocksAfter(a, key, kind, streak) == Settled(a, key, StateAfter(kind, streak, a.Read(key)))
  {
    var v := Observed(kind)(a.Read(key));
    ChangeSettles(a, key, Observed(kind));
    SetHealthSettles(a, key, v, HealthCode(kind));
    SetHealthSettles(a, key, WithCode(v, HealthCode(kind)), Override(streak));
    ThreeSteps(kind, streak, a.Read(key));
  }

  lemma EmitBlocks(w: World, e: Event)
    requires e.block != "" && |e.block| <= TEXT_MAX
    ensures Emit(w, e).blocks == BlocksAfter(w.blocks, e.block, e.kind, StreakOf(Emit(w, e), e.block))
    ensures StreakOf(Emit(w, e), e.block) == Bump(e.kind, StreakOf(w, e.block))
  {
    EmitStreaks(w, e);
    SightShort(w.streaks, e.block, e.kind);
    LookupShort(w.streaks, e.block);
  }

  /** One emission of a kept block, in the runtime. The lemmas below step with a function that
      is `Emit`, so that they need not look into it. */
  lemma EmitKept(step: (World, Event) -> World, w: World, e: Event)
    requires IsEmit(step) && Keeps(w.blocks.slots, e.block) && e.block != ""
    ensures StreakOf(step(w, e), e.block) == Bump(e.kind, StreakOf(w, e.block))
    ensures step(w, e).blocks ==
            Settled(w.blocks, e.block, StateAfter(e.kind, StreakOf(step(w, e), e.block), w.blocks.Read(e.block)))
  {
    assert step(w, e) == Emit(w, e);
    EmitBlocks(w, e);
    BlocksAfterKept(w.blocks, e.block, e.kind, StreakOf(Emit(w, e), e.block));
  }

  /** One emission of a block the table can keep, with every kind and code written out: what
      becomes of its streak, its health and its watchdog code, which the global codes then show;
      and no other block's codes change. */
  lemma EmittedCodes(w: World, e: Event)
    requires e.block != "" && Keeps(w.blocks.slots, e.block)
    ensures var n, v := StreakOf(w, e.block), w.blocks.Read(e.block);
            var m, u := StreakOf(Emit(w, e), e.block), Emit(w, e).blocks.Read(e.block);
            && m == (if e.kind == 7 then 0
                     else if e.kind in {1, 2, 3, 4, 5, 9, 10, 11} then (n + 1) % 0x1_0000_0000
                     else n)
            && u.health == (if m >= 5 then 5
                            else if m >= 3 then 4
                            else if e.kind == 6 then 1
                            else if e.kind == 7 then 0
                            else if e.kind == 3 then 2
                            else if e.kind in {1, 2, 4, 9, 10, 11} then 3
                            else if e.kind == 5 then 4
                            else v.health)
            && u.watchdog == (if e.kind == 3 then 1
                              else if e.kind in {1, 2, 4, 9} then 2
                              else if e.kind in {6, 7} then 0
                              else v.watchdog)
            && u.recovery == v.recovery
            && Emit(w, e).blocks.Aggregate() == u
    ensures forall other :: other != e.block ==> Emit(w, e).blocks.Read(other) == w.blocks.Read(other)
  {
    hide Emit, BlocksAfter, StreakOf, Keeps;
    EmitKept(Emit, w, e);
    var v := StateAfter(e.kind, StreakOf(Emit(w, e), e.block), w.blocks.Read(e.block));
    SettledReads(w.blocks, e.block, v);
    forall other | other != e.block
      ensures Emit(w, e).blocks.Read(other) == w.blocks.Read(other)
    {
      SettledOther(w.blocks, e.block, v, other);
    }
  }

  /** A block's codes after a history of its own events. */
  function StatesAfter(es: seq<Event>, streak: UInt32, v: BlockState): BlockState {
    if es == [] then v
    else StateAfter(es[|es| - 1].kind, BumpAll(streak, es), StatesAfter(es[..|es| - 1], streak, v))
  }

  lemma {:induction false} PlayKept(step: (World, Event) -> World, w: World, es: seq<Event>, name: string)
    requires IsEmit(step) && Keeps(w.blocks.slots, name) && name != "" && OfBlock(es, name)
    ensures StreakOf(Fold<World, Event>(step, w, es), name) == BumpAll(StreakOf(w, name), es)
    ensures es != [] ==>
              Fold<World, Event>(step, w, es).blocks ==
              Settled(w.blocks, name, StatesAfter(es, StreakOf(w, name), w.blocks.Read(name)))
  {
    if es != [] {
      var init, last := es[..|es| - 1], es[|es| - 1];
      PlayKept(step, w, init, name);
      StepKept(step, w, Fold<World, Event>(step, w, init), init, last, name);
    }
  }

  lemma StepKept(step: (World, Event) -> World, w: World, before: World, init: seq<Event>, last: Event, name: string)
    requires IsEmit(step) && Keeps(w.blocks.slots, name) && name != "" && last.block == name
    requires StreakOf(before, name) == BumpAll(StreakOf(w, name), init)
    requires before.blocks ==
             if init == [] then w.blocks
             else Settled(w.blocks, name, StatesAfter(init, StreakOf(w, name), w.blocks.Read(name)))
    ensures var es := init + [last];
            && StreakOf(step(before, last), name) == BumpAll(StreakOf(w, name), es)
            && step(before, last).blocks == Settled(w.blocks, name, StatesAfter(es, StreakOf(w, name), w.blocks.Read(name)))
  {
    var v := StatesAfter(init, StreakOf(w, name), w.blocks.Read(name));
    assert (init + [last])[..|init|] == init;
    if init != [] {
      SettledReads(w.blocks, name, v);
      SettledAgain(w.blocks, name, v, StateAfter(last.kind, Bump(last.kind, StreakOf(before, name)), v));
    }
    EmitKept(step, before, last);
  }

  // ---------------------------------------------------------------------------------
  // One run
  // ---------------------------------------------------------------------------------

  lemma VerdictOfBlock(cfg: Config, o: Outside)
    ensures OfBlock(Verdict(cfg, o), BlockName(cfg)) && |Verdict(cfg, o)| <= 1
    ensures Verdict(cfg, o) != [] ==> Verdict(cfg, o)[0].kind in {OK, ERROR, TIMEOUT}
  {
  }

  lemma IncidentsOfBlock(cfg: Config, o: Outside, refusal: Option<UInt32>)
    ensures OfBlock(Incidents(cfg, o, refusal), BlockName(cfg))
    ensures LastIncident(cfg, o, refusal).kind in {OK, ERROR, TIMEOUT, WRITE_OUT_OF_BOUNDS}
  {
    hide Verdict, AllBounds;
    CalledIncidents(cfg, o);
    VerdictOfBlock(cfg, o);
  }

  lemma TraceOfBlock(cfg: Config, o: Outside, refusal: Option<UInt32>) returns (init: seq<Event>)
    ensures OfBlock(Trace(cfg, o, refusal), BlockName(cfg))
    ensures Trace(cfg, o, refusal) == init + [LastIncident(cfg, o, refusal)] + [Completed(BlockName(cfg), Duration(o))]
  {
    IncidentsOfBlock(cfg, o, refusal);
    var es := Incidents(cfg, o, refusal);
    init := [Entered(BlockName(cfg))] + es[..|es| - 1];
  }

  /** What a kept block's codes have to say about the last incident and the streak. */
  ghost predicate CodesTell(v: BlockState, kind: Int32, streak: UInt32) {
    && v.health == HealthAfter(kind, streak, v.health)
    && (v.health == 0 <==> kind == OK)
    && v.watchdog == WatchdogAfter(kind, v.watchdog)
    && (v.watchdog == 0 <==> kind == OK)
  }

  /** The last incident decides the codes: COMPLETED only confirms them. */
  lemma RunCodes(init: seq<Event>, e: Event, done: Event, n: UInt32, v: BlockState)
    requires e.kind in {OK, ERROR, TIMEOUT, WRITE_OUT_OF_BOUNDS} && done.kind == COMPLETED
    ensures var es := init + [e] + [done];
            CodesTell(StatesAfter(es, n, v), e.kind, BumpAll(n, es))
  {
    var es := init + [e];
    assert (es + [done])[..|es|] == es && es[..|init|] == init;
    CompletedConfirms(e.kind, BumpAll(n, es), StatesAfter(init, n, v));
  }

  /** A run of a block the table can keep changes that block's codes and no others. */
  lemma AfterKept(w: World, cfg: Config, o: Outside) returns (v: BlockState)
    requires Keeps(w.blocks.slots, BlockName(cfg))
    ensures After(w, cfg, o).blocks == Settled(w.blocks, BlockName(cfg), v)
    ensures CodesTell(v, LastIncident(cfg, o, Refusal(w, cfg)).kind, StreakOf(After(w, cfg, o), BlockName(cfg)))
  {
    var name, refusal := BlockName(cfg), Refusal(w, cfg);
    var init := TraceOfBlock(cfg, o, refusal);
    RunPlaysItsTrace(w, cfg, o);
    PlayKept(Emit, w, Trace(cfg, o, refusal), name);
    v := StatesAfter(Trace(cfg, o, refusal), StreakOf(w, name), w.blocks.Read(name));
    IncidentsOfBlock(cfg, o, refusal);
    RunCodes(init, LastIncident(cfg, o, refusal), Completed(name, Duration(o)), StreakOf(w, name), w.blocks.Read(name));
  }

  /** Health is a function of the run. For a block the table can keep, a run leaves health 5 or
      4 on a streak of at least 5 or 3, else 0, 2 or 3 for a report of OK, a timeout or another
      failure; the watchdog code is 0, 1 or 2 for these; so both read 0 exactly when the report is
      OK; and no other block's codes change. */
  lemma HealthTellsTheReport(w: World, cfg: Config, o: Outside)
    requires Keeps(w.blocks.slots, BlockName(cfg))
    ensures var v := After(w, cfg, o).blocks.Read(BlockName(cfg));
            var streak := StreakOf(After(w, cfg, o), BlockName(cfg));
            var result := ReportOf(cfg, o, Refusal(w, cfg)).result;
            && result in {ResultOk, ResultTimeout, ResultBounds, ResultError}
            && v.health == (if streak >= 5 then 5
                            else if streak >= 3 then 4
                            else if result == ResultOk then 0 else if result == ResultTimeout then 2 else 3)
            && v.watchdog == (if result == ResultOk then 0 else if result == ResultTimeout then 1 else 2)
            && (v.health == 0 <==> result == ResultOk)
    ensures forall other :: other != BlockName(cfg) ==> After(w, cfg, o).blocks.Read(other) == w.blocks.Read(other)
  {
    hide After, Refusal, StreakOf, Incidents, LastIncident, ReportOf, Keeps;
    var v := AfterKept(w, cfg, o);
    SettledReads(w.blocks, BlockName(cfg), v);
    ResultIs(cfg, o, Refusal(w, cfg));
    IncidentsOfBlock(cfg, o, Refusal(w, cfg));
    forall other | other != BlockName(cfg)
      ensures After(w, cfg, o).blocks.Read(other) == w.blocks.Read(other)
    {
      SettledOther(w.blocks, BlockName(cfg), v, other);
    }
  }

  /** The global watchdog code after a run of a kept block is the worst of all blocks always if
      the run is reported as a failure other than a timeout; after a timeout exactly when no
      other record reads 2, and after an OK exactly when all others read 0. */
  lemma AggregateAfterKept(w: World, cfg: Config, o: Outside)
    requires InRange(w.blocks) && Keeps(w.blocks.slots, BlockName(cfg))
    ensures var b := After(w, cfg, o).blocks;
            var worst := b.Aggregate().watchdog == MaxWatchdog(b.Records());
            match ReportOf(cfg, o, Refusal(w, cfg)).result
            case ResultOk => worst <==> OthersAtMost(w.blocks, BlockName(cfg), 0)
            case ResultTimeout => worst <==> OthersAtMost(w.blocks, BlockName(cfg), 1)
            case _ => worst
  {
    hide Refusal, After, Incidents, LastIncident, ReportOf;
    var v := AfterKept(w, cfg, o);
    IncidentsOfBlock(cfg, o, Refusal(w, cfg));
    ResultIs(cfg, o, Refusal(w, cfg));
    var put := (s: BlockState) => v;
    ChangeSettles(w.blocks, BlockName(cfg), put);
    AggregateExactly(w.blocks, BlockName(cfg), put);
  }

  lemma ResultIs(cfg: Config, o: Outside, refusal: Option<UInt32>)
    ensures ReportOf(cfg, o, refusal).result == ResultOf(LastIncident(cfg, o, refusal).kind)
  {
  }

  // ---------------------------------------------------------------------------------
  // Blocks that cannot be read
  // ---------------------------------------------------------------------------------

  lemma ChangeUnkept(a: Adapter, key: string, f: BlockState -> BlockState)
    requires a.Sized() && !Keeps(a.slots, key)
    ensures !Keeps(a.Change(key, f).slots, key)
  {
    if |key| <= TEXT_MAX {
      FreeIsSome(a.slots);
      assert a.Change(key, f).slots == a.slots;
    }
  }

  lemma SetHealthUnkept(a: Adapter, key: string, code: Option<int>)
    requires a.Sized() && !Keeps(a.slots, key)
    ensures !Keeps(SetHealth(a, key, code).slots, key)
  {
    if code.Some? {
      ChangeUnkept(a, key, WithHealth(code.value));
    }
  }

  lemma BlocksAfterUnkept(a: Adapter, key: string, kind: Int32, streak: UInt32)
    requires a.Sized() && !Keeps(a.slots, key)
    ensures !Keeps(BlocksAfter(a, key, kind, streak).slots, key)
  {
    ChangeUnkept(a, key, Observed(kind));
    SetHealthUnkept(a.Change(key, Observed(kind)), key, HealthCode(kind));
    SetHealthUnkept(SetHealth(a.Change(key, Observed(kind)), key, HealthCode(kind)), key, Override(streak));
  }

  lemma EmitUnkept(step: (World, Event) -> World, w: World, e: Event)
    requires IsEmit(step) && !Keeps(w.blocks.slots, e.block) && e.block != ""
    ensures !Keeps(step(w, e).blocks.slots, e.block)
  {
    assert step(w, e) == Emit(w, e);
    BlocksAfterUnkept(w.blocks, e.block, e.kind, NewStreak(w.streaks, e.block, e.kind));
  }

  lemma {:induction false} PlayUnkept(step: (World, Event) -> World, w: World, es: seq<Event>, name: string)
    requires IsEmit(step) && !Keeps(w.blocks.slots, name) && name != "" && OfBlock(es, name)
    ensures !Keeps(Fold<World, Event>(step, w, es).blocks.slots, name)
  {
    if es != [] {
      PlayUnkept(step, w, es[..|es| - 1], name);
      EmitUnkept(step, Fold<World, Event>(step, w, es[..|es| - 1]), es[|es| - 1]);
    }
  }

  lemma AfterUnkept(w: World, cfg: Config, o: Outside)
    requires !Keeps(w.blocks.slots, BlockName(cfg))
    ensures !Keeps(After(w, cfg, o).blocks.slots, BlockName(cfg))
  {
    var name, refusal := BlockName(cfg), Refusal(w, cfg);
    EmitUnkept(Emit, w, Entered(name));
    IncidentsOfBlock(cfg, o, refusal);
    PlayUnkept(Emit, Looked(w, cfg).0, Trail(cfg, o, refusal), name);
  }

  /** In any state: the failure of a run can be read back if and only if its block's name has at
      most 63 bytes and, before the run, some slot matches it or is free. */
  lemma FailureVisibleExactlyWhenKept(w: World, cfg: Config, o: Outside)
    requires Fails(w, cfg, o)
    ensures After(w, cfg, o).blocks.Read(BlockName(cfg)).health != 0 <==> Keeps(w.blocks.slots, BlockName(cfg))
  {
    if Keeps(w.blocks.slots, BlockName(cfg)) {
      HealthTellsTheReport(w, cfg, o);
    } else {
      AfterUnkept(w, cfg, o);
      ReadLost(After(w, cfg, o).blocks, BlockName(cfg));
    }
  }

  lemma ReadLost(a: Adapter, key: string)
    requires a.Sized() && !Keeps(a.slots, key)
    ensures a.Read(key) == ZERO
  {
    ReadIs(a, key);
    if |key| > TEXT_MAX {
      LongIsLost(a.slots, key);
    }
  }
}
