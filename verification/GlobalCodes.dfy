/** The global watchdog code after whole runs: exactly when it is the worst of all blocks, as it
    is meant to be. */
module GlobalCodes {
  import opened Text
  import opened EventLine
  import opened Blackbox
  import opened SlotTable
  import opened FailureStreaks
  import opened BlockStates
  import opened GuardWorld
  import opened GuardRun
  import opened Quarantine
  import opened Interleaving
  import opened RunHealth
  import opened BlockHistory

  // ---------------------------------------------------------------------------------
  // Blocks without a slot
  // ---------------------------------------------------------------------------------

  predicate RecordClear(r: Slot<BlockState>) {
    !r.inUse || r.value.watchdog <= 0
  }

  /** No slot in use has a watchdog code. */
  predicate SlotsClear(slots: seq<Slot<BlockState>>) {
    forall i :: 0 <= i < |slots| ==> RecordClear(slots[i])
  }

  lemma WorstIsZero(a: Adapter)
    requires a.Sized()
    ensures MaxWatchdog(a.Records()) == 0 <==> SlotsClear(a.slots) && RecordClear(a.overflow)
  {
    var records := a.Records();
    MaxWatchdogIsMax(records, 0);
    MaxWatchdogIsMax(records, MaxWatchdog(records));
    assert records[SLOTS] == a.overflow && forall i :: 0 <= i < SLOTS ==> records[i] == a.slots[i];
  }

  lemma SetHealthShowsZero(a: Adapter, key: string, code: Option<int>)
    requires a.Sized() && !Keeps(a.slots, key) && a.Aggregate().watchdog == 0
    ensures SetHealth(a, key, code).Aggregate().watchdog == 0 && !Keeps(SetHealth(a, key, code).slots, key)
  {
    if code.Some? {
      ReadLost(a, key);
      ChangedRecords(a, key, WithHealth(code.value));
      ChangeUnkept(a, key, WithHealth(code.value));
    }
  }

  /** An event that leaves the watchdog alone, or clears it, makes a block without a slot show 0. */
  lemma UnkeptShowsZero(a: Adapter, key: string, kind: Int32, streak: UInt32)
    requires a.Sized() && !Keeps(a.slots, key) && Observed(kind)(ZERO).watchdog == 0
    ensures BlocksAfter(a, key, kind, streak).Aggregate().watchdog == 0
  {
    hide Keeps;
    var b := a.Change(key, Observed(kind));
    ReadLost(a, key);
    ChangedRecords(a, key, Observed(kind));
    ChangeUnkept(a, key, Observed(kind));
    SetHealthShowsZero(b, key, HealthCode(kind));
    SetHealthShowsZero(SetHealth(b, key, HealthCode(kind)), key, Override(streak));
  }

  /** The state before the COMPLETED of a run. */
  function Nearly(w: World, cfg: Config, o: Outside): World {
    Play(Looked(w, cfg).0, Incidents(cfg, o, Refusal(w, cfg)))
  }

  lemma AfterIsCompleted(w: World, cfg: Config, o: Outside)
    ensures After(w, cfg, o) == Emit(Nearly(w, cfg, o), Completed(BlockName(cfg), Duration(o)))
  {
    hide Play, Emit, Looked, Incidents, Refusal;
    PlaySnoc(Looked(w, cfg).0, Incidents(cfg, o, Refusal(w, cfg)), Completed(BlockName(cfg), Duration(o)));
  }

  lemma NearlyUnkept(w: World, cfg: Config, o: Outside)
    requires !Keeps(w.blocks.slots, BlockName(cfg))
    ensures !Keeps(Nearly(w, cfg, o).blocks.slots, BlockName(cfg))
  {
    hide Keeps, Emit, Incidents, Refusal;
    EmitUnkept(Emit, w, Entered(BlockName(cfg)));
    assert Looked(w, cfg).0.blocks == Emit(w, Entered(BlockName(cfg))).blocks;
    IncidentsOfBlock(cfg, o, Refusal(w, cfg));
    PlayUnkept(Emit, Looked(w, cfg).0, Incidents(cfg, o, Refusal(w, cfg)), BlockName(cfg));
  }

  lemma EmittedBlocks(w: World, e: Event)
    requires e.block != ""
    ensures Emit(w, e).blocks == BlocksAfter(w.blocks, e.block, e.kind, NewStreak(w.streaks, e.block, e.kind))
  {
    hide BlocksAfter, NewStreak, Sight, Push;
  }

  /** After a run of a block without a slot the global watchdog code is 0, whatever happened. */
  lemma UnkeptRunShowsZero(w: World, cfg: Config, o: Outside)
    requires !Keeps(w.blocks.slots, BlockName(cfg))
    ensures After(w, cfg, o).blocks.Aggregate().watchdog == 0
  {
    hide Keeps, Emit, After, Nearly, BlocksAfter, NewStreak;
    var v := Nearly(w, cfg, o);
    NearlyUnkept(w, cfg, o);
    AfterIsCompleted(w, cfg, o);
    EmittedBlocks(v, Completed(BlockName(cfg), Duration(o)));
    UnkeptShowsZero(v.blocks, BlockName(cfg), COMPLETED, NewStreak(v.streaks, BlockName(cfg), COMPLETED));
  }

  // ---------------------------------------------------------------------------------
  // A full table
  // ---------------------------------------------------------------------------------

  lemma FullChange(a: Adapter, key: string, f: BlockState -> BlockState)
    requires a.Sized() && !Keeps(a.slots, key) && |key| <= TEXT_MAX
    ensures a.Change(key, f).slots == a.slots && a.Change(key, f).overflow == NewSlot(key, f(ZERO))
  {
    FreeIsSome(a.slots);
  }

  lemma FullSetHealth(a: Adapter, key: string, code: Option<int>)
    requires a.Sized() && !Keeps(a.slots, key) && |key| <= TEXT_MAX && RecordClear(a.overflow)
    ensures SetHealth(a, key, code).slots == a.slots && RecordClear(SetHealth(a, key, code).overflow)
  {
    if code.Some? {
      FullChange(a, key, WithHealth(code.value));
    }
  }

  lemma FullBlocksAfter(a: Adapter, key: string, kind: Int32, streak: UInt32)
    requires a.Sized() && !Keeps(a.slots, key) && |key| <= TEXT_MAX && Observed(kind)(ZERO).watchdog == 0
    ensures RecordClear(BlocksAfter(a, key, kind, streak).overflow)
  {
    hide Keeps;
    var b := a.Change(key, Observed(kind));
    FullChange(a, key, Observed(kind));
    FullSetHealth(b, key, HealthCode(kind));
    FullSetHealth(SetHealth(b, key, HealthCode(kind)), key, Override(streak));
  }

  lemma FullRunClears(w: World, cfg: Config, o: Outside)
    requires |BlockName(cfg)| <= TEXT_MAX && !Keeps(w.blocks.slots, BlockName(cfg))
    ensures After(w, cfg, o).blocks.slots == w.blocks.slots && RecordClear(After(w, cfg, o).blocks.overflow)
  {
    hide Keeps, Emit, After, Nearly, BlocksAfter, NewStreak, RecordClear;
    var v := Nearly(w, cfg, o);
    AfterFull(w, cfg, o);
    NearlyUnkept(w, cfg, o);
    AfterIsCompleted(w, cfg, o);
    EmittedBlocks(v, Completed(BlockName(cfg), Duration(o)));
    FullBlocksAfter(v.blocks, BlockName(cfg), COMPLETED, NewStreak(v.streaks, BlockName(cfg), COMPLETED));
  }

  // ---------------------------------------------------------------------------------
  // Names of more than 63 bytes
  // ---------------------------------------------------------------------------------

  /** The event writes no watchdog code to a fresh slot. */
  predicate Harmless(kind: Int32) {
    Observed(kind)(ZERO).watchdog <= 0
  }

  lemma ClearPut(slots: seq<Slot<BlockState>>, i: nat, s: Slot<BlockState>)
    requires i < |slots| && !slots[i].inUse
    ensures SlotsClear(slots[i := s]) <==> SlotsClear(slots) && RecordClear(s)
  {
    var t := slots[i := s];
    if SlotsClear(t) {
      forall j | 0 <= j < |slots| ensures RecordClear(slots[j]) {
        assert RecordClear(t[j]);
      }
      assert RecordClear(t[i]);
    }
  }

  lemma LongClear(a: Adapter, key: string, f: BlockState -> BlockState)
    requires a.Sized() && |key| > TEXT_MAX
    ensures var b := a.Change(key, f);
            && (SlotsClear(b.slots) <==> SlotsClear(a.slots) && (Free(a.slots) == 0 || f(ZERO).watchdog <= 0))
            && b.overflow == if Free(a.slots) > 0 then a.overflow else NewSlot(key, f(ZERO))
  {
    hide NameHash, SlotsClear;
    var i := FirstFree(a.slots);
    FreeIsSome(a.slots);
    LongIsLost(a.slots, key);
    if i < SLOTS {
      assert a.Change(key, f).slots == a.slots[i := NewSlot(key, f(ZERO))];
      ClearPut(a.slots, i, NewSlot(key, f(ZERO)));
    } else {
      assert a.Change(key, f).slots == a.slots;
    }
  }

  /** What an emission of a long name does to slots and overflow record. */
  ghost predicate LongStep(a: Adapter, b: Adapter, n: nat, harmless: bool)
    requires a.Sized() && b.Sized()
  {
    && Free(b.slots) == Monus(Free(a.slots), n)
    && (SlotsClear(b.slots) <==> SlotsClear(a.slots) && (Free(a.slots) == 0 || harmless))
    && (Free(a.slots) >= n ==> b.overflow == a.overflow)
    && (Free(a.slots) < n ==> RecordClear(b.overflow))
  }

  lemma EmitLongStep(step: (World, Event) -> World, w: World, e: Event)
    requires IsEmit(step) && |e.block| > TEXT_MAX
    ensures LongStep(w.blocks, step(w, e).blocks, Lookups(e.kind), Harmless(e.kind))
  {
    hide NameHash, SlotsClear, Free, Remembers;
    assert step(w, e) == Emit(w, e);
    EmittedBlocks(w, e);
    LongStreak(w.streaks, e.block, e.kind);
    var a := w.blocks.Change(e.block, Observed(e.kind));
    LongChange(w.blocks, e.block, Observed(e.kind));
    LongClear(w.blocks, e.block, Observed(e.kind));
    if HealthCode(e.kind).Some? {
      LongChange(a, e.block, WithHealth(HealthCode(e.kind).value));
      LongClear(a, e.block, WithHealth(HealthCode(e.kind).value));
    }
  }

  predicate AllHarmless(es: seq<Event>) {
    forall i :: 0 <= i < |es| ==> Harmless(es[i].kind)
  }

  lemma {:induction false} PlayLongStep(step: (World, Event) -> World, w: World, es: seq<Event>, name: string)
    requires IsEmit(step) && |name| > TEXT_MAX && OfBlock(es, name) && es != []
    requires AllHarmless(es) || !Harmless(es[0].kind)
    ensures LongStep(w.blocks, Fold<World, Event>(step, w, es).blocks, LookupsOf(es), AllHarmless(es))
    decreases |es|
  {
    hide SlotsClear, Free, Harmless, RecordClear, Lookups;
    var init, last := es[..|es| - 1], es[|es| - 1];
    var v := Fold<World, Event>(step, w, init);
    EmitLongStep(step, v, last);
    if init == [] {
      assert v == w && es == [last];
    } else {
      PlayLongStep(step, w, init, name);
      StepsJoin(w.blocks, v.blocks, step(v, last).blocks, LookupsOf(init), Lookups(last.kind), AllHarmless(init), Harmless(last.kind));
      assert !AllHarmless(init) ==> !Harmless(es[0].kind);
    }
  }

  lemma StepsJoin(a: Adapter, b: Adapter, c: Adapter, m: nat, n: nat, p: bool, q: bool)
    requires a.Sized() && b.Sized() && c.Sized()
    requires LongStep(a, b, m, p) && LongStep(b, c, n, q) && n > 0 && (p ==> q)
    ensures LongStep(a, c, m + n, p)
  {
    hide SlotsClear, Free, RecordClear;
  }

  /** The incidents of a run of a long name: an OK comes alone if it comes first. */
  lemma FirstIncident(cfg: Config, o: Outside)
    ensures var es := Incidents(cfg, o, None);
            && OfBlock(Trail(cfg, o, None), BlockName(cfg))
            && (es[0].kind == OK ==> AllHarmless(Trail(cfg, o, None)))
            && (es[0].kind != OK ==> !Harmless(es[0].kind))
            && Trail(cfg, o, None)[0] == es[0]
  {
    IncidentsOfBlock(cfg, o, None);
    CalledIncidents(cfg, o);
  }

  /** After a run of a long name: the slots that were taken have a code if the first incident was
      a failure and found one free; the overflow record is kept only if it was not needed. */
  lemma AfterLongStep(w: World, cfg: Config, o: Outside)
    requires |BlockName(cfg)| > TEXT_MAX
    ensures var a, b := w.blocks, After(w, cfg, o).blocks;
            && (SlotsClear(b.slots) <==>
                SlotsClear(a.slots) && (Free(a.slots) <= 2 || Incidents(cfg, o, None)[0].kind == OK))
            && (Free(a.slots) >= RunLookups(cfg, o) ==> b.overflow == a.overflow)
            && (Free(a.slots) < RunLookups(cfg, o) ==> RecordClear(b.overflow))
  {
    hide SlotsClear, Free, RecordClear, Emit, Refusal, Incidents, LookupsOf;
    var name := BlockName(cfg);
    var looked := Looked(w, cfg).0;
    RefusedExactly(w, cfg);
    EmitLongStep(Emit, w, Entered(name));
    assert looked.blocks == Emit(w, Entered(name)).blocks;
    FirstIncident(cfg, o);
    TrailLookups(cfg, o);
    PlayLongStep(Emit, looked, Trail(cfg, o, None), name);
  }

  /** The condition for a run of a long name. */
  predicate LongRunClear(a: Adapter, cfg: Config, o: Outside)
    requires a.Sized()
  {
    && (Free(a.slots) <= 2 || Incidents(cfg, o, None)[0].kind == OK)
    && (Free(a.slots) >= RunLookups(cfg, o) ==> RecordClear(a.overflow))
  }

  // ---------------------------------------------------------------------------------
  // Every run
  // ---------------------------------------------------------------------------------

  /** The global watchdog code is the worst of all records in use. */
  predicate ShowsWorst(a: Adapter)
    requires a.Sized()
  {
    a.Aggregate().watchdog == MaxWatchdog(a.Records())
  }

  /** After every run, when the global watchdog code is the worst of all blocks. For a block the
      table can keep: always after a failure other than a timeout, after a timeout if and only if
      no other record reads 2, after an OK if and only if all others read 0. For any other block
      it is 0, and the worst if and only if no slot in use had a code before, and, if the name
      has more than 63 bytes, the first incident was OK or found no free slot, and an overflow
      record that the run did not need had no code either. */
  lemma AggregateAfterRun(w: World, cfg: Config, o: Outside)
    requires InRange(w.blocks)
    ensures var b := After(w, cfg, o).blocks;
            if Keeps(w.blocks.slots, BlockName(cfg)) then
              match ReportOf(cfg, o, Refusal(w, cfg)).result
              case ResultOk => ShowsWorst(b) <==> OthersAtMost(w.blocks, BlockName(cfg), 0)
              case ResultTimeout => ShowsWorst(b) <==> OthersAtMost(w.blocks, BlockName(cfg), 1)
              case _ => ShowsWorst(b)
            else
              && b.Aggregate().watchdog == 0
              && (ShowsWorst(b) <==>
                  SlotsClear(w.blocks.slots) && (|BlockName(cfg)| > TEXT_MAX ==> LongRunClear(w.blocks, cfg, o)))
  {
    hide After, Keeps, SlotsClear, RecordClear, Free, Refusal, ReportOf, Incidents;
    if Keeps(w.blocks.slots, BlockName(cfg)) {
      AggregateAfterKept(w, cfg, o);
    } else {
      UnkeptRunShowsZero(w, cfg, o);
      WorstIsZero(After(w, cfg, o).blocks);
      if |BlockName(cfg)| > TEXT_MAX {
        AfterLongStep(w, cfg, o);
      } else {
        FullRunClears(w, cfg, o);
      }
    }
  }

  // ---------------------------------------------------------------------------------
  // The codes stay in range
  // ---------------------------------------------------------------------------------

  lemma ChangeInRange(a: Adapter, key: string, f: BlockState -> BlockState)
    requires a.Sized() && InRange(a) && 0 <= f(a.Read(key)).watchdog <= 2
    ensures InRange(a.Change(key, f))
  {
    ChangedRecords(a, key, f);
  }

  lemma SetHealthInRange(a: Adapter, key: string, code: Option<int>)
    requires a.Sized() && InRange(a)
    ensures InRange(SetHealth(a, key, code))
  {
    hide InRange;
    if code.Some? {
      ReadInRange(a, key);
      ChangeInRange(a, key, WithHealth(code.value));
    }
  }

  lemma EmitInRange(step: (World, Event) -> World, w: World, e: Event)
    requires IsEmit(step) && InRange(w.blocks) && e.block != ""
    ensures InRange(step(w, e).blocks)
  {
    hide InRange;
    assert step(w, e) == Emit(w, e);
    EmittedBlocks(w, e);
    var a := w.blocks.Change(e.block, Observed(e.kind));
    ReadInRange(w.blocks, e.block);
    ChangeInRange(w.blocks, e.block, Observed(e.kind));
    SetHealthInRange(a, e.block, HealthCode(e.kind));
    SetHealthInRange(SetHealth(a, e.block, HealthCode(e.kind)), e.block, Override(NewStreak(w.streaks, e.block, e.kind)));
  }

  lemma {:induction false} PlayInRange(step: (World, Event) -> World, w: World, es: seq<Event>, name: string)
    requires IsEmit(step) && InRange(w.blocks) && name != "" && OfBlock(es, name)
    ensures InRange(Fold<World, Event>(step, w, es).blocks)
  {
    hide InRange;
    if es != [] {
      PlayInRange(step, w, es[..|es| - 1], name);
      EmitInRange(step, Fold<World, Event>(step, w, es[..|es| - 1]), es[|es| - 1]);
    }
  }

  lemma AfterInRange(w: World, cfg: Config, o: Outside)
    requires InRange(w.blocks)
    ensures InRange(After(w, cfg, o).blocks)
  {
    hide InRange, Emit, Incidents, Refusal;
    EmitInRange(Emit, w, Entered(BlockName(cfg)));
    assert Looked(w, cfg).0.blocks == Emit(w, Entered(BlockName(cfg))).blocks;
    IncidentsOfBlock(cfg, o, Refusal(w, cfg));
    PlayInRange(Emit, Looked(w, cfg).0, Trail(cfg, o, Refusal(w, cfg)), BlockName(cfg));
  }

  /** Over all runs the watchdog codes stay 0, 1 or 2. */
  lemma {:induction false} RunsStayInRange(w: World, rs: seq<(Config, Outside)>)
    requires InRange(w.blocks)
    ensures InRange(Runs(w, rs).blocks)
  {
    hide InRange, After;
    if rs != [] {
      RunsStayInRange(w, rs[..|rs| - 1]);
      AfterInRange(Runs(w, rs[..|rs| - 1]), rs[|rs| - 1].0, rs[|rs| - 1].1);
    }
  }
}
