/** The block states over whole histories of runs: which blocks still have a slot, and what the
    health of each of them tells. */
module BlockHistory {
  import opened Text
  import opened EventLine
  import opened SlotTable
  import opened FailureStreaks
  import opened BlockStates
  import opened GuardWorld
  import opened GuardRun
  import opened Turns
  import opened Quarantine
  import opened Interleaving
  import opened RunHealth

  // ---------------------------------------------------------------------------------
  // Names of more than 63 bytes
  // ---------------------------------------------------------------------------------

  /** What n lookups by the name `key` take, each of which opens a slot: free slots as long as
      there are any, all found by the name that is left of `key` when it is cut, if at all. */
  ghost predicate Consumed<V(!new)>(before: seq<Slot<V>>, after: seq<Slot<V>>, n: nat, key: string) {
    && Free(after) == Monus(Free(before), n)
    && forall other: string ::
         Found(after, other) <==> Found(before, other) || (n > 0 && Free(before) > 0 && Remembers(key, other))
  }

  lemma ConsumedJoins<V(!new)>(a: seq<Slot<V>>, b: seq<Slot<V>>, c: seq<Slot<V>>, m: nat, n: nat, key: string)
    requires Consumed(a, b, m, key) && Consumed(b, c, n, key)
    ensures Consumed(a, c, m + n, key)
  {
    hide Remembers, Found, Free;
  }

  lemma OpenedByLong<V>(slots: seq<Slot<V>>, i: nat, key: string, v: V, other: string)
    requires i < |slots| && !slots[i].inUse && |key| > TEXT_MAX
    requires forall j :: 0 <= j < i ==> slots[j].inUse
    ensures Found(slots[i := NewSlot(key, v)], other) <==> Found(slots, other) || Remembers(key, other)
  {
    hide NameHash;
    var t := slots[i := NewSlot(key, v)];
    HashFilterExactly(key, v);
    if Remembers(key, other) {
      assert Matches(t[i], other);
    } else {
      MatchOther(slots, i, NewSlot(key, v), other);
    }
  }

  lemma LongChange(a: Adapter, key: string, f: BlockState -> BlockState)
    requires a.Sized() && |key| > TEXT_MAX
    ensures Consumed(a.slots, a.Change(key, f).slots, 1, key)
  {
    hide NameHash, Remembers;
    var i := FirstFree(a.slots);
    FreeIsSome(a.slots);
    LongIsLost(a.slots, key);
    if i < SLOTS {
      assert a.Change(key, f).slots == a.slots[i := NewSlot(key, f(ZERO))];
      FreeOfPut(a.slots, i, NewSlot(key, f(ZERO)));
      forall other: string
        ensures Found(a.Change(key, f).slots, other) <==> Found(a.slots, other) || Remembers(key, other)
      {
        OpenedByLong(a.slots, i, key, f(ZERO), other);
      }
    } else {
      assert a.Change(key, f).slots == a.slots;
    }
  }

  /** How many lookups of its block an event makes, as long as the streak is no longer than 1. */
  function Lookups(kind: Int32): (n: nat)
    ensures n >= 1
  {
    if HealthCode(kind).Some? then 2 else 1
  }

  lemma LongStreak(streaks: seq<Slot<UInt32>>, key: string, kind: Int32)
    requires |streaks| == SLOTS && |key| > TEXT_MAX
    ensures Override(NewStreak(streaks, key, kind)) == None
  {
    LookupLong(streaks, key);
  }

  lemma EmitLong(step: (World, Event) -> World, w: World, e: Event)
    requires IsEmit(step) && |e.block| > TEXT_MAX
    ensures Consumed(w.blocks.slots, step(w, e).blocks.slots, Lookups(e.kind), e.block)
  {
    hide Consumed;
    assert step(w, e) == Emit(w, e);
    var a := w.blocks.Change(e.block, Observed(e.kind));
    LongStreak(w.streaks, e.block, e.kind);
    LongChange(w.blocks, e.block, Observed(e.kind));
    if HealthCode(e.kind).Some? {
      LongChange(a, e.block, WithHealth(HealthCode(e.kind).value));
      ConsumedJoins(w.blocks.slots, a.slots, a.Change(e.block, WithHealth(HealthCode(e.kind).value)).slots, 1, 1, e.block);
    }
  }

  function LookupsOf(es: seq<Event>): nat {
    if es == [] then 0 else LookupsOf(es[..|es| - 1]) + Lookups(es[|es| - 1].kind)
  }

  lemma {:induction false} PlayLong(step: (World, Event) -> World, w: World, es: seq<Event>, name: string)
    requires IsEmit(step) && |name| > TEXT_MAX && OfBlock(es, name)
    ensures Consumed(w.blocks.slots, Fold<World, Event>(step, w, es).blocks.slots, LookupsOf(es), name)
  {
    hide Remembers, Found, Free;
    if es != [] {
      var init, last := es[..|es| - 1], es[|es| - 1];
      var v := Fold<World, Event>(step, w, init);
      PlayLong(step, w, init, name);
      EmitLong(step, v, last);
      ConsumedJoins(w.blocks.slots, v.blocks.slots, step(v, last).blocks.slots, LookupsOf(init), Lookups(last.kind), name);
    }
  }

  lemma {:induction false} CodedLookups(es: seq<Event>)
    requires forall i :: 0 <= i < |es| ==> HealthCode(es[i].kind).Some?
    ensures LookupsOf(es) == 2 * |es|
  {
    if es != [] {
      CodedLookups(es[..|es| - 1]);
    }
  }

  lemma LookupsSnoc(es: seq<Event>, e: Event)
    ensures LookupsOf(es + [e]) == LookupsOf(es) + Lookups(e.kind)
  {
    assert (es + [e])[..|es|] == es;
  }

  lemma IncidentsAreCoded(cfg: Config, o: Outside, refusal: Option<UInt32>)
    ensures forall i :: 0 <= i < |Incidents(cfg, o, refusal)| ==> HealthCode(Incidents(cfg, o, refusal)[i].kind).Some?
  {
    CalledIncidents(cfg, o);
  }

  /** How many slots a run of a block with a long name can take. */
  function RunLookups(cfg: Config, o: Outside): (n: nat)
    ensures n >= 5
  {
    3 + 2 * |Incidents(cfg, o, None)|
  }

  lemma TrailLookups(cfg: Config, o: Outside)
    ensures LookupsOf(Trail(cfg, o, None)) == 1 + 2 * |Incidents(cfg, o, None)|
  {
    hide Incidents;
    IncidentsAreCoded(cfg, o, None);
    CodedLookups(Incidents(cfg, o, None));
    LookupsSnoc(Incidents(cfg, o, None), Completed(BlockName(cfg), Duration(o)));
  }

  /** A run of a block with a long name takes two slots for every event, and one for COMPLETED. */
  lemma AfterLong(w: World, cfg: Config, o: Outside)
    requires |BlockName(cfg)| > TEXT_MAX
    ensures Consumed(w.blocks.slots, After(w, cfg, o).blocks.slots, RunLookups(cfg, o), BlockName(cfg))
  {
    hide Consumed, Refusal, LookupsOf, Incidents, Emit;
    var name := BlockName(cfg);
    var looked := Looked(w, cfg).0;
    RefusedExactly(w, cfg);
    EmitLong(Emit, w, Entered(name));
    assert looked.blocks == Emit(w, Entered(name)).blocks;
    IncidentsOfBlock(cfg, o, None);
    PlayLong(Emit, looked, Trail(cfg, o, None), name);
    TrailLookups(cfg, o);
    ConsumedJoins(w.blocks.slots, looked.blocks.slots, After(w, cfg, o).blocks.slots, 2, LookupsOf(Trail(cfg, o, None)), name);
  }

  predicate RunsOfName(rs: seq<(Config, Outside)>, name: string) {
    forall i :: 0 <= i < |rs| ==> BlockName(rs[i].0) == name
  }

  function LookupsOfRuns(rs: seq<(Config, Outside)>): nat {
    if rs == [] then 0 else LookupsOfRuns(rs[..|rs| - 1]) + RunLookups(rs[|rs| - 1].0, rs[|rs| - 1].1)
  }

  lemma {:induction false} RunsConsume(w: World, rs: seq<(Config, Outside)>, name: string)
    requires |name| > TEXT_MAX && RunsOfName(rs, name)
    ensures Consumed(w.blocks.slots, Runs(w, rs).blocks.slots, LookupsOfRuns(rs), name)
  {
    hide After, Remembers, Found, Free, RunLookups;
    if rs != [] {
      var init := rs[..|rs| - 1];
      var (cfg, o) := rs[|rs| - 1];
      RunsConsume(w, init, name);
      AfterLong(Runs(w, init), cfg, o);
      ConsumedJoins(w.blocks.slots, Runs(w, init).blocks.slots, Runs(w, rs).blocks.slots, LookupsOfRuns(init),
                    RunLookups(cfg, o), name);
    }
  }

  lemma {:induction false} FiveSlotsEach(rs: seq<(Config, Outside)>)
    ensures LookupsOfRuns(rs) >= 5 * |rs|
  {
    if rs != [] {
      FiveSlotsEach(rs[..|rs| - 1]);
    }
  }

  /** A block with a long name uses the table up for everybody: after its runs another name can
      be kept if and only if it had a slot before, or more slots were free than the runs have
      looked the block up (a collision with the cut name apart). Every run takes at least five
      of the eight. */
  lemma LongNamesExhaustTheTable(w: World, rs: seq<(Config, Outside)>, name: string, other: string)
    requires |name| > TEXT_MAX && RunsOfName(rs, name)
    ensures Keeps(Runs(w, rs).blocks.slots, other) <==>
            && |other| <= TEXT_MAX
            && (Found(w.blocks.slots, other)
                || Free(w.blocks.slots) > if Remembers(name, other) then 0 else LookupsOfRuns(rs))
    ensures LookupsOfRuns(rs) >= 5 * |rs|
  {
    hide Remembers, Found, Free, Runs, RunLookups;
    RunsConsume(w, rs, name);
    FiveSlotsEach(rs);
  }

  // ---------------------------------------------------------------------------------
  // Any runs
  // ---------------------------------------------------------------------------------

  lemma SameSlots(a: Adapter, key: string, f: BlockState -> BlockState)
    requires a.Sized() && |key| <= TEXT_MAX && !Keeps(a.slots, key)
    ensures a.Change(key, f).slots == a.slots
  {
    FreeIsSome(a.slots);
  }

  lemma EmitFull(step: (World, Event) -> World, w: World, e: Event)
    requires IsEmit(step) && |e.block| <= TEXT_MAX && !Keeps(w.blocks.slots, e.block) && e.block != ""
    ensures step(w, e).blocks.slots == w.blocks.slots
  {
    hide Keeps;
    assert step(w, e) == Emit(w, e);
    var a := w.blocks.Change(e.block, Observed(e.kind));
    SameSlots(w.blocks, e.block, Observed(e.kind));
    HealthFull(a, e.block, HealthCode(e.kind));
    HealthFull(SetHealth(a, e.block, HealthCode(e.kind)), e.block, Override(NewStreak(w.streaks, e.block, e.kind)));
  }

  lemma HealthFull(a: Adapter, key: string, code: Option<int>)
    requires a.Sized() && |key| <= TEXT_MAX && !Keeps(a.slots, key)
    ensures SetHealth(a, key, code).slots == a.slots
  {
    if code.Some? {
      SameSlots(a, key, WithHealth(code.value));
    }
  }

  lemma {:induction false} PlayFull(step: (World, Event) -> World, w: World, es: seq<Event>, name: string)
    requires IsEmit(step) && |name| <= TEXT_MAX && !Keeps(w.blocks.slots, name) && name != "" && OfBlock(es, name)
    ensures Fold<World, Event>(step, w, es).blocks.slots == w.blocks.slots
  {
    hide Keeps;
    if es != [] {
      PlayFull(step, w, es[..|es| - 1], name);
      EmitFull(step, Fold<World, Event>(step, w, es[..|es| - 1]), es[|es| - 1]);
    }
  }

  lemma AfterFull(w: World, cfg: Config, o: Outside)
    requires |BlockName(cfg)| <= TEXT_MAX && !Keeps(w.blocks.slots, BlockName(cfg))
    ensures After(w, cfg, o).blocks.slots == w.blocks.slots
  {
    hide Keeps, Refusal, Incidents, Emit;
    EmitFull(Emit, w, Entered(BlockName(cfg)));
    assert Looked(w, cfg).0.blocks == Emit(w, Entered(BlockName(cfg))).blocks;
    IncidentsOfBlock(cfg, o, Refusal(w, cfg));
    PlayFull(Emit, Looked(w, cfg).0, Trail(cfg, o, Refusal(w, cfg)), BlockName(cfg));
  }

  lemma SettledUse(a: Adapter, key: string, v: BlockState)
    requires a.Sized() && Keeps(a.slots, key)
    ensures var t := Settled(a, key, v).slots;
            && Free(t) == Monus(Free(a.slots), if Found(a.slots, key) then 0 else 1)
            && forall other :: Found(t, other) <==> Found(a.slots, other) || (Free(a.slots) > 0 && Remembers(key, other))
  {
    hide NameHash;
    SettledFree(a, key, v);
    SettledReads(a, key, v);
    forall other
      ensures Found(Settled(a, key, v).slots, other) <==>
              Found(a.slots, other) || (Free(a.slots) > 0 && Remembers(key, other))
    {
      RemembersExactly(key, other);
      if other != key {
        SettledOther(a, key, v, other);
      }
    }
  }

  /** How many slots a run takes, if they are free. */
  function Takes(slots: seq<Slot<BlockState>>, cfg: Config, o: Outside): nat {
    if |BlockName(cfg)| > TEXT_MAX then RunLookups(cfg, o) else if Found(slots, BlockName(cfg)) then 0 else 1
  }

  /** The slots after any run: which names are found, and how many are left. */
  lemma AfterUse(w: World, cfg: Config, o: Outside)
    ensures var s, t := w.blocks.slots, After(w, cfg, o).blocks.slots;
            && Free(t) == Monus(Free(s), Takes(s, cfg, o))
            && forall other :: Found(t, other) <==> Found(s, other) || (Free(s) > 0 && Remembers(BlockName(cfg), other))
  {
    hide After, RunLookups, NameHash;
    if |BlockName(cfg)| > TEXT_MAX {
      AfterLong(w, cfg, o);
    } else if Keeps(w.blocks.slots, BlockName(cfg)) {
      var v := AfterKept(w, cfg, o);
      SettledUse(w.blocks, BlockName(cfg), v);
    } else {
      AfterFull(w, cfg, o);
    }
  }

  /** Whether a name is found after some runs... */
  function SeenAfter(slots: seq<Slot<BlockState>>, rs: seq<(Config, Outside)>, name: string): bool
    decreases |rs|, 1
  {
    if rs == [] then Found(slots, name)
    else
      var init := rs[..|rs| - 1];
      SeenAfter(slots, init, name) || (LeftAfter(slots, init) > 0 && Remembers(BlockName(rs[|rs| - 1].0), name))
  }

  /** ...and how many slots are left: both by the names that were run and, for those of more than
      63 bytes, by how many incidents their runs had. */
  function LeftAfter(slots: seq<Slot<BlockState>>, rs: seq<(Config, Outside)>): nat
    decreases |rs|, 0
  {
    if rs == [] then Free(slots)
    else
      var init := rs[..|rs| - 1];
      var (cfg, o) := rs[|rs| - 1];
      Monus(LeftAfter(slots, init),
            if |BlockName(cfg)| > TEXT_MAX then RunLookups(cfg, o)
            else if SeenAfter(slots, init, BlockName(cfg)) then 0 else 1)
  }

  lemma {:induction false} RunsUse(w: World, rs: seq<(Config, Outside)>)
    ensures Free(Runs(w, rs).blocks.slots) == LeftAfter(w.blocks.slots, rs)
    ensures forall name :: Found(Runs(w, rs).blocks.slots, name) <==> SeenAfter(w.blocks.slots, rs, name)
  {
    hide After, RunLookups, Remembers, Found, Free;
    if rs != [] {
      RunsUse(w, rs[..|rs| - 1]);
      AfterUse(Runs(w, rs[..|rs| - 1]), rs[|rs| - 1].0, rs[|rs| - 1].1);
    }
  }

  // ---------------------------------------------------------------------------------
  // What health tells
  // ---------------------------------------------------------------------------------

  /** No slot is free below one in use: so the tables start, and so they stay. */
  predicate Packed<V>(slots: seq<Slot<V>>) {
    forall i, j :: 0 <= i < j < |slots| && slots[j].inUse ==> slots[i].inUse
  }

  lemma ChangePacked(a: Adapter, key: string, f: BlockState -> BlockState)
    requires a.Sized() && Packed(a.slots)
    ensures Packed(a.Change(key, f).slots)
  {
    hide NameHash;
  }

  /** Lookups of `key` cannot change what `other` reads any more: it has a slot, can get none, or
      is not found in the slots of `key`. */
  predicate Quiet(a: Adapter, key: string, other: string)
    requires a.Sized()
  {
    Found(a.slots, other) || Free(a.slots) == 0 || !Remembers(key, other)
  }

  /** The slots that a name of more than 63 bytes opens lie behind all others, so one that has
      the name `other` when it is cut is found only if there was none before; and if it is opened
      with zeros, nothing can be told from that. */
  lemma QuietChange(a: Adapter, key: string, f: BlockState -> BlockState, other: string)
    requires a.Sized() && Packed(a.slots) && other != key
    requires Quiet(a, key, other) || f(ZERO) == ZERO
    ensures var b := a.Change(key, f);
            Packed(b.slots) && Quiet(b, key, other) && b.Read(other) == a.Read(other)
  {
    hide Remembers, NameHash;
    ChangePacked(a, key, f);
    if Remembers(key, other) {
      QuietCollision(a, key, f, other);
    } else {
      ChangeOther(a, key, f, other);
    }
  }

  lemma QuietCollision(a: Adapter, key: string, f: BlockState -> BlockState, other: string)
    requires a.Sized() && Packed(a.slots) && other != key && Remembers(key, other)
    requires Found(a.slots, other) || Free(a.slots) == 0 || f(ZERO) == ZERO
    ensures var b := a.Change(key, f);
            (Found(b.slots, other) || Free(b.slots) == 0) && b.Read(other) == a.Read(other)
  {
    hide NameHash;
    RemembersExactly(key, other);
    LongIsLost(a.slots, key);
    FreeIsSome(a.slots);
    var b, i := a.Change(key, f), FirstFree(a.slots);
    ReadIs(a, other);
    ReadIs(b, other);
    if i == SLOTS {
      assert b.slots == a.slots;
    } else {
      assert b.slots == a.slots[i := NewSlot(key, f(ZERO))];
      var m := FirstMatch(a.slots, other);
      HashFilterExactly(key, f(ZERO));
      FirstMatchIs(b.slots, other, if m < SLOTS then m else i);
    }
  }

  lemma SetHealthQuiet(a: Adapter, key: string, code: Option<int>, other: string)
    requires a.Sized() && Packed(a.slots) && other != key && Quiet(a, key, other)
    ensures var b := SetHealth(a, key, code);
            Packed(b.slots) && Quiet(b, key, other) && b.Read(other) == a.Read(other)
  {
    hide Quiet, Packed;
    if code.Some? {
      QuietChange(a, key, WithHealth(code.value), other);
    }
  }

  lemma EmitQuiet(step: (World, Event) -> World, w: World, e: Event, other: string)
    requires IsEmit(step) && e.block != "" && other != e.block && Packed(w.blocks.slots)
    requires Quiet(w.blocks, e.block, other) || Observed(e.kind)(ZERO) == ZERO
    ensures var v := step(w, e);
            Packed(v.blocks.slots) && Quiet(v.blocks, e.block, other) && v.blocks.Read(other) == w.blocks.Read(other)
  {
    hide Quiet, Packed;
    assert step(w, e) == Emit(w, e);
    var a := w.blocks.Change(e.block, Observed(e.kind));
    QuietChange(w.blocks, e.block, Observed(e.kind), other);
    SetHealthQuiet(a, e.block, HealthCode(e.kind), other);
    SetHealthQuiet(SetHealth(a, e.block, HealthCode(e.kind)), e.block, Override(NewStreak(w.streaks, e.block, e.kind)), other);
  }

  lemma {:induction false} PlayQuiet(step: (World, Event) -> World, w: World, es: seq<Event>, name: string, other: string)
    requires IsEmit(step) && name != "" && OfBlock(es, name) && other != name
    requires Packed(w.blocks.slots) && Quiet(w.blocks, name, other)
    ensures var v := Fold<World, Event>(step, w, es);
            Packed(v.blocks.slots) && Quiet(v.blocks, name, other) && v.blocks.Read(other) == w.blocks.Read(other)
  {
    hide Quiet, Packed;
    if es != [] {
      PlayQuiet(step, w, es[..|es| - 1], name, other);
      EmitQuiet(step, Fold<World, Event>(step, w, es[..|es| - 1]), es[|es| - 1], other);
    }
  }

  /** A run is seen in the codes of its own block only, whatever the names: a slot that its first
      event ENTERED opens under a cut name holds zeros, as a name without a slot reads. */
  lemma AfterOther(w: World, cfg: Config, o: Outside, other: string)
    requires other != BlockName(cfg) && Packed(w.blocks.slots)
    ensures Packed(After(w, cfg, o).blocks.slots)
    ensures After(w, cfg, o).blocks.Read(other) == w.blocks.Read(other)
  {
    hide Quiet, Packed, Refusal, Incidents, Emit;
    EmitQuiet(Emit, w, Entered(BlockName(cfg)), other);
    assert Looked(w, cfg).0.blocks == Emit(w, Entered(BlockName(cfg))).blocks;
    IncidentsOfBlock(cfg, o, Refusal(w, cfg));
    PlayQuiet(Emit, Looked(w, cfg).0, Trail(cfg, o, Refusal(w, cfg)), BlockName(cfg), other);
  }

  lemma AfterPacked(w: World, cfg: Config, o: Outside)
    requires Packed(w.blocks.slots)
    ensures Packed(After(w, cfg, o).blocks.slots)
  {
    hide Packed, After;
    AfterOther(w, cfg, o, BlockName(cfg) + "x");
  }

  lemma {:induction false} RunsStayPacked(w: World, rs: seq<(Config, Outside)>)
    requires Packed(w.blocks.slots)
    ensures Packed(Runs(w, rs).blocks.slots)
  {
    hide Packed, After;
    if rs != [] {
      RunsStayPacked(w, rs[..|rs| - 1]);
      AfterPacked(Runs(w, rs[..|rs| - 1]), rs[|rs| - 1].0, rs[|rs| - 1].1);
    }
  }

  /** What the last run of a block was reported as, with the streak it left. */
  function LastTold(w: World, rs: seq<(Config, Outside)>, name: string): Option<(Result, UInt32)> {
    if rs == [] then None
    else
      var before := Runs(w, rs[..|rs| - 1]);
      var (cfg, o) := rs[|rs| - 1];
      if BlockName(cfg) != name then LastTold(w, rs[..|rs| - 1], name)
      else Some((ReportOf(cfg, o, Refusal(before, cfg)).result, StreakOf(After(before, cfg, o), name)))
  }

  predicate WasRun(rs: seq<(Config, Outside)>, name: string) {
    exists i :: 0 <= i < |rs| && BlockName(rs[i].0) == name
  }

  /** The block reads the codes of that run, or zeros if there is nothing to tell. */
  predicate Reads(a: Adapter, name: string, told: Option<(Result, UInt32)>)
    requires a.Sized()
  {
    var v := a.Read(name);
    match told
    case None => v.health == 0 && v.watchdog == 0
    case Some((result, streak)) =>
      && v.health == (if streak >= 5 then 5
                      else if streak >= 3 then 4
                      else if result == ResultOk then 0 else if result == ResultTimeout then 2 else 3)
      && v.watchdog == (if result == ResultOk then 0 else if result == ResultTimeout then 1 else 2)
      && (v.health == 0 <==> result == ResultOk)
  }

  lemma OwnRunReads(w: World, cfg: Config, o: Outside)
    ensures Reads(After(w, cfg, o).blocks, BlockName(cfg),
                  if Keeps(w.blocks.slots, BlockName(cfg)) then
                    Some((ReportOf(cfg, o, Refusal(w, cfg)).result, StreakOf(After(w, cfg, o), BlockName(cfg))))
                  else None)
  {
    hide Keeps, After, Refusal, ReportOf, StreakOf;
    if Keeps(w.blocks.slots, BlockName(cfg)) {
      HealthTellsTheReport(w, cfg, o);
    } else {
      AfterUnkept(w, cfg, o);
      ReadLost(After(w, cfg, o).blocks, BlockName(cfg));
    }
  }

  lemma {:induction false} KeptOrLost(slots: seq<Slot<BlockState>>, rs: seq<(Config, Outside)>, name: string)
    requires rs != [] && BlockName(rs[|rs| - 1].0) == name
    ensures SeenAfter(slots, rs, name) <==>
            SeenAfter(slots, rs[..|rs| - 1], name) || (LeftAfter(slots, rs[..|rs| - 1]) > 0 && |name| <= TEXT_MAX)
  {
    hide NameHash;
    RemembersExactly(name, name);
  }

  lemma WasRunSnoc(rs: seq<(Config, Outside)>, name: string)
    requires rs != []
    ensures WasRun(rs, name) <==> WasRun(rs[..|rs| - 1], name) || BlockName(rs[|rs| - 1].0) == name
  {
    var init := rs[..|rs| - 1];
    assert forall i :: 0 <= i < |init| ==> init[i] == rs[i];
    if WasRun(init, name) {
      var i :| 0 <= i < |init| && BlockName(init[i].0) == name;
      assert BlockName(rs[i].0) == name;
    }
  }

  /** A block that was run without getting a slot has found none left, or has a long name. */
  lemma {:induction false} RunUnseen(slots: seq<Slot<BlockState>>, rs: seq<(Config, Outside)>, name: string)
    requires WasRun(rs, name) && |name| <= TEXT_MAX && !SeenAfter(slots, rs, name)
    ensures LeftAfter(slots, rs) == 0
  {
    hide NameHash, RunLookups;
    WasRunSnoc(rs, name);
    if BlockName(rs[|rs| - 1].0) == name {
      RemembersExactly(name, name);
    } else {
      RunUnseen(slots, rs[..|rs| - 1], name);
    }
  }

  lemma SeenStays(slots: seq<Slot<BlockState>>, rs: seq<(Config, Outside)>, name: string)
    requires rs != [] && WasRun(rs[..|rs| - 1], name)
    ensures SeenAfter(slots, rs, name) <==> SeenAfter(slots, rs[..|rs| - 1], name)
  {
    hide NameHash, RunLookups;
    if |name| <= TEXT_MAX && !SeenAfter(slots, rs[..|rs| - 1], name) {
      RunUnseen(slots, rs[..|rs| - 1], name);
    }
  }

  /** Health is a function of history. After any runs of any blocks, from any table, a block that
      was run reads the codes of its own last run, or zeros if it has no slot, which is decided
      by the names and by the incidents of the long ones; and a block that was not run reads
      what it read before. */
  lemma {:induction false} HealthTellsTheLastRun(w: World, rs: seq<(Config, Outside)>, name: string)
    requires Packed(w.blocks.slots)
    ensures if WasRun(rs, name) then
              Reads(Runs(w, rs).blocks, name, if SeenAfter(w.blocks.slots, rs, name) then LastTold(w, rs, name) else None)
            else Runs(w, rs).blocks.Read(name) == w.blocks.Read(name)
  {
    hide After, Remembers, Refusal, ReportOf, StreakOf, NameHash, Packed, WasRun;
    if rs == [] {
      NothingRun(name);
    } else {
      var init := rs[..|rs| - 1];
      var (cfg, o) := rs[|rs| - 1];
      RunsUse(w, init);
      RunsStayPacked(w, init);
      WasRunSnoc(rs, name);
      if BlockName(cfg) == name {
        OwnRunReads(Runs(w, init), cfg, o);
        KeptOrLost(w.blocks.slots, rs, name);
        FoundIsShort(Runs(w, init).blocks.slots, name);
      } else {
        HealthTellsTheLastRun(w, init, name);
        AfterOther(Runs(w, init), cfg, o, name);
        if WasRun(init, name) {
          SeenStays(w.blocks.slots, rs, name);
        }
      }
    }
  }

  lemma NothingRun(name: string)
    ensures !WasRun([], name)
  {
  }

  predicate AllEmpty(slots: seq<Slot<BlockState>>) {
    forall i :: 0 <= i < |slots| ==> !slots[i].inUse
  }

  lemma NothingFound(slots: seq<Slot<BlockState>>, name: string)
    requires AllEmpty(slots)
    ensures !Found(slots, name)
  {
  }

  lemma FoundIsShort(slots: seq<Slot<BlockState>>, name: string)
    ensures Found(slots, name) ==> |name| <= TEXT_MAX
  {
  }

  /** The first `capacity` different names that are run, in order. */
  function FirstNames(rs: seq<(Config, Outside)>, capacity: nat): (names: seq<string>)
    ensures |names| <= capacity
  {
    if rs == [] then []
    else
      var names, name := FirstNames(rs[..|rs| - 1], capacity), BlockName(rs[|rs| - 1].0);
      if name in names || |names| == capacity then names else names + [name]
  }

  predicate ShortRuns(rs: seq<(Config, Outside)>) {
    forall i :: 0 <= i < |rs| ==> |BlockName(rs[i].0)| <= TEXT_MAX
  }

  lemma {:induction false} EmptyIsFree(slots: seq<Slot<BlockState>>)
    requires AllEmpty(slots)
    ensures Free(slots) == |slots|
  {
    if slots != [] {
      EmptyIsFree(slots[1..]);
    }
  }

  lemma {:induction false} ShortRunsUse(slots: seq<Slot<BlockState>>, rs: seq<(Config, Outside)>)
    requires AllEmpty(slots) && ShortRuns(rs)
    ensures LeftAfter(slots, rs) == |slots| - |FirstNames(rs, |slots|)|
    ensures forall name :: SeenAfter(slots, rs, name) <==> name in FirstNames(rs, |slots|)
  {
    hide NameHash;
    if rs == [] {
      EmptyIsFree(slots);
      forall name ensures !Found(slots, name) {
        NothingFound(slots, name);
      }
    } else {
      ShortRunsUse(slots, rs[..|rs| - 1]);
      var last := BlockName(rs[|rs| - 1].0);
      forall name ensures Remembers(last, name) <==> last == name {
        RemembersExactly(last, name);
      }
    }
  }

  /** As long as all names have at most 63 bytes, the first eight blocks keep telling the truth
      over any number of runs of any number of blocks: each reads the codes of its own last run;
      all others read 0. */
  lemma HealthOfTheFirstEight(w: World, rs: seq<(Config, Outside)>, name: string)
    requires AllEmpty(w.blocks.slots) && ShortRuns(rs)
    ensures Reads(Runs(w, rs).blocks, name, if name in FirstNames(rs, 8) then LastTold(w, rs, name) else None)
  {
    hide NameHash, Runs, LastTold, SeenAfter, LeftAfter, FirstNames, WasRun;
    ShortRunsUse(w.blocks.slots, rs);
    HealthTellsTheLastRun(w, rs, name);
    if !WasRun(rs, name) {
      NothingFound(w.blocks.slots, name);
      ReadIs(w.blocks, name);
      FirstNamesWereRun(rs, name);
    }
  }

  lemma {:induction false} FirstNamesWereRun(rs: seq<(Config, Outside)>, name: string)
    ensures name in FirstNames(rs, SLOTS) ==> WasRun(rs, name)
  {
    hide WasRun;
    if rs != [] {
      FirstNamesWereRun(rs[..|rs| - 1], name);
      WasRunSnoc(rs, name);
    }
  }
}
