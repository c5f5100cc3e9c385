/** The guard runtime as a state machine over emitted events: what `lox_emit_event_ex` does to
    the streak table, the block states and the evidence log. */
module GuardWorld {
  import opened Text
  import opened EventLine
  import opened Blackbox
  import opened SlotTable
  import opened FailureStreaks
  import opened BlockStates

  /** The state that outlives a run: the global tables and the caller's log. */
  datatype WorldParts = World(streaks: seq<Slot<UInt32>>, blocks: Adapter, log: seq<Event>)

  type World = w: WorldParts | |w.streaks| == SLOTS && w.blocks.Sized()
    witness World(seq(SLOTS, _ => Slot(false, "", 0, 0)),
                  Adapter(seq(SLOTS, _ => Slot(false, "", 0, ZERO)), Slot(false, "", 0, ZERO), SLOTS), [])

  /** `lox_action_t`. */
  datatype Action = NoAction | DropInput | ResetBlock

  /** The health code an event sets, before the streak has its say; COMPLETED sets none. */
  function HealthCode(kind: Int32): Option<int> {
    if kind == ENTERED then Some(1)
    else if kind == OK then Some(0)
    else if kind == TIMEOUT then Some(2)
    else if kind == WRITE_OUT_OF_BOUNDS || kind == ARENA_OVERFLOW || kind == MEMORY_FAULT ||
            kind == PANIC || kind == FAULT || kind == ERROR then Some(3)
    else if kind == UNSUPPORTED then Some(4)
    else None
  }

  /** A long streak overrides the health code. */
  function Override(streak: UInt32): Option<int> {
    if streak >= 5 then Some(5) else if streak >= 3 then Some(4) else None
  }

  function SetHealth(a: Adapter, key: string, code: Option<int>): (b: Adapter)
    requires a.Sized()
    ensures b.Sized()
  {
    if code.Some? then a.Change(key, WithHealth(code.value)) else a
  }

  /** The block's streak after an event of the given kind. */
  function NewStreak(streaks: seq<Slot<UInt32>>, key: string, kind: Int32): UInt32
    requires |streaks| == SLOTS
  {
    var (t, i) := StreakLookup(streaks, key);
    Bump(kind, t[i].value)
  }

  function BlocksAfter(a: Adapter, key: string, kind: Int32, streak: UInt32): (b: Adapter)
    requires a.Sized()
    ensures b.Sized()
  {
    SetHealth(SetHealth(a.Change(key, Observed(kind)), key, HealthCode(kind)), key, Override(streak))
  }

  /** One emission. */
  function Emit(w: World, e: Event): World {
    var key := Key(Some(e.block));
    World(Sight(w.streaks, Sighting(key, e.kind)),
          BlocksAfter(w.blocks, key, e.kind, NewStreak(w.streaks, key, e.kind)),
          Push(w.log, e))
  }

  function Fold<S, E>(step: (S, E) -> S, s: S, es: seq<E>): S {
    if es == [] then s else step(Fold(step, s, es[..|es| - 1]), es[|es| - 1])
  }

  lemma FoldSnoc<S, E>(step: (S, E) -> S, s: S, es: seq<E>, e: E)
    ensures Fold(step, s, es + [e]) == step(Fold(step, s, es), e)
  {
    assert (es + [e])[..|es|] == es;
  }

  lemma {:induction false} FoldConcat<S, E>(step: (S, E) -> S, s: S, es: seq<E>, fs: seq<E>)
    ensures Fold(step, s, es + fs) == Fold(step, Fold(step, s, es), fs)
  {
    if fs == [] {
      assert es + fs == es;
    } else {
      var init, last := fs[..|fs| - 1], fs[|fs| - 1];
      FoldConcat(step, s, es, init);
      assert es + fs == (es + init) + [last];
      FoldSnoc(step, s, es + init, last);
    }
  }

  /** A history of emissions. */
  function Play(w: World, es: seq<Event>): World {
    Fold<World, Event>(Emit, w, es)
  }

  ghost predicate IsEmit(step: (World, Event) -> World) {
    forall w, e {:trigger Emit(w, e)} :: step(w, e) == Emit(w, e)
  }

  lemma {:induction false} FoldIsPlay(step: (World, Event) -> World, w: World, es: seq<Event>)
    requires IsEmit(step)
    ensures Fold<World, Event>(step, w, es) == Play(w, es)
  {
    if es != [] {
      var init, last := es[..|es| - 1], es[|es| - 1];
      FoldIsPlay(step, w, init);
      assert Fold<World, Event>(step, w, es) == step(Fold<World, Event>(step, w, init), last);
      assert step(Play(w, init), last) == Emit(Play(w, init), last);
    }
  }

  lemma PlaySnoc(w: World, es: seq<Event>, e: Event)
    ensures Play(w, es + [e]) == Emit(Play(w, es), e)
  {
    FoldSnoc<World, Event>(Emit, w, es, e);
  }

  lemma PlayConcat(w: World, es: seq<Event>, fs: seq<Event>)
    ensures Play(w, es + fs) == Play(Play(w, es), fs)
  {
    FoldConcat<World, Event>(Emit, w, es, fs);
  }

  /** The log after a history holds the last sixteen of all that was ever logged. */
  lemma PlayedLog(w: World, es: seq<Event>)
    requires |w.log| <= CAPACITY
    ensures Play(w, es).log == Last(w.log + StoredAll(es), CAPACITY)
  {
    PlayPushes(w, es);
    PushAllIsLast(w.log, es);
  }

  lemma {:induction false} PlayPushes(w: World, es: seq<Event>)
    ensures Play(w, es).log == PushAll(w.log, es)
  {
    if es != [] {
      var init, last := es[..|es| - 1], es[|es| - 1];
      PlayPushes(w, init);
      PushAllSnoc(w.log, init, last);
      assert es == init + [last];
      PlaySnoc(w, init, last);
    }
  }

  function SightingOf(e: Event): Sighting {
    Sighting(Key(Some(e.block)), e.kind)
  }

  function Sightings(es: seq<Event>): seq<Sighting> {
    if es == [] then [] else Sightings(es[..|es| - 1]) + [SightingOf(es[|es| - 1])]
  }

  /** The streak table of the runtime is driven by its emissions alone, so all that is proved
      about the table over runs holds of it. */
  lemma {:induction false} PlayedStreaks(w: World, es: seq<Event>)
    ensures Play(w, es).streaks == SightAll(w.streaks, Sightings(es))
  {
    if es != [] {
      var init, last := es[..|es| - 1], es[|es| - 1];
      PlayedStreaks(w, init);
      EmitStreaks(Play(w, init), last);
      SightAllSnoc(w.streaks, Sightings(init), SightingOf(last));
    }
  }

  lemma EmitStreaks(w: World, e: Event)
    ensures Emit(w, e).streaks == Sight(w.streaks, SightingOf(e))
  {
  }

  lemma SightAllSnoc(slots: seq<Slot<UInt32>>, h: seq<Sighting>, s: Sighting)
    requires |slots| == SLOTS
    ensures SightAll(slots, h + [s]) == Sight(SightAll(slots, h), s)
  {
    assert (h + [s])[..|h|] == h;
  }

  // ---------------------------------------------------------------------------------
  // The emitter
  // ---------------------------------------------------------------------------------

  /** `lox_guard_ctx_t`, as far as the emitter writes it. */
  class GuardContext {
    var lastEvent: Option<Event>
    var lastPersisted: bool
    var durationTicks: UInt32

    constructor ()
      ensures lastEvent == None && !lastPersisted && durationTicks == 0
    {
      lastEvent, lastPersisted, durationTicks := None, false, 0;
    }
  }

  /** The recovery callback: whether one is installed, and all it has been told. */
  class Recovery {
    var installed: bool
    var notified: seq<(Option<Event>, Action)>

    constructor (installed: bool)
      ensures this.installed == installed && notified == []
    {
      this.installed, notified := installed, [];
    }

    /** `lox_invoke_recovery`. */
    method Invoke(event: Option<Event>, action: Action)
      modifies this
      ensures installed == old(installed)
      ensures notified == old(notified) + if installed then [(event, action)] else []
    {
      if installed {
        notified := notified + [(event, action)];
      }
    }
  }

  /** The globals of the library. */
  class Globals {
    const streaks: StreakTable
    const blocks: BlockStateTable
    const recovery: Recovery
    ghost var world: World

    /** `Emit`, for proofs that must not look into it. */
    ghost const step: (World, Event) -> World

    ghost predicate Valid() {
      streaks.Valid() && blocks.Valid() && IsEmit(step)
    }

    /** `world` is what the tables and the log hold. */
    ghost predicate Shows(log: EvidenceLog)
      reads this, streaks.slots, blocks, blocks.slots, log, log.events, log.blockNames, log.reasons
    {
      Valid() && log.Valid() && world == WorldWith(log)
    }

    constructor (log: EvidenceLog, installed: bool)
      requires log.Valid()
      ensures recovery.installed == installed && recovery.notified == []
      ensures Shows(log) && fresh(recovery) && fresh(streaks) && fresh(blocks) && fresh(streaks.slots) && fresh(blocks.slots)
    {
      streaks := new StreakTable();
      blocks := new BlockStateTable();
      step := Emit;
      recovery := new Recovery(installed);
      new;
      world := WorldWith(log);
    }

    ghost function WorldWith(log: EvidenceLog): (w: World)
      requires Valid() && log.Valid()
      reads streaks.slots, blocks, blocks.slots, log, log.events, log.blockNames, log.reasons
    {
      World(streaks.slots[..], blocks.State(), log.Contents())
    }

    /** The tables' part of the emitter: the watchdog, then the streak, bumped through the slot
        found at the start, then the health codes. */
    method Account(name: string, kind: Int32, slot: nat)
      requires Valid() && slot < SLOTS
      modifies streaks.slots, blocks, blocks.slots
      ensures var n := Bump(kind, old(streaks.slots[slot]).value);
              && streaks.slots[..] == old(streaks.slots[..])[slot := old(streaks.slots[slot]).(value := n)]
              && blocks.State() == BlocksAfter(old(blocks.State()), Key(Some(name)), kind, n)
    {
      hide Adapter.Change;
      blocks.WatchdogObserve(Some(name), kind);
      streaks.Bumped(slot, kind);
      if kind == ENTERED {
        blocks.HealthSetForBlock(Some(name), 1);
      } else if kind == OK {
        blocks.HealthSetForBlock(Some(name), 0);
      } else if kind == COMPLETED {
      } else if kind == TIMEOUT {
        blocks.HealthSetForBlock(Some(name), 2);
      } else if kind == WRITE_OUT_OF_BOUNDS || kind == ARENA_OVERFLOW || kind == MEMORY_FAULT ||
                kind == PANIC || kind == FAULT || kind == ERROR {
        blocks.HealthSetForBlock(Some(name), 3);
      } else if kind == UNSUPPORTED {
        blocks.HealthSetForBlock(Some(name), 4);
      }
      var streak := streaks.slots[slot].value;
      if streak >= 5 {
        blocks.HealthSetForBlock(Some(name), 5);
      } else if streak >= 3 {
        blocks.HealthSetForBlock(Some(name), 4);
      }
    }

    /** `lox_emit_event_ex` with a log; `persisted` is the answer of the persistence adapter. */
    method EmitEvent(log: EvidenceLog, ctx: GuardContext, e: Event, persisted: bool, track: bool)
      requires Shows(log) && IsCEvent(e)
      modifies this, streaks.slots, blocks, blocks.slots, log, log.events, log.blockNames, log.reasons, ctx
      ensures Shows(log) && world == Emit(old(world), e)
      ensures ctx.lastEvent == if track then Some(e) else old(ctx.lastEvent)
      ensures ctx.lastPersisted == if track then persisted else old(ctx.lastPersisted)
      ensures ctx.durationTicks == old(ctx.durationTicks)
    {
      hide Emit;
      if track {
        ctx.lastEvent, ctx.lastPersisted := Some(e), persisted;
      }
      EmitWorld(log, e);
    }

    /** A look at a block's streak; the lookup may change the streak table. */
    method LookAtStreak(log: EvidenceLog, name: string) returns (streak: UInt32)
      requires Shows(log)
      modifies this, streaks.slots
      ensures Shows(log)
      ensures var (t, i) := StreakLookup(old(world).streaks, Key(Some(name)));
              world == World(t, old(world).blocks, old(world).log) && streak == t[i].value
    {
      var slot := streaks.ForBlock(Some(name));
      streak := streaks.slots[slot].value;
      world := WorldWith(log);
    }

    /** An emission that goes on with a history es from the state start. */
    method EmitNext(log: EvidenceLog, ctx: GuardContext, e: Event, persisted: bool, track: bool,
                    ghost start: World, ghost es: seq<Event>)
      requires Shows(log) && IsCEvent(e) && world == Fold<World, Event>(step, start, es)
      modifies this, streaks.slots, blocks, blocks.slots, log, log.events, log.blockNames, log.reasons, ctx
      ensures Shows(log) && world == Fold<World, Event>(step, start, es + [e])
      ensures ctx.lastEvent == if track then Some(e) else old(ctx.lastEvent)
      ensures ctx.lastPersisted == if track then persisted else old(ctx.lastPersisted)
      ensures ctx.durationTicks == old(ctx.durationTicks)
    {
      FoldSnoc<World, Event>(step, start, es, e);
      assert step(world, e) == Emit(world, e);
      EmitEvent(log, ctx, e, persisted, track);
    }

    method EmitWorld(log: EvidenceLog, e: Event)
      requires Shows(log) && IsCEvent(e)
      modifies this, streaks.slots, blocks, blocks.slots, log, log.events, log.blockNames, log.reasons
      ensures Shows(log) && world == Emit(old(world), e)
    {
      ghost var w := world;
      EmitParts(log, e);
      EmitIs(w, e, streaks.slots[..], blocks.State(), log.Contents());
      world := WorldWith(log);
    }

    lemma EmitIs(w: World, e: Event, s: seq<Slot<UInt32>>, b: Adapter, l: seq<Event>)
      requires s == Sight(w.streaks, SightingOf(e)) && l == Push(w.log, e)
      requires b == BlocksAfter(w.blocks, Key(Some(e.block)), e.kind, NewStreak(w.streaks, Key(Some(e.block)), e.kind))
      ensures World(s, b, l) == Emit(w, e)
    {
    }

    method EmitParts(log: EvidenceLog, e: Event)
      requires Valid() && log.Valid() && IsCEvent(e)
      modifies streaks.slots, blocks, blocks.slots, log, log.events, log.blockNames, log.reasons
      ensures var key := Key(Some(e.block));
              && streaks.slots[..] == Sight(old(streaks.slots[..]), Sighting(key, e.kind))
              && blocks.State() ==
                 BlocksAfter(old(blocks.State()), key, e.kind, NewStreak(old(streaks.slots[..]), key, e.kind))
      ensures log.Valid() && log.Contents() == Push(old(log.Contents()), e)
    {
      ghost var before := streaks.slots[..];
      var slot := StoreEvent(log, e);
      ghost var found := streaks.slots[..];
      assert (found, slot) == StreakLookup(before, Key(Some(e.block)));
      Account(e.block, e.kind, slot);
    }

    method StoreEvent(log: EvidenceLog, e: Event) returns (slot: nat)
      requires Valid() && log.Valid() && IsCEvent(e)
      modifies streaks.slots, log, log.events, log.blockNames, log.reasons
      ensures (streaks.slots[..], slot) == StreakLookup(old(streaks.slots[..]), Key(Some(e.block)))
      ensures log.Valid() && log.Contents() == Push(old(log.Contents()), e)
    {
      slot := streaks.ForBlock(Some(e.block));
      log.ContentsAreRows();
      log.Store(FromCaller(e));
    }
  }
}
