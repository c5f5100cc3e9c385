/** One guarded call, `loxguard_run`, in the core-only build: the events it emits, the report it
    returns and the state it leaves. The guarded function is any sequence of bounds reports
    with a return code; the clock and the persistence adapter are oracles. */
module GuardRun {
  import opened Text
  import opened EventLine
  import opened Blackbox
  import opened SlotTable
  import opened FailureStreaks
  import opened BlockStates
  import opened GuardWorld

  /** `loxguard_block_cfg_t` without the memory that is only handed through. */
  datatype Config = Config(name: Option<string>, timeoutMs: UInt32, maxFailures: UInt32)

  /** One `lox_guard_emit_bounds` by the guarded function, and whether it was persisted. */
  datatype BoundsCall = BoundsCall(index: Word, limit: Word, persisted: bool)

  /** What the outside does in one run: the two clock readings, the guarded function's bounds
      reports and return code, and whether the runtime's own incident was persisted. */
  datatype Outside = Outside(start: UInt32, end: UInt32, bounds: seq<BoundsCall>, rc: int, persisted: bool)

  datatype Result = ResultOk | ResultError | ResultTimeout | ResultBounds | ResultArena | ResultMemoryFault | ResultUnsupported

  datatype Report = Report(lastBlock: Option<string>, lastFailedBlock: Option<string>, reason: string,
                           result: Result, action: Action, duration: UInt32, persisted: bool)

  // ---------------------------------------------------------------------------------
  // What a run is
  // ---------------------------------------------------------------------------------

  function BlockName(cfg: Config): (name: string)
    ensures name != ""
  {
    if cfg.name.None? || cfg.name.value == "" then "guard_block" else cfg.name.value
  }

  /** Elapsed ticks of a 32-bit clock. */
  function Duration(o: Outside): UInt32 {
    ((o.end as int) - o.start) % (UINT32_MAX + 1)
  }

  function Entered(name: string): Event {
    Event(ENTERED, name, "ENTERED", 0, 0, 0)
  }

  function Completed(name: string, duration: UInt32): Event {
    Event(COMPLETED, name, "COMPLETED", duration, 0, 0)
  }

  function Quarantined(name: string, streak: UInt32, max: UInt32): Event {
    Event(ERROR, name, "QUARANTINED", streak, max, 0)
  }

  function Bounds(name: string, b: BoundsCall): Event {
    Event(WRITE_OUT_OF_BOUNDS, name, "BOUNDS", b.index, b.limit, 0)
  }

  function AllBounds(name: string, bs: seq<BoundsCall>): (es: seq<Event>)
    ensures |es| == |bs| && forall i :: 0 <= i < |bs| ==> es[i] == Bounds(name, bs[i])
  {
    if bs == [] then [] else AllBounds(name, bs[..|bs| - 1]) + [Bounds(name, bs[|bs| - 1])]
  }

  /** The verdict the runtime itself emits: a timeout whatever was returned, else OK for a
      return of 0, else an error unless the function has already reported something. */
  function Verdict(cfg: Config, o: Outside): seq<Event> {
    var name := BlockName(cfg);
    if cfg.timeoutMs > 0 && Duration(o) > cfg.timeoutMs then [Event(TIMEOUT, name, "TIMEOUT", Duration(o), cfg.timeoutMs, 0)]
    else if o.rc == 0 then [Event(OK, name, "OK", 0, 0, 0)]
    else if o.bounds == [] then [Event(ERROR, name, "ERROR", 0, 0, 0)]
    else []
  }

  /** Everything a run emits between ENTERED and COMPLETED. */
  function Incidents(cfg: Config, o: Outside, refusal: Option<UInt32>): (es: seq<Event>)
    ensures |es| >= 1
  {
    if refusal.Some? then [Quarantined(BlockName(cfg), refusal.value, cfg.maxFailures)]
    else AllBounds(BlockName(cfg), o.bounds) + Verdict(cfg, o)
  }

  /** The streak a run looks at after it has emitted ENTERED, with the table as that second
      lookup leaves it. */
  function Looked(w: World, cfg: Config): (World, UInt32) {
    var entered := Emit(w, Entered(BlockName(cfg)));
    var (t, i) := StreakLookup(entered.streaks, BlockName(cfg));
    (World(t, entered.blocks, entered.log), t[i].value)
  }

  /** The streak for which a run is refused, if it is. */
  function Refusal(w: World, cfg: Config): Option<UInt32> {
    var streak := Looked(w, cfg).1;
    if cfg.maxFailures > 0 && streak >= cfg.maxFailures then Some(streak) else None
  }

  /** Everything a run emits after ENTERED. */
  function Trail(cfg: Config, o: Outside, refusal: Option<UInt32>): seq<Event> {
    Incidents(cfg, o, refusal) + [Completed(BlockName(cfg), Duration(o))]
  }

  /** The last of the incidents, which is what the report is about. */
  function LastIncident(cfg: Config, o: Outside, refusal: Option<UInt32>): Event {
    var es := Incidents(cfg, o, refusal);
    es[|es| - 1]
  }

  /** The state after a run. */
  function After(w: World, cfg: Config, o: Outside): World {
    Play(Looked(w, cfg).0, Trail(cfg, o, Refusal(w, cfg)))
  }

  function ResultOf(kind: Int32): Result {
    if kind == OK then ResultOk
    else if kind == TIMEOUT then ResultTimeout
    else if kind == WRITE_OUT_OF_BOUNDS then ResultBounds
    else if kind == ARENA_OVERFLOW then ResultArena
    else if kind == MEMORY_FAULT then ResultMemoryFault
    else if kind == UNSUPPORTED then ResultUnsupported
    else ResultError
  }

  /** Whether the last incident was persisted. */
  function LastPersisted(cfg: Config, o: Outside, refusal: Option<UInt32>): bool {
    if refusal.Some? || Verdict(cfg, o) != [] then o.persisted else o.bounds[|o.bounds| - 1].persisted
  }

  /** The report tells the last incident: OK exactly when that is an OK event, otherwise its
      kind and reason, with the input dropped. */
  function ReportOf(cfg: Config, o: Outside, refusal: Option<UInt32>): Report {
    var last := LastIncident(cfg, o, refusal);
    var name := BlockName(cfg);
    var persisted := LastPersisted(cfg, o, refusal);
    if last.kind == OK then Report(Some(name), None, "NONE", ResultOk, NoAction, Duration(o), persisted)
    else Report(Some(name), Some(name), last.reason, ResultOf(last.kind), DropInput, Duration(o), persisted)
  }

  /** `lox_policy_decide`. */
  function PolicyDecide(event: Option<Event>): Action {
    if event.Some? && IsFailure(event.value.kind) then DropInput else NoAction
  }

  // ---------------------------------------------------------------------------------
  // The run
  // ---------------------------------------------------------------------------------

  /** `lox_finalize_report`: after a return of 0 the report is OK; otherwise it has the reason and
      result of the tracked event, drops the input if that is a failure, and is what the recovery
      callback hears of. */
  method FinalizeReport(ctx: GuardContext, name: string, rc: int, g: Globals) returns (r: Report)
    modifies g.recovery
    ensures rc == 0 ==> r == Report(Some(name), None, "NONE", ResultOk, NoAction, ctx.durationTicks, ctx.lastPersisted)
    ensures g.recovery.installed == old(g.recovery.installed)
    ensures rc != 0 && ctx.lastEvent.None? ==>
              r == Report(Some(name), Some(name), "ERROR", ResultError, NoAction, ctx.durationTicks, ctx.lastPersisted)
    ensures rc != 0 && ctx.lastEvent.Some? ==>
              var kind := ctx.lastEvent.value.kind;
              && r.lastBlock == r.lastFailedBlock == Some(name) && r.reason == ctx.lastEvent.value.reason
              && r.result == (match kind
                              case 1 => ResultBounds
                              case 2 => ResultArena
                              case 3 => ResultTimeout
                              case 4 => ResultMemoryFault
                              case 5 => ResultUnsupported
                              case _ => ResultError)
              && r.action == (if kind in {1, 2, 3, 4, 5, 9, 10, 11} then DropInput else NoAction)
              && r.duration == ctx.durationTicks && r.persisted == ctx.lastPersisted
    ensures g.recovery.notified ==
            old(g.recovery.notified) + if rc != 0 && g.recovery.installed then [(ctx.lastEvent, r.action)] else []
  {
    r := Report(Some(name), None, "NONE", ResultOk, NoAction, ctx.durationTicks, ctx.lastPersisted);
    if rc != 0 {
      var reason := if ctx.lastEvent.None? then "ERROR" else ctx.lastEvent.value.reason;
      var action := PolicyDecide(ctx.lastEvent);
      var kind := if ctx.lastEvent.None? then NONE else ctx.lastEvent.value.kind;
      var result := ResultError;
      if kind == TIMEOUT {
        result := ResultTimeout;
      } else if kind == WRITE_OUT_OF_BOUNDS {
        result := ResultBounds;
      } else if kind == ARENA_OVERFLOW {
        result := ResultArena;
      } else if kind == MEMORY_FAULT {
        result := ResultMemoryFault;
      } else if kind == UNSUPPORTED {
        result := ResultUnsupported;
      }
      r := Report(Some(name), Some(name), reason, result, action, ctx.durationTicks, ctx.lastPersisted);
      g.recovery.Invoke(ctx.lastEvent, action);
    }
  }

  lemma AllBoundsStep(name: string, bs: seq<BoundsCall>, i: nat)
    requires i < |bs|
    ensures AllBounds(name, bs[..i + 1]) == AllBounds(name, bs[..i]) + [Bounds(name, bs[i])]
  {
    assert bs[..i + 1][..i] == bs[..i];
  }

  lemma NothingFolded(step: (World, Event) -> World, start: World)
    ensures Fold<World, Event>(step, start, []) == start
  {
  }

  lemma NoBounds(step: (World, Event) -> World, start: World, name: string, bs: seq<BoundsCall>)
    ensures Fold<World, Event>(step, start, AllBounds(name, bs[..0])) == start
  {
    assert AllBounds(name, bs[..0]) == [];
  }

  /** The context after i bounds reports. */
  ghost predicate Tracked(ctx: GuardContext, name: string, bounds: seq<BoundsCall>, i: nat, event: Option<Event>, persisted: bool)
    requires i <= |bounds|
    reads ctx
  {
    && ctx.lastEvent == (if i == 0 then event else Some(Bounds(name, bounds[i - 1])))
    && ctx.lastPersisted == (if i == 0 then persisted else bounds[i - 1].persisted)
  }

  /** `lox_guard_emit_bounds`, for the i-th report of the guarded function. */
  method EmitBounds(g: Globals, log: EvidenceLog, ctx: GuardContext, name: string, bounds: seq<BoundsCall>, i: nat,
                    ghost start: World)
    requires g.Shows(log) && NulFree(name) && i < |bounds|
    requires g.world == Fold<World, Event>(g.step, start, AllBounds(name, bounds[..i]))
    modifies g, g.streaks.slots, g.blocks, g.blocks.slots, log, log.events, log.blockNames, log.reasons, ctx
    ensures g.Shows(log) && g.world == Fold<World, Event>(g.step, start, AllBounds(name, bounds[..i + 1]))
    ensures ctx.lastEvent == Some(Bounds(name, bounds[i])) && ctx.lastPersisted == bounds[i].persisted
    ensures ctx.durationTicks == old(ctx.durationTicks)
  {
    AllBoundsStep(name, bounds, i);
    g.EmitNext(log, ctx, Bounds(name, bounds[i]), bounds[i].persisted, true, start, AllBounds(name, bounds[..i]));
  }

  /** The guarded function at work: its bounds reports, one after the other. */
  method CallUser(g: Globals, log: EvidenceLog, ctx: GuardContext, name: string, bounds: seq<BoundsCall>, ghost start: World)
    requires g.Shows(log) && NulFree(name) && g.world == start
    modifies g, g.streaks.slots, g.blocks, g.blocks.slots, log, log.events, log.blockNames, log.reasons, ctx
    ensures g.Shows(log) && g.world == Fold<World, Event>(g.step, start, AllBounds(name, bounds))
    ensures Tracked(ctx, name, bounds, |bounds|, old(ctx.lastEvent), old(ctx.lastPersisted))
    ensures ctx.durationTicks == old(ctx.durationTicks)
  {
    hide AllBounds, Fold;
    var i := 0;
    ghost var event, persisted := ctx.lastEvent, ctx.lastPersisted;
    NoBounds(g.step, start, name, bounds);
    while i < |bounds|
      invariant i <= |bounds| && Tracked(ctx, name, bounds, i, event, persisted)
      invariant g.Shows(log) && g.world == Fold<World, Event>(g.step, start, AllBounds(name, bounds[..i]))
      invariant ctx.durationTicks == old(ctx.durationTicks)
    {
      EmitBounds(g, log, ctx, name, bounds, i, start);
      i := i + 1;
    }
    assert bounds[..i] == bounds;
  }

  /** The start of a run: ENTERED, and the look at the streak. */
  method Enter(g: Globals, log: EvidenceLog, ctx: GuardContext, cfg: Config) returns (streak: UInt32, ghost start: World)
    requires g.Shows(log) && NulFree(BlockName(cfg))
    modifies g, g.streaks.slots, g.blocks, g.blocks.slots, log, log.events, log.blockNames, log.reasons, ctx
    ensures g.Shows(log) && g.world == start && (start, streak) == Looked(old(g.world), cfg)
    ensures ctx.lastEvent == old(ctx.lastEvent) && ctx.lastPersisted == old(ctx.lastPersisted)
  {
    hide Emit, StreakLookup;
    g.EmitEvent(log, ctx, Entered(BlockName(cfg)), false, false);
    streak := g.LookAtStreak(log, BlockName(cfg));
    start := g.world;
  }

  /** The end of a run. */
  method Complete(g: Globals, log: EvidenceLog, ctx: GuardContext, name: string, duration: UInt32,
                  ghost start: World, ghost es: seq<Event>)
    requires g.Shows(log) && NulFree(name) && g.world == Fold<World, Event>(g.step, start, es)
    modifies g, g.streaks.slots, g.blocks, g.blocks.slots, log, log.events, log.blockNames, log.reasons, ctx
    ensures g.Shows(log) && g.world == Fold<World, Event>(g.step, start, es + [Completed(name, duration)])
    ensures ctx.lastEvent == old(ctx.lastEvent) && ctx.lastPersisted == old(ctx.lastPersisted)
    ensures ctx.durationTicks == duration
  {
    g.EmitNext(log, ctx, Completed(name, duration), false, false, start, es);
    ctx.durationTicks := duration;
  }

  /** The context has tracked the last incident, and the return code tells whether it is OK. */
  ghost predicate Tells(ctx: GuardContext, cfg: Config, o: Outside, refusal: Option<UInt32>, rc: int)
    reads ctx
  {
    && ctx.lastEvent == Some(LastIncident(cfg, o, refusal))
    && (rc == 0 <==> LastIncident(cfg, o, refusal).kind == OK)
    && ctx.lastPersisted == LastPersisted(cfg, o, refusal)
    && ctx.durationTicks == Duration(o)
  }

  /** A quarantined block: the function is not called. */
  method Refuse(g: Globals, log: EvidenceLog, ctx: GuardContext, cfg: Config, o: Outside, streak: UInt32, ghost start: World)
    requires g.Shows(log) && NulFree(BlockName(cfg)) && g.world == start
    modifies g, g.streaks.slots, g.blocks, g.blocks.slots, log, log.events, log.blockNames, log.reasons, ctx
    ensures g.Shows(log)
    ensures g.world == Fold<World, Event>(g.step, start, Trail(cfg, o, Some(streak)))
    ensures Tells(ctx, cfg, o, Some(streak), -8)
  {
    hide Fold;
    var name := BlockName(cfg);
    var incident := Quarantined(name, streak, cfg.maxFailures);
    NothingFolded(g.step, start);
    g.EmitNext(log, ctx, incident, o.persisted, true, start, []);
    assert [] + [incident] == Incidents(cfg, o, Some(streak));
    Complete(g, log, ctx, name, Duration(o), start, Incidents(cfg, o, Some(streak)));
  }

  /** The decision on a function that has returned: a timeout whatever it returned, OK, or an
      error unless it has reported something itself. */
  method Judge(cfg: Config, rc: int, duration: UInt32, reported: bool, ghost o: Outside) returns (final: int, verdict: Option<Event>)
    requires rc == o.rc && duration == Duration(o) && reported == (o.bounds != [])
    ensures Verdict(cfg, o) == if verdict.Some? then [verdict.value] else []
    ensures NulFree(BlockName(cfg)) && verdict.Some? ==> IsCEvent(verdict.value)
    ensures final == 0 <==> verdict.Some? && verdict.value.kind == OK
    ensures verdict.None? ==> reported
  {
    var name := BlockName(cfg);
    final, verdict := rc, None;
    if cfg.timeoutMs > 0 && duration > cfg.timeoutMs {
      verdict := Some(Event(TIMEOUT, name, "TIMEOUT", duration, cfg.timeoutMs, 0));
      final := -7;
    } else if rc == 0 {
      verdict := Some(Event(OK, name, "OK", 0, 0, 0));
    } else if !reported {
      verdict := Some(Event(ERROR, name, "ERROR", 0, 0, 0));
    }
  }

  lemma CalledIncidents(cfg: Config, o: Outside)
    ensures var es := Incidents(cfg, o, None);
            && es == AllBounds(BlockName(cfg), o.bounds) + Verdict(cfg, o)
            && (Verdict(cfg, o) == [] ==> o.bounds != [] && es[|es| - 1] == Bounds(BlockName(cfg), o.bounds[|o.bounds| - 1]))
            && (Verdict(cfg, o) != [] ==> es[|es| - 1] == Verdict(cfg, o)[0])
  {
  }

  /** Emits the verdict, if there is one. */
  method GiveVerdict(g: Globals, log: EvidenceLog, ctx: GuardContext, cfg: Config, o: Outside, verdict: Option<Event>,
                     ghost start: World)
    requires g.Shows(log) && (verdict.Some? ==> IsCEvent(verdict.value))
    requires g.world == Fold<World, Event>(g.step, start, AllBounds(BlockName(cfg), o.bounds))
    requires Verdict(cfg, o) == if verdict.Some? then [verdict.value] else []
    requires Tracked(ctx, BlockName(cfg), o.bounds, |o.bounds|, None, false)
    modifies g, g.streaks.slots, g.blocks, g.blocks.slots, log, log.events, log.blockNames, log.reasons, ctx
    ensures g.Shows(log) && g.world == Fold<World, Event>(g.step, start, Incidents(cfg, o, None))
    ensures ctx.lastEvent == Some(LastIncident(cfg, o, None))
    ensures ctx.lastPersisted == LastPersisted(cfg, o, None)
  {
    CalledIncidents(cfg, o);
    ghost var es := AllBounds(BlockName(cfg), o.bounds);
    if verdict.Some? {
      g.EmitNext(log, ctx, verdict.value, o.persisted, true, start, es);
    } else {
      assert es + [] == es;
    }
  }

  /** A block that may run: the call, the verdict and the end. */
  method CallAndJudge(g: Globals, log: EvidenceLog, ctx: GuardContext, cfg: Config, o: Outside, ghost start: World)
    returns (rc: int)
    requires g.Shows(log) && NulFree(BlockName(cfg)) && g.world == start
    requires ctx.lastEvent == None && !ctx.lastPersisted
    modifies g, g.streaks.slots, g.blocks, g.blocks.slots, log, log.events, log.blockNames, log.reasons, ctx
    ensures g.Shows(log)
    ensures g.world == Fold<World, Event>(g.step, start, Trail(cfg, o, None))
    ensures Tells(ctx, cfg, o, None, rc)
  {
    var name := BlockName(cfg);
    CallUser(g, log, ctx, name, o.bounds, start);
    var verdict;
    rc, verdict := Judge(cfg, o.rc, Duration(o), ctx.lastEvent.Some?, o);
    CalledIncidents(cfg, o);
    GiveVerdict(g, log, ctx, cfg, o, verdict, start);
    Complete(g, log, ctx, name, Duration(o), start, Incidents(cfg, o, None));
  }

  /** A run up to its report. */
  method RunToEnd(g: Globals, cfg: Config, log: EvidenceLog, o: Outside, ctx: GuardContext)
    returns (rc: int, called: bool, ghost start: World, ghost refusal: Option<UInt32>)
    requires g.Shows(log) && NulFree(BlockName(cfg))
    requires ctx.lastEvent == None && !ctx.lastPersisted
    modifies g, g.streaks.slots, g.blocks, g.blocks.slots, log, log.events, log.blockNames, log.reasons, ctx
    ensures start == Looked(old(g.world), cfg).0 && refusal == Refusal(old(g.world), cfg)
    ensures g.Shows(log) && g.world == Fold<World, Event>(g.step, start, Trail(cfg, o, refusal))
    ensures Tells(ctx, cfg, o, refusal, rc) && called == refusal.None?
  {
    var streak;
    streak, start := Enter(g, log, ctx, cfg);
    if cfg.maxFailures > 0 && streak >= cfg.maxFailures {
      refusal := Some(streak);
      Refuse(g, log, ctx, cfg, o, streak, start);
      rc, called := -8, false;
    } else {
      refusal := None;
      rc := CallAndJudge(g, log, ctx, cfg, o, start);
      called := true;
    }
  }

  lemma IncidentKinds(cfg: Config, o: Outside, refusal: Option<UInt32>)
    ensures var last := LastIncident(cfg, o, refusal);
            && (last.kind == OK || IsFailure(last.kind))
            && (refusal.Some? ==> last == Quarantined(BlockName(cfg), refusal.value, cfg.maxFailures))
  {
    CalledIncidents(cfg, o);
  }

  /** What the recovery callback hears of a run with this last incident. */
  function Notice(last: Event, installed: bool): seq<(Option<Event>, Action)> {
    if last.kind != OK && installed then [(Some(last), DropInput)] else []
  }

  /** The report and the notice, from what the context has tracked. */
  method Conclude(ctx: GuardContext, cfg: Config, ghost o: Outside, ghost refusal: Option<UInt32>, rc: int, g: Globals)
    returns (report: Report)
    requires Tells(ctx, cfg, o, refusal, rc)
    modifies g.recovery
    ensures g.recovery.installed == old(g.recovery.installed)
    ensures report == ReportOf(cfg, o, refusal)
    ensures g.recovery.notified ==
            old(g.recovery.notified) + Notice(LastIncident(cfg, o, refusal), g.recovery.installed)
  {
    IncidentKinds(cfg, o, refusal);
    report := FinalizeReport(ctx, BlockName(cfg), rc, g);
  }

  method RunGuarded(g: Globals, cfg: Config, log: EvidenceLog, o: Outside)
    returns (report: Report, called: bool, ghost start: World, ghost refusal: Option<UInt32>)
    requires g.Shows(log) && NulFree(BlockName(cfg))
    modifies g, g.streaks.slots, g.blocks, g.blocks.slots, log, log.events, log.blockNames, log.reasons, g.recovery
    ensures start == Looked(old(g.world), cfg).0 && refusal == Refusal(old(g.world), cfg)
    ensures g.world == Fold<World, Event>(g.step, start, Trail(cfg, o, refusal)) && g.Shows(log)
    ensures report == ReportOf(cfg, o, refusal) && called == refusal.None?
    ensures g.recovery.notified ==
            old(g.recovery.notified) + Notice(LastIncident(cfg, o, refusal), g.recovery.installed)
  {
    hide Trail, Refusal, Looked, LastIncident, ReportOf, Notice, Fold, Globals.Shows;
    var ctx := new GuardContext();
    var rc;
    rc, called, start, refusal := RunToEnd(g, cfg, log, o, ctx);
    report := Conclude(ctx, cfg, o, refusal, rc, g);
  }

  lemma AfterIs(w: World, cfg: Config, o: Outside, step: (World, Event) -> World, start: World, refusal: Option<UInt32>)
    requires IsEmit(step) && start == Looked(w, cfg).0 && refusal == Refusal(w, cfg)
    ensures Fold<World, Event>(step, start, Trail(cfg, o, refusal)) == After(w, cfg, o)
  {
    FoldIsPlay(step, start, Trail(cfg, o, refusal));
  }

  /** `loxguard_run`. Without a configuration, a log or a function nothing happens but a report.
      Otherwise the run emits its trace, calls the function unless the block is quarantined,
      reports the last incident, and tells the recovery callback of every run that is not OK,
      exactly once. */
  method Run(g: Globals, cfg: Option<Config>, log: EvidenceLog?, haveFunction: bool, o: Outside)
    returns (report: Report, called: bool)
    requires log != null ==> g.Shows(log)
    requires cfg.Some? ==> NulFree(BlockName(cfg.value))
    modifies g, g.streaks.slots, g.blocks, g.blocks.slots, g.recovery
    modifies if log == null then {} else {log as object, log.events, log.blockNames, log.reasons}
    ensures cfg.None? || log == null || !haveFunction ==>
              report == Report(None, None, "NULL", ResultError, NoAction, 0, false) && !called && g.recovery.notified == old(g.recovery.notified) && g.world == old(g.world)
    ensures cfg.Some? && log != null && haveFunction ==>
              var refusal := Refusal(old(g.world), cfg.value);
              && g.Shows(log) && g.world == After(old(g.world), cfg.value, o)
              && report == ReportOf(cfg.value, o, refusal) && called == refusal.None?
              && g.recovery.notified == old(g.recovery.notified) +
                   Notice(LastIncident(cfg.value, o, refusal), g.recovery.installed)
  {
    if cfg.None? || log == null || !haveFunction {
      return Report(None, None, "NULL", ResultError, NoAction, 0, false), false;
    }
    ghost var w, start, refusal := g.world, g.world, None;
    report, called, start, refusal := RunGuarded(g, cfg.value, log, o);
    AfterIs(w, cfg.value, o, g.step, start, refusal);
  }
}
