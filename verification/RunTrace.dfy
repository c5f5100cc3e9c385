/** The evidence of one run: the shape of its trace, the report that tells it, the log that
    keeps it and the time it took. */
module RunTrace {
  import opened Text
  import opened EventLine
  import opened Blackbox
  import opened SlotTable
  import opened FailureStreaks
  import opened GuardWorld
  import opened GuardRun
  import opened Quarantine

  /** Everything a run emits. */
  function Trace(cfg: Config, o: Outside, refusal: Option<UInt32>): (t: seq<Event>)
    ensures |t| >= 3
  {
    [Entered(BlockName(cfg))] + Trail(cfg, o, refusal)
  }

  predicate TimedOut(cfg: Config, o: Outside) {
    cfg.timeoutMs > 0 && Duration(o) > cfg.timeoutMs
  }

  lemma AllBoundsAre(name: string, bs: seq<BoundsCall>)
    ensures AllBounds(name, bs) ==
            seq(|bs|, i requires 0 <= i < |bs| => Event(1, name, "BOUNDS", bs[i].index, bs[i].limit, 0))
  {
  }

  /** The whole trace of every run, event by event: ENTERED, the function's bounds events, at most
      one verdict and COMPLETED; a refused run has the one QUARANTINED error in between. */
  lemma TraceShape(cfg: Config, o: Outside, refusal: Option<UInt32>)
    ensures var name := if cfg.name.None? || cfg.name.value == "" then "guard_block" else cfg.name.value;
            var ticks := ((o.end as int) - o.start) % 0x1_0000_0000;
            var reports := seq(|o.bounds|, i requires 0 <= i < |o.bounds| =>
                                             Event(1, name, "BOUNDS", o.bounds[i].index, o.bounds[i].limit, 0));
            var verdict :=
              if cfg.timeoutMs > 0 && ticks > cfg.timeoutMs then [Event(3, name, "TIMEOUT", ticks, cfg.timeoutMs, 0)]
              else if o.rc == 0 then [Event(7, name, "OK", 0, 0, 0)]
              else if o.bounds == [] then [Event(9, name, "ERROR", 0, 0, 0)]
              else [];
            Trace(cfg, o, refusal) ==
            [Event(6, name, "ENTERED", 0, 0, 0)]
            + (if refusal.Some? then [Event(9, name, "QUARANTINED", refusal.value, cfg.maxFailures, 0)]
               else reports + verdict)
            + [Event(8, name, "COMPLETED", ticks, 0, 0)]
  {
    AllBoundsAre(BlockName(cfg), o.bounds);
  }

  /** Trace and report agree. The result is OK exactly when OK comes right before COMPLETED,
      which is when the function was called, returned 0 and was in time; otherwise the input is
      dropped, the result tells what went wrong and the reason is that of the event right before
      COMPLETED. Whether the run was persisted is the answer for that event, too. */
  lemma ReportTellsTheTrace(cfg: Config, o: Outside, refusal: Option<UInt32>)
    ensures var t := Trace(cfg, o, refusal);
            var last := t[|t| - 2];
            var r := ReportOf(cfg, o, refusal);
            && (r.result == ResultOk <==> last.kind == 7)
            && (r.result == ResultOk <==> refusal.None? && o.rc == 0 && !TimedOut(cfg, o))
            && (r.result == ResultTimeout <==> refusal.None? && TimedOut(cfg, o))
            && (r.result == ResultBounds <==> refusal.None? && o.rc != 0 && !TimedOut(cfg, o) && o.bounds != [])
            && (r.result == ResultError <==> refusal.Some? || (o.rc != 0 && !TimedOut(cfg, o) && o.bounds == []))
            && (r.result != ResultOk ==>
                  r.action == DropInput && r.reason == last.reason && r.lastFailedBlock == Some(last.block))
            && (r.result == ResultOk ==> r.action == NoAction && r.reason == "NONE" && r.lastFailedBlock == None)
            && r.lastBlock == Some(last.block)
            && r.duration == t[|t| - 1].index
            && (r.persisted <==> if r.result == ResultBounds then o.bounds[|o.bounds| - 1].persisted else o.persisted)
  {
    hide AllBounds;
    CalledIncidents(cfg, o);
    IncidentKinds(cfg, o, refusal);
    var t, es := Trace(cfg, o, refusal), Incidents(cfg, o, refusal);
    assert t[|t| - 2] == es[|es| - 1];
  }

  /** What the recovery callback hears of a run: nothing if the report is OK or no callback is
      installed, otherwise the event right before COMPLETED, once. */
  lemma NoticeTellsTheTrace(cfg: Config, o: Outside, refusal: Option<UInt32>, installed: bool)
    ensures var t := Trace(cfg, o, refusal);
            Notice(LastIncident(cfg, o, refusal), installed) ==
            if installed && ReportOf(cfg, o, refusal).result != ResultOk then [(Some(t[|t| - 2]), DropInput)] else []
  {
    hide AllBounds;
    IncidentKinds(cfg, o, refusal);
    var t, es := Trace(cfg, o, refusal), Incidents(cfg, o, refusal);
    assert t[|t| - 2] == es[|es| - 1];
  }

  /** The look at the streak is no event: a run leaves the log as its whole trace would. */
  lemma LogAfterRun(w: World, cfg: Config, o: Outside)
    requires |w.log| <= CAPACITY
    ensures After(w, cfg, o).log == Last(w.log + StoredAll(Trace(cfg, o, Refusal(w, cfg))), CAPACITY)
  {
    var trail := Trail(cfg, o, Refusal(w, cfg));
    var entered := Entered(BlockName(cfg));
    PlayPushes(Looked(w, cfg).0, trail);
    assert Looked(w, cfg).0.log == Push(w.log, entered);
    assert ([entered] + trail)[1..] == trail;
    PushAllIsLast(w.log, [entered] + trail);
  }

  /** For a name the streak table can store the look changes nothing at all. */
  lemma RunPlaysItsTrace(w: World, cfg: Config, o: Outside)
    requires |BlockName(cfg)| <= TEXT_MAX
    ensures After(w, cfg, o) == Play(w, Trace(cfg, o, Refusal(w, cfg)))
  {
    var name := BlockName(cfg);
    var entered := Entered(name);
    var trail := Trail(cfg, o, Refusal(w, cfg));
    EmitStreaks(w, entered);
    LookupShort(w.streaks, name);
    FoundAgain(w.streaks, name, ENTERED);
    assert Looked(w, cfg).0 == Emit(w, entered);
    PlayConcat(w, [entered], trail);
    PlayOne(w, entered);
  }

  lemma PlayOne(w: World, e: Event)
    ensures Play(w, [e]) == Emit(w, e)
  {
    PlaySnoc(w, [], e);
    assert [] + [e] == [e];
  }

  lemma FoundAgain(slots: seq<Slot<UInt32>>, name: string, kind: Int32)
    requires |slots| == SLOTS && |name| <= TEXT_MAX
    ensures StreakLookup(Sight(slots, Sighting(name, kind)), name).0 == Sight(slots, Sighting(name, kind))
  {
    LookupShort(slots, name);
    var (t, i) := StreakLookup(slots, name);
    var u := Sight(slots, Sighting(name, kind));
    forall j | 0 <= j < i ensures !Matches(u[j], name) {
      assert u[j] == t[j];
    }
    FirstMatchIs(u, name, i);
  }

  /** Over a clock that wraps, the reported duration is the elapsed time exactly when less than
      2^32 ticks have passed. */
  lemma DurationIsElapsed(begin: nat, end: nat, o: Outside)
    requires begin <= end
    requires o.start == begin % (UINT32_MAX + 1) && o.end == end % (UINT32_MAX + 1)
    ensures Duration(o) == end - begin <==> end - begin <= UINT32_MAX
  {
  }
}
