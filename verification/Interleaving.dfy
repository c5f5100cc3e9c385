/** Runs of different blocks, one after the other: what the streak table keeps of them, and so
    when a block is refused at all. */
module Interleaving {
  import opened Text
  import opened EventLine
  import opened SlotTable
  import opened FailureStreaks
  import opened GuardWorld
  import opened GuardRun
  import opened Quarantine

  /** Runs of any blocks, one after the other. */
  function Runs(w: World, rs: seq<(Config, Outside)>): World {
    if rs == [] then w else After(Runs(w, rs[..|rs| - 1]), rs[|rs| - 1].0, rs[|rs| - 1].1)
  }

  /** At most slot 0 is in use: what every run finds and leaves. */
  predicate Sole(slots: seq<Slot<UInt32>>) {
    |slots| == SLOTS && forall i :: 1 <= i < SLOTS ==> !slots[i].inUse
  }

  lemma SightSole(slots: seq<Slot<UInt32>>, s: Sighting)
    requires Sole(slots)
    ensures Sole(StreakLookup(slots, s.key).0) && Sole(Sight(slots, s))
    ensures Sight(slots, s)[0].name == Cut(s.key, TEXT_MAX)
    ensures |s.key| > TEXT_MAX ==> Sight(slots, s)[0].value == Bump(s.kind, 0)
  {
    FirstMatchIs(slots, s.key, if Matches(slots[0], s.key) then 0 else SLOTS);
  }

  lemma {:induction false} SightAllSole(slots: seq<Slot<UInt32>>, h: seq<Sighting>)
    requires Sole(slots)
    ensures Sole(SightAll(slots, h))
  {
    if h != [] {
      SightAllSole(slots, h[..|h| - 1]);
      SightSole(SightAll(slots, h[..|h| - 1]), h[|h| - 1]);
    }
  }

  /** A run leaves its own block in slot 0, without a streak if its name was cut, and no other
      slot in use. */
  lemma AfterSole(w: World, cfg: Config, o: Outside)
    requires Sole(w.streaks)
    ensures Sole(After(w, cfg, o).streaks)
    ensures After(w, cfg, o).streaks[0].name == Cut(BlockName(cfg), TEXT_MAX)
    ensures |BlockName(cfg)| > TEXT_MAX ==> After(w, cfg, o).streaks[0].value == 0
  {
    var name, refusal := BlockName(cfg), Refusal(w, cfg);
    EmitStreaks(w, Entered(name));
    SightSole(w.streaks, SightingOf(Entered(name)));
    SightSole(Emit(w, Entered(name)).streaks, SightingOf(Entered(name)));
    PlayedStreaks(Looked(w, cfg).0, Trail(cfg, o, refusal));
    SightingsSnoc(Incidents(cfg, o, refusal), Completed(name, Duration(o)));
    EndsSole(Looked(w, cfg).0.streaks, Sightings(Incidents(cfg, o, refusal)), Sighting(name, COMPLETED));
  }

  lemma EndsSole(slots: seq<Slot<UInt32>>, h: seq<Sighting>, s: Sighting)
    requires Sole(slots) && s.kind == COMPLETED
    ensures Sole(SightAll(slots, h + [s]))
    ensures SightAll(slots, h + [s])[0].name == Cut(s.key, TEXT_MAX)
    ensures |s.key| > TEXT_MAX ==> SightAll(slots, h + [s])[0].value == 0
  {
    SightAllSole(slots, h);
    SightAllSnoc(slots, h, s);
    SightSole(SightAll(slots, h), s);
  }

  lemma SoleOther(slots: seq<Slot<UInt32>>, name: string)
    requires Sole(slots) && (slots[0].inUse ==> slots[0].name != name || slots[0].value == 0)
    ensures StreakIn(slots, name) == 0
  {
    if !Matches(slots[0], name) {
      FirstMatchIs(slots, name, SLOTS);
    }
  }

  /** Any run of another block lifts a quarantine, however long the streak was. */
  lemma AnotherBlockLiftsQuarantine(w: World, other: Config, o: Outside, cfg: Config)
    requires Sole(w.streaks) && BlockName(other) != BlockName(cfg)
    ensures Refusal(After(w, other, o), cfg).None?
  {
    AfterSole(w, other, o);
    RefusedExactly(After(w, other, o), cfg);
    if |BlockName(cfg)| <= TEXT_MAX {
      SoleOther(After(w, other, o).streaks, BlockName(cfg));
    }
  }

  lemma {:induction false} RunsStaySole(w: World, rs: seq<(Config, Outside)>)
    requires Sole(w.streaks)
    ensures Sole(Runs(w, rs).streaks)
  {
    if rs != [] {
      RunsStaySole(w, rs[..|rs| - 1]);
      AfterSole(Runs(w, rs[..|rs| - 1]), rs[|rs| - 1].0, rs[|rs| - 1].1);
    }
  }

  /** Quarantine is meant for each block by itself; over all runs from a fresh start a block is
      only ever refused right after a run of its own. */
  lemma RefusedOnlyInARow(w: World, rs: seq<(Config, Outside)>, cfg: Config)
    requires AllFree(w.streaks)
    ensures Refusal(Runs(w, rs), cfg).Some? ==> rs != [] && BlockName(rs[|rs| - 1].0) == BlockName(cfg)
  {
    if rs == [] {
      SoleOther(w.streaks, BlockName(cfg));
      RefusedExactly(w, cfg);
    } else {
      var before := Runs(w, rs[..|rs| - 1]);
      var (other, o) := rs[|rs| - 1];
      RunsStaySole(w, rs[..|rs| - 1]);
      if BlockName(other) != BlockName(cfg) {
        AnotherBlockLiftsQuarantine(before, other, o, cfg);
      }
    }
  }
}
