/** From the run to the importing host: exactly when what blocks leave in the evidence log can be
    exported and read back whole. */
module EvidenceChain {
  import opened Text
  import opened PercentCodec
  import opened Decimal
  import opened EventLine
  import opened Blackbox
  import opened LogExport
  import opened LogImport
  import opened LogRoundTrip
  import opened GuardWorld
  import opened GuardRun
  import opened RunTrace
  import opened Interleaving

  /** What is stored of a name, its first 63 bytes, encodes in one value buffer. */
  predicate Fits(name: string) {
    |Encode(Cut(name, TEXT_MAX))| <= TEXT_MAX
  }

  /** The runtime's reasons are short words in capitals. */
  predicate RunReason(reason: string) {
    1 <= |reason| <= 11 && forall i :: 0 <= i < |reason| ==> 'A' <= reason[i] <= 'Z'
  }

  /** The events of the runtime: a longer reason never comes with numbers of more than 32 bits. */
  predicate RunEvent(e: Event) {
    && e.block != "" && NulFree(e.block) && RunReason(e.reason)
    && 0 <= e.kind < 10 && e.aux == 0
    && (|e.reason| <= 6 || (e.index <= UINT32_MAX && e.limit <= UINT32_MAX))
  }

  lemma RunReasonIsPlain(reason: string)
    requires RunReason(reason)
    ensures Encode(reason) == reason && NulFree(reason)
  {
    forall i | 0 <= i < |reason| ensures !Reserved(reason[i]) && reason[i] != '\0' {
    }
    EncodePlain(reason);
  }

  lemma RunNumbers(e: Event)
    requires RunEvent(e)
    ensures |DecInt(e.kind)| == 1 && |Dec(e.aux)| == 1
    ensures |e.reason| + |Dec(e.index)| + |Dec(e.limit)| <= 55
  {
    assert Pow10(1) == 10;
    DecLength(e.kind, 1);
    DecLength(e.aux, 1);
    WordLengths();
    DecLength(e.index, 20);
    DecLength(e.limit, 20);
    DecLength(e.index, 10);
    DecLength(e.limit, 10);
  }

  /** An event of the log that is stored as it is, and exportable exactly if its block's name
      encodes in one value buffer. */
  predicate Carriable(e: Event) {
    && IsCEvent(e) && Stored(e) == e
    && (Exportable(e, LINE_MAX) <==> |Encode(e.block)| <= TEXT_MAX)
  }

  lemma StoredIsCarriable(e: Event)
    requires RunEvent(e)
    ensures Carriable(Stored(e)) && Stored(e).block == Cut(e.block, TEXT_MAX)
  {
    var x := Stored(e);
    RunReasonIsPlain(e.reason);
    assert x.reason == e.reason;
    if |Encode(x.block)| <= TEXT_MAX {
      StoredLine(e);
    }
  }

  lemma StoredLine(e: Event)
    requires RunEvent(e) && Fits(e.block)
    ensures |EventText(Some(Stored(e)))| <= LINE_MAX
  {
    var x := Stored(e);
    RunReasonIsPlain(e.reason);
    KeptWhole(x.block, TEXT_MAX);
    KeptWhole(x.reason, TEXT_MAX);
    assert x.block[..|x.block|] == x.block && x.reason[..|x.reason|] == x.reason;
    RunNumbers(e);
    LineLength(FieldsOf(x));
  }

  // ---------------------------------------------------------------------------------
  // Runs
  // ---------------------------------------------------------------------------------

  lemma VerdictIsRunEvent(cfg: Config, o: Outside)
    requires NulFree(BlockName(cfg)) && Verdict(cfg, o) != []
    ensures RunEvent(Verdict(cfg, o)[0])
  {
  }

  lemma EndsAreRunEvents(name: string, duration: UInt32)
    requires name != "" && NulFree(name)
    ensures RunEvent(Entered(name)) && RunEvent(Completed(name, duration))
  {
  }

  lemma IncidentIsRunEvent(cfg: Config, o: Outside, refusal: Option<UInt32>, i: nat)
    requires NulFree(BlockName(cfg)) && i < |Incidents(cfg, o, refusal)|
    ensures RunEvent(Incidents(cfg, o, refusal)[i]) && Incidents(cfg, o, refusal)[i].block == BlockName(cfg)
  {
    CalledIncidents(cfg, o);
    if refusal.None? && i >= |o.bounds| {
      VerdictIsRunEvent(cfg, o);
    }
  }

  lemma TraceIsRunEvents(cfg: Config, o: Outside, refusal: Option<UInt32>, i: nat)
    requires NulFree(BlockName(cfg)) && i < |Trace(cfg, o, refusal)|
    ensures RunEvent(Trace(cfg, o, refusal)[i]) && Trace(cfg, o, refusal)[i].block == BlockName(cfg)
  {
    EndsAreRunEvents(BlockName(cfg), Duration(o));
    if 0 < i < |Trace(cfg, o, refusal)| - 1 {
      IncidentIsRunEvent(cfg, o, refusal, i - 1);
    }
  }

  predicate AllCarriable(log: seq<Event>) {
    forall i :: 0 <= i < |log| ==> Carriable(log[i])
  }

  /** Every block in the log fits. */
  predicate AllFit(log: seq<Event>) {
    forall i :: 0 <= i < |log| ==> |Encode(log[i].block)| <= TEXT_MAX
  }

  lemma StoredTrace(cfg: Config, o: Outside, refusal: Option<UInt32>)
    requires NulFree(BlockName(cfg))
    ensures var t := StoredAll(Trace(cfg, o, refusal));
            forall i :: 0 <= i < |t| ==> Carriable(t[i]) && t[i].block == Cut(BlockName(cfg), TEXT_MAX)
  {
    hide Trace, Carriable, Stored, RunEvent;
    var t := Trace(cfg, o, refusal);
    forall i | 0 <= i < |t|
      ensures Carriable(StoredAll(t)[i]) && StoredAll(t)[i].block == Cut(BlockName(cfg), TEXT_MAX)
    {
      StoredAllAt(t, i);
      TraceIsRunEvents(cfg, o, refusal, i);
      StoredIsCarriable(t[i]);
    }
  }

  /** A run adds its block, as stored, to the log: the newest event is always its own. */
  lemma RunAdds(w: World, cfg: Config, o: Outside)
    requires |w.log| <= CAPACITY && AllCarriable(w.log) && NulFree(BlockName(cfg))
    ensures var log := After(w, cfg, o).log;
            && 0 < |log| <= CAPACITY && AllCarriable(log)
            && log[|log| - 1].block == Cut(BlockName(cfg), TEXT_MAX)
            && (AllFit(w.log) && Fits(BlockName(cfg)) ==> AllFit(log))
  {
    hide After, Trace, Carriable, Encode;
    var t := StoredAll(Trace(cfg, o, Refusal(w, cfg)));
    StoredTrace(cfg, o, Refusal(w, cfg));
    LogAfterRun(w, cfg, o);
    assert |t| > 0;
    LastOfBoth(w.log, t, BlockName(cfg));
  }

  lemma LastOfBoth(a: seq<Event>, t: seq<Event>, name: string)
    requires AllCarriable(a) && t != []
    requires forall i :: 0 <= i < |t| ==> Carriable(t[i]) && t[i].block == Cut(name, TEXT_MAX)
    ensures var log := Last(a + t, CAPACITY);
            && 0 < |log| && AllCarriable(log) && log[|log| - 1].block == Cut(name, TEXT_MAX)
            && (AllFit(a) && Fits(name) ==> AllFit(log))
  {
    hide Carriable, Encode;
  }

  predicate CNames(rs: seq<(Config, Outside)>) {
    forall i :: 0 <= i < |rs| ==> NulFree(BlockName(rs[i].0))
  }

  predicate AllNamesFit(rs: seq<(Config, Outside)>) {
    forall i :: 0 <= i < |rs| ==> Fits(BlockName(rs[i].0))
  }

  lemma {:induction false} RunsAdd(w: World, rs: seq<(Config, Outside)>)
    requires w.log == [] && CNames(rs)
    ensures var log := Runs(w, rs).log;
            && |log| <= CAPACITY && AllCarriable(log)
            && (rs != [] ==> 0 < |log| && log[|log| - 1].block == Cut(BlockName(rs[|rs| - 1].0), TEXT_MAX))
            && (AllNamesFit(rs) ==> AllFit(log))
  {
    hide After, Carriable, Fits, Encode, AllFit;
    if rs != [] {
      RunsAdd(w, rs[..|rs| - 1]);
      RunAdds(Runs(w, rs[..|rs| - 1]), rs[|rs| - 1].0, rs[|rs| - 1].1);
    } else {
      assert AllFit([]) by {
        NothingUnfit();
      }
    }
  }

  lemma NothingUnfit()
    ensures AllFit([])
  {
  }

  /** The evidence arrives: the exported events are read back as they were. */
  predicate Arrives(chosen: seq<Event>, header: bool) {
    PushAll([], Records(ExportText(chosen, header))) == chosen
  }

  lemma CarriableArrive(log: seq<Event>, maxEvents: nat, header: bool)
    requires |log| <= CAPACITY && AllCarriable(log)
    ensures Arrives(Last(log, maxEvents), header) <==> AllFit(Last(log, maxEvents))
  {
    hide Exportable, Encode, Records, ExportText, PushAll, Stored;
    ImportAfterExportIsIdentity(log, maxEvents, header);
    var chosen := Last(log, maxEvents);
    assert forall i :: 0 <= i < |chosen| ==> Carriable(chosen[i]);
  }

  /** After any runs of any blocks, from an empty log: exporting any number of the newest events
      and importing the text gives back exactly those events if and only if each of their blocks'
      names, cut to what is stored of it, encodes in 63 bytes. So it does if that holds of all
      names that were run, and does not if it fails for the last. */
  lemma EvidenceArrives(w: World, rs: seq<(Config, Outside)>, maxEvents: nat, header: bool)
    requires w.log == [] && CNames(rs)
    ensures var chosen := Last(Runs(w, rs).log, maxEvents);
            && (Arrives(chosen, header) <==> AllFit(chosen))
            && (AllNamesFit(rs) ==> Arrives(chosen, header))
            && (rs != [] && maxEvents > 0 && !Fits(BlockName(rs[|rs| - 1].0)) ==> !Arrives(chosen, header))
  {
    hide Runs, Arrives, Carriable, Encode;
    RunsAdd(w, rs);
    var log := Runs(w, rs).log;
    CarriableArrive(log, maxEvents, header);
    if rs != [] && maxEvents > 0 {
      var chosen := Last(log, maxEvents);
      assert chosen[|chosen| - 1] == log[|log| - 1];
    }
  }

  /** For one block the evidence arrives if and only if its name passes. */
  lemma EvidenceOfOneBlock(w: World, rs: seq<(Config, Outside)>, name: string, maxEvents: nat, header: bool)
    requires w.log == [] && rs != [] && maxEvents > 0 && NulFree(name)
    requires forall i :: 0 <= i < |rs| ==> BlockName(rs[i].0) == name
    ensures Arrives(Last(Runs(w, rs).log, maxEvents), header) <==> Fits(name)
  {
    hide Runs, Arrives, Fits;
    EvidenceArrives(w, rs, maxEvents, header);
  }
}
