/** Importing text into an evidence log, `lox_blackbox_import_csv_buffer`, and what comes back
    when the text was an export. */
module LogImport {
  import opened Text
  import opened EventLine
  import opened EventBuffers
  import opened Blackbox
  import opened LogExport

  predicate IsBreak(c: char) {
    c == '\n' || c == '\r'
  }

  predicate OneLine(s: string) {
    forall i :: 0 <= i < |s| ==> !IsBreak(s[i])
  }

  /** Where the first line of s ends. */
  function LineEnd(s: string): (e: nat)
    ensures e <= |s| && OneLine(s[..e]) && (e < |s| ==> IsBreak(s[e]))
  {
    if s == "" || IsBreak(s[0]) then 0
    else
      var e := LineEnd(s[1..]);
      assert s[..e + 1] == [s[0]] + s[1..][..e];
      1 + e
  }

  /** What one line adds: nothing when it is a header or refused. */
  function Record(line: string): seq<Event> {
    var l := Cut(line, LINE_MAX);
    if SchemaIsCompatible(l) || ParseLine(l).None? then [] else [ParseLine(l).value]
  }

  /** What f gives for the lines of a text, in order. Empty lines give nothing. */
  function Gather(csv: string, f: string -> seq<Event>): seq<Event>
    decreases |csv|
  {
    var e := LineEnd(csv);
    (if e == 0 then [] else f(csv[..e])) + if e == |csv| then [] else Gather(csv[e + 1..], f)
  }

  /** f is `Record`, for proofs that must not look into it. */
  ghost predicate IsRecord(f: string -> seq<Event>) {
    forall l {:trigger Record(l)} :: f(l) == Record(l)
  }

  /** The events of a text: a bad line is skipped and the next one read. */
  function Records(csv: string): seq<Event> {
    Gather(csv, Record)
  }

  lemma GatherAfterBreak(csv: string, f: string -> seq<Event>)
    requires csv != "" && IsBreak(csv[0])
    ensures Gather(csv, f) == Gather(csv[1..], f)
  {
  }

  lemma GatherFromBreak(text: string, p: nat, f: string -> seq<Event>)
    requires p < |text| && IsBreak(text[p])
    ensures Gather(text[p..], f) == Gather(text[p + 1..], f)
  {
    GatherAfterBreak(text[p..], f);
    assert text[p..][1..] == text[p + 1..];
  }

  lemma {:induction false} LineEndIs(line: string, rest: string)
    requires '\n' !in line && '\r' !in line && (rest == "" || IsBreak(rest[0]))
    ensures LineEnd(line + rest) == |line|
  {
    if line == "" {
      assert line + rest == rest;
    } else {
      assert (line + rest)[1..] == line[1..] + rest;
      LineEndIs(line[1..], rest);
    }
  }

  lemma RecordsToBreak(line: string, c: char, rest: string)
    requires '\n' !in line && '\r' !in line && IsBreak(c)
    ensures Records(line + [c] + rest) == (if line == "" then [] else Record(line)) + Records(rest)
  {
    hide Record, LineEnd;
    var text := line + [c] + rest;
    assert text == line + ([c] + rest);
    LineEndIs(line, [c] + rest);
    assert text[..|line|] == line && text[|line| + 1..] == rest;
  }

  /** How every text is read: a line ends at a line feed, a carriage return or both together, or
      at the end of the text; what it adds comes before what the rest adds; an empty line adds
      nothing. */
  lemma RecordsOfText(line: string, rest: string)
    requires '\n' !in line && '\r' !in line
    ensures Records(line + "\n" + rest) == (if line == "" then [] else Record(line)) + Records(rest)
    ensures Records(line + "\r" + rest) == (if line == "" then [] else Record(line)) + Records(rest)
    ensures Records(line + "\r\n" + rest) == (if line == "" then [] else Record(line)) + Records(rest)
    ensures Records(line) == if line == "" then [] else Record(line)
  {
    hide Record, LineEnd, Records;
    RecordsToBreak(line, '\n', rest);
    RecordsToBreak(line, '\r', rest);
    RecordsToBreak(line, '\r', "\n" + rest);
    RecordsToBreak("", '\n', rest);
    assert "" + "\n" + rest == "\n" + rest && line + "\r" + ("\n" + rest) == line + "\r\n" + rest;
    LastRecord(line);
  }

  lemma LastRecord(line: string)
    requires '\n' !in line && '\r' !in line
    ensures Records(line) == if line == "" then [] else Record(line)
  {
    hide Record, LineEnd;
    LineEndIs(line, "");
    assert line + "" == line && line[..|line|] == line;
  }

  /** One line from the text into the log. */
  method ImportLine(line: string, log: EvidenceLog, ghost f: string -> seq<Event>) returns (added: nat)
    requires NulFree(line) && log.Valid() && IsRecord(f)
    modifies log, log.events, log.blockNames, log.reasons
    ensures log.Valid()
    ensures log.Contents() == PushAll(old(log.Contents()), f(line))
    ensures added == |f(line)|
  {
    var copy := |line|;
    if copy >= 160 {
      copy := 160 - 1;
    }
    assert line[..copy] == Cut(line, LINE_MAX);
    var parsed := ReadLine(line[..copy]);
    ghost var found := if parsed.Some? then [parsed.value] else [];
    assert f(line) == Record(line) == found;
    added := 0;
    if parsed.Some? {
      StoreParsed(log, parsed.value);
      added := 1;
    }
  }

  /** A line that is no header and parses, in a snapshot of its own. */
  method ReadLine(l: string) returns (parsed: Option<Event>)
    requires NulFree(l)
    ensures parsed == if SchemaIsCompatible(l) then None else ParseLine(l)
    ensures parsed.Some? ==> IsCEvent(parsed.value)
  {
    if SchemaIsCompatible(l) {
      return None;
    }
    var snap := new EventSnapshot();
    var ok := ParseEventCsvLine(l, snap);
    parsed := if ok then Some(snap.Contents()) else None;
  }

  method StoreParsed(log: EvidenceLog, e: Event)
    requires log.Valid() && IsCEvent(e)
    modifies log, log.events, log.blockNames, log.reasons
    ensures log.Valid()
    ensures log.Contents() == PushAll(old(log.Contents()), [e])
  {
    log.ContentsAreRows();
    log.Store(FromCaller(e));
  }

  method FindLineEnd(text: string, p: nat) returns (lineEnd: nat)
    requires p <= |text|
    ensures p <= lineEnd <= |text| && lineEnd - p == LineEnd(text[p..])
    ensures lineEnd < |text| ==> IsBreak(text[lineEnd])
  {
    lineEnd := p;
    while lineEnd < |text| && !IsBreak(text[lineEnd])
      invariant p <= lineEnd <= |text|
      invariant LineEnd(text[p..]) == lineEnd - p + LineEnd(text[lineEnd..])
    {
      assert text[lineEnd..][1..] == text[lineEnd + 1..];
      lineEnd := lineEnd + 1;
    }
  }

  method SkipBreaks(text: string, from: nat) returns (p: nat)
    requires from <= |text|
    ensures from <= p <= |text| && forall i :: from <= i < p ==> IsBreak(text[i])
    ensures p < |text| ==> !IsBreak(text[p])
  {
    p := from;
    while p < |text| && IsBreak(text[p])
      invariant from <= p <= |text| && forall i :: from <= i < p ==> IsBreak(text[i])
    {
      p := p + 1;
    }
  }

  lemma {:induction false} GatherPastBreaks(text: string, from: nat, p: nat, f: string -> seq<Event>)
    requires from <= p <= |text| && forall i :: from <= i < p ==> IsBreak(text[i])
    ensures Gather(text[from..], f) == Gather(text[p..], f)
    decreases p - from
  {
    if from < p {
      GatherFromBreak(text, from, f);
      GatherPastBreaks(text, from + 1, p, f);
    }
  }

  lemma GatherLine(text: string, p: nat, lineEnd: nat, f: string -> seq<Event>)
    requires p <= lineEnd <= |text| && lineEnd - p == LineEnd(text[p..])
    requires lineEnd < |text| ==> IsBreak(text[lineEnd])
    ensures Gather(text[p..], f) == (if p == lineEnd then [] else f(text[p..lineEnd])) + Gather(text[lineEnd..], f)
  {
    var csv, e := text[p..], lineEnd - p;
    assert csv[..e] == text[p..lineEnd];
    if lineEnd < |text| {
      assert csv[e + 1..] == text[lineEnd + 1..] == text[lineEnd..][1..];
      GatherAfterBreak(text[lineEnd..], f);
    } else {
      assert text[lineEnd..] == "" && Gather("", f) == [];
    }
  }

  /** `lox_blackbox_import_csv_buffer`: whatever the log held before, it ends up with the last
      sixteen events of the text, and the number of all of them is returned. */
  method ImportCsvBuffer(csv: Option<string>, log: EvidenceLog?) returns (imported: nat)
    requires csv.Some? ==> NulFree(csv.value)
    requires log != null ==> log.Shape() && log.RowsAreTexts()
    modifies log, if log == null then {} else {log.events as object, log.blockNames, log.reasons}
    ensures csv.None? || log == null ==> imported == 0
    ensures csv.None? && log != null ==> unchanged(log, log.events, log.blockNames, log.reasons)
    ensures csv.Some? && log != null ==>
              log.Valid() && log.Contents() == PushAll([], Records(csv.value)) && imported == |Records(csv.value)|
  {
    if csv.None? || log == null {
      return 0;
    }
    imported := ImportText(csv.value, log, Record);
  }

  /** Past the line at p and the line breaks after it. */
  method NextLine(text: string, p: nat, ghost f: string -> seq<Event>) returns (lineEnd: nat, next: nat)
    requires p < |text|
    ensures p <= lineEnd <= next <= |text| && p < next
    ensures Gather(text[p..], f) ==
            (if p == lineEnd then [] else f(text[p..lineEnd])) + Gather(text[next..], f)
  {
    lineEnd := FindLineEnd(text, p);
    GatherLine(text, p, lineEnd, f);
    next := SkipBreaks(text, lineEnd);
    GatherPastBreaks(text, lineEnd, next, f);
  }

  /** One turn of the import loop: the line at p goes into the log. */
  method ImportNext(text: string, p: nat, log: EvidenceLog, ghost f: string -> seq<Event>, ghost done: seq<Event>)
    returns (next: nat, added: nat, ghost found: seq<Event>)
    requires NulFree(text) && p < |text| && IsRecord(f)
    requires log.Valid() && log.Contents() == PushAll([], done)
    modifies log, log.events, log.blockNames, log.reasons
    ensures p < next <= |text| && Gather(text[p..], f) == found + Gather(text[next..], f)
    ensures log.Valid() && log.Contents() == PushAll([], done + found) && added == |found|
  {
    var lineEnd;
    lineEnd, next := NextLine(text, p, f);
    added, found := 0, [];
    if lineEnd > p {
      found := f(text[p..lineEnd]);
      PushAllConcat([], done, found);
      added := ImportLine(text[p..lineEnd], log, f);
    } else {
      assert done + found == done;
    }
  }

  method ImportText(text: string, log: EvidenceLog, ghost f: string -> seq<Event>) returns (imported: nat)
    requires NulFree(text) && log.Shape() && log.RowsAreTexts() && IsRecord(f)
    modifies log, log.events, log.blockNames, log.reasons
    ensures log.Valid() && log.Contents() == PushAll([], Gather(text, f)) && imported == |Gather(text, f)|
  {
    log.count := 0;
    imported := 0;
    var p := 0;
    ghost var done: seq<Event> := [];
    assert text[0..] == text;
    ghost var ahead := Gather(text, f);
    while p < |text|
      invariant p <= |text| && log.Valid()
      invariant ahead == Gather(text[p..], f) && Gather(text, f) == done + ahead
      invariant log.Contents() == PushAll([], done) && imported == |done|
    {
      var next, added, found := ImportNext(text, p, log, f, done);
      ahead := Gather(text[next..], f);
      Regroup(done, found, ahead);
      done := done + found;
      imported := imported + added;
      p := next;
    }
    GatherEnd(text[p..], f);
    assert done + [] == done;
  }

  lemma Regroup(done: seq<Event>, found: seq<Event>, ahead: seq<Event>)
    ensures done + (found + ahead) == (done + found) + ahead
  {
  }

  lemma GatherEnd(s: string, f: string -> seq<Event>)
    requires s == ""
    ensures Gather(s, f) == []
  {
  }
}
