/** What comes back when an exported log is imported: the events that survive their own line,
    all of them exactly when each is exportable, and from a buffer that was too small no more
    than the last line is damaged. */
module LogRoundTrip {
  import opened Text
  import opened PercentCodec
  import opened Decimal
  import opened EventLine
  import opened EventBuffers
  import opened Blackbox
  import opened LogExport
  import opened LogImport

  predicate AreCEvents(log: seq<Event>) {
    forall i :: 0 <= i < |log| ==> IsCEvent(log[i])
  }

  predicate AreLines(lines: seq<string>) {
    forall i :: 0 <= i < |lines| ==> lines[i] != "" && OneLine(lines[i])
  }

  function Flatten(f: string -> seq<Event>, lines: seq<string>): seq<Event> {
    if lines == [] then [] else f(lines[0]) + Flatten(f, lines[1..])
  }

  // ---------------------------------------------------------------------------------
  // Gathering joined lines
  // ---------------------------------------------------------------------------------

  lemma {:induction false} LineEndOf(line: string, rest: string)
    requires OneLine(line) && (rest != "" ==> IsBreak(rest[0]))
    ensures LineEnd(line + rest) == |line|
  {
    if line == "" {
      assert line + rest == rest;
    } else {
      assert (line + rest)[1..] == line[1..] + rest;
      LineEndOf(line[1..], rest);
    }
  }

  lemma GatherOneLine(line: string, f: string -> seq<Event>)
    requires OneLine(line)
    ensures Gather(line, f) == if line == "" then [] else f(line)
  {
    LineEndOf(line, "");
    assert line + "" == line && line[..|line|] == line;
  }

  lemma GatherCons(line: string, rest: string, f: string -> seq<Event>)
    requires OneLine(line)
    ensures Gather(line + "\n" + rest, f) == (if line == "" then [] else f(line)) + Gather(rest, f)
  {
    var csv := line + "\n" + rest;
    assert csv == line + ("\n" + rest);
    LineEndOf(line, "\n" + rest);
    assert csv[..|line|] == line && csv[|line| + 1..] == rest;
  }

  lemma {:induction false} GatherJoined(lines: seq<string>, f: string -> seq<Event>)
    requires AreLines(lines)
    ensures Gather(JoinLines(lines), f) == Flatten(f, lines)
    decreases |lines|
  {
    if lines == [] {
      GatherOneLine("", f);
    } else if |lines| == 1 {
      GatherOneLine(lines[0], f);
      assert Flatten(f, lines[1..]) == [];
    } else {
      GatherCons(lines[0], JoinLines(lines[1..]), f);
      GatherJoined(lines[1..], f);
    }
  }

  /** What is gathered from k whole lines and a part of the next. */
  function WholeAndPart(lines: seq<string>, k: nat, part: string, f: string -> seq<Event>): seq<Event>
    requires k <= |lines|
  {
    Flatten(f, lines[..k]) + if part == "" then [] else f(part)
  }

  lemma WholeAndPartCons(lines: seq<string>, k: nat, part: string, f: string -> seq<Event>)
    requires lines != [] && k < |lines|
    ensures WholeAndPart(lines, k + 1, part, f) == f(lines[0]) + WholeAndPart(lines[1..], k, part, f)
  {
    assert lines[..k + 1][0] == lines[0] && lines[..k + 1][1..] == lines[1..][..k];
    var rest := if part == "" then [] else f(part);
    assert f(lines[0]) + Flatten(f, lines[1..][..k]) + rest == f(lines[0]) + (Flatten(f, lines[1..][..k]) + rest);
  }

  lemma CutJoined(lines: seq<string>, m: nat)
    requires |lines| > 1 && m <= |JoinLines(lines[1..])|
    ensures |JoinLines(lines)| == |lines[0]| + 1 + |JoinLines(lines[1..])|
    ensures JoinLines(lines)[..|lines[0]| + 1 + m] == lines[0] + "\n" + JoinLines(lines[1..])[..m]
  {
  }

  lemma CutFirst(lines: seq<string>, n: nat)
    requires lines != [] && n <= |lines[0]|
    ensures n <= |JoinLines(lines)| && JoinLines(lines)[..n] == lines[0][..n]
  {
  }

  lemma CutInFirst(lines: seq<string>, n: nat, f: string -> seq<Event>)
    requires AreLines(lines) && lines != [] && n < |lines[0]|
    ensures n < |JoinLines(lines)|
    ensures Gather(JoinLines(lines)[..n], f) == WholeAndPart(lines, 0, lines[0][..n], f)
  {
    hide Gather;
    CutFirst(lines, n);
    GatherOneLine(lines[0][..n], f);
  }

  lemma CutAfterFirst(lines: seq<string>, f: string -> seq<Event>)
    requires AreLines(lines) && lines != []
    ensures |lines[0]| <= |JoinLines(lines)| && (|lines[0]| == |JoinLines(lines)| ==> |lines| == 1)
    ensures Gather(JoinLines(lines)[..|lines[0]|], f) == WholeAndPart(lines, 1, "", f)
  {
    hide Gather;
    CutFirst(lines, |lines[0]|);
    assert lines[0][..|lines[0]|] == lines[0];
    GatherOneLine(lines[0], f);
    WholeAndPartCons(lines, 0, "", f);
  }

  lemma CutBeyondFirst(lines: seq<string>, m: nat, k: nat, part: string, f: string -> seq<Event>)
    requires AreLines(lines) && |lines| > 1 && m <= |JoinLines(lines[1..])| && k <= |lines[1..]|
    requires Gather(JoinLines(lines[1..])[..m], f) == WholeAndPart(lines[1..], k, part, f)
    ensures |JoinLines(lines)| == |lines[0]| + 1 + |JoinLines(lines[1..])|
    ensures Gather(JoinLines(lines)[..|lines[0]| + 1 + m], f) == WholeAndPart(lines, k + 1, part, f)
  {
    hide JoinLines, Gather, WholeAndPart;
    CutJoined(lines, m);
    GatherCons(lines[0], JoinLines(lines[1..])[..m], f);
    WholeAndPartCons(lines, k, part, f);
  }

  /** k is the number of whole lines among the first n bytes of joined lines. */
  predicate WholeLines(lines: seq<string>, n: nat, k: nat) {
    && k <= |lines|
    && (k > 0 ==> |JoinLines(lines[..k])| <= n)
    && (k < |lines| ==> n < |JoinLines(lines[..k + 1])|)
  }

  /** How many bytes come before line k. */
  function Before(lines: seq<string>, k: nat): nat
    requires k <= |lines|
  {
    if k == 0 then 0 else |JoinLines(lines[..k])| + 1
  }

  lemma JoinedPrefix(lines: seq<string>, k: nat)
    requires k < |lines|
    ensures |JoinLines(lines[..k + 1])| == |lines[0]| + if k == 0 then 0 else 1 + |JoinLines(lines[1..][..k])|
  {
    assert lines[..k + 1][0] == lines[0] && lines[..k + 1][1..] == lines[1..][..k];
  }

  /** Cutting n bytes off the front of joined lines takes k whole lines and a part of the next. */
  ghost predicate CutsTo(lines: seq<string>, n: nat, f: string -> seq<Event>, k: nat, part: string) {
    && n <= |JoinLines(lines)|
    && WholeLines(lines, n, k) && (if k == |lines| then part == "" else part < lines[k])
    && (k < |lines| ==> |part| == Monus(n, Before(lines, k)))
    && Gather(JoinLines(lines)[..n], f) == WholeAndPart(lines, k, part, f)
    && (n == |JoinLines(lines)| ==> k == |lines|)
  }

  lemma CutWithinFirst(lines: seq<string>, n: nat, f: string -> seq<Event>) returns (k: nat, part: string)
    requires AreLines(lines) && lines != [] && n <= |lines[0]|
    ensures CutsTo(lines, n, f, k, part)
  {
    hide JoinLines, Gather, WholeAndPart;
    JoinedPrefix(lines, 0);
    if |lines| > 1 {
      JoinedPrefix(lines, 1);
    }
    if n < |lines[0]| {
      k, part := 0, lines[0][..n];
      CutInFirst(lines, n, f);
    } else {
      k, part := 1, "";
      CutAfterFirst(lines, f);
    }
  }

  lemma CutsBeyondFirst(lines: seq<string>, m: nat, f: string -> seq<Event>, k: nat, part: string)
    requires AreLines(lines) && |lines| > 1 && CutsTo(lines[1..], m, f, k, part)
    ensures CutsTo(lines, |lines[0]| + 1 + m, f, k + 1, part)
  {
    hide JoinLines, Gather, WholeAndPart, Before;
    CutBeyondFirst(lines, m, k, part, f);
    WholeBeyondFirst(lines, m, k);
  }

  lemma WholeBeyondFirst(lines: seq<string>, m: nat, k: nat)
    requires |lines| > 1 && WholeLines(lines[1..], m, k)
    ensures WholeLines(lines, |lines[0]| + 1 + m, k + 1)
    ensures k < |lines[1..]| ==> Monus(|lines[0]| + 1 + m, Before(lines, k + 1)) == Monus(m, Before(lines[1..], k))
  {
    hide JoinLines;
    JoinedPrefix(lines, k);
    if k + 1 < |lines| {
      JoinedPrefix(lines, k + 1);
    }
  }

  lemma {:induction false} GatherCut(lines: seq<string>, n: nat, f: string -> seq<Event>) returns (k: nat, part: string)
    requires AreLines(lines) && n <= |JoinLines(lines)|
    ensures CutsTo(lines, n, f, k, part)
    decreases |lines|
  {
    if lines == [] {
      k, part := 0, "";
      GatherOneLine("", f);
    } else if n <= |lines[0]| {
      k, part := CutWithinFirst(lines, n, f);
    } else {
      var m := n - |lines[0]| - 1;
      k, part := GatherCut(lines[1..], m, f);
      CutsBeyondFirst(lines, m, f, k, part);
      k := k + 1;
    }
  }

  // ---------------------------------------------------------------------------------
  // Exported lines
  // ---------------------------------------------------------------------------------

  /** What comes of an event whose line the exporter has cut to 159 bytes. */
  function Survivor(e: Event): seq<Event> {
    Delivered(e, Monus(|EventText(Some(e))|, LINE_MAX))
  }

  function Collect(g: Event -> seq<Event>, log: seq<Event>): seq<Event> {
    if log == [] then [] else g(log[0]) + Collect(g, log[1..])
  }

  /** What is accepted of a log's own lines, in order. */
  function Survivors(log: seq<Event>): seq<Event> {
    Collect(Survivor, log)
  }

  /** A text that begins with the first key and '=' is no header. */
  lemma KeyedIsNoHeader(line: string, keys: seq<string>, f: Fields)
    requires |keys| == 6 && |keys[0]| == 4 && line <= Join(f.Tokens(keys)) && |line| > 4
    ensures line[4] == '='
  {
    var ts := f.Tokens(keys);
    assert Join(ts)[4] == ts[0][4];
  }

  lemma HeaderShape()
    ensures |HEADER| > 4 && HEADER[4] == ',' && |HEADER| <= LINE_MAX && |KEYS[0]| == 4
  {
  }

  /** What the importer makes of the first n bytes of an event's line. */
  lemma RecordOfPart(e: Event, n: nat)
    requires IsCEvent(e) && n <= |LineOf(e)|
    ensures n <= |EventText(Some(e))| && LineOf(e)[..n] == EventText(Some(e))[..n]
    ensures Record(LineOf(e)[..n]) == Delivered(e, |EventText(Some(e))| - n)
  {
    hide ParseLine, Delivered;
    var line := LineOf(e)[..n];
    HeaderShape();
    assert Cut(line, LINE_MAX) == line;
    if |line| > 4 {
      KeyedIsNoHeader(line, KEYS, FieldsOf(e));
    }
    CutLineExactly(e, |EventText(Some(e))| - n);
  }

  lemma RecordOfLine(e: Event)
    requires IsCEvent(e)
    ensures Record(LineOf(e)) == Survivor(e)
  {
    hide Record, Delivered, EventText;
    RecordOfPart(e, |LineOf(e)|);
    assert LineOf(e)[..|LineOf(e)|] == LineOf(e);
  }

  lemma LineOfIsLine(e: Event)
    requires IsCEvent(e)
    ensures LineOf(e) != "" && OneLine(LineOf(e))
  {
    LineLacks(e, '\n');
    LineLacks(e, '\r');
    LineLength(FieldsOf(e));
  }

  lemma {:induction false} MapLines(log: seq<Event>, lineOf: Event -> string, record: string -> seq<Event>)
    requires AreCEvents(log)
    requires forall e {:trigger lineOf(e)} :: lineOf(e) == LineOf(e)
    requires IsRecord(record)
    ensures AreLines(Map(lineOf, log))
    ensures Flatten(record, Map(lineOf, log)) == Collect(Survivor, log)
  {
    if log != [] {
      LineOfIsLine(log[0]);
      RecordOfLine(log[0]);
      MapLines(log[1..], lineOf, record);
      assert Map(lineOf, log)[1..] == Map(lineOf, log[1..]);
    }
  }

  lemma HeaderHasNoRecord()
    ensures Record(HEADER) == [] && OneLine(HEADER)
  {
    HeaderShape();
  }

  // ---------------------------------------------------------------------------------
  // The theorems
  // ---------------------------------------------------------------------------------

  /** Importing a complete export delivers exactly the events whose own line survives. */
  lemma ImportOfExport(log: seq<Event>, header: bool)
    requires AreCEvents(log)
    ensures Records(ExportText(log, header)) == Survivors(log)
  {
    MapLines(log, LineOf, Record);
    HeaderHasNoRecord();
    GatherExport(header, HEADER, Map(LineOf, log), Record);
  }

  lemma GatherExport(wanted: bool, header: string, lines: seq<string>, f: string -> seq<Event>)
    requires OneLine(header) && header != "" && f(header) == [] && AreLines(lines)
    ensures Gather(HeadText(wanted, header) + JoinLines(lines), f) == Flatten(f, lines)
  {
    GatherJoined(lines, f);
    GatherHead(wanted, header, JoinLines(lines), f);
  }

  lemma GatherHead(wanted: bool, header: string, body: string, f: string -> seq<Event>)
    requires OneLine(header) && header != ""
    ensures Gather(HeadText(wanted, header) + body, f) == (if wanted then f(header) else []) + Gather(body, f)
  {
    if wanted {
      GatherCons(header, body, f);
    } else {
      assert HeadText(wanted, header) + body == body;
    }
  }

  predicate AllExportable(log: seq<Event>) {
    forall i :: 0 <= i < |log| ==> Exportable(log[i], LINE_MAX)
  }

  lemma {:induction false} CollectCount(log: seq<Event>, g: Event -> seq<Event>)
    requires forall e :: |g(e)| <= 1
    ensures |Collect(g, log)| <= |log|
  {
    if log != [] {
      CollectCount(log[1..], g);
    }
  }

  /** Collecting at most one event from each gives them all back exactly when each gives
      itself. */
  lemma {:induction false} CollectAll(log: seq<Event>, g: Event -> seq<Event>)
    requires forall e :: |g(e)| <= 1
    ensures Collect(g, log) == log <==> forall i :: 0 <= i < |log| ==> g(log[i]) == [log[i]]
  {
    if log != [] {
      var first, rest := g(log[0]), Collect(g, log[1..]);
      CollectAll(log[1..], g);
      CollectCount(log[1..], g);
      assert log == [log[0]] + log[1..];
      if Collect(g, log) == log {
        assert |first| == 1;
        assert (first + rest)[0] == first[0] && (first + rest)[1..] == rest;
        assert forall i :: 1 <= i < |log| ==> log[i] == log[1..][i - 1];
      }
      if forall i :: 0 <= i < |log| ==> g(log[i]) == [log[i]] {
        assert forall i :: 0 <= i < |log[1..]| ==> log[1..][i] == log[i + 1];
      }
    }
  }

  lemma SurvivorIsSelf(e: Event)
    requires IsCEvent(e)
    ensures Survivor(e) == [e] <==> Exportable(e, LINE_MAX)
  {
    hide Delivered, EventText, ParseLine, Exportable;
    var line := EventText(Some(e));
    var lost := Monus(|line|, LINE_MAX);
    CutLineExactly(e, lost);
    assert line[..|line| - lost] == Cut(line, LINE_MAX);
    RoundTripExactly(e, LINE_MAX);
  }

  /** Everything survives exactly when every event is exportable. */
  lemma AllSurvive(log: seq<Event>, g: Event -> seq<Event>)
    requires AreCEvents(log)
    requires forall e {:trigger Survivor(e)} :: g(e) == Survivor(e)
    ensures Collect(g, log) == log <==> AllExportable(log)
    ensures |Collect(g, log)| <= |log|
  {
    forall e ensures |g(e)| <= 1 {
      assert g(e) == Survivor(e);
    }
    CollectAll(log, g);
    CollectCount(log, g);
    forall i | 0 <= i < |log|
      ensures g(log[i]) == [log[i]] <==> Exportable(log[i], LINE_MAX)
    {
      SurvivorIsSelf(log[i]);
    }
  }

  lemma SurvivorIsStored(e: Event)
    requires IsCEvent(e)
    ensures forall x :: x in Survivor(e) ==> Stored(x) == x
  {
    hide Kept, Encode;
    CarriedIsShort(e.block);
    CarriedIsShort(e.reason);
  }

  lemma CarriedIsShort(s: string)
    ensures Kept(s, TEXT_MAX) <= TEXT_MAX
  {
    KeptIsLargest(s, TEXT_MAX, Kept(s, TEXT_MAX));
    EncodeNonEmpty(s[..Kept(s, TEXT_MAX)]);
  }

  lemma {:induction false} CollectStored(log: seq<Event>, g: Event -> seq<Event>)
    requires forall i :: 0 <= i < |log| ==> forall x :: x in g(log[i]) ==> Stored(x) == x
    ensures forall x :: x in Collect(g, log) ==> Stored(x) == x
  {
    if log != [] {
      CollectStored(log[1..], g);
      assert forall x :: x in Collect(g, log) ==> x in g(log[0]) || x in Collect(g, log[1..]);
    }
  }

  lemma {:induction false} StoredAllKeeps(es: seq<Event>)
    requires forall x :: x in es ==> Stored(x) == x
    ensures StoredAll(es) == es
  {
    if es != [] {
      StoredAllKeeps(es[1..]);
    }
  }

  lemma SurvivorsAreStored(log: seq<Event>)
    requires AreCEvents(log)
    ensures StoredAll(Survivors(log)) == Survivors(log)
  {
    forall i | 0 <= i < |log|
      ensures forall x :: x in Survivor(log[i]) ==> Stored(x) == x
    {
      SurvivorIsStored(log[i]);
    }
    CollectStored(log, Survivor);
    StoredAllKeeps(Survivors(log));
  }

  /** Import after export. For any log and any number of events, with or without a header, into
      any old log: what comes back is exactly the exported events, in order and field by
      field, and their number, if and only if each of them is exportable. */
  lemma ImportAfterExportIsIdentity(log: seq<Event>, maxEvents: nat, header: bool)
    requires |log| <= CAPACITY && AreCEvents(log)
    ensures var chosen := Last(log, maxEvents);
            var imported := Records(ExportText(chosen, header));
            && (PushAll([], imported) == chosen <==> AllExportable(chosen))
            && (AllExportable(chosen) ==> |imported| == Min(|log|, maxEvents))
  {
    var chosen := Last(log, maxEvents);
    var survivors := Survivors(chosen);
    ImportOfExport(chosen, header);
    SurvivorsAreStored(chosen);
    PushAllIsLast([], survivors);
    assert [] + StoredAll(survivors) == survivors;
    AllSurvive(chosen, Survivor);
  }

  lemma {:induction false} JoinedIsNulFree(lines: seq<string>)
    requires forall i :: 0 <= i < |lines| ==> NulFree(lines[i])
    ensures NulFree(JoinLines(lines))
    decreases |lines|
  {
    if |lines| > 1 {
      JoinedIsNulFree(lines[1..]);
    }
  }

  lemma LineOfIsNulFree(e: Event)
    requires IsCEvent(e)
    ensures NulFree(LineOf(e))
  {
    LineLacks(e, '\0');
  }

  lemma JoinedMapIsNulFree(log: seq<Event>, f: Event -> string)
    requires forall i :: 0 <= i < |log| ==> NulFree(f(log[i]))
    ensures NulFree(JoinLines(Map(f, log)))
  {
    JoinedIsNulFree(Map(f, log));
  }

  lemma ExportIsNulFree(log: seq<Event>, header: bool)
    requires AreCEvents(log)
    ensures NulFree(ExportText(log, header))
  {
    forall i | 0 <= i < |log| ensures NulFree(LineOf(log[i])) {
      LineOfIsNulFree(log[i]);
    }
    JoinedMapIsNulFree(log, LineOf);
    HeaderIsNulFree(header, HEADER);
  }

  /** The buffer an export leaves behind is a C string: the ideal export, or what fits of it. */
  lemma ExportedBuffer(log: seq<Event>, header: bool, out: seq<char>, n: nat)
    requires AreCEvents(log) && n < |out|
    requires out[..n] == Cut(ExportText(log, header), |out| - 1) && out[n] == '\0'
    ensures CStr(out) == Cut(ExportText(log, header), |out| - 1)
  {
    ExportIsNulFree(log, header);
    BufferHolds(ExportText(log, header), out, n);
  }

  lemma BufferHolds(text: string, out: seq<char>, n: nat)
    requires NulFree(text) && n < |out| && out[..n] == Cut(text, |out| - 1) && out[n] == '\0'
    ensures CStr(out) == Cut(text, |out| - 1)
  {
    CStrOfTerminated(out, out[..n]);
  }

  lemma HeaderIsNulFree(wanted: bool, header: string)
    ensures NulFree(header) ==> NulFree(HeadText(wanted, header))
  {
  }

  lemma AcceptedIsKeyed(line: string)
    requires ParseLine(line).Some?
    ensures |line| > 4 && line[4] == '='
  {
    hide ParseLine, ValuesSpell, Fields.Lack, Fields.NonEmpty, Fields.Line;
    var f := GrammarFields(line, ParseLine(line).value);
    LineOfFields(f);
  }

  /** What every line adds: what the parser makes of its first 159 bytes. The test for a header
      line never matters, as no header parses. */
  lemma RecordIs(line: string)
    ensures Record(line) == Accepted(if |line| <= 159 then line else line[..159])
  {
    hide ParseLine;
    var l := Cut(line, LINE_MAX);
    if SchemaIsCompatible(l) && ParseLine(l).Some? {
      AcceptedIsKeyed(l);
    }
  }

  lemma HeaderPartHasNoRecord(part: string)
    requires part <= HEADER
    ensures Record(part) == [] && OneLine(part)
  {
    HeaderShape();
    HeaderHasNoRecord();
    assert Cut(part, LINE_MAX) == part;
    if ParseLine(part).Some? {
      AcceptedIsKeyed(part);
    }
  }

  lemma {:induction false} SurvivorsOfLines(log: seq<Event>, k: nat)
    requires AreCEvents(log) && k <= |log|
    ensures Flatten(Record, Map(LineOf, log)[..k]) == Survivors(log[..k])
  {
    MapPrefix(log, k, LineOf);
    MapLines(log[..k], LineOf, Record);
  }

  lemma {:induction false} MapPrefix(log: seq<Event>, k: nat, f: Event -> string)
    requires k <= |log|
    ensures Map(f, log)[..k] == Map(f, log[..k])
  {
    if k > 0 {
      MapPrefix(log[1..], k - 1, f);
      assert log[..k][1..] == log[1..][..k - 1];
    }
  }

  /** How many bytes of line k are among the first `room` of an export. */
  function BytesOfLine(log: seq<Event>, header: bool, room: nat, k: nat): nat
    requires k <= |log|
  {
    Monus(room, if k == 0 then |HeadText(header, HEADER)| else |ExportText(log[..k], header)| + 1)
  }

  /** An export cut off anywhere by a small buffer still imports: the events of all k lines that
      fit whole as if the export were complete, and of the next line what comes of its bytes that
      were written, which is an event never logged as soon as a digit of its last number was. */
  lemma ImportOfCutExport(log: seq<Event>, header: bool, room: nat) returns (k: nat, torn: seq<Event>)
    requires AreCEvents(log)
    ensures k <= |log|
    ensures k > 0 ==> |ExportText(log[..k], header)| <= room
    ensures k < |log| ==> room < |ExportText(log[..k + 1], header)|
    ensures Records(Cut(ExportText(log, header), room)) == Survivors(log[..k]) + torn
    ensures torn == if k == |log| then []
                    else Delivered(log[k], Monus(|EventText(Some(log[k]))|, BytesOfLine(log, header, room, k)))
    ensures torn != [] ==> torn[0] != log[k]
    ensures room >= |ExportText(log, header)| ==> k == |log|
  {
    hide LineOf, Record, Map, JoinLines, Records, Survivors, HeadText, Cut, Delivered, EventText;
    if room < |HeadText(header, HEADER)| {
      k, torn := 0, [];
      CutInHead(log, header, room);
      assert log[..0] == [];
      if log != [] {
        NothingDelivered(log[0]);
      }
    } else {
      var n := Min(room - |HeadText(header, HEADER)|, |JoinLines(Map(LineOf, log))|);
      CutInBody(log, header, room, n);
      k, torn := CutBody(log, n);
      MapPrefix(log, k, LineOf);
      if k < |log| {
        MapPrefix(log, k + 1, LineOf);
        RoomIsInside(log, header, room, k, n);
      }
    }
  }

  /** Short of its end the room and the part of the body it holds are the same. */
  lemma RoomIsInside(log: seq<Event>, header: bool, room: nat, k: nat, n: nat)
    requires |HeadText(header, HEADER)| <= room && k < |log|
    requires n == Min(room - |HeadText(header, HEADER)|, |JoinLines(Map(LineOf, log))|)
    requires WholeLines(Map(LineOf, log), n, k)
    ensures n == room - |HeadText(header, HEADER)|
    ensures Monus(n, Before(Map(LineOf, log), k)) == BytesOfLine(log, header, room, k)
  {
    hide LineOf, Map, JoinLines, HeadText;
    MapPrefix(log, k, LineOf);
    JoinedMonotone(Map(LineOf, log), k + 1);
  }

  lemma {:induction false} JoinedMonotone(lines: seq<string>, k: nat)
    requires k <= |lines|
    ensures |JoinLines(lines[..k])| <= |JoinLines(lines)|
    decreases |lines|
  {
    if k > 0 {
      JoinedPrefix(lines, k - 1);
      JoinedMonotone(lines[1..], k - 1);
    }
  }

  lemma NothingDelivered(e: Event)
    requires IsCEvent(e)
    ensures Delivered(e, |EventText(Some(e))|) == []
    ensures |EventText(Some(e))| > 1
  {
    LineLength(FieldsOf(e));
  }

  lemma CutInHead(log: seq<Event>, header: bool, room: nat)
    requires room < |HeadText(header, HEADER)|
    ensures Records(Cut(ExportText(log, header), room)) == [] == Survivors([])
    ensures forall l :: room < |ExportText(l, header)|
  {
    var text := Cut(ExportText(log, header), room);
    assert text == HeadText(header, HEADER)[..room] <= HEADER;
    HeaderPartHasNoRecord(text);
    GatherOneLine(text, Record);
  }

  lemma CutInBody(log: seq<Event>, header: bool, room: nat, n: nat)
    requires |HeadText(header, HEADER)| <= room
    requires n == Min(room - |HeadText(header, HEADER)|, |JoinLines(Map(LineOf, log))|)
    ensures Records(Cut(ExportText(log, header), room)) == Gather(JoinLines(Map(LineOf, log))[..n], Record)
  {
    var head, body := HeadText(header, HEADER), JoinLines(Map(LineOf, log));
    assert Cut(head + body, room) == head + body[..n];
    HeaderHasNoRecord();
    GatherHead(header, HEADER, body[..n], Record);
  }

  lemma CutBody(log: seq<Event>, n: nat) returns (k: nat, torn: seq<Event>)
    requires AreCEvents(log) && n <= |JoinLines(Map(LineOf, log))|
    ensures k <= |log| && WholeLines(Map(LineOf, log), n, k)
    ensures Gather(JoinLines(Map(LineOf, log))[..n], Record) == Survivors(log[..k]) + torn
    ensures torn == if k == |log| then []
                    else Delivered(log[k], Monus(|EventText(Some(log[k]))|, Monus(n, Before(Map(LineOf, log), k))))
    ensures torn != [] ==> torn[0] != log[k]
    ensures n == |JoinLines(Map(LineOf, log))| ==> k == |log|
  {
    hide LineOf, Record, JoinLines, Delivered, EventText, Survivors, Before;
    var lines := Map(LineOf, log);
    MapLines(log, LineOf, Record);
    var part;
    k, part := GatherCut(lines, n, Record);
    SurvivorsOfLines(log, k);
    torn := if part == "" then [] else Record(part);
    if k < |log| {
      TornLine(log[k], part);
      AtMostOne(log[k], Monus(|EventText(Some(log[k]))|, |part|));
    }
  }

  lemma AtMostOne(e: Event, lost: nat)
    ensures |Delivered(e, lost)| <= 1
  {
  }

  /** What comes of a torn line is never the event itself. */
  lemma TornLine(e: Event, part: string)
    requires IsCEvent(e) && part < LineOf(e)
    ensures (if part == "" then [] else Record(part)) == Delivered(e, Monus(|EventText(Some(e))|, |part|))
    ensures Delivered(e, Monus(|EventText(Some(e))|, |part|)) != [e]
  {
    hide Record, Delivered, ParseLine;
    RecordOfPart(e, |part|);
    assert part == LineOf(e)[..|part|];
    NothingDelivered(e);
    CutLineExactly(e, |EventText(Some(e))| - |part|);
    CutLineDiffers(e, |EventText(Some(e))| - |part|);
  }

  /** An export that loses its last byte is imported without notice: the newest event comes back
      with a tenth of its last number. */
  lemma LostByteForgesAnEvent(e: Event)
    requires IsCEvent(e) && Exportable(e, LINE_MAX) && e.aux >= 10
    ensures var text := ExportText([e], false);
            Records(text[..|text| - 1]) == [e.(aux := e.aux / 10)] != [e]
  {
    hide Record, EventText, Encode, Kept;
    var line := LineOf(e);
    assert Map(LineOf, [e]) == [line];
    assert ExportText([e], false) == "" + line == line;
    LineOfIsLine(e);
    GatherOneLine(line[..|line| - 1], Record);
    RecordOfPart(e, |line| - 1);
    NothingDelivered(e);
    WholeDelivered(e);
    assert Carried(e).(aux := Shortened(e.aux, 0)) == e;
    assert Pow10(1) == 10;
    DecLength(e.aux, 1);
  }

  lemma ContentsAreCEvents(log: EvidenceLog)
    requires log.Valid()
    ensures |log.Contents()| <= CAPACITY && AreCEvents(log.Contents())
  {
    log.ContentsAreRows();
  }

  /** Both ways through one buffer, into any log, be it the exported one. What arrives is what the
      buffer holds of the ideal export; if it holds all, the newest events arrive as they were if
      and only if each of them is exportable. */
  method ExportThenImport(log: EvidenceLog, maxEvents: nat, header: bool, out: array<char>, target: EvidenceLog)
    returns (n: nat)
    requires log.Valid() && target.Shape() && target.RowsAreTexts() && out.Length > 0
    modifies out, target, target.events, target.blockNames, target.reasons
    ensures target.Valid()
    ensures var chosen := old(Last(log.Contents(), maxEvents));
            var arrived := Records(Cut(ExportText(chosen, header), out.Length - 1));
            && target.Contents() == PushAll([], arrived) && n == |arrived|
            && (|ExportText(chosen, header)| < out.Length ==>
                  (target.Contents() == chosen <==> AllExportable(chosen)) &&
                  (AllExportable(chosen) ==> n == |chosen|))
  {
    hide Records, ExportText, AllExportable, PushAll, CStr;
    ghost var events := log.Contents();
    ContentsAreCEvents(log);
    var len := ExportCsvBuffer(log, maxEvents, header, out);
    ExportedBuffer(Last(events, maxEvents), header, out[..], len);
    n := ImportCsvBuffer(Some(CStr(out[..])), target);
    ImportAfterExportIsIdentity(events, maxEvents, header);
  }
}
