/** Exporting the evidence log as text:
    `lox_blackbox_export_csv_buffer_ex`, over output buffers of any size. */
module LogExport {
  import opened Text
  import opened EventLine
  import opened EventBuffers
  import opened Blackbox

  // ---------------------------------------------------------------------------------
  // Text made of lines
  // ---------------------------------------------------------------------------------

  /** The lines with line feeds between them. */
  function JoinLines(lines: seq<string>): string {
    if lines == [] then "" else if |lines| == 1 then lines[0] else lines[0] + "\n" + JoinLines(lines[1..])
  }

  /** A heading and the first i lines, each followed by a line feed unless it is the last of
      all: what an exporter with room enough has written after i steps. */
  function Written(head: string, lines: seq<string>, i: nat): string
    requires i <= |lines|
  {
    if i == 0 then head
    else Written(head, lines, i - 1) + lines[i - 1] + if i < |lines| then "\n" else ""
  }

  lemma {:induction false} WrittenCons(head: string, lines: seq<string>, i: nat)
    requires 1 <= i <= |lines| && |lines| > 1
    ensures Written(head, lines, i) == Written(head + lines[0] + "\n", lines[1..], i - 1)
  {
    if i > 1 {
      WrittenCons(head, lines, i - 1);
    }
  }

  lemma {:induction false} WrittenAll(head: string, lines: seq<string>)
    ensures Written(head, lines, |lines|) == head + JoinLines(lines)
    decreases |lines|
  {
    if lines == [] {
    } else if |lines| == 1 {
      assert Written(head, lines, 1) == Written(head, lines, 0) + lines[0] + "";
      assert head + lines[0] + "" == head + lines[0];
    } else {
      WrittenCons(head, lines, |lines|);
      WrittenAll(head + lines[0] + "\n", lines[1..]);
      var t := JoinLines(lines[1..]);
      assert head + lines[0] + "\n" + t == head + (lines[0] + "\n" + t);
    }
  }

  lemma {:induction false} WrittenIsPrefix(head: string, lines: seq<string>, i: nat)
    requires i <= |lines|
    ensures Written(head, lines, i) <= Written(head, lines, |lines|)
    decreases |lines| - i
  {
    if i < |lines| {
      WrittenIsPrefix(head, lines, i + 1);
    }
  }

  /** Once a text has filled a buffer, whatever is appended to it changes nothing. */
  lemma CutOfFull(s: string, t: string, room: nat)
    requires s <= t && |s| >= room
    ensures Cut(t, room) == Cut(s, room)
  {
  }

  // ---------------------------------------------------------------------------------
  // Export
  // ---------------------------------------------------------------------------------

  /** The line of one logged event, cut to the exporter's 160-byte line buffer. */
  function LineOf(e: Event): string {
    Cut(EventText(Some(e)), LINE_MAX)
  }

  function Map<A, B>(f: A -> B, s: seq<A>): (r: seq<B>)
    ensures |r| == |s|
    ensures forall i {:trigger r[i]} :: 0 <= i < |s| ==> r[i] == f(s[i])
  {
    if s == [] then [] else [f(s[0])] + Map(f, s[1..])
  }

  function HeadText(wanted: bool, header: string): string {
    if wanted then header + "\n" else ""
  }

  /** The whole export of a log, as if there were room for it. */
  function ExportText(log: seq<Event>, includeHeader: bool): string {
    HeadText(includeHeader, HEADER) + JoinLines(Map(LineOf, log))
  }

  lemma {:induction false} JoinedSnoc(lines: seq<string>, line: string)
    ensures JoinLines(lines + [line]) == JoinLines(lines) + (if lines == [] then "" else "\n") + line
    decreases |lines|
  {
    if |lines| > 0 {
      assert (lines + [line])[1..] == lines[1..] + [line];
      JoinedSnoc(lines[1..], line);
    }
  }

  lemma {:induction false} MapSnoc<A, B>(f: A -> B, s: seq<A>, x: A)
    ensures Map(f, s + [x]) == Map(f, s) + [f(x)]
  {
    if s != [] {
      assert (s + [x])[1..] == s[1..] + [x];
      MapSnoc(f, s[1..], x);
    }
  }

  /** The ideal export of every log: the heading, if wanted, then the events' lines cut to 159
      bytes with a line feed between two of them. */
  lemma ExportIs(log: seq<Event>, e: Event, header: bool)
    ensures ExportText([], header) == if header then "kind,block,reason,index,limit,aux\n" else ""
    ensures var line := EventText(Some(e));
            ExportText(log + [e], header) ==
            ExportText(log, header) + (if log == [] then "" else "\n") + if |line| <= 159 then line else line[..159]
  {
    hide EventText;
    MapSnoc(LineOf, log, e);
    JoinedSnoc(Map(LineOf, log), LineOf(e));
    var head, body := HeadText(header, HEADER), JoinLines(Map(LineOf, log));
    var sep := if log == [] then "" else "\n";
    assert head + (body + sep + LineOf(e)) == (head + body) + sep + LineOf(e);
  }

  /** The first `pos` bytes of the buffer are what fits of `text`. */
  ghost predicate Holds(out: array<char>, pos: nat, text: string)
    reads out
  {
    pos < out.Length && out[..pos] == Cut(text, out.Length - 1)
  }

  lemma CutAppend(s: string, t: string, room: nat)
    ensures Cut(s + t, room) == Cut(s, room) + Cut(t, room - |Cut(s, room)|)
  {
    if |s| >= room {
      assert Cut(s, room) + "" == Cut(s, room);
    }
  }

  /** The copy loop of the exporter, cut at the end of the buffer. */
  method Append(out: array<char>, pos: nat, line: array<char>, written: nat, ghost text: string) returns (end: nat)
    requires out != line && written <= line.Length && Holds(out, pos, text)
    modifies out
    ensures Holds(out, end, text + line[..written])
  {
    var copy := written;
    if copy > out.Length - 1 - pos {
      copy := out.Length - 1 - pos;
    }
    var j := 0;
    while j < copy
      invariant j <= copy
      invariant out[..pos] == old(out[..pos])
      invariant forall k :: 0 <= k < j ==> out[pos + k] == line[k]
    {
      out[pos + j] := line[j];
      j := j + 1;
    }
    end := pos + copy;
    ghost var held := Cut(text, out.Length - 1);
    assert out[..end] == held + line[..copy];
    CutAppend(text, line[..written], out.Length - 1);
    assert |held| == pos && line[..written][..copy] == line[..copy] == Cut(line[..written], out.Length - 1 - pos);
  }

  /** A single byte, left out when the buffer is full. */
  method AppendByte(out: array<char>, pos: nat, c: char, ghost text: string) returns (end: nat)
    requires Holds(out, pos, text)
    modifies out
    ensures Holds(out, end, text + [c])
  {
    end := pos;
    if pos < out.Length - 1 {
      out[pos] := c;
      end := pos + 1;
      assert out[..end] == text + [c];
    }
  }

  method Terminate(out: array<char>, pos: nat)
    requires pos < out.Length
    modifies out
    ensures out[..pos] == old(out[..pos]) && out[pos] == '\0'
  {
    out[pos] := '\0';
  }

  /** `lines` are those f gives for the logged events from `start` on. */
  ghost predicate LinesFrom(log: EvidenceLog, start: nat, lines: seq<string>, f: Event -> string)
    requires log.Valid()
    reads log, log.events, log.blockNames, log.reasons
  {
    start <= log.count && |lines| == log.count - start &&
    forall i {:trigger log.EventAt(i)} :: start <= i < log.count ==> lines[i - start] == f(log.EventAt(i))
  }

  lemma LinesAreFrom(log: EvidenceLog, start: nat, events: seq<Event>, f: Event -> string)
    requires log.Valid() && start <= log.count && events == log.Contents()[start..]
    ensures LinesFrom(log, start, Map(f, events), f)
  {
    forall i {:trigger log.EventAt(i)} | start <= i < log.count ensures Map(f, events)[i - start] == f(log.EventAt(i)) {
      assert events[i - start] == log.Contents()[i];
    }
  }

  /** One event in the exporter's own line buffer. */
  method FormatLine(log: EvidenceLog, i: nat, ghost start: nat, ghost lines: seq<string>)
    returns (line: array<char>, written: nat)
    requires log.Valid() && start <= i < log.count && LinesFrom(log, start, lines, LineOf)
    ensures fresh(line) && written <= line.Length && line[..written] == lines[i - start]
  {
    line, written := FormatEvent(log.EventAt(i));
  }

  method FormatEvent(event: Event) returns (line: array<char>, written: nat)
    requires IsCEvent(event)
    ensures fresh(line) && written <= line.Length && line[..written] == LineOf(event)
  {
    line := new char[160](_ => '\0');
    written := FormatEventCsv(Some(event), line);
  }

  /** One line, and a line feed unless it is the last. */
  method AppendLine(out: array<char>, pos: nat, line: array<char>, written: nat, more: bool, ghost text: string)
    returns (end: nat)
    requires out != line && written <= line.Length && Holds(out, pos, text)
    modifies out
    ensures Holds(out, end, text + line[..written] + if more then "\n" else "")
  {
    end := Append(out, pos, line, written, text);
    ghost var longer := text + line[..written];
    assert longer + "" == longer;
    if more {
      end := AppendByte(out, end, '\n', longer);
    }
  }

  /** The exporter's loop over the events from `start` on. */
  method ExportLines(log: EvidenceLog, start: nat, ghost head: string, ghost lines: seq<string>, out: array<char>, from: nat)
    returns (pos: nat)
    requires log.Valid() && start < log.count && LinesFrom(log, start, lines, LineOf)
    requires Holds(out, from, head)
    modifies out
    ensures Holds(out, pos, Written(head, lines, |lines|))
  {
    pos := from;
    var i := start;
    while i < log.count
      invariant start <= i <= log.count
      invariant Holds(out, pos, Written(head, lines, i - start))
    {
      ghost var done := Written(head, lines, i - start);
      if pos >= out.Length - 1 {
        WrittenIsPrefix(head, lines, i - start);
        CutOfFull(done, Written(head, lines, |lines|), out.Length - 1);
        return;
      }
      var line, written := FormatLine(log, i, start, lines);
      pos := AppendLine(out, pos, line, written, i + 1 < log.count, done);
      i := i + 1;
    }
  }

  method PrintHead(out: array<char>, text: string) returns (len: nat)
    requires out.Length > 0
    modifies out
    ensures len == |text| && Holds(out, Min(len, out.Length - 1), text)
    ensures out[Min(len, out.Length - 1)] == '\0'
  {
    len := Snprintf(out, 0, text);
    var c := Cut(text, out.Length - 1);
    assert out[..|c|] == out[0..0 + |c|] == c;
  }

  /** The first of the last `maxEvents` events. */
  function StartOf(count: nat, maxEvents: nat): nat {
    if count > maxEvents then count - maxEvents else 0
  }

  method ExportUnder(log: EvidenceLog?, maxEvents: nat, includeHeader: bool, header: string, out: array<char>,
                     ghost lines: seq<string>)
    returns (n: nat)
    requires log != null ==> log.Valid()
    requires if log == null then lines == [] else LinesFrom(log, StartOf(log.count, maxEvents), lines, LineOf)
    requires out.Length > 0
    modifies out
    ensures Holds(out, n, HeadText(includeHeader, header) + JoinLines(lines)) && out[n] == '\0'
  {
    ghost var head := HeadText(includeHeader, header);
    out[0] := '\0';
    n := 0;
    if includeHeader {
      var len := PrintHead(out, header + "\n");
      if len >= out.Length {
        CutOfFull(head, head + JoinLines(lines), out.Length - 1);
        return out.Length - 1;
      }
      n := len;
    }
    assert Holds(out, n, head);
    if log == null || log.count == 0 || maxEvents == 0 {
      assert lines == [] && head + JoinLines(lines) == head;
      Terminate(out, n);
      return;
    }
    WrittenAll(head, lines);
    n := ExportLines(log, StartOf(log.count, maxEvents), head, lines, out, n);
    Terminate(out, n);
  }

  lemma LastFrom(log: seq<Event>, n: nat)
    ensures StartOf(|log|, n) <= |log| && Last(log, n) == log[StartOf(|log|, n)..]
  {
  }

  /** `lox_blackbox_export_csv_buffer_ex`. Whatever the size of the buffer, it holds the longest
      prefix of the ideal export that fits, terminated, and the prefix's length is returned. */
  method ExportCsvBuffer(log: EvidenceLog?, maxEvents: nat, includeHeader: bool, out: array<char>) returns (n: nat)
    requires log != null ==> log.Valid()
    modifies out
    ensures out.Length == 0 ==> n == 0
    ensures out.Length > 0 ==>
              var ideal := ExportText(if log == null then [] else Last(log.Contents(), maxEvents), includeHeader);
              n == Min(|ideal|, out.Length - 1) && out[..n] == Cut(ideal, out.Length - 1) && out[n] == '\0'
    ensures log != null ==> log.Valid() && log.Contents() == old(log.Contents())
  {
    if out.Length == 0 {
      return 0;
    }
    ghost var chosen := if log == null then [] else Last(log.Contents(), maxEvents);
    if log != null {
      LastFrom(log.Contents(), maxEvents);
      LinesAreFrom(log, StartOf(log.count, maxEvents), chosen, LineOf);
    }
    n := ExportUnder(log, maxEvents, includeHeader, HEADER, out, Map(LineOf, chosen));
  }
}
