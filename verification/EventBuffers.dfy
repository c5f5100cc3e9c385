/** The event formatter and parser in the form the library gives them, over character
    buffers, proved against `EventLine`. */
module EventBuffers {
  import opened Text
  import opened PercentCodec
  import opened Decimal
  import opened EventLine

  const HEADER := "kind,block,reason,index,limit,aux"

  /** `lox_event_format_csv`; no event at all prints the null line. Whatever the buffer, it
      holds the longest prefix of the event's text that fits, terminated. */
  method FormatEventCsv(event: Option<Event>, out: array<char>) returns (n: nat)
    requires event.Some? ==> IsCEvent(event.value)
    modifies out
    ensures out.Length == 0 ==> n == 0
    ensures out.Length > 0 ==>
              n == Min(|EventText(event)|, out.Length - 1) &&
              out[..n] == Cut(EventText(event), out.Length - 1) && out[n] == '\0'
  {
    if out.Length == 0 {
      return 0;
    }
    if event.None? {
      n := Snprintf(out, 0, NULL_EVENT_LINE);
    } else {
      var e := event.value;
      var blockBuf, reasonBuf := new char[64](_ => '\0'), new char[64](_ => '\0');
      EncodeKvValue(blockBuf, e.block);
      EncodeKvValue(reasonBuf, e.reason);
      BufferText(blockBuf[..], e.block);
      BufferText(reasonBuf[..], e.reason);
      var f := Fields(DecInt(e.kind), CStr(blockBuf[..]), CStr(reasonBuf[..]), Dec(e.index), Dec(e.limit), Dec(e.aux));
      n := Snprintf(out, 0, f.Line());
    }
    var c := Cut(EventText(event), out.Length - 1);
    assert out[0..|c|] == out[..|c|];
    if n >= out.Length {
      n := out.Length - 1;
    }
  }

  /** A 64-byte buffer after the encoder ran holds the bounded encoding as a C string. */
  lemma BufferText(buffer: seq<char>, s: string)
    requires NulFree(s) && |buffer| == TEXT_MAX + 1
    requires var e := EncodeBounded(s, TEXT_MAX); |e| < |buffer| && buffer[..|e|] == e && buffer[|e|] == '\0'
    ensures CStr(buffer) == EncodeBounded(s, TEXT_MAX)
  {
    EncodeNulFree(s[..Kept(s, TEXT_MAX)]);
    CStrOfTerminated(buffer, EncodeBounded(s, TEXT_MAX));
  }

  /** `lox_csv_schema_is_compatible`: the header, at the end of the text or of its line. */
  predicate SchemaIsCompatible(line: string) {
    var n := |HEADER|;
    HEADER <= line && (|line| == n || line[n] == '\n' || line[n] == '\r')
  }

  /** A header line is these words, up to the end of the text or of the line. */
  lemma HeaderIs(line: string)
    ensures SchemaIsCompatible(line) <==>
            || line == "kind,block,reason,index,limit,aux"
            || "kind,block,reason,index,limit,aux\n" <= line
            || "kind,block,reason,index,limit,aux\r" <= line
  {
    var h := "kind,block,reason,index,limit,aux";
    if h <= line && |line| > |h| {
      assert line[..|h| + 1] == h + [line[|h|]];
    }
  }

  /** `lox_token_next`: from a cursor into the line, the next token, the cursor after it and
      whether a comma ended it; it fails only at the end of the line. */
  method TokenNext(line: string, cursor: nat) returns (ok: bool, start: nat, len: nat, next: nat, comma: bool)
    requires cursor <= |line|
    ensures ok <==> cursor < |line|
    ensures ok ==> start == cursor && start + len <= next <= |line|
    ensures ok ==> var rest := Split(line[cursor..]);
                   && line[start..start + len] == rest[0]
                   && (comma <==> |rest| > 1)
                   && (if comma then Split(line[next..]) == rest[1..] else next == |line|)
  {
    start, len, next, comma := 0, 0, cursor, false;
    if cursor == |line| {
      return false, start, len, next, comma;
    }
    ok, start := true, cursor;
    var i := CommaIndex(line[start..]);
    assert line[start..][..i] == line[start..start + i];
    if i == |line[start..]| {
      len, next, comma := i, start + i, false;
    } else {
      len, next, comma := i, start + i + 1, true;
      assert line[start..][i + 1..] == line[next..];
    }
  }

  /** `lox_event_snapshot_t`: the numbers of an event with its own two text buffers. */
  class EventSnapshot {
    var kind: Int32
    var index: Word
    var limit: Word
    var aux: UInt32
    const blockName: array<char>
    const reason: array<char>

    constructor ()
      ensures fresh(blockName) && fresh(reason) && Valid()
    {
      kind, index, limit, aux := 0, 0, 0, 0;
      blockName := new char[64](_ => '\0');
      reason := new char[64](_ => '\0');
    }

    ghost predicate Valid() {
      blockName.Length == reason.Length == TEXT_MAX + 1 && blockName != reason
    }

    method Fill(kind: Int32, block: array<char>, reason: array<char>, index: Word, limit: Word, aux: UInt32)
      requires Valid() && block.Length == reason.Length == TEXT_MAX + 1
      requires block != this.blockName && block != this.reason && reason != this.blockName && reason != this.reason
      modifies this, this.blockName, this.reason
      ensures Contents() == Event(kind, CStr(block[..]), CStr(reason[..]), index, limit, aux)
    {
      forall i | 0 <= i < 64 {
        this.blockName[i] := block[i];
      }
      forall i | 0 <= i < 64 {
        this.reason[i] := reason[i];
      }
      assert this.blockName[..] == block[..] && this.reason[..] == reason[..];
      this.kind, this.index, this.limit, this.aux := kind, index, limit, aux;
    }

    function Contents(): Event
      reads this, blockName, reason
    {
      Event(kind, CStr(blockName[..]), CStr(reason[..]), index, limit, aux)
    }
  }

  /** The cursor stands before token i of the line's tokens ts, or, after the last token, at
      the end; `comma` tells whether a comma (or the start of the line) put it there. */
  ghost predicate At(line: string, cursor: nat, comma: bool, ts: seq<string>, i: nat) {
    && NulFree(line) && cursor <= |line| && i <= |ts|
    && if comma then i < |ts| && Split(line[cursor..]) == ts[i..] else cursor == |line| && i == |ts|
  }

  /** The value under a key in token i, if there is such a token. */
  ghost function ValueAt(ts: seq<string>, i: nat, key: string): Option<string> {
    if i < |ts| then TokenValue(ts[i], key) else None
  }

  ghost function IntAt(ts: seq<string>, i: nat, key: string): Option<Int32> {
    var v :- ValueAt(ts, i, key);
    IntField(v)
  }

  ghost function SizeAt(ts: seq<string>, i: nat, key: string): Option<Word> {
    var v :- ValueAt(ts, i, key);
    SizeField(v)
  }

  ghost function U32At(ts: seq<string>, i: nat, key: string): Option<UInt32> {
    var v :- ValueAt(ts, i, key);
    U32Field(v)
  }

  ghost function TextAt(ts: seq<string>, i: nat, key: string): Option<string> {
    var v :- ValueAt(ts, i, key);
    DecodeBounded(v, TEXT_MAX)
  }

  /** The next token's value under a key: `lox_token_next` and then `lox_token_value`. */
  method NextValue(line: string, cursor: nat, comma: bool, key: string, ghost ts: seq<string>, ghost i: nat)
    returns (value: Option<string>, next: nat, more: bool)
    requires At(line, cursor, comma, ts, i)
    ensures value == ValueAt(ts, i, key)
    ensures value.Some? ==> NulFree(value.value) && At(line, next, more, ts, i + 1)
  {
    var ok, start, len;
    ok, start, len, next, more := TokenNext(line, cursor);
    if !ok {
      assert line[cursor..] == "" && Split("") == [""];
      return None, |line|, false;
    }
    value := TokenValue(line[start..start + len], key);
  }

  method NextInt(line: string, cursor: nat, comma: bool, key: string, ghost ts: seq<string>, ghost i: nat)
    returns (v: Option<Int32>, next: nat, more: bool)
    requires At(line, cursor, comma, ts, i)
    ensures v == IntAt(ts, i, key)
    ensures v.Some? ==> At(line, next, more, ts, i + 1)
  {
    var value;
    value, next, more := NextValue(line, cursor, comma, key, ts, i);
    if value.None? || |value.value| >= 32 {
      return None, next, more;
    }
    v := ParseIntStrict(value.value);
  }

  method NextSize(line: string, cursor: nat, comma: bool, key: string, ghost ts: seq<string>, ghost i: nat)
    returns (v: Option<Word>, next: nat, more: bool)
    requires At(line, cursor, comma, ts, i)
    ensures v == SizeAt(ts, i, key)
    ensures v.Some? ==> At(line, next, more, ts, i + 1)
  {
    var value;
    value, next, more := NextValue(line, cursor, comma, key, ts, i);
    if value.None? || |value.value| >= 32 {
      return None, next, more;
    }
    v := ParseSizeStrict(value.value);
  }

  method NextU32(line: string, cursor: nat, comma: bool, key: string, ghost ts: seq<string>, ghost i: nat)
    returns (v: Option<UInt32>, next: nat, more: bool)
    requires At(line, cursor, comma, ts, i)
    ensures v == U32At(ts, i, key)
    ensures v.Some? ==> At(line, next, more, ts, i + 1)
  {
    var value;
    value, next, more := NextValue(line, cursor, comma, key, ts, i);
    if value.None? || |value.value| >= 32 {
      return None, next, more;
    }
    v := ParseU32Strict(value.value);
  }

  method NextText(line: string, cursor: nat, comma: bool, key: string, dst: array<char>,
                  ghost ts: seq<string>, ghost i: nat)
    returns (ok: bool, next: nat, more: bool)
    requires At(line, cursor, comma, ts, i) && dst.Length == TEXT_MAX + 1
    modifies dst
    ensures ok <==> TextAt(ts, i, key).Some?
    ensures ok ==> CStr(dst[..]) == TextAt(ts, i, key).value
    ensures ok ==> At(line, next, more, ts, i + 1)
  {
    var value;
    value, next, more := NextValue(line, cursor, comma, key, ts, i);
    if value.None? {
      return false, next, more;
    }
    ok := DecodeKvValue(dst, value.value);
  }

  /** The event made of six parsed parts. */
  ghost function Assemble(kind: Option<Int32>, block: Option<string>, reason: Option<string>,
                          index: Option<Word>, limit: Option<Word>, aux: Option<UInt32>): Option<Event>
  {
    if kind.Some? && block.Some? && reason.Some? && index.Some? && limit.Some? && aux.Some? && KindIsValid(kind.value) then
      Some(Event(kind.value, block.value, reason.value, index.value, limit.value, aux.value))
    else None
  }

  lemma MeaningIsAssembled(f: Fields)
    ensures Meaning(f) == Assemble(IntField(f.kind), DecodeBounded(f.block, TEXT_MAX), DecodeBounded(f.reason, TEXT_MAX),
                                   SizeField(f.index), SizeField(f.limit), U32Field(f.aux))
  {
  }

  /** Parsing token by token, as the parser below does. */
  ghost function ParseByParts(ts: seq<string>, keys: seq<string>): Option<Event>
    requires |keys| == 6
  {
    if |ts| != 6 then None
    else Assemble(IntAt(ts, 0, keys[0]), TextAt(ts, 1, keys[1]), TextAt(ts, 2, keys[2]),
                  SizeAt(ts, 3, keys[3]), SizeAt(ts, 4, keys[4]), U32At(ts, 5, keys[5]))
  }

  lemma PartsMakeTheWhole(ts: seq<string>, keys: seq<string>)
    requires |keys| == 6
    ensures ParseByParts(ts, keys) == if FieldValues(ts, keys).Some? then Meaning(FieldValues(ts, keys).value) else None
  {
    if FieldValues(ts, keys).Some? {
      MeaningIsAssembled(FieldValues(ts, keys).value);
    }
  }

  /** The six numbers and texts of a line, each read where the one before it stopped. */
  method ReadEventParts(line: string, keys: seq<string>, block: array<char>, reason: array<char>)
    returns (ok: bool, kind: Int32, index: Word, limit: Word, aux: UInt32)
    requires NulFree(line) && |keys| == 6 && block.Length == reason.Length == TEXT_MAX + 1 && block != reason
    modifies block, reason
    ensures ok <==> ParseByParts(Split(line), keys).Some?
    ensures ok ==> ParseByParts(Split(line), keys) == Some(Event(kind, CStr(block[..]), CStr(reason[..]), index, limit, aux))
  {
    ghost var ts := Split(line);
    assert line[0..] == line;
    ok, kind, index, limit, aux := false, 0, 0, 0, 0;
    var kindRead, cursor, comma := NextInt(line, 0, true, keys[0], ts, 0);
    if kindRead.None? {
      return;
    }
    var decoded;
    decoded, cursor, comma := NextText(line, cursor, comma, keys[1], block, ts, 1);
    if !decoded {
      return;
    }
    decoded, cursor, comma := NextText(line, cursor, comma, keys[2], reason, ts, 2);
    if !decoded {
      return;
    }
    var indexRead, limitRead, auxRead;
    indexRead, cursor, comma := NextSize(line, cursor, comma, keys[3], ts, 3);
    if indexRead.None? {
      return;
    }
    limitRead, cursor, comma := NextSize(line, cursor, comma, keys[4], ts, 4);
    if limitRead.None? {
      return;
    }
    auxRead, cursor, comma := NextU32(line, cursor, comma, keys[5], ts, 5);
    if auxRead.None? {
      return;
    }
    if comma || cursor != |line| || !KindIsValid(kindRead.value) {
      return;
    }
    ok, kind, index, limit, aux := true, kindRead.value, indexRead.value, limitRead.value, auxRead.value;
  }

  method ParseInto(line: string, keys: seq<string>, snap: EventSnapshot) returns (ok: bool)
    requires NulFree(line) && snap.Valid() && |keys| == 6
    modifies snap, snap.blockName, snap.reason
    ensures ok <==> ParseByParts(Split(line), keys).Some?
    ensures ok ==> Some(snap.Contents()) == ParseByParts(Split(line), keys)
    ensures !ok ==> unchanged(snap) && unchanged(snap.blockName) && unchanged(snap.reason)
  {
    var block, reason := new char[64](_ => '\0'), new char[64](_ => '\0');
    var kind, index, limit, aux;
    ok, kind, index, limit, aux := ReadEventParts(line, keys, block, reason);
    if ok {
      snap.Fill(kind, block, reason, index, limit, aux);
    }
  }

  lemma ParseLineIsByParts(line: string)
    ensures ParseLine(line) == ParseByParts(Split(line), KEYS)
  {
    PartsMakeTheWhole(Split(line), KEYS);
  }

  /** `lox_event_parse_csv_line_ex`: it accepts what the grammar accepts, delivers the event
      there, and leaves the snapshot untouched when it refuses. */
  method ParseEventCsvLine(line: string, snap: EventSnapshot) returns (ok: bool)
    requires NulFree(line) && snap.Valid()
    modifies snap, snap.blockName, snap.reason
    ensures ok <==> ParseLine(line).Some?
    ensures ok ==> Some(snap.Contents()) == ParseLine(line)
    ensures !ok ==> unchanged(snap) && unchanged(snap.blockName) && unchanged(snap.reason)
  {
    ParseLineIsByParts(line);
    ok := ParseInto(line, KEYS, snap);
  }
}
