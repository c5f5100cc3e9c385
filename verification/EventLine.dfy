/** One event as one line of text: the formatter `lox_event_format_csv`, the tokenizer and
    the strict parser `lox_event_parse_csv_line_ex`. */
module EventLine {
  import opened Text
  import opened PercentCodec
  import opened Decimal

  /** `lox_event_t` with its texts. A kind outside 0..11 can be stored and printed. */
  datatype Event = Event(kind: Int32, block: string, reason: string, index: Word, limit: Word, aux: UInt32)

  // `lox_event_kind_t`
  const NONE: Int32 := 0
  const WRITE_OUT_OF_BOUNDS: Int32 := 1
  const ARENA_OVERFLOW: Int32 := 2
  const TIMEOUT: Int32 := 3
  const MEMORY_FAULT: Int32 := 4
  const UNSUPPORTED: Int32 := 5
  const ENTERED: Int32 := 6
  const OK: Int32 := 7
  const COMPLETED: Int32 := 8
  const ERROR: Int32 := 9
  const PANIC: Int32 := 10
  const FAULT: Int32 := 11
  const KIND_MAX: Int32 := 11

  /** Number fields are copied to a 32-byte buffer before they are parsed. */
  const NUMBER_MAX: nat := 31

  /** Room for one exported or imported line without its terminator. */
  const LINE_MAX: nat := 159

  predicate KindIsValid(kind: int) {
    0 <= kind <= KIND_MAX
  }

  // ---------------------------------------------------------------------------------
  // Lines
  // ---------------------------------------------------------------------------------

  /** The six field values of a line, still encoded. */
  datatype Fields = Fields(kind: string, block: string, reason: string, index: string, limit: string, aux: string) {
    predicate Lack(c: char) {
      c !in kind && c !in block && c !in reason && c !in index && c !in limit && c !in aux
    }

    predicate NonEmpty() {
      kind != "" && block != "" && reason != "" && index != "" && limit != "" && aux != ""
    }

    /** The "key=value" tokens under six given keys. */
    function Tokens(keys: seq<string>): (ts: seq<string>)
      requires |keys| == 6
      ensures |ts| == 6
    {
      [Token(keys[0], kind), Token(keys[1], block), Token(keys[2], reason),
       Token(keys[3], index), Token(keys[4], limit), Token(keys[5], aux)]
    }

    /** The line with these values. */
    function Line(): string {
      Join(Tokens(KEYS))
    }
  }

  const KEYS: seq<string> := ["kind", "block", "reason", "index", "limit", "aux"]

  function Token(key: string, value: string): string {
    key + "=" + value
  }

  function FieldsOf(e: Event): Fields {
    Fields(DecInt(e.kind), EncodeBounded(e.block, TEXT_MAX), EncodeBounded(e.reason, TEXT_MAX),
           Dec(e.index), Dec(e.limit), Dec(e.aux))
  }

  const NULL_EVENT_LINE := "kind=0,block=none,reason=none,index=0,limit=0,aux=0"

  /** The whole line of an event, before any output buffer cuts it. */
  function EventText(event: Option<Event>): string {
    if event.None? then NULL_EVENT_LINE else FieldsOf(event.value).Line()
  }

  // ---------------------------------------------------------------------------------
  // Tokens
  // ---------------------------------------------------------------------------------

  /** `strchr(s, ',')`, with |s| when there is none. */
  function CommaIndex(s: string): (i: nat)
    ensures i <= |s| && ',' !in s[..i] && (i < |s| ==> s[i] == ',')
  {
    if s == "" || s[0] == ',' then 0
    else
      var i := CommaIndex(s[1..]);
      assert s[..i + 1] == [s[0]] + s[1..][..i];
      1 + i
  }

  function Split(s: string): (ts: seq<string>)
    ensures |ts| >= 1
    decreases |s|
  {
    var i := CommaIndex(s);
    if i == |s| then [s] else [s[..i]] + Split(s[i + 1..])
  }

  function Join(ts: seq<string>): string
    requires |ts| >= 1
  {
    if |ts| == 1 then ts[0] else ts[0] + "," + Join(ts[1..])
  }

  lemma {:induction false} CommaIndexOf(t: string, rest: string)
    requires ',' !in t && (rest != "" ==> rest[0] == ',')
    ensures CommaIndex(t + rest) == |t|
  {
    if t == "" {
      assert t + rest == rest;
    } else {
      assert (t + rest)[1..] == t[1..] + rest;
      CommaIndexOf(t[1..], rest);
    }
  }

  lemma SplitCons(t: string, rest: string)
    requires ',' !in t
    ensures Split(t + "," + rest) == [t] + Split(rest)
    ensures Split(t) == [t]
  {
    var s := t + "," + rest;
    assert s == t + ("," + rest);
    CommaIndexOf(t, "," + rest);
    assert s[..|t|] == t && s[|t| + 1..] == rest;
    CommaIndexOf(t, "");
    assert t + "" == t;
  }

  /** Splitting undoes joining and joining undoes splitting. */
  lemma {:induction false} SplitJoin(ts: seq<string>)
    requires |ts| >= 1 && forall i :: 0 <= i < |ts| ==> ',' !in ts[i]
    ensures Split(Join(ts)) == ts
  {
    if |ts| == 1 {
      SplitCons(ts[0], "");
    } else {
      SplitJoin(ts[1..]);
      SplitCons(ts[0], Join(ts[1..]));
    }
  }

  lemma {:induction false} JoinSplit(s: string)
    ensures Join(Split(s)) == s
    ensures forall i :: 0 <= i < |Split(s)| ==> ',' !in Split(s)[i]
    decreases |s|
  {
    var i := CommaIndex(s);
    if i < |s| {
      JoinSplit(s[i + 1..]);
      assert Split(s)[1..] == Split(s[i + 1..]);
      assert s == s[..i] + "," + s[i + 1..];
    } else {
      assert s[..i] == s;
    }
  }

  lemma KeysAreCommaFree()
    ensures |KEYS| == 6 && forall i :: 0 <= i < 6 ==> ',' !in KEYS[i]
  {
  }

  lemma SplitTokens(f: Fields, keys: seq<string>)
    requires |keys| == 6 && forall i :: 0 <= i < 6 ==> ',' !in keys[i]
    requires f.Lack(',')
    ensures Split(Join(f.Tokens(keys))) == f.Tokens(keys)
  {
    SplitJoin(f.Tokens(keys));
  }

  // ---------------------------------------------------------------------------------
  // What a line means
  // ---------------------------------------------------------------------------------

  /** `lox_token_value`: the text after "key=", when there is some. */
  function TokenValue(token: string, key: string): Option<string> {
    if |token| <= |key| + 1 || !(key <= token) || token[|key|] != '=' then None
    else Some(token[|key| + 1..])
  }

  /** The values of six tokens under six keys. */
  function FieldValues(ts: seq<string>, keys: seq<string>): Option<Fields>
    requires |keys| == 6
  {
    if |ts| != 6 then None
    else
      var kind :- TokenValue(ts[0], keys[0]);
      var block :- TokenValue(ts[1], keys[1]);
      var reason :- TokenValue(ts[2], keys[2]);
      var index :- TokenValue(ts[3], keys[3]);
      var limit :- TokenValue(ts[4], keys[4]);
      var aux :- TokenValue(ts[5], keys[5]);
      Some(Fields(kind, block, reason, index, limit, aux))
  }

  /** A number field must fit its 32-byte buffer before it is parsed. */
  function SizeField(v: string): Option<Word> {
    if |v| > NUMBER_MAX then None else ParseSizeStrict(v)
  }

  function U32Field(v: string): Option<UInt32> {
    if |v| > NUMBER_MAX then None else ParseU32Strict(v)
  }

  function IntField(v: string): Option<Int32> {
    if |v| > NUMBER_MAX then None else ParseIntStrict(v)
  }

  /** The event six values stand for. */
  function Meaning(f: Fields): Option<Event> {
    var kind :- IntField(f.kind);
    var block :- DecodeBounded(f.block, TEXT_MAX);
    var reason :- DecodeBounded(f.reason, TEXT_MAX);
    var index :- SizeField(f.index);
    var limit :- SizeField(f.limit);
    var aux :- U32Field(f.aux);
    if KindIsValid(kind) then Some(Event(kind, block, reason, index, limit, aux)) else None
  }

  /** The event six tokens stand for. */
  function ParseTokens(ts: seq<string>): Option<Event> {
    var f :- FieldValues(ts, KEYS);
    Meaning(f)
  }

  /** The event a line stands for, or None for a line that is refused. */
  function ParseLine(line: string): Option<Event> {
    ParseTokens(Split(line))
  }

  /** The grammar of the six values, with nothing about how they are scanned: numbers of at most
      31 characters that spell a value in range, texts made of units of which the first 63 are
      kept and name no NUL. */
  ghost predicate ValuesSpell(f: Fields, e: Event) {
    && |f.kind| <= 31 && |f.index| <= 31 && |f.limit| <= 31 && |f.aux| <= 31
    && SpellsInt(f.kind, e.kind) && 0 <= e.kind <= 11
    && SpellsText(f.block, 63, e.block)
    && SpellsText(f.reason, 63, e.reason)
    && SpellsUInt(f.index, e.index) && SpellsUInt(f.limit, e.limit) && SpellsUInt(f.aux, e.aux)
  }

  lemma NumbersSpelled(v: string, n: Word)
    ensures SizeField(v) == Some(n) <==> |v| <= NUMBER_MAX && SpellsUInt(v, n)
    ensures n <= UINT32_MAX ==> (U32Field(v) == Some(n) <==> |v| <= NUMBER_MAX && SpellsUInt(v, n))
  {
    UIntAccepts(v, n);
  }

  lemma KindSpelled(v: string, n: Int32)
    ensures IntField(v) == Some(n) <==> |v| <= NUMBER_MAX && SpellsInt(v, n)
  {
    IntAccepts(v, n);
  }

  lemma MeaningIsSpelled(f: Fields, e: Event)
    ensures Meaning(f) == Some(e) <==> ValuesSpell(f, e)
  {
    hide SpellsInt, SpellsUInt, SpellsText, IntField, SizeField, U32Field, DecodeBounded;
    KindSpelled(f.kind, e.kind);
    DecodesExactly(f.block, TEXT_MAX, e.block);
    DecodesExactly(f.reason, TEXT_MAX, e.reason);
    NumbersSpelled(f.index, e.index);
    NumbersSpelled(f.limit, e.limit);
    NumbersSpelled(f.aux, e.aux);
  }

  lemma TokenValueOf(key: string, v: string)
    ensures TokenValue(Token(key, v), key) == if v == "" then None else Some(v)
  {
    var token := Token(key, v);
    assert key <= token && token[|key| + 1..] == v;
  }

  lemma TokenIsKeyed(token: string, key: string)
    requires TokenValue(token, key).Some?
    ensures token == Token(key, TokenValue(token, key).value) && TokenValue(token, key).value != ""
  {
    assert token == token[..|key|] + [token[|key|]] + token[|key| + 1..];
  }

  lemma FieldValuesOf(f: Fields, keys: seq<string>)
    requires |keys| == 6
    ensures FieldValues(f.Tokens(keys), keys) == if f.NonEmpty() then Some(f) else None
  {
    hide TokenValue, Token;
    TokenValueOf(keys[0], f.kind);
    TokenValueOf(keys[1], f.block);
    TokenValueOf(keys[2], f.reason);
    TokenValueOf(keys[3], f.index);
    TokenValueOf(keys[4], f.limit);
    TokenValueOf(keys[5], f.aux);
  }

  lemma FieldValuesAre(ts: seq<string>, keys: seq<string>, f: Fields)
    requires |keys| == 6 && FieldValues(ts, keys) == Some(f)
    ensures ts == f.Tokens(keys) && f.NonEmpty()
  {
    TokenIsKeyed(ts[0], keys[0]);
    TokenIsKeyed(ts[1], keys[1]);
    TokenIsKeyed(ts[2], keys[2]);
    TokenIsKeyed(ts[3], keys[3]);
    TokenIsKeyed(ts[4], keys[4]);
    TokenIsKeyed(ts[5], keys[5]);
  }

  lemma TokensCommaFree(f: Fields, keys: seq<string>)
    requires |keys| == 6 && forall i :: 0 <= i < 6 ==> ',' !in keys[i]
    ensures f.Lack(',') <==> forall i :: 0 <= i < 6 ==> ',' !in f.Tokens(keys)[i]
  {
    var ts := f.Tokens(keys);
    assert forall k, v :: ',' in Token(k, v) <==> ',' in k || ',' in v;
    if forall i :: 0 <= i < 6 ==> ',' !in ts[i] {
      assert ',' !in ts[0] && ',' !in ts[1] && ',' !in ts[2] && ',' !in ts[3] && ',' !in ts[4] && ',' !in ts[5];
    }
  }

  lemma TokenizedLine(line: string, keys: seq<string>, f: Fields)
    requires |keys| == 6 && forall i :: 0 <= i < 6 ==> ',' !in keys[i]
    ensures FieldValues(Split(line), keys) == Some(f) <==>
            line == Join(f.Tokens(keys)) && f.Lack(',') && f.NonEmpty()
  {
    if FieldValues(Split(line), keys) == Some(f) {
      FieldValuesAre(Split(line), keys, f);
      JoinSplit(line);
      TokensCommaFree(f, keys);
    }
    if line == Join(f.Tokens(keys)) && f.Lack(',') && f.NonEmpty() {
      SplitTokens(f, keys);
      FieldValuesOf(f, keys);
    }
  }

  lemma {:induction false} JoinSnoc(ts: seq<string>, t: string)
    requires |ts| >= 1
    ensures Join(ts + [t]) == Join(ts) + "," + t
  {
    assert (ts + [t])[1..] == ts[1..] + [t];
    if |ts| > 1 {
      JoinSnoc(ts[1..], t);
      assert ts[0] + "," + (Join(ts[1..]) + "," + t) == (ts[0] + "," + Join(ts[1..])) + "," + t;
    }
  }

  /** One more token behind a line. */
  lemma JoinToken(ts: seq<string>, k: nat, line: string, key: string, v: string)
    requires 1 <= k < |ts| && Join(ts[..k]) == line && ts[k] == Token(key, v)
    ensures Join(ts[..k + 1]) == line + ("," + key + "=") + v
  {
    hide Join;
    assert ts[..k + 1] == ts[..k] + [ts[k]];
    JoinSnoc(ts[..k], ts[k]);
    assert line + "," + (key + "=" + v) == line + ("," + key + "=") + v;
  }

  /** The line with the six values, as it is written. */
  lemma LineOfFields(f: Fields)
    ensures f.Line() ==
            "kind=" + f.kind + ",block=" + f.block + ",reason=" + f.reason +
            ",index=" + f.index + ",limit=" + f.limit + ",aux=" + f.aux
  {
    hide Join, Token;
    var ts := f.Tokens(KEYS);
    FirstToken(ts, f.kind);
    SixWords();
    JoinToken(ts, 1, "kind=" + f.kind, KEYS[1], f.block);
    JoinToken(ts, 2, "kind=" + f.kind + ",block=" + f.block, KEYS[2], f.reason);
    JoinToken(ts, 3, "kind=" + f.kind + ",block=" + f.block + ",reason=" + f.reason, KEYS[3], f.index);
    JoinToken(ts, 4, "kind=" + f.kind + ",block=" + f.block + ",reason=" + f.reason + ",index=" + f.index, KEYS[4], f.limit);
    JoinToken(ts, 5, "kind=" + f.kind + ",block=" + f.block + ",reason=" + f.reason + ",index=" + f.index + ",limit=" + f.limit,
              KEYS[5], f.aux);
    assert ts[..6] == ts;
  }

  lemma FirstToken(ts: seq<string>, v: string)
    requires |ts| == 6 && ts[0] == Token(KEYS[0], v)
    ensures Join(ts[..1]) == "kind=" + v
  {
    assert "kind" + "=" == "kind=";
  }

  lemma SixWords()
    ensures "," + KEYS[1] + "=" == ",block=" && "," + KEYS[2] + "=" == ",reason=" && "," + KEYS[3] + "=" == ",index="
    ensures "," + KEYS[4] + "=" == ",limit=" && "," + KEYS[5] + "=" == ",aux="
  {
  }

  /** What the formatter prints for every event, and for none. */
  lemma LineIs(e: Event)
    ensures EventText(Some(e)) ==
            "kind=" + DecInt(e.kind) + ",block=" + EncodeBounded(e.block, 63) + ",reason=" + EncodeBounded(e.reason, 63) +
            ",index=" + Dec(e.index) + ",limit=" + Dec(e.limit) + ",aux=" + Dec(e.aux)
    ensures EventText(None) == "kind=0,block=none,reason=none,index=0,limit=0,aux=0"
  {
    hide EncodeBounded, Dec, DecInt;
    LineOfFields(FieldsOf(e));
  }

  /** The parser accepts exactly the grammar: the six words in this order with a value behind
      each, no value empty or holding a comma, each spelling its part of the event. */
  lemma ParserAcceptsExactlyTheGrammar(line: string, e: Event)
    ensures ParseLine(line) == Some(e) <==>
            exists f: Fields ::
              && line == "kind=" + f.kind + ",block=" + f.block + ",reason=" + f.reason +
                         ",index=" + f.index + ",limit=" + f.limit + ",aux=" + f.aux
              && f.Lack(',') && f.NonEmpty() && ValuesSpell(f, e)
  {
    hide Fields.Lack, Fields.NonEmpty, ValuesSpell, Meaning, FieldValues, Split;
    KeysAreCommaFree();
    forall f: Fields
      ensures FieldValues(Split(line), KEYS) == Some(f) <==> line == f.Line() && f.Lack(',') && f.NonEmpty()
      ensures Meaning(f) == Some(e) <==> ValuesSpell(f, e)
      ensures f.Line() == "kind=" + f.kind + ",block=" + f.block + ",reason=" + f.reason +
                          ",index=" + f.index + ",limit=" + f.limit + ",aux=" + f.aux
    {
      TokenizedLine(line, KEYS, f);
      MeaningIsSpelled(f, e);
      LineOfFields(f);
    }
  }

  // ---------------------------------------------------------------------------------
  // Round trip
  // ---------------------------------------------------------------------------------

  /** What of an event gets through the 64-byte value buffers. */
  function Carried(e: Event): Event {
    e.(block := e.block[..Kept(e.block, TEXT_MAX)], reason := e.reason[..Kept(e.reason, TEXT_MAX)])
  }

  /** Texts that are C strings. */
  predicate IsCEvent(e: Event) {
    NulFree(e.block) && NulFree(e.reason)
  }

  lemma BoundedLacks(s: string, c: char)
    requires c == ',' || c == '\n' || c == '\r'
    ensures c !in EncodeBounded(s, TEXT_MAX)
  {
    var t := EncodeBounded(s, TEXT_MAX);
    EncodeIsClean(s[..Kept(s, TEXT_MAX)]);
    forall i | 0 <= i < |t| ensures t[i] != c {
      CleanHasNoSeparator(t, i);
    }
  }

  lemma NumberLacks(n: int, c: char)
    requires !IsDigit(c) && c != '-'
    ensures c !in DecInt(n)
  {
    DecIsDigits(if n < 0 then -n else n);
  }

  /** No value of a formatted line holds a separator, a line break or NUL. */
  lemma FieldsLack(e: Event, c: char)
    requires IsCEvent(e)
    requires c == ',' || c == '\n' || c == '\r' || c == '\0'
    ensures FieldsOf(e).Lack(c)
  {
    if c == '\0' {
      EncodeNulFree(e.block[..Kept(e.block, TEXT_MAX)]);
      EncodeNulFree(e.reason[..Kept(e.reason, TEXT_MAX)]);
    } else {
      BoundedLacks(e.block, c);
      BoundedLacks(e.reason, c);
    }
    NumberLacks(e.kind, c);
    NumberLacks(e.index, c);
    NumberLacks(e.limit, c);
    NumberLacks(e.aux, c);
  }

  lemma NumberLengths(e: Event)
    ensures |Dec(e.index)| <= 20 && |Dec(e.limit)| <= 20 && |Dec(e.aux)| <= 10
    ensures KindIsValid(e.kind) ==> |DecInt(e.kind)| <= 2
  {
    WordLengths();
    DecLength(e.index, 20);
    DecLength(e.limit, 20);
    DecLength(e.aux, 10);
    if KindIsValid(e.kind) {
      assert Pow10(2) == 100;
      DecLength(e.kind, 2);
    }
  }

  lemma BoundedNonEmpty(s: string)
    requires s != ""
    ensures EncodeBounded(s, TEXT_MAX) != ""
  {
    EncodedLength(s[0]);
    EncodeNonEmpty(s[..Kept(s, TEXT_MAX)]);
  }

  lemma GrammarFields(line: string, e: Event) returns (f: Fields)
    requires ParseLine(line) == Some(e)
    ensures line == f.Line() && f.Lack(',') && f.NonEmpty() && ValuesSpell(f, e)
  {
    hide ParseLine, Fields.Lack, Fields.NonEmpty, ValuesSpell;
    ParserAcceptsExactlyTheGrammar(line, e);
    f :| line == "kind=" + f.kind + ",block=" + f.block + ",reason=" + f.reason +
                 ",index=" + f.index + ",limit=" + f.limit + ",aux=" + f.aux
         && f.Lack(',') && f.NonEmpty() && ValuesSpell(f, e);
    LineOfFields(f);
  }

  /** No accepted line yields an unknown kind, an empty text, a text of more than 63 bytes
      or, from a C string, a text holding NUL. */
  lemma ParsedEventShape(line: string, e: Event)
    requires NulFree(line) && ParseLine(line) == Some(e)
    ensures KindIsValid(e.kind) && IsCEvent(e)
    ensures 1 <= |e.block| <= TEXT_MAX && 1 <= |e.reason| <= TEXT_MAX
  {
    hide SpellsInt, SpellsUInt, SpellsText, DecodeBounded, IntField, SizeField, U32Field, ParseLine, Split, Join;
    var f := GrammarFields(line, e);
    ValuesAreNulFree(f, KEYS);
    MeaningIsSpelled(f, e);
    DecodedShape(f.block, TEXT_MAX);
    DecodedShape(f.reason, TEXT_MAX);
  }

  lemma ValuesAreNulFree(f: Fields, keys: seq<string>)
    requires |keys| == 6 && NulFree(Join(f.Tokens(keys)))
    ensures NulFree(f.block) && NulFree(f.reason)
  {
    var ts := f.Tokens(keys);
    JoinContains(ts, 1, '\0');
    JoinContains(ts, 2, '\0');
    assert forall c :: c in f.block ==> c in ts[1];
    assert forall c :: c in f.reason ==> c in ts[2];
  }

  lemma {:induction false} JoinContains(ts: seq<string>, i: nat, c: char)
    requires i < |ts| && c !in Join(ts)
    ensures c !in ts[i]
  {
    if i > 0 {
      assert c !in Join(ts[1..]);
      JoinContains(ts[1..], i - 1, c);
    }
  }

  /** The tokens a are those of b with the end cut off, in the middle of a token. */
  predicate CutShort(a: seq<string>, b: seq<string>) {
    && 0 < |a| <= |b|
    && a[..|a| - 1] <= b
    && a[|a| - 1] <= b[|a| - 1]
    && (|a| == |b| ==> a[|a| - 1] < b[|a| - 1])
  }

  lemma CutShortCons(t: string, a: seq<string>, b: seq<string>)
    requires CutShort(a, b)
    ensures CutShort([t] + a, [t] + b)
  {
    assert ([t] + a)[..|a|] == [t] + a[..|a| - 1];
  }

  lemma SplitAt(s: string)
    ensures var i := CommaIndex(s);
            Split(s) == if i == |s| then [s] else [s[..i]] + Split(s[i + 1..])
  {
    hide CommaIndex;
  }

  lemma CutShortSingle(t: string, b: seq<string>)
    requires b != [] && t <= b[0] && (|b| == 1 ==> t < b[0])
    ensures CutShort([t], b)
  {
  }

  lemma FirstTokenCut(s: string, m: nat)
    requires m < |s| && m <= CommaIndex(s)
    ensures CutShort(Split(s[..m]), Split(s))
  {
    hide CommaIndex, Split, CutShort;
    CommaIndexOf(s[..m], "");
    assert s[..m] + "" == s[..m];
    SplitAt(s[..m]);
    SplitAt(s);
    CutShortSingle(s[..m], Split(s));
  }

  lemma {:induction false} SplitOfPrefix(s: string, m: nat)
    requires m < |s|
    ensures CutShort(Split(s[..m]), Split(s))
    decreases |s|
  {
    hide CommaIndex, Split, CutShort;
    var i := CommaIndex(s);
    if m <= i {
      FirstTokenCut(s, m);
    } else {
      assert s[..m] == s[..i] + s[i..m];
      CommaIndexOf(s[..i], s[i..m]);
      assert s[..m][..i] == s[..i] && s[..m][i + 1..] == s[i + 1..][..m - i - 1];
      SplitAt(s[..m]);
      SplitAt(s);
      SplitOfPrefix(s[i + 1..], m - i - 1);
      CutShortCons(s[..i], Split(s[i + 1..][..m - i - 1]), Split(s[i + 1..]));
    }
  }

  /** What a parser makes of a line, as a list. */
  function Accepted(line: string): seq<Event> {
    if ParseLine(line).Some? then [ParseLine(line).value] else []
  }

  /** An event some line can stand for. */
  predicate Readable(e: Event) {
    KindIsValid(e.kind) && e.block != "" && e.reason != ""
  }

  /** What comes of an event whose line has lost its last `lost` bytes: nothing when all digits of
      the number at the end are gone, and otherwise the event with the number that is left. */
  function Delivered(e: Event, lost: nat): seq<Event> {
    if Readable(e) && lost < |Dec(e.aux)| then [Carried(e).(aux := Shortened(e.aux, lost))] else []
  }

  lemma LastTokenCut(line: string, f: Fields, keys: seq<string>, m: nat)
    requires |keys| == 6 && (forall i :: 0 <= i < 6 ==> ',' !in keys[i]) && f.Lack(',')
    requires line == Join(f.Tokens(keys)) && |f.aux| <= |line| && m <= |line| - |f.aux| && f.aux != ""
    ensures FieldValues(Split(line[..m]), keys) == None
  {
    hide Join, Split;
    SplitTokens(f, keys);
    SplitOfPrefix(line, m);
    JoinSplit(line[..m]);
    var ts, all := Split(line[..m]), f.Tokens(keys);
    if |ts| == 6 {
      assert forall i :: 0 <= i < 5 ==> ts[i] == ts[..5][i] == all[i];
      JoinLength(ts);
      JoinLength(all);
    }
  }

  /** The fields of a line that has lost less than its last number. */
  lemma FrontLine(f: Fields, keys: seq<string>, lost: nat)
    requires |keys| == 6 && lost < |f.aux|
    ensures lost <= |Join(f.Tokens(keys))|
    ensures Join(f.Tokens(keys))[..|Join(f.Tokens(keys))| - lost] ==
            Join(f.(aux := f.aux[..|f.aux| - lost]).Tokens(keys))
  {
    hide Join;
    var g := f.(aux := f.aux[..|f.aux| - lost]);
    assert Token(keys[5], g.aux) == Token(keys[5], f.aux)[..|keys[5]| + 1 + |f.aux| - lost];
    JoinFront(f.Tokens(keys), lost);
    assert f.Tokens(keys)[..5] + [Token(keys[5], g.aux)] == g.Tokens(keys);
  }

  lemma {:induction false} JoinFront(ts: seq<string>, lost: nat)
    requires ts != [] && lost <= |ts[|ts| - 1]|
    ensures lost <= |Join(ts)|
    ensures var last := ts[|ts| - 1];
            Join(ts)[..|Join(ts)| - lost] == Join(ts[..|ts| - 1] + [last[..|last| - lost]])
  {
    var last := ts[|ts| - 1];
    var us := ts[..|ts| - 1] + [last[..|last| - lost]];
    if |ts| > 1 {
      JoinFront(ts[1..], lost);
      assert us[0] == ts[0] && us[1..] == ts[1..][..|ts| - 2] + [last[..|last| - lost]];
    }
  }

  /** The parser on the fields of an event, the last of which may have lost digits. */
  lemma MeaningOfFront(e: Event, lost: nat)
    requires IsCEvent(e) && KindIsValid(e.kind) && lost < |Dec(e.aux)|
    ensures var digits := Dec(e.aux);
            Meaning(FieldsOf(e).(aux := digits[..|digits| - lost])) == Some(Carried(e).(aux := Shortened(e.aux, lost)))
  {
    hide Dec, EncodeBounded, DecodeBounded, ParseIntStrict, ParseSizeStrict, ParseU32Strict;
    NumberLengths(e);
    ParseDec(e.kind);
    ParseDec(e.index);
    ParseDec(e.limit);
    ParseFront(e.aux, lost);
    BoundedRoundTrip(e.block, TEXT_MAX);
    BoundedRoundTrip(e.reason, TEXT_MAX);
  }

  lemma ParseFront(n: UInt32, lost: nat)
    requires lost < |Dec(n)|
    ensures ParseU32Strict(Dec(n)[..|Dec(n)| - lost]) == Some(Shortened(n, lost))
  {
    FrontOfNumber(n, lost);
    ParseDigits(Dec(n)[..|Dec(n)| - lost]);
  }

  lemma MeaningNeedsKind(f: Fields, kind: Int32)
    requires f.kind == DecInt(kind) && !KindIsValid(kind)
    ensures Meaning(f) == None
  {
    hide DecodeBounded, SizeField, U32Field;
    if kind >= 0 {
      ParseDec(kind);
    }
  }

  /** A line that was cut: exactly what is accepted of it. A cut that spares a digit of the last
      number is not noticed, and the event comes back with a number that was never logged. */
  lemma CutLineExactly(e: Event, lost: nat)
    requires IsCEvent(e) && lost <= |EventText(Some(e))|
    ensures Accepted(EventText(Some(e))[..|EventText(Some(e))| - lost]) == Delivered(e, lost)
  {
    hide Join, Split, Meaning, Dec, DecInt, EncodeBounded, Fields.Lack;
    var f, line := FieldsOf(e), EventText(Some(e));
    KeysAreCommaFree();
    FieldsLack(e, ',');
    LineLength(f);
    if lost >= |Dec(e.aux)| {
      LastTokenCut(line, f, KEYS, |line| - lost);
    } else {
      FrontAccepted(e, lost);
    }
  }

  lemma FrontAccepted(e: Event, lost: nat)
    requires IsCEvent(e) && lost < |Dec(e.aux)| && lost <= |EventText(Some(e))|
    ensures Accepted(EventText(Some(e))[..|EventText(Some(e))| - lost]) == Delivered(e, lost)
  {
    hide Join, Split, Meaning, Dec, DecInt, EncodeBounded;
    var f := FieldsOf(e);
    var g := f.(aux := f.aux[..|f.aux| - lost]);
    KeysAreCommaFree();
    FieldsLack(e, ',');
    FrontLine(f, KEYS, lost);
    SplitTokens(g, KEYS);
    FieldValuesOf(g, KEYS);
    ReadableFields(e);
    if KindIsValid(e.kind) {
      MeaningOfFront(e, lost);
    } else {
      MeaningNeedsKind(g, e.kind);
    }
  }

  lemma ReadableFields(e: Event)
    ensures FieldsOf(e).kind != "" && FieldsOf(e).index != "" && FieldsOf(e).limit != ""
    ensures FieldsOf(e).block != "" <==> e.block != ""
    ensures FieldsOf(e).reason != "" <==> e.reason != ""
  {
    if e.block != "" {
      BoundedNonEmpty(e.block);
    }
    if e.reason != "" {
      BoundedNonEmpty(e.reason);
    }
  }

  /** Formatting then parsing delivers what the value buffers carried. */
  lemma ParseFormatted(e: Event)
    requires IsCEvent(e) && Readable(e)
    ensures ParseLine(FieldsOf(e).Line()) == Some(Carried(e))
  {
    hide ParseLine;
    CutLineExactly(e, 0);
    assert EventText(Some(e))[..|EventText(Some(e))| - 0] == EventText(Some(e));
  }

  /** A line that was cut, anywhere, never parses back to its event. */
  lemma CutLineDiffers(e: Event, lost: nat)
    requires IsCEvent(e) && 0 < lost <= |EventText(Some(e))|
    ensures Accepted(EventText(Some(e))[..|EventText(Some(e))| - lost]) != [e]
  {
    CutLineExactly(e, lost);
    if lost < |Dec(e.aux)| {
      assert e.aux > 0;
    }
  }

  /** The condition under which an event survives a line of at most `room` bytes. */
  predicate Exportable(e: Event, room: nat) {
    && KindIsValid(e.kind)
    && e.block != "" && |Encode(e.block)| <= TEXT_MAX
    && e.reason != "" && |Encode(e.reason)| <= TEXT_MAX
    && |EventText(Some(e))| <= room
  }

  /** The event line is reversible exactly for exportable events: the documentation promises
      it for all, and each part of the condition is needed. */
  lemma RoundTripExactly(e: Event, room: nat)
    requires IsCEvent(e)
    ensures ParseLine(Cut(EventText(Some(e)), room)) == Some(e) <==> Exportable(e, room)
  {
    hide EventText, Delivered, ParseLine;
    var line := EventText(Some(e));
    var lost := Monus(|line|, room);
    assert Cut(line, room) == line[..|line| - lost];
    if lost > 0 {
      CutLineDiffers(e, lost);
    } else {
      CutLineExactly(e, 0);
      WholeDelivered(e);
    }
  }

  lemma WholeDelivered(e: Event)
    ensures Delivered(e, 0) == [e] <==>
            Readable(e) && |Encode(e.block)| <= TEXT_MAX && |Encode(e.reason)| <= TEXT_MAX
  {
    hide Kept, Encode;
    KeptWhole(e.block, TEXT_MAX);
    KeptWhole(e.reason, TEXT_MAX);
    assert e.block[..|e.block|] == e.block && e.reason[..|e.reason|] == e.reason;
    assert |Carried(e).block| == Kept(e.block, TEXT_MAX) && |Carried(e).reason| == Kept(e.reason, TEXT_MAX);
  }

  lemma {:induction false} JoinLacks(ts: seq<string>, c: char)
    requires |ts| >= 1 && c != ',' && forall i :: 0 <= i < |ts| ==> c !in ts[i]
    ensures c !in Join(ts)
  {
    if |ts| > 1 {
      JoinLacks(ts[1..], c);
    }
  }

  lemma TokensLack(f: Fields, keys: seq<string>, c: char)
    requires |keys| == 6 && forall i :: 0 <= i < 6 ==> c !in keys[i]
    requires f.Lack(c) && c != '=' && c != ','
    ensures c !in Join(f.Tokens(keys))
  {
    assert forall k, v :: c in Token(k, v) <==> c in k || c in v;
    JoinLacks(f.Tokens(keys), c);
  }

  /** A formatted line is one line, and a C string. */
  lemma LineLacks(e: Event, c: char)
    requires IsCEvent(e)
    requires c == '\n' || c == '\r' || c == '\0'
    ensures c !in EventText(Some(e))
  {
    FieldsLack(e, c);
    TokensLack(FieldsOf(e), KEYS, c);
  }

  lemma {:induction false} JoinLength(ts: seq<string>)
    requires |ts| == 6
    ensures |Join(ts)| == |ts[0]| + |ts[1]| + |ts[2]| + |ts[3]| + |ts[4]| + |ts[5]| + 5
  {
    assert |Join(ts)| == |ts[0]| + 1 + |Join(ts[1..])|;
    assert |Join(ts[1..])| == |ts[1]| + 1 + |Join(ts[1..][1..])|;
    assert ts[1..][1..] == ts[2..] && ts[2..][1..] == ts[3..] && ts[3..][1..] == ts[4..] && ts[4..][1..] == ts[5..];
    assert |Join(ts[2..])| == |ts[2]| + 1 + |Join(ts[3..])|;
    assert |Join(ts[3..])| == |ts[3]| + 1 + |Join(ts[4..])|;
    assert |Join(ts[4..])| == |ts[4]| + 1 + |Join(ts[5..])|;
  }

  lemma LineLength(f: Fields)
    ensures |f.Line()| == 39 + |f.kind| + |f.block| + |f.reason| + |f.index| + |f.limit| + |f.aux|
  {
    JoinLength(f.Tokens(KEYS));
  }

  /** The line always fits when the two encoded texts take at most 68 bytes together... */
  lemma ShortTextsFit(e: Event)
    requires KindIsValid(e.kind)
    requires |EncodeBounded(e.block, TEXT_MAX)| + |EncodeBounded(e.reason, TEXT_MAX)| <= 68
    ensures |EventText(Some(e))| <= LINE_MAX
  {
    LineLength(FieldsOf(e));
    NumberLengths(e);
  }

  /** ...and 68 is the best bound: with 69 bytes of text a line can be cut. */
  lemma SixtyNineCanBeCut(e: Event)
    requires |EncodeBounded(e.block, TEXT_MAX)| + |EncodeBounded(e.reason, TEXT_MAX)| == 69
    requires e.kind == KIND_MAX && e.index == e.limit == SIZE_MAX && e.aux == UINT32_MAX
    ensures |EventText(Some(e))| == LINE_MAX + 1
  {
    LineLength(FieldsOf(e));
    NumberLengths(e);
    WordLengths();
    DecLength(SIZE_MAX, 19);
    DecLength(UINT32_MAX, 9);
    DecLength(KIND_MAX, 1);
    assert Pow10(1) == 10;
  }

  /** One pass normalises: parsing a formatted line and formatting the result gives the same
      line again, even when the first pass shortened a text. */
  lemma OnePassNormalises(e: Event)
    requires IsCEvent(e) && KindIsValid(e.kind) && e.block != "" && e.reason != ""
    ensures var parsed := ParseLine(EventText(Some(e)));
            parsed.Some? && EventText(parsed) == EventText(Some(e))
  {
    ParseFormatted(e);
    EncodeBoundedIdempotent(e.block, TEXT_MAX);
    EncodeBoundedIdempotent(e.reason, TEXT_MAX);
  }
}
