/** The percent codec for `block` and `reason` values: `lox_encode_kv_value` and
    `lox_decode_kv_value_n` with their buffer cut-offs, over buffers of any size. */
module PercentCodec {
  import opened Text

  predicate Reserved(c: char) {
    c == ',' || c == '\n' || c == '\r' || c == '=' || c == '%'
  }

  /** The value of a hex digit of either case, or -1. */
  function HexValue(c: char): int {
    if '0' <= c <= '9' then c as int - '0' as int
    else if 'a' <= c <= 'f' then c as int - 'a' as int + 10
    else if 'A' <= c <= 'F' then c as int - 'A' as int + 10
    else -1
  }

  function HexDigit(n: nat): char
    requires n < 16
  {
    "0123456789ABCDEF"[n]
  }

  predicate UpperHex(c: char) {
    '0' <= c <= '9' || 'A' <= c <= 'F'
  }

  function EncodeChar(c: char): string {
    if Reserved(c) then ['%', HexDigit(c as int / 16), HexDigit(c as int % 16)] else [c]
  }

  /** The unbounded encoding of a whole text. */
  function Encode(s: string): string {
    if s == "" then "" else EncodeChar(s[0]) + Encode(s[1..])
  }

  /** How many characters of s the encoder consumes when `room` output bytes are free. */
  function Kept(s: string, room: nat): (k: nat)
    ensures k <= |s|
  {
    if s == "" || |EncodeChar(s[0])| > room then 0
    else 1 + Kept(s[1..], room - |EncodeChar(s[0])|)
  }

  /** The encoder's output for `room` free bytes: no escape is ever split. */
  function EncodeBounded(s: string, room: nat): string {
    Encode(s[..Kept(s, room)])
  }

  /** A complete triplet at the head of t that names a byte. */
  predicate TripletAt(t: string) {
    |t| > 2 && t[0] == '%' && HexValue(t[1]) >= 0 && HexValue(t[2]) >= 0
  }

  function TripletChar(t: string): char
    requires TripletAt(t)
  {
    (HexValue(t[1]) * 16 + HexValue(t[2])) as char
  }

  /** The decoder: at most `room` bytes are kept, and a kept triplet must not name NUL.
      A '%' that starts no triplet stands for itself. */
  function DecodeBounded(t: string, room: nat): Option<string> {
    if t == "" || room == 0 then Some("")
    else if TripletAt(t) then
      if TripletChar(t) == '\0' then None else Prepend([TripletChar(t)], DecodeBounded(t[3..], room - 1))
    else
      Prepend([t[0]], DecodeBounded(t[1..], room - 1))
  }

  function Prepend(p: string, r: Option<string>): Option<string> {
    if r.Some? then Some(p + r.value) else None
  }

  /** What the encoder writes: no separator survives, and every '%' starts an upper-case
      triplet that names a reserved byte. */
  predicate Clean(t: string) {
    t == "" ||
    if t[0] == '%' then |t| > 2 && UpperHex(t[1]) && UpperHex(t[2]) && Reserved(TripletChar(t)) && Clean(t[3..])
    else !Reserved(t[0]) && Clean(t[1..])
  }

  // ---------------------------------------------------------------------------------
  // Encoder
  // ---------------------------------------------------------------------------------

  lemma {:induction false} EncodeConcat(s: string, t: string)
    ensures Encode(s + t) == Encode(s) + Encode(t)
  {
    if s == "" {
      assert s + t == t;
    } else {
      assert (s + t)[0] == s[0] && (s + t)[1..] == s[1..] + t;
      EncodeConcat(s[1..], t);
    }
  }

  lemma EncodeSnoc(s: string, i: nat)
    requires i < |s|
    ensures Encode(s[..i + 1]) == Encode(s[..i]) + EncodeChar(s[i])
  {
    assert s[..i + 1] == s[..i] + [s[i]];
    EncodeConcat(s[..i], [s[i]]);
    assert Encode([s[i]]) == EncodeChar(s[i]) + Encode([s[i]][1..]) == EncodeChar(s[i]);
  }

  /** `Kept` is the largest count that fits: a prefix fits exactly when it is no longer. */
  lemma {:induction false} KeptIsLargest(s: string, room: nat, k: nat)
    requires k <= |s|
    ensures |Encode(s[..k])| <= room <==> k <= Kept(s, room)
  {
    if k > 0 {
      assert s[..k][0] == s[0] && s[..k][1..] == s[1..][..k - 1];
      if |EncodeChar(s[0])| <= room {
        KeptIsLargest(s[1..], room - |EncodeChar(s[0])|, k - 1);
      }
    }
  }

  /** A loop that stopped at k because the next character did not fit has kept `Kept`. */
  lemma KeptUnique(s: string, room: nat, k: nat)
    requires k <= |s| && |Encode(s[..k])| <= room
    requires k < |s| ==> |Encode(s[..k + 1])| > room
    ensures k == Kept(s, room)
  {
    KeptIsLargest(s, room, k);
    if k < |s| {
      KeptIsLargest(s, room, k + 1);
    }
  }

  lemma EncodedLength(c: char)
    ensures |EncodeChar(c)| == if Reserved(c) then 3 else 1
  {
  }

  lemma {:induction false} EncodeNonEmpty(s: string)
    ensures |Encode(s)| >= |s|
  {
    if s != "" {
      EncodeNonEmpty(s[1..]);
    }
  }

  /** A text without reserved characters is written as it is. */
  lemma {:induction false} EncodePlain(s: string)
    requires forall i :: 0 <= i < |s| ==> !Reserved(s[i])
    ensures Encode(s) == s
  {
    if s != "" {
      EncodePlain(s[1..]);
    }
  }

  /** The encoding of every text, character by character. */
  lemma EncodesExactly(c: char, t: string)
    ensures Encode("") == ""
    ensures Encode([c] + t) ==
            (if c == ',' then "%2C" else if c == '\n' then "%0A" else if c == '\r' then "%0D"
             else if c == '=' then "%3D" else if c == '%' then "%25" else [c]) + Encode(t)
  {
    assert ([c] + t)[0] == c && ([c] + t)[1..] == t;
    assert HexDigit(2) == '2' && HexDigit(12) == 'C' && HexDigit(0) == '0' && HexDigit(10) == 'A' &&
           HexDigit(13) == 'D' && HexDigit(3) == '3' && HexDigit(5) == '5';
  }

  /** The five escapes, and no others. */
  lemma FiveEscapes(s: string)
    ensures Encode(",") == "%2C" && Encode("\n") == "%0A" && Encode("\r") == "%0D" && Encode("=") == "%3D" &&
            Encode("%") == "%25"
    ensures ',' !in s && '\n' !in s && '\r' !in s && '=' !in s && '%' !in s ==> Encode(s) == s
  {
    EncodesExactly(',', "");
    EncodesExactly('\n', "");
    EncodesExactly('\r', "");
    EncodesExactly('=', "");
    EncodesExactly('%', "");
    if ',' !in s && '\n' !in s && '\r' !in s && '=' !in s && '%' !in s {
      EncodePlain(s);
    }
  }

  lemma {:induction false} EncodeNulFree(s: string)
    requires NulFree(s)
    ensures NulFree(Encode(s))
  {
    if s != "" {
      EncodeNulFree(s[1..]);
      assert '\0' !in EncodeChar(s[0]);
    }
  }

  /** The sixteen digits in both cases are all there are. */
  lemma HexDigitsAre(c: char, m: nat)
    requires m < 16
    ensures HexValue("0123456789ABCDEF"[m]) == m && HexValue("0123456789abcdef"[m]) == m
    ensures HexValue(c) >= 0 <==> c in "0123456789ABCDEFabcdef"
  {
    var digits := "0123456789ABCDEFabcdef";
    if HexValue(c) >= 0 {
      assert c == digits[if 'a' <= c <= 'f' then HexValue(c) + 6 else HexValue(c)];
    }
  }

  lemma HexRoundTrip(c: char)
    requires Reserved(c)
    ensures TripletAt(EncodeChar(c)) && TripletChar(EncodeChar(c)) == c
    ensures UpperHex(EncodeChar(c)[1]) && UpperHex(EncodeChar(c)[2])
  {
    assert c as int in {10, 13, 37, 44, 61};
  }

  lemma {:induction false} EncodeIsClean(s: string)
    ensures Clean(Encode(s))
  {
    if s != "" {
      EncodeIsClean(s[1..]);
      var t := Encode(s);
      if Reserved(s[0]) {
        HexRoundTrip(s[0]);
        assert t[3..] == Encode(s[1..]);
      } else {
        assert t[1..] == Encode(s[1..]);
      }
    }
  }

  lemma {:induction false} CleanHasNoSeparator(t: string, i: nat)
    requires Clean(t) && i < |t|
    ensures t[i] != ',' && t[i] != '\n' && t[i] != '\r' && t[i] != '='
  {
    if t[0] == '%' {
      if i >= 3 {
        CleanHasNoSeparator(t[3..], i - 3);
      }
    } else if i >= 1 {
      CleanHasNoSeparator(t[1..], i - 1);
    }
  }

  /** The encoder for a NUL-free text and any buffer: it writes the encoding of the largest
      prefix that fits, then a terminator, and leaves the rest of the buffer alone. */
  method EncodeKvValue(dst: array<char>, src: string)
    modifies dst
    ensures dst.Length > 0 ==>
              var e := EncodeBounded(src, dst.Length - 1);
              |e| < dst.Length && dst[..|e|] == e && dst[|e|] == '\0' &&
              forall j :: |e| < j < dst.Length ==> dst[j] == old(dst[j])
  {
    hide HexDigit, Kept;
    if dst.Length == 0 {
      return;
    }
    var pos, i := 0, 0;
    while i < |src| && pos + 1 < dst.Length
      invariant i <= |src| && pos < dst.Length
      invariant dst[..pos] == Encode(src[..i])
      invariant forall j :: pos <= j < dst.Length ==> dst[j] == old(dst[j])
    {
      var c := src[i];
      ghost var before := dst[..pos];
      EncodeSnoc(src, i);
      EncodedLength(c);
      if Reserved(c) {
        if pos + 3 >= dst.Length {
          break;
        }
        dst[pos], dst[pos + 1], dst[pos + 2] := '%', HexDigit(c as int / 16), HexDigit(c as int % 16);
        assert dst[..pos + 3] == before + EncodeChar(c);
        pos := pos + 3;
      } else {
        dst[pos] := c;
        assert dst[..pos + 1] == before + EncodeChar(c);
        pos := pos + 1;
      }
      i := i + 1;
    }
    if i < |src| {
      EncodeSnoc(src, i);
    }
    KeptUnique(src, dst.Length - 1, i);
    ghost var e := dst[..pos];
    assert e == EncodeBounded(src, dst.Length - 1);
    dst[pos] := '\0';
    assert dst[..pos] == e;
  }

  // ---------------------------------------------------------------------------------
  // Decoder
  // ---------------------------------------------------------------------------------

  /** The units of an encoded text, complete triplets and single characters. */
  function UnitsOf(t: string): (us: seq<string>)
    decreases |t|
  {
    if t == "" then [] else if TripletAt(t) then [t[..3]] + UnitsOf(t[3..]) else [t[..1]] + UnitsOf(t[1..])
  }

  function Concat(us: seq<string>): string {
    if us == [] then "" else us[0] + Concat(us[1..])
  }

  /** u is the unit a reader finds at the head of a text. */
  predicate IsUnit(u: string, rest: string) {
    u <= rest && |u| == if TripletAt(rest) then 3 else 1
  }

  /** The units us, one after the other, are the text t, each of them the one a reader finds. */
  ghost predicate UnitsRead(t: string, us: seq<string>) {
    t == Concat(us) && forall i :: 0 <= i < |us| ==> IsUnit(us[i], Concat(us[i..]))
  }

  predicate NamesNul(u: string) {
    TripletAt(u) && TripletChar(u) == '\0'
  }

  /** The character a unit stands for. */
  function UnitChar(u: string): char {
    if TripletAt(u) then TripletChar(u) else if u == "" then '\0' else u[0]
  }

  function Chars(us: seq<string>): (s: string)
    ensures |s| == |us|
  {
    if us == [] then "" else [UnitChar(us[0])] + Chars(us[1..])
  }

  /** The text t stands for s where `room` characters are kept: t is made of units, s is what the
      first `room` of them stand for, and none of those names NUL. */
  ghost predicate SpellsText(t: string, room: nat, s: string) {
    exists us :: UnitsRead(t, us) && SpelledBy(us, room, s)
  }

  predicate SpelledBy(us: seq<string>, room: nat, s: string) {
    && s == Chars(us[..Min(|us|, room)])
    && forall i :: 0 <= i < Min(|us|, room) ==> !NamesNul(us[i])
  }

  lemma UnitsReadCons(u: string, t: string, us: seq<string>)
    ensures UnitsRead(u + t, [u] + us) <==> IsUnit(u, u + t) && UnitsRead(t, us)
  {
    var all := [u] + us;
    assert Concat(all) == u + Concat(us);
    assert all[0..] == all && forall i :: 0 <= i < |us| ==> all[i + 1..] == us[i..];
    if UnitsRead(u + t, all) {
      assert (u + t)[|u|..] == t && (u + Concat(us))[|u|..] == Concat(us);
      assert IsUnit(all[0], Concat(all[0..]));
      forall i | 0 <= i < |us| ensures IsUnit(us[i], Concat(us[i..])) {
        assert IsUnit(all[i + 1], Concat(all[i + 1..]));
      }
    }
    if IsUnit(u, u + t) && UnitsRead(t, us) {
      forall i | 0 <= i < |all| ensures IsUnit(all[i], Concat(all[i..])) {
        if i > 0 {
          assert IsUnit(us[i - 1], Concat(us[i - 1..]));
        }
      }
    }
  }

  /** Every text is read in one way only. */
  lemma {:induction false} ReadingIsUnique(t: string, us: seq<string>)
    ensures UnitsRead(t, us) <==> us == UnitsOf(t)
    decreases |t|, |us|
  {
    if t == "" {
      if us != [] {
        FirstUnit(t, us);
      }
    } else {
      var n := if TripletAt(t) then 3 else 1;
      assert t == t[..n] + t[n..] && UnitsOf(t) == [t[..n]] + UnitsOf(t[n..]);
      if us == [] {
        assert !UnitsRead(t, us);
      } else {
        assert us == [us[0]] + us[1..];
        FirstUnit(t, us);
        if us[0] == t[..n] {
          UnitsReadCons(us[0], t[n..], us[1..]);
          ReadingIsUnique(t[n..], us[1..]);
          assert UnitsOf(t)[1..] == UnitsOf(t[n..]);
        }
      }
    }
  }

  lemma FirstUnit(t: string, us: seq<string>)
    requires us != []
    ensures UnitsRead(t, us) ==> IsUnit(us[0], t)
  {
    assert us[0..] == us;
    if UnitsRead(t, us) {
      assert IsUnit(us[0], Concat(us[0..]));
    }
  }

  lemma UnitAlone(t: string)
    requires TripletAt(t)
    ensures TripletAt(t[..3]) && TripletChar(t[..3]) == TripletChar(t)
  {
  }

  /** One step of the decoder is one unit. */
  lemma UnitDecoded(t: string, room: nat)
    requires t != "" && room > 0
    ensures var u := UnitsOf(t)[0];
            && |u| <= |t| && UnitsOf(t) == [u] + UnitsOf(t[|u|..])
            && DecodeBounded(t, room) ==
               if NamesNul(u) then None else Prepend([UnitChar(u)], DecodeBounded(t[|u|..], room - 1))
  {
    hide HexValue, TripletChar;
    if TripletAt(t) {
      UnitAlone(t);
    }
  }

  lemma {:induction false} DecodedUnits(t: string, room: nat)
    ensures var us := UnitsOf(t);
            var n := Min(|us|, room);
            && (DecodeBounded(t, room).None? <==> exists i :: 0 <= i < n && NamesNul(us[i]))
            && (DecodeBounded(t, room).Some? ==> DecodeBounded(t, room).value == Chars(us[..n]))
    decreases |t|
  {
    hide DecodeBounded, NamesNul, UnitChar, Chars;
    if t != "" && room > 0 {
      UnitDecoded(t, room);
      var us := UnitsOf(t);
      var k := |us[0]|;
      assert us[0] != "";
      DecodedUnits(t[k..], room - 1);
      UnitsCons(us[0], UnitsOf(t[k..]), room);
    } else {
      NothingDecoded(t, room);
      assert UnitsOf(t)[..0] == [];
    }
  }

  lemma NothingDecoded(t: string, room: nat)
    requires t == "" || room == 0
    ensures DecodeBounded(t, room) == Some("") && Chars([]) == ""
  {
  }

  lemma UnitsCons(u: string, rest: seq<string>, room: nat)
    requires room > 0
    ensures var us := [u] + rest;
            var n := Min(|us|, room);
            var m := Min(|rest|, room - 1);
            && Chars(us[..n]) == [UnitChar(u)] + Chars(rest[..m])
            && ((exists i :: 0 <= i < n && NamesNul(us[i])) <==> NamesNul(u) || exists i :: 0 <= i < m && NamesNul(rest[i]))
  {
    hide NamesNul, UnitChar;
    var us := [u] + rest;
    var n, m := Min(|us|, room), Min(|rest|, room - 1);
    assert us[..n][0] == u && us[..n][1..] == rest[..m];
    assert forall i :: 0 <= i < m ==> us[i + 1] == rest[i];
    if exists i :: 0 <= i < n && NamesNul(us[i]) {
      var i :| 0 <= i < n && NamesNul(us[i]);
      assert i > 0 ==> NamesNul(rest[i - 1]);
    }
    assert us[0] == u;
  }

  /** The decoder accepts exactly the texts that stand for something, and gives what they stand
      for; it refuses exactly those with a triplet that names NUL among the units it keeps. */
  lemma DecodesExactly(t: string, room: nat, s: string)
    ensures DecodeBounded(t, room) == Some(s) <==> SpellsText(t, room, s)
    ensures DecodeBounded(t, room).None? <==>
            exists us, i :: UnitsRead(t, us) && 0 <= i < Min(|us|, room) && NamesNul(us[i])
  {
    hide UnitsRead, UnitsOf, Chars, NamesNul, DecodeBounded;
    DecodedUnits(t, room);
    forall us ensures UnitsRead(t, us) <==> us == UnitsOf(t) {
      ReadingIsUnique(t, us);
    }
    assert UnitsRead(t, UnitsOf(t));
  }

  /** What the decoder has written when it stops, at the end or at a triplet that names NUL. */
  function Sound(t: string, room: nat): string {
    if t == "" || room == 0 then ""
    else if TripletAt(t) then
      if TripletChar(t) == '\0' then "" else [TripletChar(t)] + Sound(t[3..], room - 1)
    else [t[0]] + Sound(t[1..], room - 1)
  }

  lemma {:induction false} DecodedShape(t: string, room: nat)
    requires NulFree(t)
    ensures DecodeBounded(t, room).Some? ==>
              var s := DecodeBounded(t, room).value;
              |s| <= room && |s| <= |t| && NulFree(s) && (t != "" && room > 0 ==> s != "")
  {
    if t == "" || room == 0 {
    } else if TripletAt(t) {
      DecodedShape(t[3..], room - 1);
    } else {
      DecodedShape(t[1..], room - 1);
    }
  }

  lemma PrependSplit(p: string, q: string, r: Option<string>)
    ensures Prepend(p, Prepend(q, r)) == Prepend(p + q, r)
    ensures Prepend("", r) == r
  {
    if r.Some? {
      assert p + (q + r.value) == (p + q) + r.value;
      assert "" + r.value == r.value;
    }
  }

  lemma DecodeEncodedChar(c: char, t: string, room: nat)
    requires c != '\0' && room > 0
    ensures DecodeBounded(EncodeChar(c) + t, room) == Prepend([c], DecodeBounded(t, room - 1))
  {
    var u := EncodeChar(c) + t;
    if Reserved(c) {
      HexRoundTrip(c);
      assert u[..3] == EncodeChar(c) && u[3..] == t;
      assert TripletAt(u) && TripletChar(u) == c;
    } else {
      assert u[0] == c && u[1..] == t && !TripletAt(u);
    }
  }

  /** The decoding of every text, unit by unit: any two hex digits of either case behind '%' name
      a byte, which must not be NUL... */
  lemma DecodesTriplet(a: char, b: char, m: nat, n: nat, t: string, room: nat)
    requires m < 16 && (a == "0123456789ABCDEF"[m] || a == "0123456789abcdef"[m])
    requires n < 16 && (b == "0123456789ABCDEF"[n] || b == "0123456789abcdef"[n])
    ensures DecodeBounded(['%', a, b] + t, room + 1) ==
            if m == 0 && n == 0 then None else Prepend([(16 * m + n) as char], DecodeBounded(t, room))
  {
    HexDigitsAre(a, m);
    HexDigitsAre(b, n);
    var u := ['%', a, b] + t;
    assert u[3..] == t && TripletAt(u) && TripletChar(u) == (16 * m + n) as char;
  }

  /** ...and every other character stands for itself, until the room or the text ends. */
  lemma DecodesCharacter(c: char, t: string, room: nat)
    requires c == '%' ==>
               |t| < 2 || t[0] !in "0123456789ABCDEFabcdef" || t[1] !in "0123456789ABCDEFabcdef"
    ensures DecodeBounded([c] + t, room + 1) == Prepend([c], DecodeBounded(t, room))
    ensures DecodeBounded(t, 0) == Some("") && DecodeBounded("", room) == Some("")
  {
    var u := [c] + t;
    assert u[1..] == t;
    if |t| >= 2 {
      assert u[1] == t[0] && u[2] == t[1];
      HexDigitsAre(t[0], 0);
      HexDigitsAre(t[1], 0);
    }
    assert !TripletAt(u);
  }

  /** Decoding an encoding gives back the text, cut only by the decoder's own buffer. */
  lemma {:induction false} DecodeEncode(s: string, room: nat)
    requires NulFree(s)
    ensures DecodeBounded(Encode(s), room) == Some(Cut(s, room))
  {
    hide HexValue, TripletChar, HexDigit, TripletAt, EncodeChar;
    if s != "" && room > 0 {
      DecodeEncodedChar(s[0], Encode(s[1..]), room);
      DecodeEncode(s[1..], room - 1);
      assert Cut(s, room) == [s[0]] + Cut(s[1..], room - 1);
    }
  }

  /** The bounded codec: through one buffer size, what comes back is exactly what was kept. */
  lemma BoundedRoundTrip(s: string, room: nat)
    requires NulFree(s)
    ensures var k := Kept(s, room);
            && DecodeBounded(EncodeBounded(s, room), room) == Some(s[..k])
            && |EncodeBounded(s, room)| <= room
            && (k < |s| ==> |Encode(s[..k + 1])| > room)
            && Clean(EncodeBounded(s, room))
  {
    hide DecodeBounded, Encode, Clean;
    var k := Kept(s, room);
    KeptIsLargest(s, room, k);
    if k < |s| {
      KeptIsLargest(s, room, k + 1);
    }
    EncodeNonEmpty(s[..k]);
    DecodeEncode(s[..k], room);
    EncodeIsClean(s[..k]);
  }

  /** A text survives a buffer unharmed exactly when its encoding fits. */
  lemma KeptWhole(s: string, room: nat)
    ensures Kept(s, room) == |s| <==> |Encode(s)| <= room
  {
    KeptIsLargest(s, room, |s|);
    assert s[..|s|] == s;
  }

  /** Re-encoding a kept prefix changes nothing, however the first pass was cut. */
  lemma EncodeBoundedIdempotent(s: string, room: nat)
    ensures EncodeBounded(s[..Kept(s, room)], room) == EncodeBounded(s, room)
  {
    var p := s[..Kept(s, room)];
    KeptIsLargest(s, room, |p|);
    KeptWhole(p, room);
    assert p[..|p|] == p;
  }

  /** `done` is what was decoded of the first i bytes of a text. */
  ghost predicate Decoding(src: string, room: nat, i: nat, done: string)
    requires i <= |src| && |done| <= room
  {
    && Sound(src, room) == done + Sound(src[i..], room - |done|)
    && DecodeBounded(src, room) == Prepend(done, DecodeBounded(src[i..], room - |done|))
  }

  lemma DecodingStarts(src: string, room: nat)
    ensures Decoding(src, room, 0, "")
  {
    assert src[0..] == src;
    assert "" + Sound(src, room) == Sound(src, room);
    PrependSplit("", "", DecodeBounded(src, room));
  }

  lemma TripletDecoded(t: string, room: nat)
    requires TripletAt(t) && room > 0
    ensures if TripletChar(t) == '\0' then DecodeBounded(t, room) == None && Sound(t, room) == ""
            else DecodeBounded(t, room) == Prepend([TripletChar(t)], DecodeBounded(t[3..], room - 1)) &&
                 Sound(t, room) == [TripletChar(t)] + Sound(t[3..], room - 1)
  {
    hide HexValue, TripletChar;
  }

  lemma DecodingTriplet(src: string, room: nat, i: nat, done: string)
    requires i <= |src| && |done| < room && Decoding(src, room, i, done) && TripletAt(src[i..])
    ensures if TripletChar(src[i..]) == '\0' then DecodeBounded(src, room) == None && Sound(src, room) == done
            else Decoding(src, room, i + 3, done + [TripletChar(src[i..])])
  {
    hide DecodeBounded, Sound, HexValue, TripletChar;
    var c, rest := TripletChar(src[i..]), src[i..][3..];
    assert rest == src[i + 3..];
    TripletDecoded(src[i..], room - |done|);
    if c == '\0' {
      assert done + "" == done;
    } else {
      PrependSplit(done, [c], DecodeBounded(rest, room - |done| - 1));
      assert done + ([c] + Sound(rest, room - |done| - 1)) == (done + [c]) + Sound(rest, room - |done| - 1);
    }
  }

  lemma DecodingSingle(src: string, room: nat, i: nat, done: string)
    requires i < |src| && |done| < room && Decoding(src, room, i, done) && !TripletAt(src[i..])
    ensures Decoding(src, room, i + 1, done + [src[i]])
  {
    hide HexValue, TripletChar;
    var c, rest := src[i], src[i..][1..];
    assert rest == src[i + 1..];
    PrependSplit(done, [c], DecodeBounded(rest, room - |done| - 1));
    assert done + ([c] + Sound(rest, room - |done| - 1)) == (done + [c]) + Sound(rest, room - |done| - 1);
  }

  lemma DecodingEnds(src: string, room: nat, i: nat, done: string)
    requires i <= |src| && |done| <= room && Decoding(src, room, i, done) && (i == |src| || |done| == room)
    ensures DecodeBounded(src, room) == Some(done) && Sound(src, room) == done
  {
    assert done + "" == done;
  }

  /** The decoder over a C-string slice. On success the buffer holds a C string that is the
      decoded text; refusing a triplet for NUL is what makes that so. A refused text leaves what
      came before the triplet, without a terminator. */
  method DecodeKvValue(dst: array<char>, src: string) returns (ok: bool)
    requires NulFree(src)
    modifies dst
    ensures ok <==> dst.Length > 0 && DecodeBounded(src, dst.Length - 1).Some?
    ensures ok ==> CStr(dst[..]) == DecodeBounded(src, dst.Length - 1).value
    ensures dst.Length > 0 ==>
              var s := Sound(src, dst.Length - 1);
              |s| < dst.Length && dst[..|s|] == s &&
              forall j :: |s| + (if ok then 1 else 0) <= j < dst.Length ==> dst[j] == old(dst[j])
  {
    hide Decoding, DecodeBounded, Sound;
    if dst.Length == 0 {
      return false;
    }
    var pos, i := 0, 0;
    DecodingStarts(src, dst.Length - 1);
    while i < |src| && pos + 1 < dst.Length
      invariant i <= |src| && pos < dst.Length
      invariant forall j :: pos <= j < dst.Length ==> dst[j] == old(dst[j])
      invariant Decoding(src, dst.Length - 1, i, dst[..pos])
    {
      ghost var done := dst[..pos];
      if src[i] == '%' && i + 2 < |src| {
        var hi, lo := HexValue(src[i + 1]), HexValue(src[i + 2]);
        if hi >= 0 && lo >= 0 {
          DecodingTriplet(src, dst.Length - 1, i, done);
          var decoded := (hi * 16 + lo) as char;
          if decoded == '\0' {
            return false;
          }
          dst[pos] := decoded;
          assert dst[..pos + 1] == done + [decoded];
          pos, i := pos + 1, i + 3;
          continue;
        }
      }
      DecodingSingle(src, dst.Length - 1, i, done);
      dst[pos] := src[i];
      assert dst[..pos + 1] == done + [src[i]];
      pos, i := pos + 1, i + 1;
    }
    ghost var s := dst[..pos];
    DecodingEnds(src, dst.Length - 1, i, s);
    DecodedShape(src, dst.Length - 1);
    dst[pos] := '\0';
    assert dst[..pos] == s;
    CStrOfTerminated(dst[..], s);
    ok := true;
  }
}
