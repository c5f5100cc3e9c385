/** Fixed tables of named slots, as the per-block states and the failure streaks keep them:
    hashed names, first match, first free slot. Names are cut to 63 bytes when stored. */
module SlotTable {
  import opened Text

  const SLOTS: nat := 8

  datatype Slot<V> = Slot(inUse: bool, name: Row, hash: bv32, value: V)

  /** The default key stands for a null or empty block name. */
  function Key(name: Option<string>): (key: string)
    ensures key != ""
  {
    if name.None? || name.value == "" then "global" else name.value
  }

  // ---------------------------------------------------------------------------------
  // Name hashes
  // ---------------------------------------------------------------------------------

  function HashStep(h: bv32, c: char): bv32 {
    (h ^ ((c as int % 256) as bv32)) * 16777619
  }

  function HashFrom(h: bv32, key: string): bv32
    decreases |key|
  {
    if key == "" then h else HashFrom(HashStep(h, key[0]), key[1..])
  }

  /** The 32-bit FNV-1a hash of a name. */
  function NameHash(key: string): bv32 {
    HashFrom(2166136261, key)
  }

  lemma {:induction false} HashFromSnoc(h: bv32, key: string, c: char)
    ensures HashFrom(h, key + [c]) == HashStep(HashFrom(h, key), c)
    decreases |key|
  {
    hide HashStep;
    if key == "" {
      assert HashFrom(h, [c]) == HashFrom(HashStep(h, c), [c][1..]);
      assert key + [c] == [c] && [c][1..] == "";
    } else {
      assert (key + [c])[0] == key[0] && (key + [c])[1..] == key[1..] + [c];
      HashFromSnoc(HashStep(h, key[0]), key[1..], c);
    }
  }

  lemma HashSnoc(key: string, c: char)
    ensures NameHash("") == 2166136261
    ensures NameHash(key + [c]) == HashStep(NameHash(key), c)
  {
    hide HashStep;
    HashFromSnoc(2166136261, key, c);
  }

  lemma HashStepIs(h: bv32, c: char)
    ensures HashStep(h, c) == (h ^ ((c as int % 256) as bv32)) * 16777619
  {
  }

  /** The hash of every name, byte by byte: the basis and the prime of FNV-1a. */
  lemma HashIs(key: string, c: char)
    ensures NameHash("") == 2166136261
    ensures NameHash(key + [c]) == (NameHash(key) ^ ((c as int % 256) as bv32)) * 16777619
  {
    hide HashStep, NameHash, HashFrom;
    HashSnoc(key, c);
    HashStepIs(NameHash(key), c);
  }

  /** A missing or empty name stands for the block "global". */
  lemma KeyIs(name: Option<string>)
    ensures Key(None) == "global" && Key(Some("")) == "global"
    ensures name.Some? && name.value != "" ==> Key(name) == name.value
  {
  }

  /** `lox_block_key_hash`. */
  method HashKey(key: string) returns (hash: bv32)
    ensures hash == NameHash(key)
  {
    hash := 2166136261;
    var p := 0;
    assert key[0..] == key;
    while p < |key|
      invariant p <= |key| && HashFrom(hash, key[p..]) == NameHash(key)
    {
      assert key[p..][1..] == key[p + 1..];
      hash := HashStep(hash, key[p]);
      p := p + 1;
    }
    assert key[p..] == "";
  }

  // ---------------------------------------------------------------------------------
  // Searching
  // ---------------------------------------------------------------------------------

  /** `lox_block_name_matches`: in use, same hash, same name. */
  predicate Matches<V>(slot: Slot<V>, key: string) {
    slot.inUse && slot.hash == NameHash(key) && slot.name == key
  }

  /** The first slot that matches, or the length of the table. */
  function FirstMatch<V>(slots: seq<Slot<V>>, key: string): (i: nat)
    ensures i <= |slots| && (i < |slots| ==> Matches(slots[i], key))
    ensures forall j :: 0 <= j < i ==> !Matches(slots[j], key)
  {
    if slots == [] || Matches(slots[0], key) then 0 else 1 + FirstMatch(slots[1..], key)
  }

  function FirstFree<V>(slots: seq<Slot<V>>): (i: nat)
    ensures i <= |slots| && (i < |slots| ==> !slots[i].inUse)
    ensures forall j :: 0 <= j < i ==> slots[j].inUse
  {
    if slots == [] || !slots[0].inUse then 0 else 1 + FirstFree(slots[1..])
  }

  function NewSlot<V>(key: string, zero: V): Slot<V> {
    Slot(true, Cut(key, TEXT_MAX), NameHash(key), zero)
  }

  /** A lookup: the table afterwards and the slot found, which is the length of the table when
      the key is new and no slot is free. */
  function Lookup<V>(slots: seq<Slot<V>>, key: string, zero: V): (r: (seq<Slot<V>>, nat))
    ensures |r.0| == |slots| && r.1 <= |slots|
  {
    var m := FirstMatch(slots, key);
    var f := FirstFree(slots);
    if m < |slots| then (slots, m)
    else if f < |slots| then (slots[f := NewSlot(key, zero)], f)
    else (slots, |slots|)
  }

  lemma {:induction false} FirstMatchIs<V>(slots: seq<Slot<V>>, key: string, i: nat)
    requires i <= |slots| && (i < |slots| ==> Matches(slots[i], key))
    requires forall j :: 0 <= j < i ==> !Matches(slots[j], key)
    ensures FirstMatch(slots, key) == i
  {
    if i > 0 {
      FirstMatchIs(slots[1..], key, i - 1);
    }
  }

  lemma {:induction false} FirstFreeIs<V>(slots: seq<Slot<V>>, i: nat)
    requires i <= |slots| && (i < |slots| ==> !slots[i].inUse)
    requires forall j :: 0 <= j < i ==> slots[j].inUse
    ensures FirstFree(slots) == i
  {
    if i > 0 {
      FirstFreeIs(slots[1..], i - 1);
    }
  }

  predicate Found<V>(slots: seq<Slot<V>>, key: string) {
    FirstMatch(slots, key) < |slots|
  }

  /** The number of free slots. */
  function Free<V>(slots: seq<Slot<V>>): nat {
    if slots == [] then 0 else (if slots[0].inUse then 0 else 1) + Free(slots[1..])
  }

  lemma {:induction false} FreeIsSome<V>(slots: seq<Slot<V>>)
    ensures Free(slots) > 0 <==> FirstFree(slots) < |slots|
  {
    if slots != [] {
      FreeIsSome(slots[1..]);
    }
  }

  lemma {:induction false} FreeOfPut<V>(slots: seq<Slot<V>>, i: nat, s: Slot<V>)
    requires i < |slots| && s.inUse
    ensures Free(slots) == Free(slots[i := s]) + if slots[i].inUse then 0 else 1
  {
    var t := slots[i := s];
    if i == 0 {
      assert t[1..] == slots[1..];
    } else {
      FreeOfPut(slots[1..], i - 1, s);
      assert t[1..] == slots[1..][i - 1 := s];
    }
  }

  /** The slot a lookup ends at, if there is one. */
  function Place<V>(slots: seq<Slot<V>>, key: string): (i: nat)
    ensures i <= |slots|
  {
    if Found(slots, key) then FirstMatch(slots, key) else FirstFree(slots)
  }

  /** A key the table can keep: not cut when stored, and with a slot already or one left. */
  predicate Keeps<V>(slots: seq<Slot<V>>, key: string) {
    |key| <= TEXT_MAX && (Found(slots, key) || Free(slots) > 0)
  }

  lemma KeptPlace<V>(slots: seq<Slot<V>>, key: string)
    requires Keeps(slots, key)
    ensures Place(slots, key) < |slots|
  {
    FreeIsSome(slots);
  }

  /** Filling a slot with a name of its own: a search for that name now ends there. */
  lemma MatchPut<V>(slots: seq<Slot<V>>, key: string, s: Slot<V>)
    requires Place(slots, key) < |slots| && Matches(s, key)
    ensures FirstMatch(slots[Place(slots, key) := s], key) == Place(slots, key)
  {
    FirstMatchIs(slots[Place(slots, key) := s], key, Place(slots, key));
  }

  /** ...and no search for another name is changed. */
  lemma MatchOther<V>(slots: seq<Slot<V>>, i: nat, s: Slot<V>, other: string)
    requires i < |slots| && !Matches(slots[i], other) && !Matches(s, other)
    ensures FirstMatch(slots[i := s], other) == FirstMatch(slots, other)
  {
    FirstMatchIs(slots[i := s], other, FirstMatch(slots, other));
  }

  /** A slot opened by `previous` answers for `key`. */
  predicate Remembers(previous: string, key: string) {
    Cut(previous, TEXT_MAX) == key && NameHash(previous) == NameHash(key)
  }

  /** For names of at most 63 bytes this is equality; a longer name is forgotten at once. */
  lemma RemembersExactly(previous: string, key: string)
    ensures |previous| <= TEXT_MAX ==> (Remembers(previous, key) <==> previous == key)
    ensures previous == key ==> (Remembers(previous, key) <==> |key| <= TEXT_MAX)
  {
  }

  /** What the hash test filters out: a slot is found by its stored name exactly when that name
      was not cut, or was cut with no change to the hash. */
  lemma HashFilterExactly<V>(previous: string, v: V)
    ensures var s := NewSlot(previous, v);
            Matches(s, s.name) <==> |previous| <= TEXT_MAX || NameHash(Cut(previous, TEXT_MAX)) == NameHash(previous)
    ensures forall key: string :: Matches(NewSlot(previous, v), key) <==> Remembers(previous, key)
  {
  }

  /** A lookup that ends at a slot is repeatable exactly for names of at most 63 bytes; and no
      other slot is touched. */
  lemma LookupRepeatsExactly<V>(slots: seq<Slot<V>>, key: string, zero: V)
    ensures var (t, i) := Lookup(slots, key, zero);
            && (i < |slots| ==> (FirstMatch(t, key) == i <==> |key| <= TEXT_MAX))
            && (i == |slots| ==> t == slots && !Found(slots, key) && Free(slots) == 0)
            && forall j :: 0 <= j < |slots| && j != i ==> t[j] == slots[j]
  {
    FreeIsSome(slots);
    if |key| <= TEXT_MAX && Place(slots, key) < |slots| && !Found(slots, key) {
      MatchPut(slots, key, NewSlot(key, zero));
    }
  }

  // ---------------------------------------------------------------------------------
  // The table as a map
  // ---------------------------------------------------------------------------------

  /** A map that remembers the order in which its keys came. */
  datatype Book<V> = Book(keys: seq<string>, values: map<string, V>)

  ghost predicate Distinct(keys: seq<string>) {
    forall i, j :: 0 <= i < j < |keys| ==> keys[i] != keys[j]
  }

  /** The used slots are a prefix of the table, one for each key of the book, in order. */
  ghost predicate Represents<V>(slots: seq<Slot<V>>, book: Book<V>) {
    && |book.keys| <= |slots| && Distinct(book.keys)
    && (forall k :: k in book.values <==> k in book.keys)
    && (forall i :: 0 <= i < |book.keys| ==>
          |book.keys[i]| <= TEXT_MAX &&
          slots[i] == Slot(true, book.keys[i], NameHash(book.keys[i]), book.values[book.keys[i]]))
    && (forall i :: |book.keys| <= i < |slots| ==> !slots[i].inUse)
  }

  /** Looking a key up in a book for `capacity` keys. */
  function Open<V>(book: Book<V>, key: string, zero: V, capacity: nat): Book<V> {
    if key in book.values || |book.keys| >= capacity then book
    else Book(book.keys + [key], book.values[key := zero])
  }

  lemma {:induction false} FreeAfterPrefix<V>(slots: seq<Slot<V>>, n: nat)
    requires n <= |slots|
    requires forall i :: 0 <= i < |slots| ==> (slots[i].inUse <==> i < n)
    ensures FirstFree(slots) == n
  {
    if n > 0 {
      FreeAfterPrefix(slots[1..], n - 1);
    }
  }

  lemma FoundInBook<V>(slots: seq<Slot<V>>, book: Book<V>, key: string)
    requires Represents(slots, book)
    ensures Found(slots, key) <==> key in book.values
    ensures Found(slots, key) ==> FirstMatch(slots, key) < |book.keys| && book.keys[FirstMatch(slots, key)] == key
  {
    if key in book.values {
      var i :| 0 <= i < |book.keys| && book.keys[i] == key;
      assert Matches(slots[i], key);
    }
    if Found(slots, key) {
      var m := FirstMatch(slots, key);
      assert slots[m].inUse && book.keys[m] in book.keys;
    }
  }

  lemma OpenInBook<V>(slots: seq<Slot<V>>, book: Book<V>, key: string, zero: V)
    requires Represents(slots, book) && |key| <= TEXT_MAX && key !in book.values && |book.keys| < |slots|
    ensures Represents(slots[|book.keys| := NewSlot(key, zero)], Open(book, key, zero, |slots|))
  {
    assert Cut(key, TEXT_MAX) == key;
    assert forall k :: k in book.keys + [key] <==> k in book.keys || k == key;
  }

  /** A lookup finds the key's own slot, a fresh one at the end, or none in a full table; no
      slot of another key moves. */
  lemma LookupRefines<V>(slots: seq<Slot<V>>, book: Book<V>, key: string, zero: V)
    requires Represents(slots, book) && |key| <= TEXT_MAX
    ensures var r := Lookup(slots, key, zero);
            var b := Open(book, key, zero, |slots|);
            && Represents(r.0, b)
            && (key in b.values ==> r.1 < |b.keys| && b.keys[r.1] == key)
            && (key !in b.values ==> r.1 == |slots|)
  {
    FoundInBook(slots, book, key);
    if key !in book.values {
      FreeAfterPrefix(slots, |book.keys|);
      if |book.keys| < |slots| {
        OpenInBook(slots, book, key, zero);
      }
    }
  }

  /** Writing the found slot writes the key's value and no other. */
  lemma WriteRefines<V>(slots: seq<Slot<V>>, book: Book<V>, i: nat, v: V)
    requires Represents(slots, book) && i < |book.keys|
    ensures Represents(slots[i := slots[i].(value := v)], book.(values := book.values[book.keys[i] := v]))
  {
    assert book.keys[i] in book.keys;
  }

  // ---------------------------------------------------------------------------------
  // Whole runs
  // ---------------------------------------------------------------------------------

  /** Look a key up and change its value. */
  datatype Update<!V> = Update(key: string, change: V -> V)

  /** One update of a table; without a slot nothing in the table changes. */
  function Apply<V>(slots: seq<Slot<V>>, u: Update<V>, zero: V): (r: seq<Slot<V>>)
    ensures |r| == |slots|
  {
    var (s, i) := Lookup(slots, u.key, zero);
    if i < |s| then s[i := s[i].(value := u.change(s[i].value))] else s
  }

  function ApplyAll<V>(slots: seq<Slot<V>>, us: seq<Update<V>>, zero: V): (r: seq<Slot<V>>)
    ensures |r| == |slots|
  {
    if us == [] then slots else Apply(ApplyAll(slots, us[..|us| - 1], zero), us[|us| - 1], zero)
  }

  /** The first `capacity` different keys, in the order they came. */
  function KeysOf<V>(us: seq<Update<V>>, capacity: nat): (keys: seq<string>)
    ensures |keys| <= capacity
  {
    if us == [] then []
    else
      var keys, key := KeysOf(us[..|us| - 1], capacity), us[|us| - 1].key;
      if key in keys || |keys| >= capacity then keys else keys + [key]
  }

  /** What the updates of one key, and of no other, make of the initial value. */
  function Own<V>(us: seq<Update<V>>, key: string, zero: V): V {
    if us == [] then zero
    else
      var before := Own(us[..|us| - 1], key, zero);
      if us[|us| - 1].key == key then us[|us| - 1].change(before) else before
  }

  ghost function BookOf<V>(us: seq<Update<V>>, zero: V, capacity: nat): Book<V> {
    var keys := KeysOf(us, capacity);
    Book(keys, map k | k in keys :: Own(us, k, zero))
  }

  lemma {:induction false} OwnBeforeFirst<V>(us: seq<Update<V>>, key: string, zero: V, capacity: nat)
    requires key !in KeysOf(us, capacity) && |KeysOf(us, capacity)| < capacity
    ensures Own(us, key, zero) == zero
  {
    if us != [] {
      OwnBeforeFirst(us[..|us| - 1], key, zero, capacity);
    }
  }

  predicate ShortKeys<V>(us: seq<Update<V>>) {
    forall i :: 0 <= i < |us| ==> |us[i].key| <= TEXT_MAX
  }

  /** The table refines a map: after any sequence of lookups and updates with names of at most
      63 bytes, the first eight names hold the first eight slots, in order, and each holds what
      its own updates made of it, whatever was interleaved; later names leave no trace. */
  lemma {:induction false} TableRefinesMap<V>(empty: seq<Slot<V>>, us: seq<Update<V>>, zero: V)
    requires forall i :: 0 <= i < |empty| ==> !empty[i].inUse
    requires ShortKeys(us)
    ensures Represents(ApplyAll(empty, us, zero), BookOf(us, zero, |empty|))
  {
    if us != [] {
      var before, u := us[..|us| - 1], us[|us| - 1];
      TableRefinesMap(empty, before, zero);
      var slots, book := ApplyAll(empty, before, zero), BookOf(before, zero, |empty|);
      LookupRefines(slots, book, u.key, zero);
      var (s, i) := Lookup(slots, u.key, zero);
      var grown := Open(book, u.key, zero, |empty|);
      if u.key in grown.values {
        WriteRefines(s, grown, i, u.change(s[i].value));
        if u.key !in book.values {
          OwnBeforeFirst(before, u.key, zero, |empty|);
        }
        BookStep(us, zero, |empty|);
      } else {
        BookStep(us, zero, |empty|);
      }
    }
  }

  lemma BookStep<V>(us: seq<Update<V>>, zero: V, capacity: nat)
    requires us != []
    requires var u := us[|us| - 1];
             var book := BookOf(us[..|us| - 1], zero, capacity);
             u.key !in book.values && |book.keys| < capacity ==> Own(us[..|us| - 1], u.key, zero) == zero
    ensures var u := us[|us| - 1];
            var grown := Open(BookOf(us[..|us| - 1], zero, capacity), u.key, zero, capacity);
            BookOf(us, zero, capacity) ==
            if u.key in grown.values then grown.(values := grown.values[u.key := u.change(grown.values[u.key])])
            else grown
  {
  }
}
