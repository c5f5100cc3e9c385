/** The failure streaks behind quarantine: the table as it is written, which remembers a single
    block, and the table it was meant to be, which keeps eight apart. */
module FailureStreaks {
  import opened Text
  import opened EventLine
  import opened SlotTable

  /** The kinds that count as a failure of their block. */
  predicate IsFailure(kind: Int32) {
    kind == WRITE_OUT_OF_BOUNDS || kind == ARENA_OVERFLOW || kind == TIMEOUT || kind == MEMORY_FAULT ||
    kind == UNSUPPORTED || kind == ERROR || kind == PANIC || kind == FAULT
  }

  /** What an event does to its block's streak, a 32-bit counter. */
  function Bump(kind: Int32, streak: UInt32): UInt32 {
    if kind == OK then 0 else if IsFailure(kind) then (streak + 1) % (UINT32_MAX + 1) else streak
  }

  /** `lox_failure_streak_for_block` as written: a slot that does not match counts as free even
      when it is in use, so a new name always takes slot 0. */
  function StreakLookup(slots: seq<Slot<UInt32>>, key: string): (r: (seq<Slot<UInt32>>, nat))
    requires |slots| == SLOTS
    ensures |r.0| == SLOTS && r.1 < SLOTS
  {
    var m := FirstMatch(slots, key);
    if m < SLOTS then (slots, m) else (slots[0 := NewSlot(key, 0)], 0)
  }

  class StreakTable {
    const slots: array<Slot<UInt32>>

    ghost predicate Valid() {
      slots.Length == SLOTS
    }

    constructor ()
      ensures Valid() && fresh(slots)
      ensures forall i :: 0 <= i < SLOTS ==> !slots[i].inUse
    {
      slots := new Slot<UInt32>[SLOTS](_ => Slot(false, "", 0, 0));
    }

    /** `lox_failure_streak_for_block`. Its overflow record is dead code: after a search without
        a match slot 0 has always been taken for free. */
    method ForBlock(name: Option<string>) returns (found: nat)
      requires Valid()
      modifies slots
      ensures (slots[..], found) == StreakLookup(old(slots[..]), Key(name))
    {
      var key := Key(name);
      var keyHash := HashKey(key);
      var freeIdx := SLOTS;
      var i := 0;
      while i < SLOTS
        invariant i <= SLOTS && slots[..] == old(slots[..])
        invariant forall j :: 0 <= j < i ==> !Matches(slots[j], key)
        invariant freeIdx == if i == 0 then SLOTS else 0
      {
        if slots[i].inUse && slots[i].hash == keyHash && slots[i].name == key {
          FirstMatchIs(slots[..], key, i);
          return i;
        } else if freeIdx == SLOTS {
          freeIdx := i;
        }
        i := i + 1;
      }
      assert freeIdx == 0;
      FirstMatchIs(slots[..], key, SLOTS);
      slots[freeIdx] := Slot(true, Cut(key, TEXT_MAX), keyHash, 0);
      found := freeIdx;
    }

    /** The store behind the returned pointer. */
    method Bumped(i: nat, kind: Int32)
      requires Valid() && i < SLOTS
      modifies slots
      ensures slots[..] == old(slots[..])[i := old(slots[i]).(value := Bump(kind, old(slots[i]).value))]
    {
      slots[i] := slots[i].(value := Bump(kind, slots[i].value));
    }
  }

  // ---------------------------------------------------------------------------------
  // One entry
  // ---------------------------------------------------------------------------------

  /** One emission, as the streak table sees it. */
  datatype Sighting = Sighting(key: string, kind: Int32)

  predicate ShortNames(h: seq<Sighting>) {
    forall i :: 0 <= i < |h| ==> |h[i].key| <= TEXT_MAX
  }

  function Sight(slots: seq<Slot<UInt32>>, s: Sighting): (r: seq<Slot<UInt32>>)
    requires |slots| == SLOTS
    ensures |r| == SLOTS
  {
    var (t, i) := StreakLookup(slots, s.key);
    t[i := t[i].(value := Bump(s.kind, t[i].value))]
  }

  function SightAll(slots: seq<Slot<UInt32>>, h: seq<Sighting>): (r: seq<Slot<UInt32>>)
    requires |slots| == SLOTS
    ensures |r| == SLOTS
  {
    if h == [] then slots else Sight(SightAll(slots, h[..|h| - 1]), h[|h| - 1])
  }

  /** The failures since the last OK in the newest stretch of events of one block. */
  function Recent(h: seq<Sighting>): nat
    requires h != []
    decreases |h|, 1
  {
    Count(h[|h| - 1].kind, Carried(h))
  }

  /** The streak as an unbounded count. */
  function Count(kind: Int32, n: nat): nat {
    if kind == OK then 0 else n + if IsFailure(kind) then 1 else 0
  }

  /** The part of them that the event before the newest one left behind. */
  function Carried(h: seq<Sighting>): nat
    requires h != []
    decreases |h|, 0
  {
    var s, before := h[|h| - 1], h[..|h| - 1];
    if before != [] && Remembers(before[|before| - 1].key, s.key) then Recent(before) else 0
  }

  predicate AllFree(slots: seq<Slot<UInt32>>) {
    |slots| == SLOTS && forall i :: 0 <= i < SLOTS ==> !slots[i].inUse
  }

  /** Only slot 0 has ever been used. */
  ghost predicate OnlyFirst(t: seq<Slot<UInt32>>, empty: seq<Slot<UInt32>>)
    requires |t| == |empty| == SLOTS
  {
    forall j :: 1 <= j < SLOTS ==> t[j] == empty[j]
  }

  lemma SightFirst(t: seq<Slot<UInt32>>, empty: seq<Slot<UInt32>>, s: Sighting)
    requires AllFree(empty) && |t| == SLOTS && OnlyFirst(t, empty)
    ensures OnlyFirst(Sight(t, s), empty)
    ensures Sight(t, s)[0] ==
            if Matches(t[0], s.key) then t[0].(value := Bump(s.kind, t[0].value))
            else NewSlot(s.key, Bump(s.kind, 0))
  {
    FirstMatchIs(t, s.key, if Matches(t[0], s.key) then 0 else SLOTS);
  }

  lemma BumpWraps(kind: Int32, n: nat)
    ensures Bump(kind, n % (UINT32_MAX + 1)) == Count(kind, n) % (UINT32_MAX + 1)
  {
  }

  /** Slot 0 holds the name `key` with the count n, and nothing else is used. */
  ghost predicate Holds(t: seq<Slot<UInt32>>, empty: seq<Slot<UInt32>>, key: string, n: nat)
    requires |t| == |empty| == SLOTS
  {
    OnlyFirst(t, empty) && t[0] == Slot(true, Cut(key, TEXT_MAX), NameHash(key), n % (UINT32_MAX + 1))
  }

  lemma SightOfEmpty(empty: seq<Slot<UInt32>>, s: Sighting)
    requires AllFree(empty)
    ensures Holds(Sight(empty, s), empty, s.key, Count(s.kind, 0))
  {
    SightFirst(empty, empty, s);
    BumpWraps(s.kind, 0);
  }

  lemma SightAfter(t: seq<Slot<UInt32>>, empty: seq<Slot<UInt32>>, previous: string, n: nat, s: Sighting)
    requires AllFree(empty) && |t| == SLOTS && Holds(t, empty, previous, n)
    ensures Holds(Sight(t, s), empty, s.key, Count(s.kind, if Remembers(previous, s.key) then n else 0))
  {
    SightFirst(t, empty, s);
    BumpWraps(s.kind, n);
    BumpWraps(s.kind, 0);
  }

  /** As written the table is a memory of one entry: over every run slots 1 to 7 stay unused,
      and slot 0 holds the block seen last with its recent failures modulo 2^32. */
  lemma {:induction false} OneEntryMemory(empty: seq<Slot<UInt32>>, h: seq<Sighting>)
    requires AllFree(empty) && h != []
    ensures Holds(SightAll(empty, h), empty, h[|h| - 1].key, Recent(h))
  {
    var s, before := h[|h| - 1], h[..|h| - 1];
    if before == [] {
      SightOfEmpty(empty, s);
    } else {
      OneEntryMemory(empty, before);
      SightAfter(SightAll(empty, before), empty, before[|before| - 1].key, Recent(before), s);
    }
  }

  // ---------------------------------------------------------------------------------
  // The streak as it was meant
  // ---------------------------------------------------------------------------------

  /** The failures of a block since its own last OK, whatever other blocks did. */
  function Outstanding(h: seq<Sighting>, key: string): nat {
    if h == [] then 0
    else
      var s, before := h[|h| - 1], h[..|h| - 1];
      if s.key != key then Outstanding(before, key)
      else if s.kind == OK then 0
      else Outstanding(before, key) + if IsFailure(s.kind) then 1 else 0
  }

  /** Where the newest stretch of events begins that the table sees as one block's: a name of
      more than 63 bytes is a stretch of its own each time. */
  function StretchStart(h: seq<Sighting>): (i: nat)
    requires h != []
    ensures i < |h|
  {
    var key, before := h[|h| - 1].key, h[..|h| - 1];
    if before != [] && before[|before| - 1].key == key && |key| <= TEXT_MAX then StretchStart(before) else |before|
  }

  /** What a stretch starts with: nothing, but for the one event of a longer name that was cut to
      this one and has the same hash. */
  function Inherited(h: seq<Sighting>): nat
    requires h != []
  {
    var start := StretchStart(h);
    if start > 0 && Remembers(h[start - 1].key, h[|h| - 1].key) then Count(h[start - 1].kind, 0) else 0
  }

  /** A name of more than 63 bytes leaves its newest event only. */
  lemma RecentOfLong(h: seq<Sighting>)
    requires h != [] && |h[|h| - 1].key| > TEXT_MAX
    ensures Recent(h) == Count(h[|h| - 1].kind, 0)
  {
    hide NameHash, Count;
  }

  lemma StretchEnds(h: seq<Sighting>)
    requires |h| > 1 && StretchStart(h) == |h| - 1
    ensures h[|h| - 2].key != h[|h| - 1].key || |h[|h| - 1].key| > TEXT_MAX
  {
  }

  lemma CarriedAtStart(h: seq<Sighting>)
    requires h != [] && StretchStart(h) == |h| - 1
    ensures Carried(h) == Inherited(h)
  {
    hide NameHash, Remembers, Count, StretchStart, Recent;
    var s, before := h[|h| - 1], h[..|h| - 1];
    if before != [] && Remembers(before[|before| - 1].key, s.key) {
      StretchEnds(h);
      RemembersExactly(before[|before| - 1].key, s.key);
      RecentOfLong(before);
    }
  }

  /** The table meets its purpose exactly when the block of the newest event has had an OK since
      its stretch began, or what the stretch began with is what the block had outstanding then:
      for names of at most 63 bytes, nothing. */
  lemma {:induction false} MeantExactlyWhenNothingWasForgotten(h: seq<Sighting>)
    requires h != []
    ensures var key := h[|h| - 1].key;
            Recent(h) == Outstanding(h, key) <==>
            || Outstanding(h[..StretchStart(h)], key) == Inherited(h)
            || exists i :: StretchStart(h) <= i < |h| && h[i].kind == OK
    ensures ShortNames(h) ==> Inherited(h) == 0
  {
    hide NameHash;
    var s, before := h[|h| - 1], h[..|h| - 1];
    var start := StretchStart(h);
    if start == |before| {
      CarriedAtStart(h);
    } else {
      MeantExactlyWhenNothingWasForgotten(before);
      assert h[..start] == before[..start];
      assert forall i :: 0 <= i < |before| ==> h[i] == before[i];
      if exists i :: start <= i < |before| && before[i].kind == OK {
        var i :| start <= i < |before| && before[i].kind == OK;
        assert h[i].kind == OK;
      }
    }
  }

  /** Two blocks taking turns: a fails, b runs, a is seen again, and its failure is gone. */
  lemma TakingTurnsForgets(a: string, b: string)
    requires a != b && |a| <= TEXT_MAX && |b| <= TEXT_MAX
    ensures var h := [Sighting(a, ERROR), Sighting(b, ENTERED), Sighting(a, ENTERED)];
            Recent(h) == 0 && Outstanding(h, a) == 1
  {
    var h := [Sighting(a, ERROR), Sighting(b, ENTERED), Sighting(a, ENTERED)];
    var h2 := [Sighting(a, ERROR), Sighting(b, ENTERED)];
    var h1 := [Sighting(a, ERROR)];
    assert h[..2] == h2 && h2[..1] == h1 && h1[..0] == [];
    RemembersExactly(b, a);
    assert Outstanding(h, a) == Outstanding(h2, a) == Outstanding(h1, a) == Outstanding([], a) + 1;
  }

  /** One emission as an update of a slot table with the missing `in_use` test. */
  function AsUpdate(s: Sighting): Update<UInt32> {
    Update(s.key, n => Bump(s.kind, n))
  }

  function AsUpdates(h: seq<Sighting>): (us: seq<Update<UInt32>>)
    ensures |us| == |h| && forall i :: 0 <= i < |h| ==> us[i] == AsUpdate(h[i])
  {
    seq(|h|, i requires 0 <= i < |h| => AsUpdate(h[i]))
  }

  lemma {:induction false} OwnIsOutstanding(h: seq<Sighting>, key: string)
    ensures Own(AsUpdates(h), key, 0) == Outstanding(h, key) % (UINT32_MAX + 1)
  {
    if h != [] {
      OwnIsOutstanding(h[..|h| - 1], key);
      assert AsUpdates(h)[..|h| - 1] == AsUpdates(h[..|h| - 1]);
    }
  }

  /** With the test added, the first eight blocks are kept apart: each slot holds its own
      block's outstanding failures modulo 2^32, however the blocks take turns. */
  lemma RepairedTableKeepsBlocksApart(empty: seq<Slot<UInt32>>, h: seq<Sighting>, i: nat)
    requires AllFree(empty) && ShortNames(h)
    requires i < |KeysOf(AsUpdates(h), 8)|
    ensures var key := KeysOf(AsUpdates(h), 8)[i];
            |key| <= TEXT_MAX && ApplyAll(empty, AsUpdates(h), 0)[i] ==
            Slot(true, key, NameHash(key), Outstanding(h, key) % (UINT32_MAX + 1))
  {
    var key := KeysOf(AsUpdates(h), 8)[i];
    TableRefinesMap(empty, AsUpdates(h), 0);
    OwnIsOutstanding(h, key);
    assert key in KeysOf(AsUpdates(h), SLOTS);
  }
}
