/** Health and watchdog state of each block, in the core-only build of the adapters: a slot
    table with one shared overflow record and an "aggregate" that follows the last lookup. */
module BlockStates {
  import opened Text
  import opened EventLine
  import opened SlotTable
  import opened FailureStreaks

  /** The codes the library keeps: health 0 OK, 1 active, 2 late, 3 faulted, 4 degraded, 5
      disabled; watchdog 0 OK, 1 late, 2 starved; recovery 0, as no breaker is built in. */
  datatype BlockState = BlockState(health: int, watchdog: int, recovery: int)

  const ZERO := BlockState(0, 0, 0)

  /** The globals of the adapter. An active slot of `SLOTS` is the overflow record. */
  datatype Adapter = Adapter(slots: seq<Slot<BlockState>>, overflow: Slot<BlockState>, active: nat) {
    predicate Sized() {
      |slots| == SLOTS
    }

    function At(i: nat): BlockState
      requires Sized()
    {
      if i < SLOTS then slots[i].value else overflow.value
    }

    function Put(i: nat, v: BlockState): (a: Adapter)
      requires Sized()
      ensures a.Sized()
    {
      if i < SLOTS then this.(slots := slots[i := slots[i].(value := v)]) else this.(overflow := overflow.(value := v))
    }

    /** A lookup: the slot becomes active; without a slot the overflow record is taken over and
        zeroed, also when it already belongs to the block. */
    function Get(key: string): (r: (Adapter, nat))
      requires Sized()
      ensures r.0.Sized() && r.1 <= SLOTS && r.0.active == r.1
    {
      var (s, i) := Lookup(slots, key, ZERO);
      if i < SLOTS then (Adapter(s, overflow, i), i) else (Adapter(s, NewSlot(key, ZERO), SLOTS), SLOTS)
    }

    function Change(key: string, f: BlockState -> BlockState): (a: Adapter)
      requires Sized()
      ensures a.Sized()
    {
      var (a, i) := Get(key);
      a.Put(i, f(a.At(i)))
    }

    /** What the global codes show after a refresh. */
    function Aggregate(): BlockState
      requires Sized()
    {
      if active < SLOTS && slots[active].inUse then slots[active].value
      else if active == SLOTS && overflow.inUse then overflow.value
      else ZERO
    }

    /** All nine records; `active` counts the overflow record as the last. */
    function Records(): (r: seq<Slot<BlockState>>)
      requires Sized()
      ensures |r| == SLOTS + 1
    {
      slots + [overflow]
    }

    /** Reading is a lookup too. */
    function Read(key: string): BlockState
      requires Sized()
    {
      var (a, i) := Get(key);
      a.At(i)
    }
  }

  function WithHealth(code: int): BlockState -> BlockState {
    (s: BlockState) => s.(health := code)
  }

  /** What an event does to the watchdog state; kinds not listed leave it alone. */
  function Observed(kind: Int32): BlockState -> BlockState {
    if kind == TIMEOUT then (s: BlockState) => s.(watchdog := 1)
    else if kind == ERROR || kind == WRITE_OUT_OF_BOUNDS || kind == ARENA_OVERFLOW || kind == MEMORY_FAULT then
      (s: BlockState) => s.(watchdog := 2)
    else if kind == ENTERED || kind == OK then (s: BlockState) => s.(watchdog := 0)
    else (s: BlockState) => s
  }

  class BlockStateTable {
    const slots: array<Slot<BlockState>>
    var overflow: Slot<BlockState>
    var active: nat
    var health: int
    var watchdog: int
    var recovery: int

    ghost predicate Valid() {
      slots.Length == SLOTS
    }

    function State(): (a: Adapter)
      requires Valid()
      reads this, slots
      ensures a.Sized()
    {
      Adapter(slots[..], overflow, active)
    }

    /** The zero-initialised globals. */
    constructor ()
      ensures Valid() && fresh(slots)
      ensures State().overflow.inUse == false && State().active == SLOTS
      ensures forall i :: 0 <= i < SLOTS ==> !State().slots[i].inUse
    {
      slots := new Slot<BlockState>[SLOTS](_ => Slot(false, "", 0, ZERO));
      overflow := Slot(false, "", 0, ZERO);
      active := SLOTS;
      health, watchdog, recovery := 0, 0, 0;
    }

    /** `lox_block_state_get`: one pass that looks for the name and notes the first free slot. */
    method StateGet(name: Option<string>) returns (i: nat)
      requires Valid()
      modifies this`overflow, this`active, slots
      ensures (State(), i) == old(State()).Get(Key(name))
    {
      var key := Key(name);
      var keyHash := HashKey(key);
      var freeIdx: nat := SLOTS;
      i := 0;
      while i < SLOTS
        invariant i <= SLOTS && slots[..] == old(slots[..]) && overflow == old(overflow)
        invariant forall j :: 0 <= j < i ==> !Matches(slots[j], key)
        invariant freeIdx == SLOTS ==> forall j :: 0 <= j < i ==> slots[j].inUse
        invariant freeIdx != SLOTS ==>
                    freeIdx < i && !slots[freeIdx].inUse && forall j :: 0 <= j < freeIdx ==> slots[j].inUse
      {
        if slots[i].inUse {
          if slots[i].hash == keyHash && slots[i].name == key {
            active := i;
            FirstMatchIs(slots[..], key, i);
            return;
          }
        } else if freeIdx == SLOTS {
          freeIdx := i;
        }
        i := i + 1;
      }
      FirstMatchIs(slots[..], key, SLOTS);
      FirstFreeIs(slots[..], freeIdx);
      if freeIdx == SLOTS {
        overflow := Slot(true, Cut(key, TEXT_MAX), keyHash, ZERO);
        active := SLOTS;
        i := SLOTS;
      } else {
        slots[freeIdx] := Slot(true, Cut(key, TEXT_MAX), keyHash, ZERO);
        active := freeIdx;
        i := freeIdx;
      }
    }

    method PutAt(i: nat, v: BlockState)
      requires Valid() && i <= SLOTS
      modifies this`overflow, slots
      ensures State() == old(State()).Put(i, v)
    {
      if i < SLOTS {
        slots[i] := slots[i].(value := v);
      } else {
        overflow := overflow.(value := v);
      }
    }

    /** `lox_refresh_aggregate_states`. */
    method Refresh()
      requires Valid()
      modifies this`health, this`watchdog, this`recovery
      ensures BlockState(health, watchdog, recovery) == State().Aggregate()
      ensures State() == old(State())
    {
      var s := ZERO;
      if active < SLOTS && slots[active].inUse {
        s := slots[active].value;
      } else if active == SLOTS && overflow.inUse {
        s := overflow.value;
      }
      health, watchdog, recovery := s.health, s.watchdog, s.recovery;
    }

    /** `lox_adapter_health_set_for_block`. */
    method HealthSetForBlock(name: Option<string>, code: int)
      requires Valid()
      modifies this, slots
      ensures State() == old(State()).Change(Key(name), WithHealth(code))
      ensures BlockState(health, watchdog, recovery) == State().Aggregate()
    {
      var i := StateGet(name);
      var s := State().At(i);
      PutAt(i, s.(health := code));
      Refresh();
    }

    /** `lox_adapter_watchdog_observe_event`. */
    method WatchdogObserve(name: Option<string>, kind: Int32)
      requires Valid()
      modifies this, slots
      ensures State() == old(State()).Change(Key(name), Observed(kind))
      ensures BlockState(health, watchdog, recovery) == State().Aggregate()
    {
      var i := StateGet(name);
      var s := State().At(i);
      var w := s.watchdog;
      if kind == TIMEOUT {
        w := 1;
      } else if kind == ERROR || kind == WRITE_OUT_OF_BOUNDS || kind == ARENA_OVERFLOW || kind == MEMORY_FAULT {
        w := 2;
      } else if kind == ENTERED || kind == OK {
        w := 0;
      }
      PutAt(i, s.(watchdog := w));
      Refresh();
    }

    /** `lox_adapter_health_get_for_block`. */
    method HealthGetForBlock(name: Option<string>) returns (code: int)
      requires Valid()
      modifies this`overflow, this`active, slots
      ensures code == old(State()).Read(Key(name)).health
      ensures State() == old(State()).Get(Key(name)).0
    {
      var i := StateGet(name);
      code := State().At(i).health;
    }

    /** `lox_adapter_watchdog_state_get_for_block`. */
    method WatchdogGetForBlock(name: Option<string>) returns (code: int)
      requires Valid()
      modifies this`overflow, this`active, slots
      ensures code == old(State()).Read(Key(name)).watchdog
      ensures State() == old(State()).Get(Key(name)).0
    {
      var i := StateGet(name);
      code := State().At(i).watchdog;
    }

    /** `lox_adapter_health_get`: the aggregate code. */
    method HealthGet() returns (code: int)
      requires Valid()
      modifies this`health, this`watchdog, this`recovery
      ensures code == State().Aggregate().health && State() == old(State())
    {
      Refresh();
      code := health;
    }
  }

  // ---------------------------------------------------------------------------------
  // What a block reads back
  // ---------------------------------------------------------------------------------

  lemma ReadIs(a: Adapter, key: string)
    requires a.Sized()
    ensures a.Read(key) == if Found(a.slots, key) then a.slots[FirstMatch(a.slots, key)].value else ZERO
  {
  }

  /** The adapter with the value v under a kept key. */
  ghost function Settled(a: Adapter, key: string, v: BlockState): (b: Adapter)
    requires a.Sized() && Keeps(a.slots, key)
    ensures b.Sized()
  {
    KeptPlace(a.slots, key);
    var t := Place(a.slots, key);
    Adapter(a.slots[t := Slot(true, key, NameHash(key), v)], a.overflow, t)
  }

  /** A change to a kept key changes what is under that key, and makes its slot active. */
  lemma ChangeSettles(a: Adapter, key: string, f: BlockState -> BlockState)
    requires a.Sized() && Keeps(a.slots, key)
    ensures a.Change(key, f) == Settled(a, key, f(a.Read(key)))
  {
    ReadIs(a, key);
    KeptPlace(a.slots, key);
    assert Cut(key, TEXT_MAX) == key;
  }

  lemma SettledReads(a: Adapter, key: string, v: BlockState)
    requires a.Sized() && Keeps(a.slots, key)
    ensures Found(Settled(a, key, v).slots, key) && Keeps(Settled(a, key, v).slots, key)
    ensures Settled(a, key, v).Read(key) == v && Settled(a, key, v).Aggregate() == v
  {
    KeptPlace(a.slots, key);
    MatchPut(a.slots, key, Slot(true, key, NameHash(key), v));
  }

  lemma SettledAgain(a: Adapter, key: string, v: BlockState, u: BlockState)
    requires a.Sized() && Keeps(a.slots, key)
    ensures Keeps(Settled(a, key, v).slots, key) && Settled(Settled(a, key, v), key, u) == Settled(a, key, u)
  {
    SettledReads(a, key, v);
    KeptPlace(a.slots, key);
    MatchPut(a.slots, key, Slot(true, key, NameHash(key), v));
  }

  /** No other key is found or lost by it or reads anything else. */
  lemma SettledOther(a: Adapter, key: string, v: BlockState, other: string)
    requires a.Sized() && Keeps(a.slots, key) && other != key
    ensures Found(Settled(a, key, v).slots, other) <==> Found(a.slots, other)
    ensures Settled(a, key, v).Read(other) == a.Read(other)
  {
    KeptPlace(a.slots, key);
    var t := Place(a.slots, key);
    MatchOther(a.slots, t, Slot(true, key, NameHash(key), v), other);
    ReadIs(a, other);
    ReadIs(Settled(a, key, v), other);
  }

  lemma SettledFree(a: Adapter, key: string, v: BlockState)
    requires a.Sized() && Keeps(a.slots, key)
    ensures Free(a.slots) == Free(Settled(a, key, v).slots) + if Found(a.slots, key) then 0 else 1
  {
    KeptPlace(a.slots, key);
    FreeOfPut(a.slots, Place(a.slots, key), Slot(true, key, NameHash(key), v));
  }

  lemma LongIsLost<V>(slots: seq<Slot<V>>, key: string)
    requires |key| > TEXT_MAX
    ensures !Found(slots, key)
  {
  }

  /** A name that cannot be kept reads zero, whatever was just written. */
  lemma ReadUnkept(a: Adapter, key: string, f: BlockState -> BlockState)
    requires a.Sized() && !Keeps(a.slots, key)
    ensures a.Change(key, f).Read(key) == ZERO
  {
    ReadIs(a.Change(key, f), key);
    if |key| > TEXT_MAX {
      LongIsLost(a.Change(key, f).slots, key);
    } else {
      FreeIsSome(a.slots);
      assert a.Change(key, f).slots == a.slots;
    }
  }

  /** A change is seen by no name but its own; a name of more than 63 bytes can be seen only by
      the name that is left of it when it is cut, and only if the two have the same hash. */
  lemma ChangeOther(a: Adapter, key: string, f: BlockState -> BlockState, other: string)
    requires a.Sized() && other != key && !Remembers(key, other)
    ensures Found(a.Change(key, f).slots, other) <==> Found(a.slots, other)
    ensures a.Change(key, f).Read(other) == a.Read(other)
  {
    if Keeps(a.slots, key) {
      ChangeSettles(a, key, f);
      SettledOther(a, key, f(a.Read(key)), other);
    } else {
      UnkeptOther(a, key, f, other);
    }
  }

  lemma UnkeptOther(a: Adapter, key: string, f: BlockState -> BlockState, other: string)
    requires a.Sized() && !Keeps(a.slots, key) && other != key && !Remembers(key, other)
    ensures Found(a.Change(key, f).slots, other) <==> Found(a.slots, other)
    ensures a.Change(key, f).Read(other) == a.Read(other)
  {
    var b := a.Change(key, f);
    ReadIs(a, other);
    ReadIs(b, other);
    FreeIsSome(a.slots);
    if |key| > TEXT_MAX {
      LongIsLost(a.slots, key);
      var i := FirstFree(a.slots);
      if i < SLOTS {
        assert b.slots == a.slots[i := NewSlot(key, f(ZERO))];
        MatchOther(a.slots, i, NewSlot(key, f(ZERO)), other);
      }
    }
  }

  /** In any state: reading gives back the value just written if and only if the name has at most
      63 bytes and some slot matches it or is free (zero is read otherwise); and no other name,
      but for a hash collision with a cut name, reads anything else than before. */
  lemma ReadAfterWriteExactly(a: Adapter, key: string, code: int)
    requires a.Sized() && code != 0
    ensures a.Change(key, WithHealth(code)).Read(key).health == code <==> Keeps(a.slots, key)
    ensures forall other :: other != key && !Remembers(key, other) ==>
              a.Change(key, WithHealth(code)).Read(other) == a.Read(other)
  {
    if Keeps(a.slots, key) {
      ChangeSettles(a, key, WithHealth(code));
      SettledReads(a, key, WithHealth(code)(a.Read(key)));
    } else {
      ReadUnkept(a, key, WithHealth(code));
    }
    forall other | other != key && !Remembers(key, other)
      ensures a.Change(key, WithHealth(code)).Read(other) == a.Read(other)
    {
      ChangeOther(a, key, WithHealth(code), other);
    }
  }

  // ---------------------------------------------------------------------------------
  // Histories
  // ---------------------------------------------------------------------------------

  /** Any history of changes to the adapter. */
  function ChangeAll(a: Adapter, us: seq<Update<BlockState>>): (b: Adapter)
    requires a.Sized()
    ensures b.Sized()
  {
    if us == [] then a else ChangeAll(a, us[..|us| - 1]).Change(us[|us| - 1].key, us[|us| - 1].change)
  }

  /** A lookup that only reads is a change too, one that leaves the value alone. */
  lemma LookupIsChange(a: Adapter, key: string)
    requires a.Sized()
    ensures a.Change(key, s => s) == a.Get(key).0
  {
  }

  function Look(key: string): Update<BlockState> {
    Update(key, s => s)
  }

  /** Reads inside a history: a read is a lookup, which may open a slot, but no key's own value is
      changed by it. */
  lemma ReadsInHistory(a: Adapter, us: seq<Update<BlockState>>, key: string)
    requires a.Sized()
    ensures ChangeAll(a, us + [Look(key)]) == ChangeAll(a, us).Get(key).0
    ensures forall other :: Own(us + [Look(key)], other, ZERO) == Own(us, other, ZERO)
  {
    assert (us + [Look(key)])[..|us|] == us;
    LookupIsChange(ChangeAll(a, us), key);
  }

  lemma ChangeIsApply(a: Adapter, u: Update<BlockState>)
    requires a.Sized()
    ensures a.Change(u.key, u.change).slots == Apply(a.slots, u, ZERO)
  {
  }

  lemma {:induction false} ChangeAllIsApplyAll(a: Adapter, us: seq<Update<BlockState>>)
    requires a.Sized()
    ensures ChangeAll(a, us).slots == ApplyAll(a.slots, us, ZERO)
  {
    if us != [] {
      ChangeAllIsApplyAll(a, us[..|us| - 1]);
      ChangeIsApply(ChangeAll(a, us[..|us| - 1]), us[|us| - 1]);
    }
  }

  /** The adapter refines a map: after any history of changes with names of at most 63 bytes the
      first eight names read what their own changes made, whatever was interleaved, and every
      other name reads zero. */
  lemma AdapterRefinesMap(a: Adapter, us: seq<Update<BlockState>>, key: string)
    requires a.Sized() && ShortKeys(us)
    requires forall i :: 0 <= i < SLOTS ==> !a.slots[i].inUse
    ensures ChangeAll(a, us).Read(key) == if key in KeysOf(us, 8) then Own(us, key, ZERO) else ZERO
  {
    ChangeAllIsApplyAll(a, us);
    TableRefinesMap(a.slots, us, ZERO);
    ReadInBook(ChangeAll(a, us), BookOf(us, ZERO, SLOTS), key);
  }

  lemma ReadInBook(a: Adapter, book: Book<BlockState>, key: string)
    requires a.Sized() && Represents(a.slots, book)
    ensures a.Read(key) == if key in book.values then book.values[key] else ZERO
  {
    ReadIs(a, key);
    FoundInBook(a.slots, book, key);
  }

  // ---------------------------------------------------------------------------------
  // The aggregate
  // ---------------------------------------------------------------------------------

  /** The worst watchdog code of the records in use. */
  function MaxWatchdog(records: seq<Slot<BlockState>>): int {
    if records == [] then 0
    else
      var rest := MaxWatchdog(records[1..]);
      if records[0].inUse && records[0].value.watchdog > rest then records[0].value.watchdog else rest
  }

  lemma {:induction false} MaxWatchdogIsMax(records: seq<Slot<BlockState>>, m: int)
    ensures MaxWatchdog(records) <= m <==>
            0 <= m && forall i :: 0 <= i < |records| && records[i].inUse ==> records[i].value.watchdog <= m
  {
    if records != [] {
      MaxWatchdogIsMax(records[1..], m);
      assert forall i :: 1 <= i < |records| ==> records[i] == records[1..][i - 1];
      if forall i :: 0 <= i < |records| && records[i].inUse ==> records[i].value.watchdog <= m {
        assert forall i :: 0 <= i < |records[1..]| ==> records[1..][i] == records[i + 1];
      }
    }
  }

  /** The watchdog codes there are: 0 OK, 1 late, 2 starved. */
  predicate InRange(a: Adapter)
    requires a.Sized()
  {
    forall i :: 0 <= i <= SLOTS ==> 0 <= a.Records()[i].value.watchdog <= 2
  }

  /** No record but the one that `key` will get has a worse watchdog code than m. */
  predicate OthersAtMost(a: Adapter, key: string, m: int)
    requires a.Sized()
  {
    forall i :: 0 <= i <= SLOTS && i != a.Get(key).1 && a.Records()[i].inUse ==> a.Records()[i].value.watchdog <= m
  }

  /** What a change does to the nine records. */
  lemma ChangedRecords(a: Adapter, key: string, f: BlockState -> BlockState)
    requires a.Sized()
    ensures var b := a.Change(key, f);
            var t := a.Get(key).1;
            && b.active == t && b.Records()[t].inUse && b.Records()[t].value == f(a.Read(key)) == b.Aggregate()
            && forall i :: 0 <= i <= SLOTS && i != t ==> b.Records()[i] == a.Records()[i]
  {
  }

  /** Whether a record in use is as bad as all the others. */
  lemma IsMaxExactly(records: seq<Slot<BlockState>>, t: nat)
    requires t < |records| && records[t].inUse && records[t].value.watchdog >= 0
    ensures records[t].value.watchdog == MaxWatchdog(records) <==>
            forall i :: 0 <= i < |records| && i != t && records[i].inUse ==>
              records[i].value.watchdog <= records[t].value.watchdog
  {
    MaxWatchdogIsMax(records, records[t].value.watchdog);
    MaxWatchdogIsMax(records, MaxWatchdog(records));
  }

  lemma AggregateExactly(a: Adapter, key: string, f: BlockState -> BlockState)
    requires a.Sized() && f(a.Read(key)).watchdog >= 0
    ensures var b := a.Change(key, f);
            b.Aggregate().watchdog == MaxWatchdog(b.Records()) <==> OthersAtMost(a, key, f(a.Read(key)).watchdog)
  {
    ChangedRecords(a, key, f);
    IsMaxExactly(a.Change(key, f).Records(), a.Get(key).1);
  }

  /** The global watchdog code is meant to be the worst of all blocks. After an event it is so
      always if the event writes 2; if it writes 1, exactly when no other record in use reads 2;
      if it writes 0, exactly when all others read 0; and if it leaves the block's code alone,
      exactly when no other is worse than that. The overflow record counts like the others. */
  lemma AggregateAfterEvent(a: Adapter, key: string, kind: Int32)
    requires a.Sized() && InRange(a)
    ensures var b := a.Change(key, Observed(kind));
            var worst := b.Aggregate().watchdog == MaxWatchdog(b.Records());
            && InRange(b)
            && if kind == ERROR || kind == WRITE_OUT_OF_BOUNDS || kind == ARENA_OVERFLOW || kind == MEMORY_FAULT then
                 worst
               else if kind == TIMEOUT then worst <==> OthersAtMost(a, key, 1)
               else if kind == ENTERED || kind == OK then worst <==> OthersAtMost(a, key, 0)
               else worst <==> OthersAtMost(a, key, a.Read(key).watchdog)
  {
    ReadInRange(a, key);
    AggregateExactly(a, key, Observed(kind));
    ChangedRecords(a, key, Observed(kind));
  }

  lemma ReadInRange(a: Adapter, key: string)
    requires a.Sized() && InRange(a)
    ensures 0 <= a.Read(key).watchdog <= 2
  {
    ReadIs(a, key);
    if Found(a.slots, key) {
      assert a.Records()[FirstMatch(a.slots, key)] == a.slots[FirstMatch(a.slots, key)];
    }
  }

  /** A failing block followed by a healthy one: the aggregate shows the healthy one. */
  lemma AggregateForgetsTheWorst(a: Adapter, bad: string, good: string)
    requires a.Sized() && bad != good
    requires Keeps(a.slots, bad) && Keeps(a.Change(bad, Observed(ERROR)).slots, good)
    ensures var after := a.Change(bad, Observed(ERROR)).Change(good, Observed(OK));
            after.Aggregate().watchdog == 0 && after.Read(bad).watchdog == 2
  {
    var b := a.Change(bad, Observed(ERROR));
    ChangeSettles(a, bad, Observed(ERROR));
    SettledReads(a, bad, Observed(ERROR)(a.Read(bad)));
    ChangeSettles(b, good, Observed(OK));
    SettledReads(b, good, Observed(OK)(b.Read(good)));
    SettledOther(b, good, Observed(OK)(b.Read(good)), bad);
  }
}
