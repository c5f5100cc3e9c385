/** The evidence log `lox_blackbox_t`: sixteen events, each with its own text rows. */
module Blackbox {
  import opened Text
  import opened EventLine

  const CAPACITY: nat := 16

  // ---------------------------------------------------------------------------------
  // The log as a value
  // ---------------------------------------------------------------------------------

  /** What the log keeps of an event: its texts cut to the 64-byte rows. */
  function Stored(e: Event): Event {
    e.(block := Cut(e.block, TEXT_MAX), reason := Cut(e.reason, TEXT_MAX))
  }

  function StoredAll(es: seq<Event>): (r: seq<Event>)
    ensures |r| == |es|
  {
    if es == [] then [] else [Stored(es[0])] + StoredAll(es[1..])
  }

  function Last<T>(s: seq<T>, n: nat): (r: seq<T>)
    ensures |r| == Min(|s|, n)
  {
    if |s| <= n then s else s[|s| - n..]
  }

  /** One store: append, and drop the oldest event of a full log. */
  function Push(log: seq<Event>, e: Event): seq<Event> {
    (if |log| < CAPACITY then log else log[1..]) + [Stored(e)]
  }

  function PushAll(log: seq<Event>, es: seq<Event>): seq<Event>
    decreases |es|
  {
    if es == [] then log else PushAll(Push(log, es[0]), es[1..])
  }

  lemma LastOfLast(a: seq<Event>, b: seq<Event>, n: nat)
    ensures Last(Last(a, n) + b, n) == Last(a + b, n)
  {
    if |a| > n {
      var d := |a| - n;
      assert a[d..] + b == (a + b)[d..];
    }
  }

  lemma PushIsLast(log: seq<Event>, e: Event)
    requires |log| <= CAPACITY
    ensures Push(log, e) == Last(log + [Stored(e)], CAPACITY)
  {
    if |log| == CAPACITY {
      assert (log + [Stored(e)])[1..] == log[1..] + [Stored(e)];
    }
  }

  lemma {:induction false} PushAllIsLast(log: seq<Event>, es: seq<Event>)
    requires |log| <= CAPACITY
    ensures PushAll(log, es) == Last(log + StoredAll(es), CAPACITY)
    decreases |es|
  {
    if es == [] {
      assert log + StoredAll(es) == log;
    } else {
      var first, rest := [Stored(es[0])], StoredAll(es[1..]);
      calc {
        PushAll(log, es);
      ==
        PushAll(Push(log, es[0]), es[1..]);
      == { PushAllIsLast(Push(log, es[0]), es[1..]); }
        Last(Push(log, es[0]) + rest, CAPACITY);
      == { PushIsLast(log, es[0]); }
        Last(Last(log + first, CAPACITY) + rest, CAPACITY);
      == { LastOfLast(log + first, rest, CAPACITY); }
        Last((log + first) + rest, CAPACITY);
      == { assert (log + first) + rest == log + (first + rest); }
        Last(log + StoredAll(es), CAPACITY);
      }
    }
  }

  lemma {:induction false} StoredAllAt(es: seq<Event>, i: nat)
    requires i < |es|
    ensures StoredAll(es)[i] == Stored(es[i])
  {
    if i > 0 {
      StoredAllAt(es[1..], i - 1);
    }
  }

  /** After any sequence of stores the log is the last sixteen of its whole history, with each
      text cut to its first 63 bytes and all else as it was. */
  lemma LogIsLastOfHistory(log: seq<Event>, es: seq<Event>)
    requires |log| <= 16
    ensures var all := log + StoredAll(es);
            PushAll(log, es) == if |all| <= 16 then all else all[|all| - 16..]
    ensures forall i :: 0 <= i < |es| ==>
              StoredAll(es)[i] ==
              Event(es[i].kind,
                    if |es[i].block| <= 63 then es[i].block else es[i].block[..63],
                    if |es[i].reason| <= 63 then es[i].reason else es[i].reason[..63],
                    es[i].index, es[i].limit, es[i].aux)
  {
    PushAllIsLast(log, es);
    forall i | 0 <= i < |es| ensures StoredAll(es)[i] == Stored(es[i]) {
      StoredAllAt(es, i);
    }
  }

  lemma {:induction false} PushAllConcat(log: seq<Event>, es: seq<Event>, fs: seq<Event>)
    ensures PushAll(log, es + fs) == PushAll(PushAll(log, es), fs)
    decreases |es|
  {
    if es == [] {
      assert es + fs == fs;
    } else {
      assert (es + fs)[0] == es[0] && (es + fs)[1..] == es[1..] + fs;
      PushAllConcat(Push(log, es[0]), es[1..], fs);
    }
  }

  lemma PushAllSnoc(log: seq<Event>, es: seq<Event>, e: Event)
    ensures PushAll(log, es + [e]) == Push(PushAll(log, es), e)
  {
    PushAllConcat(log, es, [e]);
    assert [e][1..] == [];
  }

  // ---------------------------------------------------------------------------------
  // The log in memory
  // ---------------------------------------------------------------------------------

  /** A text pointer of a C event: null, to the caller's text, or to a row of the log. */
  datatype TextPtr = Null | Caller(text: string) | BlockRow(row: nat) | ReasonRow(row: nat)

  /** `lox_event_t` as it lies in memory. */
  datatype RawEvent = RawEvent(kind: Int32, block: TextPtr, reason: TextPtr, index: Word, limit: Word, aux: UInt32) {
    /** Neither text points into a log. */
    predicate Outside() {
      (block.Null? || (block.Caller? && NulFree(block.text))) && (reason.Null? || (reason.Caller? && NulFree(reason.text)))
    }

    /** The event of a caller; a null text reads "none". */
    function Meant(): Event
      requires Outside()
    {
      Event(kind, if block.Null? then "none" else block.text, if reason.Null? then "none" else reason.text,
            index, limit, aux)
    }
  }

  function FromCaller(e: Event): RawEvent {
    RawEvent(e.kind, Caller(e.block), Caller(e.reason), e.index, e.limit, e.aux)
  }

  /** A 64-byte row holds a C string of at most 63 bytes; only that text is modelled. */
  class EvidenceLog {
    const events: array<RawEvent>
    const blockNames: array<string>
    const reasons: array<string>
    var count: nat

    /** The shape every log has, whatever happened to its contents. */
    ghost predicate Shape() {
      events.Length == blockNames.Length == reasons.Length == CAPACITY && blockNames != reasons
    }

    ghost predicate RowsAreTexts()
      requires Shape()
      reads blockNames, reasons
    {
      forall i :: 0 <= i < CAPACITY ==>
        |blockNames[i]| <= TEXT_MAX && NulFree(blockNames[i]) && |reasons[i]| <= TEXT_MAX && NulFree(reasons[i])
    }

    /** Every event points at the two rows with its own index. */
    ghost predicate PointersOwn()
      requires Shape()
      reads this, events
    {
      count <= CAPACITY &&
      forall i :: 0 <= i < count ==> events[i].block == BlockRow(i) && events[i].reason == ReasonRow(i)
    }

    ghost predicate Valid()
      reads this, events, blockNames, reasons
    {
      Shape() && PointersOwn() && RowsAreTexts()
    }

    /** Follows a text pointer. */
    function Read(p: TextPtr): string
      requires Shape()
      reads blockNames, reasons
    {
      match p
      case Null => "none"
      case Caller(text) => text
      case BlockRow(i) => if i < CAPACITY then blockNames[i] else ""
      case ReasonRow(i) => if i < CAPACITY then reasons[i] else ""
    }

    /** Event i as a reader sees it, through its pointers. */
    function EventAt(i: nat): Event
      requires Shape() && i < CAPACITY
      reads events, blockNames, reasons
    {
      var r := events[i];
      Event(r.kind, Read(r.block), Read(r.reason), r.index, r.limit, r.aux)
    }

    /** Event i put together from the rows with its index, whatever its pointers say. */
    ghost function RowEvent(i: nat): Event
      requires Shape() && i < CAPACITY
      reads events, blockNames, reasons
    {
      var r := events[i];
      Event(r.kind, blockNames[i], reasons[i], r.index, r.limit, r.aux)
    }

    /** The first n rows. */
    ghost function Rows(n: nat): (s: seq<Event>)
      requires Shape() && n <= CAPACITY
      reads events, blockNames, reasons
      ensures |s| == n && forall i :: 0 <= i < n ==> s[i] == RowEvent(i)
    {
      if n == 0 then [] else Rows(n - 1) + [RowEvent(n - 1)]
    }

    /** The first n events as a reader sees them. */
    ghost function EventsUpTo(n: nat): (s: seq<Event>)
      requires Shape() && n <= CAPACITY
      reads events, blockNames, reasons
      ensures |s| == n && forall i :: 0 <= i < n ==> s[i] == EventAt(i)
    {
      if n == 0 then [] else EventsUpTo(n - 1) + [EventAt(n - 1)]
    }

    ghost function Contents(): (s: seq<Event>)
      requires Valid()
      reads this, events, blockNames, reasons
      ensures |s| == count && forall i :: 0 <= i < count ==> s[i] == EventAt(i)
    {
      EventsUpTo(count)
    }

    lemma ContentsAreRows()
      requires Valid()
      ensures Contents() == Rows(count)
    {
    }

    /** `lox_blackbox_init` on fresh storage. */
    constructor ()
      ensures Valid() && Contents() == []
      ensures fresh(events) && fresh(blockNames) && fresh(reasons)
    {
      events := new RawEvent[CAPACITY](_ => RawEvent(0, Null, Null, 0, 0, 0));
      blockNames := new string[CAPACITY](_ => "");
      reasons := new string[CAPACITY](_ => "");
      count := 0;
    }

    /** The three overlapping moves that drop the oldest event of a full log. */
    method ShiftDown()
      requires Shape() && RowsAreTexts()
      modifies events, blockNames, reasons
      ensures RowsAreTexts()
      ensures forall i :: 0 <= i < CAPACITY - 1 ==> RowEvent(i) == old(RowEvent(i + 1))
    {
      forall i | 0 <= i < CAPACITY - 1 {
        events[i] := events[i + 1];
      }
      forall i | 0 <= i < CAPACITY - 1 {
        blockNames[i] := blockNames[i + 1];
      }
      forall i | 0 <= i < CAPACITY - 1 {
        reasons[i] := reasons[i + 1];
      }
    }

    /** `lox_blackbox_store`. The shift moves texts away from under the pointers, and the loop
        at the end repairs every one of them; so nothing is asked of the old pointers, and a
        corrupted count is clamped to the capacity first. */
    method Store(event: RawEvent)
      requires Shape() && RowsAreTexts() && event.Outside()
      modifies this, events, blockNames, reasons
      ensures Valid()
      ensures Contents() == Push(old(Rows(Min(count, CAPACITY))), event.Meant())
      ensures var newest := Contents()[|Contents()| - 1];
              && newest.kind == event.kind && newest.index == event.index && newest.limit == event.limit
              && newest.aux == event.aux
              && (event.block.Null? ==> newest.block == "none") && (event.reason.Null? ==> newest.reason == "none")
    {
      if count > CAPACITY {
        count := CAPACITY;
      }
      AddRow(event);
      RepairPointers();
    }

    /** The event with its texts, behind those that are kept. */
    method AddRow(event: RawEvent)
      requires Shape() && RowsAreTexts() && event.Outside() && count <= CAPACITY
      modifies this, events, blockNames, reasons
      ensures RowsAreTexts() && count <= CAPACITY
      ensures Rows(count) == Push(old(Rows(count)), event.Meant())
    {
      var idx;
      ghost var kept;
      idx, kept := MakeRoom();
      Put(idx, event);
      RowsAre(kept + [Stored(event.Meant())]);
    }

    /** The slot for the next event; a full log gives up its oldest. */
    method MakeRoom() returns (idx: nat, ghost kept: seq<Event>)
      requires Shape() && RowsAreTexts() && count <= CAPACITY
      modifies this, events, blockNames, reasons
      ensures RowsAreTexts() && idx < CAPACITY && count == idx + 1
      ensures kept == if old(count) < CAPACITY then old(Rows(count)) else old(Rows(count))[1..]
      ensures |kept| == idx && forall i :: 0 <= i < idx ==> RowEvent(i) == kept[i]
    {
      ghost var before := Rows(count);
      if count < CAPACITY {
        idx, kept := count, before;
        count := count + 1;
      } else {
        idx, kept := CAPACITY - 1, before[1..];
        ShiftDown();
      }
    }

    lemma RowsAre(s: seq<Event>)
      requires Shape() && |s| <= CAPACITY && forall i :: 0 <= i < |s| ==> RowEvent(i) == s[i]
      ensures Rows(|s|) == s
    {
    }

    method Put(idx: nat, event: RawEvent)
      requires Shape() && RowsAreTexts() && event.Outside() && idx < CAPACITY
      modifies events, blockNames, reasons
      ensures RowsAreTexts()
      ensures RowEvent(idx) == Stored(event.Meant())
      ensures forall i :: 0 <= i < CAPACITY && i != idx ==> RowEvent(i) == old(RowEvent(i))
    {
      var block := if event.block.Null? then "none" else event.block.text;
      var reason := if event.reason.Null? then "none" else event.reason.text;
      events[idx] := event;
      blockNames[idx] := Cut(block, TEXT_MAX);
      reasons[idx] := Cut(reason, TEXT_MAX);
    }

    /** The loop that ends every store. */
    method RepairPointers()
      requires Shape() && RowsAreTexts() && count <= CAPACITY
      modifies events
      ensures Valid()
      ensures Contents() == old(Rows(count))
    {
      var i := 0;
      while i < count
        invariant i <= count <= CAPACITY
        invariant forall j :: 0 <= j < i ==> events[j].block == BlockRow(j) && events[j].reason == ReasonRow(j)
        invariant forall j :: 0 <= j < CAPACITY ==> RowEvent(j) == old(RowEvent(j))
      {
        events[i] := events[i].(block := BlockRow(i), reason := ReasonRow(i));
        i := i + 1;
      }
      ContentsAreRows();
      assert Rows(count) == old(Rows(count));
    }
  }
}
