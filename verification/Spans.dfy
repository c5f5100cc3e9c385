/** The checked copy between spans, `lox_span_memcpy`, in one flat memory where two spans may
    overlap. */
module Spans {
  import opened Text
  import opened Arena

  type Byte = n: nat | n < 256

  datatype Status = Ok | ErrBounds | ErrNull | ErrReadOnly

  /** `lox_span_t`: a base address, or none, with a length and the two access flags. */
  datatype Span = Span(base: Option<nat>, len: Word, readable: bool, writable: bool)

  /** The bytes of a span exist. */
  predicate InMemory(size: nat, span: Option<Span>) {
    span.Some? && span.value.base.Some? ==> span.value.base.value + span.value.len <= size
  }

  /** Memory with the n bytes found at s before the copy now also at d. */
  function Moved(mem: seq<Byte>, d: nat, s: nat, n: nat): (r: seq<Byte>)
    requires d + n <= |mem| && s + n <= |mem|
    ensures |r| == |mem|
    ensures forall i :: 0 <= i < |mem| ==> r[i] == if d <= i < d + n then mem[s + (i - d)] else mem[i]
  {
    mem[..d] + mem[s..s + n] + mem[d + n..]
  }

  /** `memmove`. */
  method MemMove(mem: array<Byte>, d: nat, s: nat, n: nat)
    requires d + n <= mem.Length && s + n <= mem.Length
    modifies mem
    ensures mem[..] == Moved(old(mem[..]), d, s, n)
  {
    forall i | 0 <= i < n {
      mem[d + i] := mem[s + i];
    }
  }

  /** The copy is exact and atomic: it succeeds if and only if both ranges fit, without any
      wrap; then the destination holds the source as it was before the call, even when the
      spans overlap, and nothing else has changed; and on an error nothing has changed. */
  method SpanMemcpy(mem: array<Byte>, dst: Option<Span>, dstOff: Word, src: Option<Span>, srcOff: Word, len: Word)
    returns (rc: Status)
    requires InMemory(mem.Length, dst) && InMemory(mem.Length, src)
    modifies mem
    ensures var found := dst.Some? && src.Some? && dst.value.base.Some? && src.value.base.Some?;
            && (rc == ErrNull <==> !found)
            && (rc == ErrReadOnly <==> found && !(src.value.readable && dst.value.writable))
            && (rc == ErrBounds <==>
                  && found && src.value.readable && dst.value.writable
                  && ((srcOff as int) + len > src.value.len || (dstOff as int) + len > dst.value.len))
    ensures rc == Ok ==>
              var d, s := dst.value.base.value + dstOff, src.value.base.value + srcOff;
              forall i :: 0 <= i < mem.Length ==> mem[i] == old(mem[..])[if d <= i < d + len then s + (i - d) else i]
    ensures rc != Ok ==> mem[..] == old(mem[..])
  {
    if dst.None? || src.None? || dst.value.base.None? || src.value.base.None? {
      return ErrNull;
    }
    if !src.value.readable || !dst.value.writable {
      return ErrReadOnly;
    }
    var srcEnd := SafeAdd(srcOff, len);
    if srcOff > src.value.len || srcEnd.None? || srcEnd.value > src.value.len {
      return ErrBounds;
    }
    var dstEnd := SafeAdd(dstOff, len);
    if dstOff > dst.value.len || dstEnd.None? || dstEnd.value > dst.value.len {
      return ErrBounds;
    }
    if len > 0 {
      MemMove(mem, dst.value.base.value + dstOff, src.value.base.value + srcOff, len);
    }
    rc := Ok;
  }
}
