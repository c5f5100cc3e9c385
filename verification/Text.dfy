/** Machine words and C strings, as the rest of the model uses them.

    A C string is a `string` without its terminator; its characters stand for bytes.
    A character buffer is an `array<char>`, and `CStr` is the string found in one. */
module Text {
  const SIZE_MAX: nat := 0xFFFF_FFFF_FFFF_FFFF
  const UINT32_MAX: nat := 0xFFFF_FFFF
  const INT_MAX: int := 0x7FFF_FFFF

  /** The longest text kept in one of the library's 64-byte name and reason buffers. */
  const TEXT_MAX: nat := 63

  /** The text in one of those buffers. */
  type Row = s: string | |s| <= TEXT_MAX

  type Word = n: nat | n <= SIZE_MAX
  type UInt32 = n: nat | n <= UINT32_MAX
  type Int32 = n: int | -INT_MAX - 1 <= n <= INT_MAX

  datatype Option<+T> = None | Some(value: T) {
    predicate IsFailure() {
      None?
    }

    function PropagateFailure<U>(): Option<U>
      requires None?
    {
      None
    }

    function Extract(): T
      requires Some?
    {
      value
    }
  }

  function Min(a: int, b: int): int {
    if a <= b then a else b
  }

  function Monus(a: nat, b: nat): nat {
    if a > b then a - b else 0
  }

  /** The first n characters of s, or all of it when it is shorter. */
  function Cut(s: string, n: nat): (r: string)
    ensures |r| == Min(|s|, n)
  {
    if |s| <= n then s else s[..n]
  }

  predicate NulFree(s: string) {
    '\0' !in s
  }

  function CStr(buffer: seq<char>): (s: string)
    ensures NulFree(s) && s <= buffer
    ensures |s| < |buffer| ==> buffer[|s|] == '\0'
  {
    if buffer == [] || buffer[0] == '\0' then "" else [buffer[0]] + CStr(buffer[1..])
  }

  lemma {:induction false} CStrOfTerminated(buffer: seq<char>, s: string)
    requires NulFree(s)
    requires |s| < |buffer| && buffer[..|s|] == s && buffer[|s|] == '\0'
    ensures CStr(buffer) == s
  {
    if s != "" {
      CStrOfTerminated(buffer[1..], s[1..]);
    }
  }

  /** `snprintf(out + at, out.Length - at, ...)` for an already formatted text: its length is
      returned, as much of it as fits is written, and a terminator follows. */
  method Snprintf(out: array<char>, at: nat, text: string) returns (n: nat)
    requires at < out.Length
    modifies out
    ensures n == |text|
    ensures var c := Cut(text, out.Length - at - 1);
            out[..at] == old(out[..at]) && out[at..at + |c|] == c && out[at + |c|] == '\0'
  {
    var c := Cut(text, out.Length - at - 1);
    forall i | 0 <= i < |c| {
      out[at + i] := c[i];
    }
    out[at + |c|] := '\0';
    n := |text|;
  }
}
