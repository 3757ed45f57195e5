/** Bytes, the ASCII characters the protocol gives a meaning to, and sequence helpers. */
module Bytes {
  type byte = b: int | 0 <= b < 256

  datatype Option<+T> = None | Some(value: T)

  const HT: byte := 9
  const LF: byte := 10
  const CR: byte := 13
  const SP: byte := 32
  const COLON: byte := 58
  const SEMICOLON: byte := 59
  const DEL: byte := 127
  const CRLF: seq<byte> := [CR, LF]

  predicate IsDigit(c: byte) {
    48 <= c <= 57
  }

  function DigitValue(c: byte): (d: nat)
    requires IsDigit(c)
    ensures d <= 9
  {
    c - 48
  }

  /** size_t and uint64_t are both 64 bits wide. */
  const TWO_64: nat := 0x1_0000_0000_0000_0000

  /** The bytes of a C string literal (without its terminating NUL). */
  function Ascii(s: string): (r: seq<byte>)
    requires forall i :: 0 <= i < |s| ==> s[i] as int < 256
  {
    seq(|s|, i requires 0 <= i < |s| => s[i] as int)
  }

  function Flatten<T>(pieces: seq<seq<T>>): seq<T> {
    if pieces == [] then [] else pieces[0] + Flatten(pieces[1..])
  }

  lemma {:induction false} FlattenConcat<T>(a: seq<seq<T>>, b: seq<seq<T>>)
    ensures Flatten(a + b) == Flatten(a) + Flatten(b)
  {
    if a == [] {
      assert a + b == b;
    } else {
      assert (a + b)[1..] == a[1..] + b;
      FlattenConcat(a[1..], b);
    }
  }

  ghost predicate NoByte(s: seq<byte>, b: byte) {
    forall i :: 0 <= i < |s| ==> s[i] != b
  }

  /** C's memmove inside one array, moving towards lower indices (the only direction the callers need). */
  method MemMove(buf: array<byte>, dst: nat, src: nat, n: nat)
    requires dst <= src && src + n <= buf.Length
    modifies buf
    ensures buf[dst..dst + n] == old(buf[src..src + n])
    ensures forall i :: 0 <= i < dst || dst + n <= i < buf.Length ==> buf[i] == old(buf[i])
  {
    var i := 0;
    while i < n
      invariant 0 <= i <= n
      invariant buf[dst..dst + i] == old(buf[src..src + i])
      invariant forall k :: 0 <= k < dst || dst + i <= k < buf.Length ==> buf[k] == old(buf[k])
    {
      buf[dst + i] := buf[src + i];
      i := i + 1;
    }
  }
}
