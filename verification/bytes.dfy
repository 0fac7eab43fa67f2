/**
  Byte-level vocabulary shared by the reader and the polling program: raw
  8- and 16-bit values, the signed view Java takes of them when it widens a
  `byte` or a `short` to `int`, and Java's `Arrays.copyOfRange`.
 */
module Bytes {

  /** A raw 8-bit value, as it travels on the wire. */
  type byte = x: int | 0 <= x < 0x100

  /** A raw 16-bit value, as a USB descriptor field holds it. */
  type uint16 = x: int | 0 <= x < 0x1_0000

  /** The `int` Java sees when a `byte` holding the bits `b` is widened. */
  function Signed(b: byte): (v: int)
    ensures -0x80 <= v < 0x80
    ensures (v + 0x100) % 0x100 == b
  {
    if b < 0x80 then b else b - 0x100
  }

  /** The `int` Java sees when a `short` holding the bits `u` is widened. */
  function SignedShort(u: uint16): (v: int)
    ensures -0x8000 <= v < 0x8000
    ensures (v + 0x1_0000) % 0x1_0000 == u
  {
    if u < 0x8000 then u else u - 0x1_0000
  }

  /** `n` zero bytes: what a freshly allocated Java array holds. */
  function Zeros(n: nat): (z: seq<byte>)
    ensures |z| == n
    ensures forall i :: 0 <= i < n ==> z[i] == 0
  {
    seq(n, _ => 0)
  }

  /**
    Java's `Arrays.copyOfRange(a, from, to)`. Java throws when `from` lies
    beyond the end or after `to`; a `to` beyond the end is allowed, and the
    places past the end of `a` read as zero.
   */
  function CopyOfRange(a: seq<byte>, from: nat, to: nat): (r: seq<byte>)
    requires from <= |a| && from <= to
    ensures |r| == to - from
    ensures forall i :: 0 <= i < |r| ==> r[i] == (if from + i < |a| then a[from + i] else 0)
  {
    if to <= |a| then a[from..to] else a[from..] + Zeros(to - |a|)
  }

  /** Within bounds, the copy is exactly the slice. */
  lemma CopyOfRangeInBounds(a: seq<byte>, from: nat, to: nat)
    requires from <= to <= |a|
    ensures CopyOfRange(a, from, to) == a[from..to]
  {
  }
}
