/** Byte strings and fixed-size integers in either byte order. */
module Bytes {

  /** A byte is a character below 256; a Go string is a sequence of bytes, so signatures are literals. */
  type byte = char
  type bytes = seq<byte>

  datatype Order = Little | Big

  lemma Assoc(a: bytes, b: bytes, c: bytes)
    ensures (a + b) + c == a + (b + c)
  {
  }

  /** The parts of a concatenation. */
  lemma Parted(a: bytes, b: bytes)
    ensures (a + b)[..|a|] == a && (a + b)[|a|..] == b
  {
  }

  function ToByte(n: nat): byte
  {
    (n % 256) as char
  }

  function Zeros(n: nat): (z: bytes)
    ensures |z| == n
  {
    seq(n, _ => '\0')
  }

  function Pow256(k: nat): (p: nat)
    ensures p > 0
  {
    if k == 0 then 1 else 256 * Pow256(k - 1)
  }

  /** The low `size` bytes of n; encoding/binary truncates in the same way. */
  function Put(order: Order, n: nat, size: nat): (b: bytes)
    ensures |b| == size
  {
    if size == 0 then []
    else if order.Little? then [ToByte(n)] + Put(order, n / 256, size - 1)
    else Put(order, n / 256, size - 1) + [ToByte(n)]
  }

  function Get(order: Order, b: bytes): nat
  {
    if b == [] then 0
    else if order.Little? then b[0] as int + 256 * Get(order, b[1..])
    else b[|b| - 1] as int + 256 * Get(order, b[..|b| - 1])
  }

  /** Reading what was written gives the number back when it fits. */
  lemma {:induction false} GetPut(order: Order, n: nat, size: nat)
    requires n < Pow256(size)
    ensures Get(order, Put(order, n, size)) == n
  {
    if size == 0 {
    } else {
      GetPut(order, n / 256, size - 1);
      var b := Put(order, n, size);
      if order.Little? {
        assert b[1..] == Put(order, n / 256, size - 1);
      } else {
        assert b[..size - 1] == Put(order, n / 256, size - 1);
      }
    }
  }

  /** The next multiple of n at or after p: (p + n - 1) & ^(n - 1) for the alignments in use. */
  function AlignUp(p: nat, n: nat): (q: nat)
    ensures p <= q < p + 8
  {
    if n == 2 then (p + 1) / 2 * 2
    else if n == 4 then (p + 3) / 4 * 4
    else if n == 8 then (p + 7) / 8 * 8
    else p
  }

  function Pad(p: nat, n: nat): (z: bytes)
    ensures |z| == AlignUp(p, n) - p
  {
    Zeros(AlignUp(p, n) - p)
  }
}
