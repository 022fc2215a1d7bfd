/**
  Rust's fixed-width unsigned integers, and the modulo-2^32 arithmetic that
  TCP sequence numbers live in (a u32 `wrapping_add` / `wrapping_sub`, and
  Rust's plain `+`, which panics on overflow in a debug build).
 */
module Wrapping {
  import opened Options

  const U32_MODULUS: int := 0x1_0000_0000

  newtype u8 = x: int | 0 <= x < 0x100
  newtype u16 = x: int | 0 <= x < 0x1_0000
  newtype u32 = x: int | 0 <= x < 0x1_0000_0000
  newtype usize = x: int | 0 <= x < 0x1_0000_0000_0000_0000

  const U32_MAX: u32 := 0xFFFF_FFFF

  /** `a.wrapping_add(b)`: the one u32 congruent to a + b modulo 2^32. */
  function WrappingAdd(a: u32, b: u32): (r: u32)
    ensures (r as int - (a as int + b as int)) % U32_MODULUS == 0
    ensures a as int + b as int <= U32_MAX as int ==> r as int == a as int + b as int
  {
    ((a as int + b as int) % U32_MODULUS) as u32
  }

  /** `b.wrapping_sub(a)`: how far `b` lies ahead of `a` in sequence space. */
  function Offset(a: u32, b: u32): (d: u32)
    ensures WrappingAdd(a, d) == b
  {
    ((b as int - a as int) % U32_MODULUS) as u32
  }

  /** Rust's `a + b` on u32 in a debug build: `None` stands for the overflow panic. */
  function CheckedAdd(a: u32, b: u32): (r: Option<u32>)
    ensures r.Some? <==> a as int + b as int <= U32_MAX as int
    ensures r.Some? ==> r.value as int == a as int + b as int
  {
    if a as int + b as int <= U32_MAX as int then Some(a + b) else None
  }

  /**
    `n` is one of the `len` sequence numbers that start at `start`, counting
    modulo 2^32: the half-open interval [start, start + len) of the sequence
    space diagrams.
   */
  predicate InWindow(start: u32, len: int, n: u32)
  {
    Offset(start, n) as int < len
  }

  /** The sequence numbers of the window [start, start + len), listed from `start` on. */
  function WindowNumbers(start: u32, len: nat): (ns: seq<u32>)
    requires len <= U32_MODULUS
    ensures |ns| == len
    ensures forall k :: 0 <= k < |ns| ==> Offset(start, ns[k]) as int == k
  {
    seq(len, k requires 0 <= k < len => WrappingAdd(start, k as u32))
  }

  /** InWindow holds of exactly the numbers WindowNumbers lists, and each of them once. */
  lemma {:induction false} InWindowListed(start: u32, len: nat, n: u32)
    requires len <= U32_MODULUS
    ensures InWindow(start, len, n) <==> n in WindowNumbers(start, len)
    ensures forall i, j :: 0 <= i < j < len ==> WindowNumbers(start, len)[i] != WindowNumbers(start, len)[j]
  {
    var ns := WindowNumbers(start, len);
    if InWindow(start, len, n) {
      var k := Offset(start, n) as int;
      assert ns[k] == n;
    }
  }

  /** Offset inverts WrappingAdd: stepping `d` ahead of `a` lands exactly `d` ahead. */
  lemma OffsetOfWrappingAdd(a: u32, d: u32)
    ensures Offset(a, WrappingAdd(a, d)) == d
  {
  }
}
