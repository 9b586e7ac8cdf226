/** Fixed-width integers, little-endian fields and option values. */
module Bytes {
  type byte = x: int | 0 <= x < 0x100
  type u16 = x: int | 0 <= x < 0x1_0000
  type u32 = x: int | 0 <= x < 0x1_0000_0000
  type u64 = x: int | 0 <= x < 0x1_0000_0000_0000_0000

  const TWO64: int := 0x1_0000_0000_0000_0000

  datatype Option<+T> = None | Some(value: T)

  /** The most significant bit of a 32-bit value, as tested by `v & 0x80000000`. */
  predicate Hardened(v: u32) { v >= 0x8000_0000 }

  /** Value of a little-endian field. */
  function Le(s: seq<byte>): nat {
    if |s| == 0 then 0 else s[0] + 0x100 * Le(s[1..])
  }

  /** The `n` byte little-endian form of `v`. */
  function ToLe(v: nat, n: nat): (s: seq<byte>)
    ensures |s| == n
  {
    if n == 0 then [] else [v % 0x100] + ToLe(v / 0x100, n - 1)
  }

  function Pow256(n: nat): nat { if n == 0 then 1 else 0x100 * Pow256(n - 1) }

  lemma {:induction false} LeBound(s: seq<byte>)
    ensures Le(s) < Pow256(|s|)
  {
    if |s| == 0 {
    } else {
      LeBound(s[1..]);
    }
  }

  /** Writing the value read gives the bytes back. */
  lemma {:induction false} ToLeOfLe(s: seq<byte>)
    ensures ToLe(Le(s), |s|) == s
  {
    if |s| == 0 {
    } else {
      ToLeOfLe(s[1..]);
    }
  }

  /** Reading the bytes written gives the value back. */
  lemma {:induction false} LeOfToLe(v: nat, n: nat)
    requires v < Pow256(n)
    ensures Le(ToLe(v, n)) == v
  {
    if n == 0 {
    } else {
      LeOfToLe(v / 0x100, n - 1);
    }
  }

  lemma Powers()
    ensures Pow256(2) == 0x1_0000 && Pow256(4) == 0x1_0000_0000 && Pow256(8) == TWO64
  {
    assert Pow256(1) == 0x100 && Pow256(3) == 0x100_0000 && Pow256(5) == 0x100_0000_0000;
    assert Pow256(7) == 0x100 * Pow256(6);
  }

  /** The 16-bit field of `d` at offset `o`. */
  function U16(d: seq<byte>, o: nat): u16
    requires o + 2 <= |d|
  {
    LeBound(d[o..o+2]); Powers();
    Le(d[o..o+2])
  }

  function U32(d: seq<byte>, o: nat): u32
    requires o + 4 <= |d|
  {
    LeBound(d[o..o+4]); Powers();
    Le(d[o..o+4])
  }

  function U64(d: seq<byte>, o: nat): u64
    requires o + 8 <= |d|
  {
    LeBound(d[o..o+8]); Powers();
    Le(d[o..o+8])
  }
}
