/** Model of `base32_encode` in src/iota/bech32.c: regrouping bytes into 5-bit
    symbols, beside the decoder that undoes it. */
module Base32 {
  import opened Arithmetic
  import opened Bytes

  predicate Symbols(vs: seq<byte>) { forall i :: 0 <= i < |vs| ==> vs[i] < 32 }

  /** Bytes read as one number, first byte on top. */
  function Val256(bs: seq<byte>): nat {
    if |bs| == 0 then 0 else Val256(bs[..|bs|-1]) * 256 + bs[|bs|-1]
  }

  /** Symbols read as one number, first symbol on top. */
  function Val32(vs: seq<byte>): nat {
    if |vs| == 0 then 0 else Val32(vs[..|vs|-1]) * 32 + vs[|vs|-1]
  }

  function Pow2(n: nat): (p: nat)
    requires n <= 12
    ensures p > 0
  {
    [1, 2, 4, 8, 16, 32, 64, 128, 256, 512, 1024, 2048, 4096][n]
  }

  function Base32Length(n: nat): nat { (8 * n + 4) / 5 }

  function PadBits(n: nat): (p: nat)
    ensures p < 5
  {
    5 * Base32Length(n) - 8 * n
  }

  lemma Val256One(bs: seq<byte>, b: byte)
    ensures Val256(bs + [b]) == Val256(bs) * 256 + b
  {
    assert (bs + [b])[..|bs|] == bs;
  }

  lemma Val32One(vs: seq<byte>, v: byte)
    ensures Val32(vs + [v]) == Val32(vs) * 32 + v
  {
    assert (vs + [v])[..|vs|] == vs;
  }

  /** After writing `done`, the low `bits` bits of `val` are the input not yet
      written. */
  ghost predicate Pending(done: seq<byte>, val: nat, bits: nat, input: seq<byte>) {
    bits <= 12 && Symbols(done)
    && Val32(done) * Pow2(bits) + val % Pow2(bits) == Val256(input)
  }

  lemma ShiftByte(val: nat, b: byte, bits: nat)
    requires bits < 5
    ensures (val * 256 % 0x1_0000_0000 + b) % Pow2(bits + 8) == val % Pow2(bits) * 256 + b
  {
    var q := val * 256 / 0x1_0000_0000;
    var x := val * 256 % 0x1_0000_0000 + b;
    if bits == 0 {
      DivModIs(x, 256, val - q * 0x100_0000, b);
    } else if bits == 1 {
      DivModIs(x, 512, val / 2 - q * 0x80_0000, val % 2 * 256 + b);
    } else if bits == 2 {
      DivModIs(x, 1024, val / 4 - q * 0x40_0000, val % 4 * 256 + b);
    } else if bits == 3 {
      DivModIs(x, 2048, val / 8 - q * 0x20_0000, val % 8 * 256 + b);
    } else {
      DivModIs(x, 4096, val / 16 - q * 0x10_0000, val % 16 * 256 + b);
    }
  }

  lemma NothingPending()
    ensures Pending([], 0, 0, [])
  {}

  lemma TakeByte(done: seq<byte>, val: nat, bits: nat, input: seq<byte>, b: byte)
    requires bits < 5 && Pending(done, val, bits, input)
    ensures Pending(done, val * 256 % 0x1_0000_0000 + b, bits + 8, input + [b])
  {
    hide Val32, Val256;
    Val256One(input, b);
    ShiftByte(val, b, bits);
    if bits == 0 {
    } else if bits == 1 {
    } else if bits == 2 {
    } else if bits == 3 {
    } else {
    }
  }

  lemma Distribute(q: nat, d: nat, m: nat)
    requires d < 32
    ensures (32 * q + d) * m == q * (32 * m) + d * m && d * m <= 31 * m
  {}

  lemma TopDigit(val: nat, m: nat)
    requires m > 0
    ensures val % (32 * m) == val / m % 32 * m + val % m
  {
    var e := val / m;
    var q, d, r := e / 32, e % 32, val % m;
    Distribute(q, d, m);
    assert val == e * m + r;
    DivModIs(val, 32 * m, q, d * m + r);
  }

  lemma Pow2Five(n: nat)
    requires n <= 7
    ensures Pow2(n + 5) == 32 * Pow2(n)
  {}

  lemma EmitSymbol(done: seq<byte>, val: nat, bits: nat, input: seq<byte>)
    requires bits <= 7 && Pending(done, val, bits + 5, input)
    ensures Pending(done + [val / Pow2(bits) % 32], val, bits, input)
  {
    hide Val32, Val256, Pow2;
    var m, v, d := Pow2(bits), Val32(done), val / Pow2(bits) % 32;
    Val32One(done, d);
    Pow2Five(bits);
    TopDigit(val, m);
    assert (v * 32 + d) * m == v * (32 * m) + d * m;
  }

  lemma PadValue(val: nat, bits: nat)
    requires 0 < bits < 5
    ensures val * Pow2(5 - bits) % 0x1_0000_0000 % 32 == val % Pow2(bits) * Pow2(5 - bits)
    ensures Pow2(bits) * Pow2(5 - bits) == 32
  {
    var q := val * Pow2(5 - bits) / 0x1_0000_0000;
    var x := val * Pow2(5 - bits) % 0x1_0000_0000;
    if bits == 1 {
      DivModIs(x, 32, val / 2 - q * 0x800_0000, val % 2 * 16);
    } else if bits == 2 {
      DivModIs(x, 32, val / 4 - q * 0x800_0000, val % 4 * 8);
    } else if bits == 3 {
      DivModIs(x, 32, val / 8 - q * 0x800_0000, val % 8 * 4);
    } else {
      DivModIs(x, 32, val / 16 - q * 0x800_0000, val % 16 * 2);
    }
  }

  lemma ScalePending(v: nat, m: nat, r: nat, n: nat, w: nat)
    requires v * m + r == w && m * n == 32
    ensures v * 32 + r * n == w * n
  {
    assert w * n == v * (m * n) + r * n;
  }

  lemma EmitPadding(done: seq<byte>, val: nat, bits: nat, input: seq<byte>)
    requires 0 < bits < 5 && Pending(done, val, bits, input)
    ensures var last := val * Pow2(5 - bits) % 0x1_0000_0000 % 32;
            Symbols(done + [last]) && Val32(done + [last]) == Val256(input) * Pow2(5 - bits)
  {
    hide Val32, Val256, Pow2;
    PadValue(val, bits);
    Val32One(done, val * Pow2(5 - bits) % 0x1_0000_0000 % 32);
    ScalePending(Val32(done), Pow2(bits), val % Pow2(bits), Pow2(5 - bits), Val256(input));
  }

  lemma NoPadding(done: seq<byte>, val: nat, input: seq<byte>)
    requires Pending(done, val, 0, input)
    ensures Symbols(done) && Val32(done) == Val256(input) * Pow2(0)
  {}

  /** The inner loop: writes out every complete group of five bits. */
  method EmitSymbols(out: array<byte>, outLenMax: nat, val: u32, bits0: nat, outIdx0: nat, ghost input: seq<byte>)
    returns (ok: bool, bits: nat, outIdx: nat)
    requires outIdx0 <= outLenMax <= out.Length && bits0 <= 12
    requires Pending(out[..outIdx0], val, bits0, input)
    modifies out
    ensures bits + 5 * outIdx == bits0 + 5 * outIdx0 && outIdx0 <= outIdx <= outLenMax
    ensures ok ==> bits < 5 && Pending(out[..outIdx], val, bits, input)
    ensures !ok ==> bits >= 5 && outIdx == outLenMax
    ensures forall k :: outIdx <= k < out.Length ==> out[k] == old(out[k])
  {
    hide Pow2, Pending;
    bits, outIdx := bits0, outIdx0;
    while bits >= 5
      invariant bits <= 12 && bits + 5 * outIdx == bits0 + 5 * outIdx0
      invariant outIdx0 <= outIdx <= outLenMax && Pending(out[..outIdx], val, bits, input)
      invariant forall k :: outIdx <= k < out.Length ==> out[k] == old(out[k])
    {
      if outIdx >= outLenMax {
        return false, bits, outIdx;
      }
      bits := bits - 5;
      ghost var done := out[..outIdx];
      EmitSymbol(done, val, bits, input);
      out[outIdx] := val / Pow2(bits) % 32;
      outIdx := outIdx + 1;
      assert out[..outIdx] == done + [val / Pow2(bits) % 32];
    }
    ok := true;
  }

  /** Regrouping keeps the value: the output is the input shifted by the padding,
      although `val` loses its high bits on the way. */
  method Base32Encode(out: array<byte>, outLenMax: nat, input: seq<byte>)
    returns (ok: bool, outLen: nat)
    requires outLenMax <= out.Length
    modifies out
    ensures ok <==> Base32Length(|input|) <= outLenMax
    ensures ok ==> outLen == Base32Length(|input|) && Symbols(out[..outLen])
    ensures ok ==> Val32(out[..outLen]) == Val256(input) * Pow2(PadBits(|input|))
    ensures !ok ==> outLen == outLenMax
    ensures forall k :: Base32Length(|input|) <= k < out.Length ==> out[k] == old(out[k])
  {
    hide Pow2, Val32, Val256, Pending, Symbols;
    outLen := outLenMax;
    var val: u32, bits: nat, outIdx: nat := 0, 0, 0;
    NothingPending();
    for i := 0 to |input|
      invariant bits < 5 && 8 * i == 5 * outIdx + bits
      invariant outIdx <= outLenMax && Pending(out[..outIdx], val, bits, input[..i])
      invariant forall k :: outIdx <= k < out.Length ==> out[k] == old(out[k])
    {
      TakeByte(out[..outIdx], val, bits, input[..i], input[i]);
      assert input[..i+1] == input[..i] + [input[i]];
      val := val * 256 % 0x1_0000_0000 + input[i];
      bits := bits + 8;
      ok, bits, outIdx := EmitSymbols(out, outLenMax, val, bits, outIdx, input[..i+1]);
      if !ok {
        return;
      }
    }
    assert input[..|input|] == input;
    if bits != 0 {
      if outIdx >= outLenMax {
        return false, outLen;
      }
      ghost var done := out[..outIdx];
      EmitPadding(done, val, bits, input);
      out[outIdx] := val * Pow2(5 - bits) % 0x1_0000_0000 % 32;
      outIdx := outIdx + 1;
      assert out[..outIdx] == done + [val * Pow2(5 - bits) % 0x1_0000_0000 % 32];
    } else {
      NoPadding(out[..outIdx], val, input);
    }
    outLen := outIdx;
    ok := true;
  }

  // ------------------------------------------------------------ the other direction

  function ToBytes(v: nat, n: nat): (bs: seq<byte>)
    ensures |bs| == n
  {
    if n == 0 then [] else ToBytes(v / 256, n - 1) + [v % 256]
  }

  function ToSymbols(v: nat, n: nat): (vs: seq<byte>)
    ensures |vs| == n && Symbols(vs)
  {
    if n == 0 then [] else ToSymbols(v / 32, n - 1) + [v % 32]
  }

  /** The symbols that stand for `bs`. */
  function Encoding(bs: seq<byte>): (vs: seq<byte>)
    ensures |vs| == Base32Length(|bs|) && Symbols(vs)
  {
    ToSymbols(Val256(bs) * Pow2(PadBits(|bs|)), Base32Length(|bs|))
  }

  /** 5-to-8-bit regrouping with the padding rule of BIP-173: at most four bits,
      all zero. */
  function Regroup(vs: seq<byte>): Option<seq<byte>> {
    var pad := 5 * |vs| % 8;
    if pad > 4 || Val32(vs) % Pow2(pad) != 0 then None
    else Some(ToBytes(Val32(vs) / Pow2(pad), 5 * |vs| / 8))
  }

  lemma {:induction false} ToBytesOfVal256(bs: seq<byte>)
    ensures ToBytes(Val256(bs), |bs|) == bs
  {
    if |bs| == 0 {
    } else {
      ToBytesOfVal256(bs[..|bs|-1]);
      assert bs[..|bs|-1] + [bs[|bs|-1]] == bs;
    }
  }

  lemma {:induction false} ToSymbolsOfVal32(vs: seq<byte>)
    requires Symbols(vs)
    ensures ToSymbols(Val32(vs), |vs|) == vs
  {
    if |vs| == 0 {
    } else {
      ToSymbolsOfVal32(vs[..|vs|-1]);
      assert vs[..|vs|-1] + [vs[|vs|-1]] == vs;
    }
  }

  function Power(n: nat): nat { if n == 0 then 1 else 2 * Power(n - 1) }

  lemma PowerOfByte(n: nat)
    ensures Power(n + 8) == 256 * Power(n) && Power(n + 5) == 32 * Power(n)
  {
    assert Power(n + 1) == 2 * Power(n) && Power(n + 2) == 2 * Power(n + 1);
    assert Power(n + 3) == 2 * Power(n + 2) && Power(n + 4) == 2 * Power(n + 3);
    assert Power(n + 5) == 2 * Power(n + 4) && Power(n + 6) == 2 * Power(n + 5);
    assert Power(n + 7) == 2 * Power(n + 6) && Power(n + 8) == 2 * Power(n + 7);
  }

  lemma {:induction false} Val256Bound(bs: seq<byte>)
    ensures Val256(bs) < Power(8 * |bs|)
  {
    if |bs| == 0 {
    } else {
      Val256Bound(bs[..|bs|-1]);
      PowerOfByte(8 * (|bs| - 1));
    }
  }

  lemma PowerSum(n: nat, p: nat)
    requires p < 5
    ensures Power(n + p) == Power(n) * Pow2(p)
  {
    if p == 1 {
    } else if p == 2 {
      assert Power(n + 2) == 2 * Power(n + 1);
    } else if p == 3 {
      assert Power(n + 3) == 4 * Power(n + 1);
    } else if p == 4 {
      assert Power(n + 4) == 4 * Power(n + 2);
      assert Power(n + 2) == 4 * Power(n);
    }
  }

  lemma {:induction false} Val32OfToSymbols(v: nat, n: nat)
    requires v < Power(5 * n)
    ensures Val32(ToSymbols(v, n)) == v
  {
    if n == 0 {
    } else {
      PowerOfByte(5 * (n - 1));
      Val32OfToSymbols(v / 32, n - 1);
      assert ToSymbols(v, n)[..n-1] == ToSymbols(v / 32, n - 1);
    }
  }

  lemma Scaled(x: nat, bound: nat, m: nat)
    requires x < bound && m > 0
    ensures x * m < bound * m
  {}

  /** `Encoding` has the value that `Base32Encode` promises, and no other list of
      symbols of its length has it. */
  lemma EncodingExact(bs: seq<byte>, vs: seq<byte>)
    requires |vs| == Base32Length(|bs|) && Symbols(vs)
    ensures Val32(vs) == Val256(bs) * Pow2(PadBits(|bs|)) <==> vs == Encoding(bs)
  {
    hide Val256, Val32, Power, Pow2, ToSymbols, Symbols;
    var pad, m := PadBits(|bs|), Base32Length(|bs|);
    var v := Val256(bs) * Pow2(pad);
    assert v < Power(5 * m) by {
      Val256Bound(bs);
      PowerSum(8 * |bs|, pad);
      Scaled(Val256(bs), Power(8 * |bs|), Pow2(pad));
      assert 8 * |bs| + pad == 5 * m;
    }
    Val32OfToSymbols(v, m);
    ToSymbolsOfVal32(vs);
  }

  lemma DivModOfProduct(x: nat, m: nat)
    requires m > 0
    ensures x * m / m == x && x * m % m == 0
  {
    DivModIs(x * m, m, x, 0);
  }

  /** Regrouping back gives the bytes. */
  lemma RegroupEncoding(bs: seq<byte>)
    ensures Regroup(Encoding(bs)) == Some(bs)
  {
    var n, pad := |bs|, PadBits(|bs|);
    assert 5 * Base32Length(n) == 8 * n + pad;
    assert 5 * Base32Length(n) / 8 == n && 5 * Base32Length(n) % 8 == pad;
    EncodingExact(bs, Encoding(bs));
    DivModOfProduct(Val256(bs), Pow2(pad));
    ToBytesOfVal256(bs);
  }
}
