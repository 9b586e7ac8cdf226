/** The checksum register of src/iota/bech32.c: GF(2) linearity of its step and
    the exactness of the six checksum symbols. The bit-vector facts are kept in
    small lemmas over plain variables; everything above them hides the bits. */
module Polymod {

  /** A 5-bit value. */
  type symbol = x: int | 0 <= x < 32

  // ------------------------------------------------------------ polynomial step

  /** Bitwise exclusive or, named so that its algebra can be used without bits. */
  function Xor(a: bv32, b: bv32): bv32 { a ^ b }

  function Bit(b: bv32, k: nat): bv32
    requires k < 5
  {
    if k == 0 then b & 1 else if k == 1 then (b >> 1) & 1 else if k == 2 then (b >> 2) & 1
    else if k == 3 then (b >> 3) & 1 else (b >> 4) & 1
  }

  function Mask(bit: bv32, gen: bv32): bv32 { (0 - bit) & gen }

  function Low(x: bv32): bv32 { (x & 0x1FFFFFF) << 5 }

  function High(x: bv32): bv32 { x >> 25 }

  function Feedback(b: bv32): bv32 {
    Xor(Mask(Bit(b, 0), 0x3b6a57b2), Xor(Mask(Bit(b, 1), 0x26508e6d),
      Xor(Mask(Bit(b, 2), 0x1ea119fa), Xor(Mask(Bit(b, 3), 0x3d4233dd),
      Mask(Bit(b, 4), 0x2a1462b3)))))
  }

  function PolymodStep(pre: bv32): bv32 { Xor(Low(pre), Feedback(High(pre))) }

  lemma XorAssoc(a: bv32, b: bv32, c: bv32)
    ensures Xor(Xor(a, b), c) == Xor(a, Xor(b, c))
  {}

  lemma XorComm(a: bv32, b: bv32)
    ensures Xor(a, b) == Xor(b, a)
  {}

  lemma XorZero(a: bv32)
    ensures Xor(a, 0) == a && Xor(0, a) == a
  {}

  lemma XorCancel(a: bv32, b: bv32)
    ensures Xor(a, Xor(a, b)) == b
  {}

  lemma Interchange(a: bv32, b: bv32, c: bv32, d: bv32)
    ensures Xor(Xor(a, b), Xor(c, d)) == Xor(Xor(a, c), Xor(b, d))
  {
    hide Xor;
    XorAssoc(a, b, Xor(c, d));
    XorAssoc(b, c, d);
    XorComm(b, c);
    XorAssoc(c, b, d);
    XorAssoc(a, c, Xor(b, d));
  }

  lemma RawBitLinear(x: bv32, y: bv32)
    ensures (x ^ y) & 1 == (x & 1) ^ (y & 1)
    ensures ((x ^ y) >> 1) & 1 == ((x >> 1) & 1) ^ ((y >> 1) & 1)
    ensures ((x ^ y) >> 2) & 1 == ((x >> 2) & 1) ^ ((y >> 2) & 1)
    ensures ((x ^ y) >> 3) & 1 == ((x >> 3) & 1) ^ ((y >> 3) & 1)
    ensures ((x ^ y) >> 4) & 1 == ((x >> 4) & 1) ^ ((y >> 4) & 1)
  {}

  lemma BitBound(x: bv32, k: nat)
    requires k < 5
    ensures Bit(x, k) <= 1
  {}

  lemma BitLinear(x: bv32, y: bv32, k: nat)
    requires k < 5
    ensures Bit(Xor(x, y), k) == Xor(Bit(x, k), Bit(y, k))
  {
    var z := Xor(x, y);
    RawBitLinear(x, y);
    if k == 0 {
    } else if k == 1 {
    } else if k == 2 {
    } else if k == 3 {
    } else {
    }
  }

  lemma MaskLinear(x: bv32, y: bv32, gen: bv32)
    requires x <= 1 && y <= 1
    ensures Mask(Xor(x, y), gen) == Xor(Mask(x, gen), Mask(y, gen))
  {}

  lemma TermLinear(x: bv32, y: bv32, k: nat, gen: bv32)
    requires k < 5
    ensures Mask(Bit(Xor(x, y), k), gen) == Xor(Mask(Bit(x, k), gen), Mask(Bit(y, k), gen))
  {
    hide Xor, Mask, Bit;
    BitLinear(x, y, k);
    BitBound(x, k);
    BitBound(y, k);
    MaskLinear(Bit(x, k), Bit(y, k), gen);
  }

  lemma SplitLinear(x: bv32, y: bv32)
    ensures Low(Xor(x, y)) == Xor(Low(x), Low(y)) && High(Xor(x, y)) == Xor(High(x), High(y))
  {}

  lemma FeedbackLinear(x: bv32, y: bv32)
    ensures Feedback(Xor(x, y)) == Xor(Feedback(x), Feedback(y))
  {
    hide Xor, Mask, Bit;
    var x0, x1, x2, x3, x4 := Mask(Bit(x, 0), 0x3b6a57b2), Mask(Bit(x, 1), 0x26508e6d),
      Mask(Bit(x, 2), 0x1ea119fa), Mask(Bit(x, 3), 0x3d4233dd), Mask(Bit(x, 4), 0x2a1462b3);
    var y0, y1, y2, y3, y4 := Mask(Bit(y, 0), 0x3b6a57b2), Mask(Bit(y, 1), 0x26508e6d),
      Mask(Bit(y, 2), 0x1ea119fa), Mask(Bit(y, 3), 0x3d4233dd), Mask(Bit(y, 4), 0x2a1462b3);
    TermLinear(x, y, 0, 0x3b6a57b2);
    TermLinear(x, y, 1, 0x26508e6d);
    TermLinear(x, y, 2, 0x1ea119fa);
    TermLinear(x, y, 3, 0x3d4233dd);
    TermLinear(x, y, 4, 0x2a1462b3);
    Interchange(x3, y3, x4, y4);
    Interchange(x2, y2, Xor(x3, x4), Xor(y3, y4));
    Interchange(x1, y1, Xor(x2, Xor(x3, x4)), Xor(y2, Xor(y3, y4)));
    Interchange(x0, y0, Xor(x1, Xor(x2, Xor(x3, x4))), Xor(y1, Xor(y2, Xor(y3, y4))));
  }

  /** The step is linear over GF(2). */
  lemma PolymodStepLinear(x: bv32, y: bv32)
    ensures PolymodStep(Xor(x, y)) == Xor(PolymodStep(x), PolymodStep(y))
  {
    hide Xor, Low, High, Feedback;
    SplitLinear(x, y);
    FeedbackLinear(High(x), High(y));
    Interchange(Low(x), Low(y), Feedback(High(x)), Feedback(High(y)));
  }

  /** Every state of the register stays below 2^30. */
  lemma PolymodStepBound(x: bv32)
    ensures PolymodStep(x) < 0x4000_0000
  {}

  /** No feedback while the top five bits are clear. */
  lemma PolymodStepShift(x: bv32)
    requires x < 0x200_0000
    ensures PolymodStep(x) == Shl5(x)
  {}

  // ------------------------------------------------------------------- checksum

  function Sym(v: symbol): bv32 { v as bv32 }

  lemma RawSymbol(v: symbol)
    ensures v as bv32 < 32 && (v as bv32) as int == v
  {}

  lemma SymBound(v: symbol)
    ensures Sym(v) < 32 && ToSymbol(Sym(v)) == v
  {
    RawSymbol(v);
  }

  /** The `i`th of six 5-bit windows of `m`, highest first. */
  function Window(m: bv32, i: nat): (w: bv32)
    requires i < 6
    ensures w < 32
  {
    if i == 0 then (m >> 25) & 0x1f else if i == 1 then (m >> 20) & 0x1f
    else if i == 2 then (m >> 15) & 0x1f else if i == 3 then (m >> 10) & 0x1f
    else if i == 4 then (m >> 5) & 0x1f else m & 0x1f
  }

  function ToSymbol(w: bv32): (v: symbol)
    requires w < 32
    ensures Sym(v) == w
  {
    w as int
  }

  lemma SymInjective(u: symbol, v: symbol)
    requires Sym(u) == Sym(v)
    ensures u == v
  {
    hide Sym, ToSymbol;
    SymBound(u);
    SymBound(v);
  }

  /** The checksum register after feeding it the symbols `vs`. */
  function Absorb(chk: bv32, vs: seq<symbol>): bv32 {
    if |vs| == 0 then chk
    else Xor(PolymodStep(Absorb(chk, vs[..|vs|-1])), Sym(vs[|vs|-1]))
  }

  /** The register after `n` zero symbols. */
  function StepN(chk: bv32, n: nat): bv32 {
    if n == 0 then chk else PolymodStep(StepN(chk, n - 1))
  }

  /** Symbols read as one number, first symbol on top. */
  function Pack(vs: seq<symbol>): bv32 {
    if |vs| == 0 then 0 else Append(Pack(vs[..|vs|-1]), Sym(vs[|vs|-1]))
  }

  function Append(p: bv32, v: bv32): bv32 { (p << 5) | v }

  function Shl5(p: bv32): bv32 { p << 5 }

  function Unpack(m: bv32): (vs: seq<symbol>)
    ensures |vs| == 6
    ensures forall i :: 0 <= i < 6 ==> Sym(vs[i]) == Window(m, i)
  {
    hide Window, Sym;
    [ToSymbol(Window(m, 0)), ToSymbol(Window(m, 1)), ToSymbol(Window(m, 2)),
     ToSymbol(Window(m, 3)), ToSymbol(Window(m, 4)), ToSymbol(Window(m, 5))]
  }

  lemma {:induction false} AbsorbConcat(chk: bv32, us: seq<symbol>, vs: seq<symbol>)
    ensures Absorb(chk, us + vs) == Absorb(Absorb(chk, us), vs)
  {
    if |vs| == 0 {
      assert us + vs == us;
    } else {
      AbsorbConcat(chk, us, vs[..|vs|-1]);
      assert (us + vs)[..|us + vs|-1] == us + vs[..|vs|-1];
    }
  }

  /** The register is affine in its start value. */
  lemma {:induction false} AbsorbLinear(a: bv32, b: bv32, vs: seq<symbol>)
    ensures Absorb(Xor(a, b), vs) == Xor(StepN(a, |vs|), Absorb(b, vs))
  {
    hide Xor, PolymodStep, Sym;
    if |vs| == 0 {
    } else {
      var us, v := vs[..|vs|-1], Sym(vs[|vs|-1]);
      AbsorbLinear(a, b, us);
      PolymodStepLinear(StepN(a, |us|), Absorb(b, us));
      XorAssoc(PolymodStep(StepN(a, |us|)), PolymodStep(Absorb(b, us)), v);
    }
  }

  /** `p` has at most `5 * n` bits. */
  predicate Fits(p: bv32, n: nat) {
    if n == 0 then p == 0 else if n == 1 then p < 0x20 else if n == 2 then p < 0x400
    else if n == 3 then p < 0x8000 else if n == 4 then p < 0x10_0000
    else n == 5 && p < 0x200_0000
  }

  lemma RawFits(p: bv32)
    ensures p < 0x20 ==> p < 0x200_0000
    ensures p < 0x400 ==> p < 0x200_0000
    ensures p < 0x8000 ==> p < 0x200_0000
    ensures p < 0x10_0000 ==> p < 0x200_0000
  {}

  lemma RawAppend(p: bv32, v: bv32)
    requires v < 32
    ensures (p << 5) ^ v == (p << 5) | v
    ensures p == 0 ==> (p << 5) | v < 0x20
    ensures p < 0x20 ==> (p << 5) | v < 0x400
    ensures p < 0x400 ==> (p << 5) | v < 0x8000
    ensures p < 0x8000 ==> (p << 5) | v < 0x10_0000
    ensures p < 0x10_0000 ==> (p << 5) | v < 0x200_0000
  {}

  lemma StepOfFits(p: bv32, n: nat)
    requires n <= 5 && Fits(p, n)
    ensures PolymodStep(p) == Shl5(p)
  {
    hide PolymodStep, Shl5;
    RawFits(p);
    PolymodStepShift(p);
  }

  lemma XorIsAppend(p: bv32, s: symbol)
    ensures Xor(Shl5(p), Sym(s)) == Append(p, Sym(s))
  {
    hide Sym;
    SymBound(s);
    RawAppend(p, Sym(s));
  }

  lemma AppendFits(p: bv32, s: symbol, n: nat)
    requires n < 5 && Fits(p, n)
    ensures Fits(Append(p, Sym(s)), n + 1)
  {
    hide Sym;
    SymBound(s);
    RawAppend(p, Sym(s));
  }

  /** From zero, up to six symbols are shifted in without feedback. */
  lemma {:induction false} AbsorbFromZero(vs: seq<symbol>)
    requires |vs| <= 6
    ensures Absorb(0, vs) == Pack(vs)
    ensures |vs| <= 5 ==> Fits(Pack(vs), |vs|)
  {
    if |vs| == 0 {
    } else {
      var us, v := vs[..|vs|-1], vs[|vs|-1];
      AbsorbFromZero(us);
      AbsorbFromZeroStep(us, v);
      assert vs == us + [v];
    }
  }

  lemma AbsorbFromZeroStep(us: seq<symbol>, v: symbol)
    requires |us| <= 5 && Absorb(0, us) == Pack(us) && Fits(Pack(us), |us|)
    ensures Absorb(0, us + [v]) == Pack(us + [v])
    ensures |us| < 5 ==> Fits(Pack(us + [v]), |us| + 1)
  {
    hide Sym, PolymodStep, Xor, Append, Shl5, Fits;
    assert (us + [v])[..|us|] == us;
    StepOfFits(Pack(us), |us|);
    XorIsAppend(Pack(us), v);
    if |us| < 5 {
      AppendFits(Pack(us), v, |us|);
    }
  }

  lemma AppendWindows(m: bv32, a: bv32, b: bv32, c: bv32, d: bv32, e: bv32, f: bv32,
                      p0: bv32, p1: bv32, p2: bv32, p3: bv32, p4: bv32, p5: bv32, p6: bv32)
    requires m < 0x4000_0000 && p0 == 0
    requires a == Window(m, 0) && b == Window(m, 1) && c == Window(m, 2)
    requires d == Window(m, 3) && e == Window(m, 4) && f == Window(m, 5)
    requires p1 == Append(p0, a) && p2 == Append(p1, b) && p3 == Append(p2, c)
    requires p4 == Append(p3, d) && p5 == Append(p4, e) && p6 == Append(p5, f)
    ensures p6 == m
  {}

  lemma WindowsOfAppends(a: bv32, b: bv32, c: bv32, d: bv32, e: bv32, f: bv32,
                         p0: bv32, p1: bv32, p2: bv32, p3: bv32, p4: bv32, p5: bv32, m: bv32)
    requires a < 32 && b < 32 && c < 32 && d < 32 && e < 32 && f < 32 && p0 == 0
    requires p1 == Append(p0, a) && p2 == Append(p1, b) && p3 == Append(p2, c)
    requires p4 == Append(p3, d) && p5 == Append(p4, e) && m == Append(p5, f)
    ensures a == Window(m, 0) && b == Window(m, 1) && c == Window(m, 2)
    ensures d == Window(m, 3) && e == Window(m, 4) && f == Window(m, 5)
  {}

  /** `p` is the chain of partial packings of the six symbols with bits `w`. */
  predicate Chain(p: seq<bv32>, w: seq<bv32>) {
    |p| == 7 && |w| == 6 && p[0] == 0 && forall i :: 0 <= i < 6 ==> p[i+1] == Append(p[i], w[i])
  }

  lemma ChainOfWindows(m: bv32, p: seq<bv32>, w: seq<bv32>)
    requires m < 0x4000_0000 && Chain(p, w)
    requires forall i :: 0 <= i < 6 ==> w[i] == Window(m, i)
    ensures p[6] == m
  {
    hide Append, Window;
    assert p[0+1] == Append(p[0], w[0]) && p[1+1] == Append(p[1], w[1]);
    assert p[2+1] == Append(p[2], w[2]) && p[3+1] == Append(p[3], w[3]);
    assert p[4+1] == Append(p[4], w[4]) && p[5+1] == Append(p[5], w[5]);
    AppendWindows(m, w[0], w[1], w[2], w[3], w[4], w[5],
                  p[0], p[1], p[2], p[3], p[4], p[5], p[6]);
  }

  lemma WindowsOfChain(p: seq<bv32>, w: seq<bv32>)
    requires Chain(p, w) && forall i :: 0 <= i < 6 ==> w[i] < 32
    ensures forall i :: 0 <= i < 6 ==> Window(p[6], i) == w[i]
  {
    hide Append, Window;
    assert p[0+1] == Append(p[0], w[0]) && p[1+1] == Append(p[1], w[1]);
    assert p[2+1] == Append(p[2], w[2]) && p[3+1] == Append(p[3], w[3]);
    assert p[4+1] == Append(p[4], w[4]) && p[5+1] == Append(p[5], w[5]);
    WindowsOfAppends(w[0], w[1], w[2], w[3], w[4], w[5],
                     p[0], p[1], p[2], p[3], p[4], p[5], p[6]);
  }

  /** The chain of partial packings of six symbols. */
  lemma PackChain(vs: seq<symbol>) returns (p: seq<bv32>, w: seq<bv32>)
    requires |vs| == 6
    ensures Chain(p, w) && p[6] == Pack(vs)
    ensures forall i :: 0 <= i < 6 ==> w[i] == Sym(vs[i]) && w[i] < 32
  {
    hide Append, Sym;
    p, w := [0], [];
    for k := 0 to 6
      invariant |p| == k + 1 && |w| == k && p[0] == 0
      invariant forall i :: 0 <= i < k ==> p[i+1] == Append(p[i], w[i])
      invariant forall i :: 0 <= i < k ==> w[i] == Sym(vs[i]) && w[i] < 32
      invariant p[k] == Pack(vs[..k])
    {
      assert vs[..k+1][..k] == vs[..k];
      SymBound(vs[k]);
      w := w + [Sym(vs[k])];
      p := p + [Append(p[k], Sym(vs[k]))];
    }
    assert vs[..6] == vs;
  }

  /** Cutting a 30-bit number into symbols and packing them gives it back. */
  lemma PackUnpack(m: bv32)
    requires m < 0x4000_0000
    ensures Pack(Unpack(m)) == m
  {
    hide Append, Sym, Window;
    var p, w := PackChain(Unpack(m));
    ChainOfWindows(m, p, w);
  }

  /** Six symbols are determined by their packing. */
  lemma UnpackPack(vs: seq<symbol>)
    requires |vs| == 6
    ensures Unpack(Pack(vs)) == vs
  {
    hide Append, Sym, Window;
    var p, w := PackChain(vs);
    WindowsOfChain(p, w);
    forall i | 0 <= i < 6
      ensures Unpack(Pack(vs))[i] == vs[i]
    {
      SymInjective(Unpack(Pack(vs))[i], vs[i]);
    }
  }

  // ------------------------------------------------------------------- checksum

  /** The six symbols that `bech32_encode` emits for a register `chk`. */
  function Checksum(chk: bv32): (vs: seq<symbol>)
    ensures |vs| == 6
  {
    Unpack(Xor(StepN(chk, 6), 1))
  }

  lemma RegisterBound(chk: bv32)
    ensures Xor(StepN(chk, 6), 1) < 0x4000_0000
  {
    hide PolymodStep;
    PolymodStepBound(StepN(chk, 5));
    RawBound(StepN(chk, 6));
  }

  lemma RawBound(x: bv32)
    requires x < 0x4000_0000
    ensures x ^ 1 < 0x4000_0000
  {}

  /** Six symbols bring the register to 1 exactly when they are the checksum. */
  lemma ChecksumExact(chk: bv32, vs: seq<symbol>)
    requires |vs| == 6
    ensures Absorb(chk, vs) == 1 <==> vs == Checksum(chk)
  {
    hide Xor, PolymodStep, Pack, Unpack;
    var z := StepN(chk, 6);
    XorZero(chk);
    AbsorbLinear(chk, 0, vs);
    AbsorbFromZero(vs);
    assert Absorb(chk, vs) == Xor(z, Pack(vs));
    if vs == Checksum(chk) {
      RegisterBound(chk);
      PackUnpack(Xor(z, 1));
      XorCancel(z, 1);
    }
    if Absorb(chk, vs) == 1 {
      XorCancel(z, Pack(vs));
      UnpackPack(vs);
    }
  }

  // ----------------------------------------------------------- error detection

  lemma StepZero(z: bv32)
    requires z < 0x4000_0000 && PolymodStep(z) == 0
    ensures z == 0
  {}

  lemma XorBound(a: bv32, b: bv32)
    requires a < 0x4000_0000 && b < 0x4000_0000
    ensures a ^ b < 0x4000_0000
    ensures a ^ b == 0 ==> a == b
    ensures a ^ a == 0
  {}

  /** No two states of the register have the same successor. */
  lemma PolymodStepInjective(x: bv32, y: bv32)
    requires x < 0x4000_0000 && y < 0x4000_0000 && PolymodStep(x) == PolymodStep(y)
    ensures x == y
  {
    hide PolymodStep;
    PolymodStepLinear(x, y);
    PolymodStepBound(x);
    XorBound(PolymodStep(x), PolymodStep(y));
    XorBound(x, y);
    StepZero(Xor(x, y));
  }

  lemma SymbolBound(v: symbol)
    ensures Sym(v) < 0x4000_0000
  {
    hide Sym;
    SymBound(v);
  }

  lemma {:induction false} AbsorbBound(chk: bv32, vs: seq<symbol>)
    requires chk < 0x4000_0000
    ensures Absorb(chk, vs) < 0x4000_0000
  {
    hide PolymodStep, Sym;
    if |vs| == 0 {
    } else {
      var us, v := vs[..|vs|-1], vs[|vs|-1];
      PolymodStepBound(Absorb(chk, us));
      SymbolBound(v);
      XorBound(PolymodStep(Absorb(chk, us)), Sym(v));
    }
  }

  /** Feeding symbols never merges two states. */
  lemma {:induction false} AbsorbInjective(a: bv32, b: bv32, vs: seq<symbol>)
    requires a < 0x4000_0000 && b < 0x4000_0000 && Absorb(a, vs) == Absorb(b, vs)
    ensures a == b
  {
    hide PolymodStep, Sym, Xor;
    if |vs| == 0 {
    } else {
      var us, v := vs[..|vs|-1], Sym(vs[|vs|-1]);
      XorComm(PolymodStep(Absorb(a, us)), v);
      XorComm(PolymodStep(Absorb(b, us)), v);
      XorCancel(v, PolymodStep(Absorb(a, us)));
      XorCancel(v, PolymodStep(Absorb(b, us)));
      AbsorbBound(a, us);
      AbsorbBound(b, us);
      PolymodStepInjective(Absorb(a, us), Absorb(b, us));
      AbsorbInjective(a, b, us);
    }
  }

  lemma AppendInjective(p: bv32, q: bv32, v: bv32, w: bv32)
    requires p < 0x200_0000 && q < 0x200_0000 && v < 32 && w < 32 && Append(p, v) == Append(q, w)
    ensures p == q && v == w
  {}

  lemma FitsBound(p: bv32, n: nat)
    requires n <= 5 && Fits(p, n)
    ensures p < 0x200_0000
  {
    RawFits(p);
  }

  lemma PackBound(us: seq<symbol>)
    requires |us| <= 5
    ensures Pack(us) < 0x200_0000
  {
    hide Pack, Fits, Absorb;
    AbsorbFromZero(us);
    FitsBound(Pack(us), |us|);
  }

  /** Up to six symbols are determined by their packing. */
  lemma {:induction false} PackInjective(us: seq<symbol>, vs: seq<symbol>)
    requires |us| == |vs| <= 6 && Pack(us) == Pack(vs)
    ensures us == vs
  {
    hide Sym, Append;
    if |us| == 0 {
    } else {
      var n := |us| - 1;
      PackBound(us[..n]);
      PackBound(vs[..n]);
      SymBound(us[n]);
      SymBound(vs[n]);
      AppendInjective(Pack(us[..n]), Pack(vs[..n]), Sym(us[n]), Sym(vs[n]));
      PackInjective(us[..n], vs[..n]);
      SymInjective(us[n], vs[n]);
      assert us == us[..n] + [us[n]] && vs == vs[..n] + [vs[n]];
    }
  }

  /** A burst of errors inside six consecutive symbols changes the register, whatever
      comes before and behind it. */
  lemma BurstChangesRegister(chk: bv32, us: seq<symbol>, vs: seq<symbol>, tail: seq<symbol>)
    requires chk < 0x4000_0000 && |us| == |vs| <= 6
    requires Absorb(chk, us + tail) == Absorb(chk, vs + tail)
    ensures us == vs
  {
    hide Xor, PolymodStep, Pack, Absorb, StepN;
    AbsorbConcat(chk, us, tail);
    AbsorbConcat(chk, vs, tail);
    AbsorbBound(chk, us);
    AbsorbBound(chk, vs);
    AbsorbInjective(Absorb(chk, us), Absorb(chk, vs), tail);
    var z := StepN(chk, |us|);
    XorZero(chk);
    AbsorbLinear(chk, 0, us);
    AbsorbLinear(chk, 0, vs);
    AbsorbFromZero(us);
    AbsorbFromZero(vs);
    XorCancel(z, Pack(us));
    XorCancel(z, Pack(vs));
    PackInjective(us, vs);
  }
}
