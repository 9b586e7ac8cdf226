/** The checksum of BIP-173 as it is defined there: remainders of polynomials over the
    field of 32 elements. The register of src/iota/bech32.c is shown to compute them. */
module Gf32 {
  import opened Polymod

  // ---------------------------------------------------------------------- field

  /** Times the generator `a` of the field, where a^5 = a^3 + 1. */
  function TimesA(x: bv32): bv32 {
    ((x << 1) & 0x1f) ^ ((x >> 4) << 3) ^ (x >> 4)
  }

  /** The product of two elements, the second one given as a number: bit `i` stands for
      the power a^i. */
  function Times(x: bv32, y: nat): bv32
    decreases y
  {
    if y == 0 then 0 else if y % 2 == 1 then Xor(x, Times(TimesA(x), y / 2)) else Times(TimesA(x), y / 2)
  }

  // ------------------------------------------------------- one step of the register

  lemma TimesOdd(x: bv32, y: nat)
    ensures Times(x, 2 * y + 1) == Xor(x, Times(TimesA(x), y))
  {
    hide TimesA, Xor;
  }

  lemma TimesEven(x: bv32, y: nat)
    requires y > 0
    ensures Times(x, 2 * y) == Times(TimesA(x), y)
  {
    hide TimesA, Xor;
  }

  /** A product with a single power of `a`, and with no power at all. */
  lemma TimesOne(x: bv32)
    ensures Times(x, 1) == x
  {
    hide TimesA, Xor;
    TimesOdd(x, 0);
    XorZero(x);
  }

  /** The products with the coefficients of the generator, in the products `b1` to `b4` of
      `b` with the powers of `a`. */
  lemma Products(b: bv32, b1: bv32, b2: bv32, b3: bv32, b4: bv32)
    requires b1 == TimesA(b) && b2 == TimesA(b1) && b3 == TimesA(b2) && b4 == TimesA(b3)
    ensures Times(b, 29) == Xor(b, Xor(b2, Xor(b3, b4))) && Times(b, 22) == Xor(b1, Xor(b2, b4))
    ensures Times(b, 20) == Xor(b2, b4) && Times(b, 21) == Xor(b, Xor(b2, b4)) && Times(b, 18) == Xor(b1, b4)
  {
    hide TimesA, Times, Xor;
    TimesOne(b4);
    TimesOdd(b3, 1);
    TimesEven(b3, 1);
    TimesOdd(b2, 3);
    TimesOdd(b2, 2);
    TimesEven(b2, 2);
    TimesEven(b1, 7);
    TimesOdd(b1, 5);
    TimesEven(b1, 5);
    TimesOdd(b1, 4);
    TimesOdd(b, 14);
    TimesEven(b, 11);
    TimesEven(b, 10);
    TimesOdd(b, 10);
    TimesEven(b, 9);
  }

  /** The feedback in plain bits. */
  lemma RawFeedback(b: bv32, b1: bv32, b2: bv32, b3: bv32, b4: bv32, f: bv32)
    requires b < 32
    requires b1 == ((b << 1) & 0x1f) ^ ((b >> 4) << 3) ^ (b >> 4)
    requires b2 == ((b1 << 1) & 0x1f) ^ ((b1 >> 4) << 3) ^ (b1 >> 4)
    requires b3 == ((b2 << 1) & 0x1f) ^ ((b2 >> 4) << 3) ^ (b2 >> 4)
    requires b4 == ((b3 << 1) & 0x1f) ^ ((b3 >> 4) << 3) ^ (b3 >> 4)
    requires f == ((0 - (b & 1)) & 0x3b6a57b2) ^ (((0 - ((b >> 1) & 1)) & 0x26508e6d)
      ^ (((0 - ((b >> 2) & 1)) & 0x1ea119fa) ^ (((0 - ((b >> 3) & 1)) & 0x3d4233dd)
      ^ ((0 - ((b >> 4) & 1)) & 0x2a1462b3))))
    ensures (f >> 25) & 0x1f == b ^ (b2 ^ (b3 ^ b4))
    ensures (f >> 20) & 0x1f == b1 ^ (b2 ^ b4)
    ensures (f >> 15) & 0x1f == b2 ^ b4
    ensures (f >> 10) & 0x1f == b ^ (b2 ^ b4)
    ensures (f >> 5) & 0x1f == b ^ (b2 ^ (b3 ^ b4))
    ensures f & 0x1f == b1 ^ b4
  {}

  lemma TimesAOf(x: bv32, y: bv32)
    requires y == TimesA(x)
    ensures y == ((x << 1) & 0x1f) ^ ((x >> 4) << 3) ^ (x >> 4)
  {}

  lemma FeedbackOf(b: bv32, f: bv32)
    requires f == Feedback(b)
    ensures f == ((0 - (b & 1)) & 0x3b6a57b2) ^ (((0 - ((b >> 1) & 1)) & 0x26508e6d)
      ^ (((0 - ((b >> 2) & 1)) & 0x1ea119fa) ^ (((0 - ((b >> 3) & 1)) & 0x3d4233dd)
      ^ ((0 - ((b >> 4) & 1)) & 0x2a1462b3))))
  {}

  /** The feedback for `b` is `b` times the generator without its leading coefficient. */
  lemma FeedbackIsProduct(b: bv32, f: bv32)
    requires b < 32 && f == Feedback(b)
    ensures (f >> 25) & 0x1f == Times(b, 29) && (f >> 20) & 0x1f == Times(b, 22) && (f >> 15) & 0x1f == Times(b, 20)
    ensures (f >> 10) & 0x1f == Times(b, 21) && (f >> 5) & 0x1f == Times(b, 29) && f & 0x1f == Times(b, 18)
  {
    hide Times, TimesA, Feedback;
    var b1 := TimesA(b);
    var b2 := TimesA(b1);
    var b3 := TimesA(b2);
    var b4 := TimesA(b3);
    TimesAOf(b, b1);
    TimesAOf(b1, b2);
    TimesAOf(b2, b3);
    TimesAOf(b3, b4);
    FeedbackOf(b, f);
    RawFeedback(b, b1, b2, b3, b4, f);
    Products(b, b1, b2, b3, b4);
  }

  lemma WindowsOf(m: bv32)
    ensures Window(m, 0) == (m >> 25) & 0x1f && Window(m, 1) == (m >> 20) & 0x1f
    ensures Window(m, 2) == (m >> 15) & 0x1f && Window(m, 3) == (m >> 10) & 0x1f
    ensures Window(m, 4) == (m >> 5) & 0x1f && Window(m, 5) == m & 0x1f
  {}

  lemma FeedbackWindows(b: bv32, f: bv32)
    requires b < 32 && f == Feedback(b)
    ensures Window(f, 0) == Times(b, 29) && Window(f, 1) == Times(b, 22) && Window(f, 2) == Times(b, 20)
    ensures Window(f, 3) == Times(b, 21) && Window(f, 4) == Times(b, 29) && Window(f, 5) == Times(b, 18)
  {
    hide Times, Feedback, Window;
    WindowsOf(f);
    FeedbackIsProduct(b, f);
  }

  lemma RawShift(z: bv32, l: bv32)
    requires z < 0x4000_0000 && l == (z & 0x1ffffff) << 5
    ensures (l >> 25) & 0x1f == (z >> 20) & 0x1f && (l >> 20) & 0x1f == (z >> 15) & 0x1f
    ensures (l >> 15) & 0x1f == (z >> 10) & 0x1f && (l >> 10) & 0x1f == (z >> 5) & 0x1f
    ensures (l >> 5) & 0x1f == z & 0x1f && l & 0x1f == 0
  {}

  lemma LowWindows(z: bv32, l: bv32)
    requires z < 0x4000_0000 && l == Low(z)
    ensures Window(l, 0) == Window(z, 1) && Window(l, 1) == Window(z, 2) && Window(l, 2) == Window(z, 3)
    ensures Window(l, 3) == Window(z, 4) && Window(l, 4) == Window(z, 5) && Window(l, 5) == 0
  {
    hide Window;
    WindowsOf(z);
    WindowsOf(l);
    RawShift(z, l);
  }

  lemma RawWindowXor(x: bv32, y: bv32, z: bv32)
    requires z == x ^ y
    ensures (z >> 25) & 0x1f == ((x >> 25) & 0x1f) ^ ((y >> 25) & 0x1f)
    ensures (z >> 20) & 0x1f == ((x >> 20) & 0x1f) ^ ((y >> 20) & 0x1f)
    ensures (z >> 15) & 0x1f == ((x >> 15) & 0x1f) ^ ((y >> 15) & 0x1f)
    ensures (z >> 10) & 0x1f == ((x >> 10) & 0x1f) ^ ((y >> 10) & 0x1f)
    ensures (z >> 5) & 0x1f == ((x >> 5) & 0x1f) ^ ((y >> 5) & 0x1f)
    ensures z & 0x1f == (x & 0x1f) ^ (y & 0x1f)
  {}

  lemma IsXor(a: bv32, b: bv32, r: bv32)
    requires r == a ^ b
    ensures r == Xor(a, b)
  {}

  lemma XorIs(a: bv32, b: bv32, r: bv32)
    requires r == Xor(a, b)
    ensures r == a ^ b
  {}

  lemma WindowXor(x: bv32, y: bv32, z: bv32)
    requires z == Xor(x, y)
    ensures Window(z, 0) == Xor(Window(x, 0), Window(y, 0)) && Window(z, 1) == Xor(Window(x, 1), Window(y, 1))
    ensures Window(z, 2) == Xor(Window(x, 2), Window(y, 2)) && Window(z, 3) == Xor(Window(x, 3), Window(y, 3))
    ensures Window(z, 4) == Xor(Window(x, 4), Window(y, 4)) && Window(z, 5) == Xor(Window(x, 5), Window(y, 5))
  {
    hide Window, Xor;
    WindowsOf(x);
    WindowsOf(y);
    WindowsOf(z);
    XorIs(x, y, z);
    RawWindowXor(x, y, z);
    IsXor((x >> 25) & 0x1f, (y >> 25) & 0x1f, (z >> 25) & 0x1f);
    IsXor((x >> 20) & 0x1f, (y >> 20) & 0x1f, (z >> 20) & 0x1f);
    IsXor((x >> 15) & 0x1f, (y >> 15) & 0x1f, (z >> 15) & 0x1f);
    IsXor((x >> 10) & 0x1f, (y >> 10) & 0x1f, (z >> 10) & 0x1f);
    IsXor((x >> 5) & 0x1f, (y >> 5) & 0x1f, (z >> 5) & 0x1f);
    IsXor(x & 0x1f, y & 0x1f, z & 0x1f);
  }

  lemma RawSymbolWindows(v: bv32)
    requires v < 32
    ensures (v >> 25) & 0x1f == 0 && (v >> 20) & 0x1f == 0 && (v >> 15) & 0x1f == 0
    ensures (v >> 10) & 0x1f == 0 && (v >> 5) & 0x1f == 0 && v & 0x1f == v
  {}

  lemma SymbolWindows(v: bv32)
    requires v < 32
    ensures Window(v, 0) == Window(v, 1) == Window(v, 2) == Window(v, 3) == Window(v, 4) == 0 && Window(v, 5) == v
  {
    hide Window;
    WindowsOf(v);
    RawSymbolWindows(v);
  }

  lemma HighWindow(z: bv32)
    requires z < 0x4000_0000
    ensures High(z) == Window(z, 0) && High(z) < 32
  {}

  /** One symbol: the register, six coefficients, times x, plus the symbol, reduced by its
      leading coefficient times the generator. */
  lemma StepReduces(z: bv32, v: bv32, c: bv32)
    requires z < 0x4000_0000 && v < 32 && c == Window(z, 0)
    ensures var m := Xor(PolymodStep(z), v);
            Window(m, 0) == Xor(Window(z, 1), Times(c, 29)) && Window(m, 1) == Xor(Window(z, 2), Times(c, 22))
            && Window(m, 2) == Xor(Window(z, 3), Times(c, 20)) && Window(m, 3) == Xor(Window(z, 4), Times(c, 21))
            && Window(m, 4) == Xor(Window(z, 5), Times(c, 29)) && Window(m, 5) == Xor(Times(c, 18), v)
  {
    hide Window, Times, Feedback, Low, High, Xor;
    var l, f, s := Low(z), Feedback(High(z)), PolymodStep(z);
    HighWindow(z);
    FeedbackWindows(High(z), f);
    LowWindows(z, l);
    WindowXor(l, f, s);
    SymbolWindows(v);
    WindowXor(s, v, Xor(s, v));
    XorZeros(Window(s, 0), Window(s, 1), Window(s, 2), Window(s, 3), Window(s, 4), Window(f, 5));
  }

  lemma XorZeros(a: bv32, b: bv32, c: bv32, d: bv32, e: bv32, f: bv32)
    ensures Xor(a, 0) == a && Xor(b, 0) == b && Xor(c, 0) == c && Xor(d, 0) == d && Xor(e, 0) == e && Xor(0, f) == f
  {}

  // ---------------------------------------------------------------- polynomials

  /** The generator of BIP-173, highest coefficient first:
      x^6 + 29 x^5 + 22 x^4 + 20 x^3 + 21 x^2 + 29 x + 18. */
  const GENERATOR: seq<nat> := [1, 29, 22, 20, 21, 29, 18]

  const SIX_ZEROS: seq<bv32> := [0, 0, 0, 0, 0, 0]

  /** A constant times the generator. */
  function Scaled(c: bv32): (p: seq<bv32>)
    ensures |p| == 7
  {
    seq(7, i requires 0 <= i < 7 => Times(c, GENERATOR[i]))
  }

  /** The sum of `p` and a polynomial `r` of lower degree. */
  function Plus(p: seq<bv32>, r: seq<bv32>): (s: seq<bv32>)
    requires |r| <= |p|
    ensures |s| == |p|
  {
    seq(|p|, i requires 0 <= i < |p| => if i < |p| - |r| then p[i] else Xor(p[i], r[i - (|p| - |r|)]))
  }

  /** The product of `q` and the generator. */
  function Product(q: seq<bv32>): (p: seq<bv32>)
    ensures |p| == |q| + 6
  {
    if |q| == 0 then SIX_ZEROS else Plus(Product(q[..|q|-1]) + [0], Scaled(q[|q|-1]))
  }

  /** The symbols as coefficients. */
  function Coefficients(vs: seq<symbol>): (p: seq<bv32>)
    ensures |p| == |vs|
  {
    seq(|vs|, i requires 0 <= i < |vs| => Sym(vs[i]))
  }

  /** The polynomial `vs`, with six zeros in front, is the generator times `q` plus `r`. */
  predicate Divides(vs: seq<symbol>, q: seq<bv32>, r: seq<bv32>) {
    |q| == |vs| && |r| == 6 && SIX_ZEROS + Coefficients(vs) == Plus(Product(q), r)
  }

  function Windows(m: bv32): (r: seq<bv32>)
    ensures |r| == 6
  {
    [Window(m, 0), Window(m, 1), Window(m, 2), Window(m, 3), Window(m, 4), Window(m, 5)]
  }

  /** The symbols shifted out of the register. */
  function Quotient(vs: seq<symbol>): (q: seq<bv32>)
    ensures |q| == |vs|
  {
    if |vs| == 0 then [] else Quotient(vs[..|vs|-1]) + [Window(Absorb(0, vs[..|vs|-1]), 0)]
  }

  lemma XorMove(a: bv32, b: bv32, c: bv32)
    ensures Xor(a, b) == c <==> a == Xor(c, b)
  {
    hide Xor;
    XorComm(a, b);
    XorComm(c, b);
    XorCancel(b, a);
    XorCancel(b, c);
  }

  lemma Shifted(m: bv32, w: bv32, t: bv32, r: bv32)
    requires m == Xor(w, t)
    ensures r == m <==> w == Xor(t, r)
  {
    hide Xor;
    XorMove(w, t, r);
    XorComm(r, t);
  }

  /** What a division with the remainder `t` becomes with one more symbol `v`. */
  predicate OneMore(c: bv32, r: seq<bv32>, v: bv32, t: seq<bv32>)
    requires |r| == |t| == 6
  {
    t[0] == c && v == Xor(Times(c, 18), r[5])
    && forall k :: 1 <= k < 6 ==> t[k] == Xor(Times(c, GENERATOR[k]), r[k-1])
  }

  lemma OneMoreWritten(c: bv32, r: seq<bv32>, v: bv32, t: seq<bv32>)
    requires |r| == |t| == 6
    ensures OneMore(c, r, v, t) <==>
      t[0] == c && t[1] == Xor(Times(c, 29), r[0]) && t[2] == Xor(Times(c, 22), r[1])
      && t[3] == Xor(Times(c, 20), r[2]) && t[4] == Xor(Times(c, 21), r[3]) && t[5] == Xor(Times(c, 29), r[4])
      && v == Xor(Times(c, 18), r[5])
  {
    hide Times, Xor;
    assert GENERATOR[1] == 29 && GENERATOR[2] == 22 && GENERATOR[3] == 20 && GENERATOR[4] == 21 && GENERATOR[5] == 29;
    if OneMore(c, r, v, t) {
      assert t[1] == Xor(Times(c, GENERATOR[1]), r[1-1]) && t[2] == Xor(Times(c, GENERATOR[2]), r[2-1]);
      assert t[3] == Xor(Times(c, GENERATOR[3]), r[3-1]) && t[4] == Xor(Times(c, GENERATOR[4]), r[4-1]);
      assert t[5] == Xor(Times(c, GENERATOR[5]), r[5-1]);
    }
  }

  lemma WindowsAfter(z: bv32, v: bv32, r: seq<bv32>)
    requires z < 0x4000_0000 && v < 32 && |r| == 6
    ensures r == Windows(Xor(PolymodStep(z), v)) <==> OneMore(Window(z, 0), r, v, Windows(z))
  {
    hide Window, Times, PolymodStep, Xor, OneMore;
    var c, m := Window(z, 0), Xor(PolymodStep(z), v);
    StepReduces(z, v, c);
    OneMoreWritten(c, r, v, Windows(z));
    Shifted(Window(m, 0), Window(z, 1), Times(c, 29), r[0]);
    Shifted(Window(m, 1), Window(z, 2), Times(c, 22), r[1]);
    Shifted(Window(m, 2), Window(z, 3), Times(c, 20), r[2]);
    Shifted(Window(m, 3), Window(z, 4), Times(c, 21), r[3]);
    Shifted(Window(m, 4), Window(z, 5), Times(c, 29), r[4]);
    XorComm(Times(c, 18), v);
    Shifted(Window(m, 5), v, Times(c, 18), r[5]);
    SameSix(r, Window(m, 0), Window(m, 1), Window(m, 2), Window(m, 3), Window(m, 4), Window(m, 5));
  }

  lemma SameSix(r: seq<bv32>, a: bv32, b: bv32, c: bv32, d: bv32, e: bv32, f: bv32)
    requires |r| == 6
    ensures r == [a, b, c, d, e, f] <==> r[0] == a && r[1] == b && r[2] == c && r[3] == d && r[4] == e && r[5] == f
  {}

  /** Coefficient by coefficient: a division with one more symbol. */
  lemma CoefficientStep(d: seq<bv32>, c: bv32, r: seq<bv32>, v: bv32, t: seq<bv32>, i: nat)
    requires |d| >= 6 && |r| == |t| == 6 && OneMore(c, r, v, t) && i <= |d|
    ensures Plus(Plus(d + [0], Scaled(c)), r)[i] == if i < |d| then Plus(d, t)[i] else v
  {
    hide Times, Xor;
    var n := |d| - 6;
    if i == n {
      TimesOne(c);
    } else if n < i < n + 6 {
      XorAssoc(d[i], Times(c, GENERATOR[i-n]), r[i-n-1]);
    } else if i == |d| {
      XorZero(Times(c, 18));
    }
  }

  lemma DivisionStep(d: seq<bv32>, e: seq<bv32>, c: bv32, r: seq<bv32>, v: bv32, t: seq<bv32>)
    requires |d| == |e| >= 6 && |r| == |t| == 6 && OneMore(c, r, v, t)
    ensures e + [v] == Plus(Plus(d + [0], Scaled(c)), r) <==> e == Plus(d, t)
  {
    hide Plus, OneMore;
    var x, y := Plus(Plus(d + [0], Scaled(c)), r), Plus(d, t);
    forall i | 0 <= i < |x|
      ensures x[i] == (y + [v])[i]
    {
      CoefficientStep(d, c, r, v, t, i);
    }
    assert x == y + [v];
    assert (e + [v])[..|e|] == e && (y + [v])[..|y|] == y;
  }

  // ------------------------------------------------------------------- main result

  lemma NothingDivided(r: seq<bv32>)
    requires |r| == 6
    ensures SIX_ZEROS == Plus(SIX_ZEROS, r) <==> r == SIX_ZEROS
  {
    hide Xor;
    var p := Plus(SIX_ZEROS, r);
    forall i | 0 <= i < 6
      ensures p[i] == r[i]
    {
      XorZero(r[i]);
    }
    assert p == r;
  }

  lemma ZeroWindows()
    ensures Windows(0) == SIX_ZEROS
  {
    WindowsOf(0);
  }

  lemma DividesMore(us: seq<symbol>, v: symbol, p: seq<bv32>, c: bv32, r: seq<bv32>, t: seq<bv32>)
    requires |p| == |us| && |r| == |t| == 6 && OneMore(c, r, Sym(v), t)
    ensures Divides(us + [v], p + [c], r) <==> Divides(us, p, t)
  {
    hide Sym, OneMore, Plus, Scaled;
    assert (p + [c])[..|p|] == p;
    assert SIX_ZEROS + Coefficients(us + [v]) == SIX_ZEROS + Coefficients(us) + [Sym(v)];
    DivisionStep(Product(p), SIX_ZEROS + Coefficients(us), c, r, Sym(v), t);
  }

  lemma DividesBefore(us: seq<symbol>, v: symbol, p: seq<bv32>, c: bv32, r: seq<bv32>) returns (t: seq<bv32>)
    requires |p| == |us| && Divides(us + [v], p + [c], r)
    ensures |r| == |t| == 6 && OneMore(c, r, Sym(v), t) && t[0] == c
  {
    hide Sym, OneMore, Plus, Scaled;
    assert (p + [c])[..|p|] == p;
    assert SIX_ZEROS + Coefficients(us + [v]) == SIX_ZEROS + Coefficients(us) + [Sym(v)];
    t := Before(Product(p), SIX_ZEROS + Coefficients(us), c, r, Sym(v));
  }

  lemma WindowsFirst(z: bv32)
    ensures Windows(z)[0] == Window(z, 0)
  {
    hide Window;
  }

  /** The remainder before the last symbol. */
  lemma Before(d: seq<bv32>, e: seq<bv32>, c: bv32, r: seq<bv32>, v: bv32) returns (t: seq<bv32>)
    requires |d| == |e| >= 6 && |r| == 6 && e + [v] == Plus(Plus(d + [0], Scaled(c)), r)
    ensures |t| == 6 && OneMore(c, r, v, t) && t[0] == c
  {
    hide Times, Xor, OneMore;
    t := [c, Xor(Times(c, 29), r[0]), Xor(Times(c, 22), r[1]), Xor(Times(c, 20), r[2]),
          Xor(Times(c, 21), r[3]), Xor(Times(c, 29), r[4])];
    assert v == (e + [v])[|e|] == Xor(Xor(0, Times(c, 18)), r[5]);
    XorZero(Times(c, 18));
    OneMoreWritten(c, r, v, t);
  }

  /** The register holds the remainder of the symbols read as a polynomial, modulo the
      generator of BIP-173: there is exactly one division, and it has this remainder. */
  lemma {:induction false} RegisterDivides(vs: seq<symbol>, q: seq<bv32>, r: seq<bv32>)
    requires |q| == |vs| && |r| == 6
    ensures Divides(vs, q, r) <==> q == Quotient(vs) && r == Windows(Absorb(0, vs))
  {
    hide Window, PolymodStep, Xor, Sym, Windows, OneMore, Divides;
    if |vs| == 0 {
      EmptyDivides(vs, q, r);
    } else {
      var us, v, p, c := vs[..|vs|-1], vs[|vs|-1], q[..|q|-1], q[|q|-1];
      var z := Absorb(0, us);
      AbsorbBound(0, us);
      SymBound(v);
      WindowsAfter(z, Sym(v), r);
      WindowsFirst(z);
      assert vs == us + [v] && q == p + [c];
      LastOf(Quotient(us), Window(z, 0), q);
      RegisterDivides(us, p, Windows(z));
      if q == Quotient(vs) && r == Windows(Absorb(0, vs)) {
        DividesMore(us, v, p, c, r, Windows(z));
      }
      if Divides(vs, q, r) {
        var t := DividesBefore(us, v, p, c, r);
        DividesMore(us, v, p, c, r, t);
        RegisterDivides(us, p, t);
      }
    }
  }

  lemma LastOf(p: seq<bv32>, c: bv32, q: seq<bv32>)
    requires |q| == |p| + 1
    ensures q == p + [c] <==> q[..|p|] == p && q[|p|] == c
  {
    assert q == q[..|p|] + [q[|p|]];
  }

  lemma EmptyDivides(vs: seq<symbol>, q: seq<bv32>, r: seq<bv32>)
    requires |vs| == |q| == 0 && |r| == 6
    ensures Divides(vs, q, r) <==> q == Quotient(vs) && r == Windows(Absorb(0, vs))
  {
    hide Plus, Windows;
    assert SIX_ZEROS + Coefficients(vs) == SIX_ZEROS;
    NothingDivided(r);
    ZeroWindows();
  }
}
