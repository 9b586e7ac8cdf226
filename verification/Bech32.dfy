/** Model of `bech32_encode` in src/iota/bech32.c, beside a specification decoder. */
module Bech32 {
  import opened Bytes
  import opened Polymod
  import opened Gf32
  import opened Base32

  const CHARSET: string := "qpzry9x8gf2tvdw0s3jn54khce6mua7l"
  const LENGTH_MAX := 108

  predicate IsPrintable(ch: char) { 33 <= ch as int <= 126 }

  predicate Printable(hrp: string) { forall i :: 0 <= i < |hrp| ==> IsPrintable(hrp[i]) }

  /** `ch >> 5` and `ch & 0x1f` for every character. */
  function Highs(hrp: string): (vs: seq<symbol>)
    requires Printable(hrp)
    ensures |vs| == |hrp|
  {
    seq(|hrp|, i requires 0 <= i < |hrp| => hrp[i] as int / 32)
  }

  function Lows(hrp: string): (vs: seq<symbol>)
    requires Printable(hrp)
    ensures |vs| == |hrp|
  {
    seq(|hrp|, i requires 0 <= i < |hrp| => hrp[i] as int % 32)
  }

  /** The human readable part as checksum symbols, BIP-173 section "Checksum". */
  function HrpExpand(hrp: string): seq<symbol>
    requires Printable(hrp)
  {
    Highs(hrp) + [0] + Lows(hrp)
  }

  /** The rows of the character table in BIP-173, section "Bech32". */
  lemma CharsetRows()
    ensures CHARSET == "qpzry9x8" + "gf2tvdw0" + "s3jn54kh" + "ce6mua7l"
  {}

  /** The two numbers that stand for character `i`: thirty-two times the one plus the other,
      which is below thirty-two, is the character. */
  predicate StandFor(vs: seq<symbol>, hrp: string, i: nat)
    requires |vs| == 2 * |hrp| + 1 && i < |hrp|
  {
    var high: int, low: int := vs[i], vs[|hrp| + 1 + i];
    low < 32 && 32 * high + low == hrp[i] as int
  }

  /** The high numbers of all characters, a zero, and the low ones. */
  lemma HrpExpandSplits(hrp: string)
    requires Printable(hrp)
    ensures |HrpExpand(hrp)| == 2 * |hrp| + 1 && HrpExpand(hrp)[|hrp|] == 0
    ensures forall i :: 0 <= i < |hrp| ==> StandFor(HrpExpand(hrp), hrp, i)
  {
    forall i | 0 <= i < |hrp|
      ensures HrpExpand(hrp)[i] == hrp[i] as int / 32 && HrpExpand(hrp)[|hrp| + 1 + i] == hrp[i] as int % 32
    {
    }
  }

  /** The BIP-173 checksum test on a human readable part and all data symbols: as a
      polynomial over the field of 32 elements, behind a leading 1, they leave the
      remainder 1 when divided by the generator. */
  ghost predicate ValidChecksum(hrp: string, vs: seq<symbol>)
    requires Printable(hrp)
  {
    exists q :: Divides([1] + HrpExpand(hrp) + vs, q, [0, 0, 0, 0, 0, 1])
  }

  lemma RawOne(m: bv32)
    requires m < 0x4000_0000
    ensures ((m >> 25) & 0x1f == 0 && (m >> 20) & 0x1f == 0 && (m >> 15) & 0x1f == 0 && (m >> 10) & 0x1f == 0
             && (m >> 5) & 0x1f == 0 && m & 0x1f == 1) <==> m == 1
  {}

  lemma WindowsOne(m: bv32)
    requires m < 0x4000_0000
    ensures Windows(m) == [0, 0, 0, 0, 0, 1] <==> m == 1
  {
    hide Window;
    WindowsOf(m);
    RawOne(m);
    SameSix([0, 0, 0, 0, 0, 1], Window(m, 0), Window(m, 1), Window(m, 2), Window(m, 3), Window(m, 4), Window(m, 5));
  }

  lemma LeadingOne(vs: seq<symbol>)
    ensures Absorb(0, [1] + vs) == Absorb(1, vs)
  {
    hide PolymodStep, Xor, Sym;
    AbsorbConcat(0, [1], vs);
    AbsorbFirst();
  }

  lemma AbsorbFirst()
    ensures Absorb(0, [1]) == 1
  {
    assert Absorb(0, [1][..0]) == 0;
    assert Sym(1) == 1 && PolymodStep(0) == 0;
  }

  /** The register of the code decides the test. */
  lemma ChecksumByRegister(hrp: string, vs: seq<symbol>)
    requires Printable(hrp)
    ensures ValidChecksum(hrp, vs) <==> Absorb(1, HrpExpand(hrp) + vs) == 1
  {
    hide Absorb, Divides, Windows, Quotient;
    var xs := [1] + HrpExpand(hrp) + vs;
    assert xs == [1] + (HrpExpand(hrp) + vs);
    LeadingOne(HrpExpand(hrp) + vs);
    AbsorbBound(0, xs);
    WindowsOne(Absorb(0, xs));
    RegisterDivides(xs, Quotient(xs), [0, 0, 0, 0, 0, 1]);
    forall q | Divides(xs, q, [0, 0, 0, 0, 0, 1])
      ensures Windows(Absorb(0, xs)) == [0, 0, 0, 0, 0, 1]
    {
      DividesLength(xs, q, [0, 0, 0, 0, 0, 1]);
      RegisterDivides(xs, q, [0, 0, 0, 0, 0, 1]);
    }
  }

  lemma DividesLength(vs: seq<symbol>, q: seq<bv32>, r: seq<bv32>)
    requires Divides(vs, q, r)
    ensures |q| == |vs| && |r| == 6
  {}

  function Register(hrp: string, data: seq<symbol>): bv32
    requires Printable(hrp)
  {
    Absorb(1, HrpExpand(hrp) + data)
  }

  function Chars(vs: seq<symbol>): (s: string)
    ensures |s| == |vs|
  {
    seq(|vs|, i requires 0 <= i < |vs| => CHARSET[vs[i]])
  }

  predicate Encodable(hrp: string, data: seq<byte>, capacity: nat) {
    0 < |hrp| && 0 < |data| && Printable(hrp) && Symbols(data)
    && |hrp| + |data| + 7 <= LENGTH_MAX && |hrp| + |data| + 7 < capacity
  }

  /** The encoded string, without its terminator. */
  function Text(hrp: string, data: seq<symbol>): (s: string)
    requires Printable(hrp)
    ensures |s| == |hrp| + |data| + 7
  {
    hrp + "1" + Chars(data + Checksum(Register(hrp, data)))
  }

  /** Appending six symbols passes the BIP-173 test exactly when they are the
      emitted checksum. */
  lemma ChecksumVerifies(hrp: string, data: seq<symbol>, chk: seq<symbol>)
    requires Printable(hrp) && |chk| == 6
    ensures ValidChecksum(hrp, data + chk) <==> chk == Checksum(Register(hrp, data))
  {
    hide Xor, PolymodStep, Sym, Checksum, ValidChecksum;
    ChecksumByRegister(hrp, data + chk);
    assert HrpExpand(hrp) + (data + chk) == HrpExpand(hrp) + data + chk;
    AbsorbConcat(1, HrpExpand(hrp) + data, chk);
    ChecksumExact(Register(hrp, data), chk);
  }

  lemma AbsorbOne(chk: bv32, vs: seq<symbol>, v: symbol)
    ensures Absorb(chk, vs + [v]) == Xor(PolymodStep(Absorb(chk, vs)), Sym(v))
  {
    hide Xor, PolymodStep, Sym;
    assert (vs + [v])[..|vs|] == vs;
  }

  lemma AbsorbZero(chk: bv32, vs: seq<symbol>)
    ensures Absorb(chk, vs + [0]) == PolymodStep(Absorb(chk, vs))
  {
    hide Xor, PolymodStep, Sym;
    AbsorbOne(chk, vs, 0);
    SymZero();
    XorZero(PolymodStep(Absorb(chk, vs)));
  }

  lemma HighsOne(hrp: string, ch: char)
    requires Printable(hrp) && IsPrintable(ch)
    ensures Highs(hrp + [ch]) == Highs(hrp) + [ch as int / 32]
  {}

  lemma LowsOne(hrp: string, ch: char)
    requires Printable(hrp) && IsPrintable(ch)
    ensures Lows(hrp + [ch]) == Lows(hrp) + [ch as int % 32]
  {}

  lemma HighsEmpty()
    ensures Highs("") == []
  {}

  lemma LowsEmpty()
    ensures Lows("") == []
  {}

  lemma CharsEmpty()
    ensures Chars([]) == ""
  {}

  lemma CharsConcat(us: seq<symbol>, vs: seq<symbol>)
    ensures Chars(us + vs) == Chars(us) + Chars(vs)
  {}

  lemma CharsOne(vs: seq<symbol>, v: symbol)
    ensures Chars(vs + [v]) == Chars(vs) + [CHARSET[v]]
  {}

  lemma SymZero()
    ensures Sym(0) == 0
  {}

  /** First pass over the human readable part: range check and high bits. */
  method AbsorbHighs(hrp: string) returns (ok: bool, chk: bv32)
    ensures ok <==> Printable(hrp)
    ensures ok ==> chk == Absorb(1, Highs(hrp) + [0])
  {
    hide Xor, PolymodStep, Sym, Highs;
    chk := 1;
    HighsEmpty();
    for i := 0 to |hrp|
      invariant Printable(hrp[..i])
      invariant chk == Absorb(1, Highs(hrp[..i]))
    {
      var ch := hrp[i];
      if !IsPrintable(ch) {
        return false, chk;
      }
      assert hrp[..i+1] == hrp[..i] + [ch];
      HighsOne(hrp[..i], ch);
      AbsorbOne(1, Highs(hrp[..i]), ch as int / 32);
      chk := Xor(PolymodStep(chk), Sym(ch as int / 32));
    }
    assert hrp[..|hrp|] == hrp;
    AbsorbZero(1, Highs(hrp));
    chk := PolymodStep(chk);
    ok := true;
  }

  /** Second pass over the human readable part: low bits and copying. */
  method CopyHrp(output: array<char>, hrp: string, chk0: bv32) returns (chk: bv32)
    requires |hrp| <= output.Length && Printable(hrp)
    requires chk0 == Absorb(1, Highs(hrp) + [0])
    modifies output
    ensures chk == Absorb(1, HrpExpand(hrp))
    ensures output[..|hrp|] == hrp
    ensures forall k :: |hrp| <= k < output.Length ==> output[k] == old(output[k])
  {
    hide Xor, PolymodStep, Sym, Highs, Lows;
    chk := chk0;
    ghost var head := Highs(hrp) + [0];
    LowsEmpty();
    assert head + Lows(hrp[..0]) == head;
    for i := 0 to |hrp|
      invariant chk == Absorb(1, head + Lows(hrp[..i]))
      invariant output[..i] == hrp[..i]
      invariant forall k :: |hrp| <= k < output.Length ==> output[k] == old(output[k])
    {
      var ch := hrp[i];
      assert hrp[..i+1] == hrp[..i] + [ch];
      LowsOne(hrp[..i], ch);
      assert head + Lows(hrp[..i+1]) == head + Lows(hrp[..i]) + [ch as int % 32];
      AbsorbOne(1, head + Lows(hrp[..i]), ch as int % 32);
      chk := Xor(PolymodStep(chk), Sym(ch as int % 32));
      output[i] := ch;
    }
    assert hrp[..|hrp|] == hrp;
  }

  /** Data pass: range check, register and characters. */
  method CopyData(output: array<char>, off: nat, data: seq<byte>, chk0: bv32, ghost head: seq<symbol>)
    returns (ok: bool, chk: bv32)
    requires off + |data| <= output.Length && chk0 == Absorb(1, head)
    modifies output
    ensures ok <==> Symbols(data)
    ensures ok ==> chk == Absorb(1, head + data)
    ensures ok ==> output[..off+|data|] == old(output[..off]) + Chars(data)
    ensures forall k :: off + |data| <= k < output.Length ==> output[k] == old(output[k])
  {
    hide Xor, PolymodStep, Sym, Chars, Absorb;
    chk := chk0;
    CharsEmpty();
    assert head + data[..0] == head;
    for i := 0 to |data|
      invariant Symbols(data[..i])
      invariant chk == Absorb(1, head + data[..i])
      invariant output[..off+i] == old(output[..off]) + Chars(data[..i])
      invariant forall k :: off + |data| <= k < output.Length ==> output[k] == old(output[k])
    {
      if data[i] >= 32 {
        return false, chk;
      }
      CopyStep(head, data[..i], data[i]);
      assert data[..i+1] == data[..i] + [data[i]];
      chk := Xor(PolymodStep(chk), Sym(data[i]));
      ghost var done := output[..off+i];
      output[off+i] := CHARSET[data[i]];
      assert output[..off+i+1] == done + [CHARSET[data[i]]];
    }
    assert data[..|data|] == data;
    ok := true;
  }

  lemma CopyStep(head: seq<symbol>, vs: seq<symbol>, v: symbol)
    ensures Absorb(1, head + (vs + [v])) == Xor(PolymodStep(Absorb(1, head + vs)), Sym(v))
    ensures Chars(vs + [v]) == Chars(vs) + [CHARSET[v]]
  {
    hide Xor, PolymodStep, Sym, Absorb, Chars;
    assert head + (vs + [v]) == head + vs + [v];
    AbsorbOne(1, head + vs, v);
    CharsOne(vs, v);
  }

  /** The six checksum characters for the register `reg`. */
  method EmitChecksum(output: array<char>, off: nat, reg: bv32)
    requires off + 6 <= output.Length
    modifies output
    ensures output[..off+6] == old(output[..off]) + Chars(Checksum(reg))
    ensures forall k :: off + 6 <= k < output.Length ==> output[k] == old(output[k])
  {
    hide Xor, PolymodStep, Sym, Window, Checksum, Chars;
    var chk := reg;
    for i := 0 to 6
      invariant chk == StepN(reg, i)
      invariant output[..] == old(output[..])
    {
      chk := PolymodStep(chk);
    }
    chk := Xor(chk, 1);
    ghost var sum := Checksum(reg);
    ChecksumWindows(reg);
    CharsEmpty();
    for i := 0 to 6
      invariant output[..off+i] == old(output[..off]) + Chars(sum[..i])
      invariant forall k :: off + 6 <= k < output.Length ==> output[k] == old(output[k])
    {
      SymInjective(ToSymbol(Window(chk, i)), sum[i]);
      assert sum[..i+1] == sum[..i] + [sum[i]];
      CharsOne(sum[..i], sum[i]);
      ghost var done := output[..off+i];
      output[off + i] := CHARSET[ToSymbol(Window(chk, i))];
      assert output[..off+i+1] == done + [CHARSET[sum[i]]];
    }
    assert sum[..6] == sum;
  }

  /** `bech32_encode`, with its loops split off above. */
  method Encode(output: array<char>, outLenMax: nat, hrp: string, data: seq<byte>)
    returns (ok: bool, outLen: nat)
    requires outLenMax <= output.Length
    modifies output
    ensures ok <==> Encodable(hrp, data, outLenMax)
    ensures ok ==> outLen == |hrp| + |data| + 7 && output[..outLen] == Text(hrp, data)
    ensures ok ==> output[outLen] == 0 as char
    ensures !ok ==> outLen == outLenMax
    ensures forall k :: |hrp| + |data| + 8 <= k < output.Length ==> output[k] == old(output[k])
  {
    hide Xor, PolymodStep, Sym, Checksum, Chars, Highs, Lows, Absorb, Text, HrpExpand;
    outLen := outLenMax;
    var finalOutLen := |hrp| + |data| + 7;
    if finalOutLen > LENGTH_MAX || outLenMax <= finalOutLen || |hrp| <= 0 || |data| <= 0 {
      return false, outLen;
    }
    var printable, chk := AbsorbHighs(hrp);
    if !printable {
      return false, outLen;
    }
    chk := CopyHrp(output, hrp, chk);
    var outOff := |hrp|;
    output[outOff] := '1';
    outOff := outOff + 1;
    assert output[..outOff] == hrp + "1";
    var inRange;
    inRange, chk := CopyData(output, outOff, data, chk, HrpExpand(hrp));
    if !inRange {
      return false, outLen;
    }
    outOff := outOff + |data|;
    EmitChecksum(output, outOff, chk);
    outOff := outOff + 6;
    TextParts(hrp, data);
    assert output[..outOff] == Text(hrp, data);
    ghost var text := output[..outOff];
    output[outOff] := 0 as char;
    assert output[..outOff] == text;
    outLen := outOff;
    ok := outOff == finalOutLen;
  }

  lemma TextParts(hrp: string, data: seq<symbol>)
    requires Printable(hrp)
    ensures Text(hrp, data) == hrp + "1" + Chars(data) + Chars(Checksum(Register(hrp, data)))
  {
    hide Checksum, Chars, Register;
    CharsConcat(data, Checksum(Register(hrp, data)));
  }

  lemma ChecksumWindows(chk: bv32)
    ensures forall i :: 0 <= i < 6 ==> Sym(Checksum(chk)[i]) == Window(Xor(StepN(chk, 6), 1), i)
  {}

  // ------------------------------------------------------- specification decoder

  /** Position of the last '1', or -1. */
  function LastOne(s: string): (p: int)
    ensures -1 <= p < |s|
    ensures 0 <= p ==> s[p] == '1'
    ensures forall k :: p < k < |s| ==> s[k] != '1'
  {
    if |s| == 0 then -1
    else if s[|s|-1] == '1' then |s| - 1
    else LastOne(s[..|s|-1])
  }

  /** The least symbol from `v` on that is written `c`. */
  function Lookup(c: char, v: nat): Option<symbol>
    requires v <= 32
    decreases 32 - v
  {
    if v == 32 then None else if CHARSET[v] == c then Some(v) else Lookup(c, v + 1)
  }

  function SymbolsOf(s: string): Option<seq<symbol>> {
    if |s| == 0 then Some([])
    else match Lookup(s[0], 0)
      case None => None
      case Some(v) => match SymbolsOf(s[1..])
        case None => None
        case Some(vs) => Some([v] + vs)
  }

  /** BIP-173 decoding, without its limit of 90 characters and its case rules. */
  ghost function Decode(s: string): Option<(string, seq<symbol>)> {
    var p := LastOne(s);
    if p < 1 || |s| < p + 7 || !Printable(s[..p]) then None
    else match SymbolsOf(s[p+1..])
      case None => None
      case Some(vs) =>
        if |vs| < 6 || !ValidChecksum(s[..p], vs) then None else Some((s[..p], vs[..|vs|-6]))
  }

  lemma CharsetDistinct()
    ensures forall u, v :: 0 <= u < v < 32 ==> CHARSET[u] != CHARSET[v]
  {}

  lemma CharsetWithoutOne()
    ensures forall v :: 0 <= v < 32 ==> CHARSET[v] != '1'
  {}

  lemma {:induction false} LookupInverts(u: symbol, v: nat)
    requires v <= u
    ensures Lookup(CHARSET[u], v) == Some(u)
    decreases u - v
  {
    CharsetDistinct();
    if v == u {
    } else {
      LookupInverts(u, v + 1);
    }
  }

  lemma {:induction false} SymbolsOfChars(vs: seq<symbol>)
    ensures SymbolsOf(Chars(vs)) == Some(vs)
  {
    if |vs| == 0 {
    } else {
      LookupInverts(vs[0], 0);
      SymbolsOfChars(vs[1..]);
      assert Chars(vs)[0] == CHARSET[vs[0]] && Chars(vs)[1..] == Chars(vs[1..]);
      assert [vs[0]] + vs[1..] == vs;
    }
  }

  /** Decoding an encoded string gives back exactly what was encoded. */
  lemma DecodeText(hrp: string, data: seq<symbol>)
    requires 0 < |hrp| && Printable(hrp)
    ensures Decode(Text(hrp, data)) == Some((hrp, data))
  {
    hide Absorb, Checksum, Xor, PolymodStep, Sym, Lookup, ValidChecksum;
    var vs := data + Checksum(Register(hrp, data));
    var s := Text(hrp, data);
    CharsetWithoutOne();
    assert forall k :: 0 <= k < |Chars(vs)| ==> s[|hrp| + 1 + k] == CHARSET[vs[k]];
    assert s[|hrp|] == '1';
    assert LastOne(s) == |hrp|;
    assert s[..|hrp|] == hrp;
    assert s[|hrp|+1..] == Chars(vs);
    SymbolsOfChars(vs);
    ChecksumVerifies(hrp, data, Checksum(Register(hrp, data)));
    assert vs[..|vs|-6] == data;
  }

  /** Different inputs have different encodings. */
  lemma TextInjective(hrp: string, data: seq<symbol>, hrp': string, data': seq<symbol>)
    requires 0 < |hrp| && Printable(hrp) && 0 < |hrp'| && Printable(hrp')
    requires Text(hrp, data) == Text(hrp', data')
    ensures hrp == hrp' && data == data'
  {
    DecodeText(hrp, data);
    DecodeText(hrp', data');
  }

  // ----------------------------------------------------------- error detection

  /** Two strings of one length that differ at most inside six consecutive places. */
  predicate DifferInBurst<T(==)>(s: seq<T>, t: seq<T>, i: nat) {
    |s| == |t| && forall k :: 0 <= k < |s| && !(i <= k < i + 6) ==> s[k] == t[k]
  }

  /** Of two symbol lists that differ inside a burst at most one is valid. */
  lemma BurstInvalidates(hrp: string, us: seq<symbol>, vs: seq<symbol>, i: nat)
    requires Printable(hrp) && ValidChecksum(hrp, us) && ValidChecksum(hrp, vs) && DifferInBurst(us, vs, i)
    ensures us == vs
  {
    hide Absorb, HrpExpand, ValidChecksum;
    ChecksumByRegister(hrp, us);
    ChecksumByRegister(hrp, vs);
    if i < |us| {
      var j := if i + 6 <= |us| then i + 6 else |us|;
      var h, tail := HrpExpand(hrp), us[j..];
      assert us[..i] == vs[..i] && us[j..] == vs[j..];
      assert h + us == (h + us[..i]) + (us[i..j] + tail);
      assert h + vs == (h + us[..i]) + (vs[i..j] + tail);
      AbsorbConcat(1, h + us[..i], us[i..j] + tail);
      AbsorbConcat(1, h + us[..i], vs[i..j] + tail);
      AbsorbBound(1, h + us[..i]);
      BurstChangesRegister(Absorb(1, h + us[..i]), us[i..j], vs[i..j], tail);
      assert us == us[..i] + us[i..j] + us[j..] && vs == vs[..i] + vs[i..j] + vs[j..];
    } else {
      assert us == vs;
    }
  }

  lemma {:induction false} LookupFinds(ch: char, v: nat)
    requires v <= 32 && Lookup(ch, v).Some?
    ensures CHARSET[Lookup(ch, v).value] == ch
    decreases 32 - v
  {
    if CHARSET[v] == ch {
    } else {
      LookupFinds(ch, v + 1);
    }
  }

  lemma {:induction false} CharsOfSymbols(s: string)
    requires SymbolsOf(s).Some?
    ensures Chars(SymbolsOf(s).value) == s
  {
    if |s| == 0 {
    } else {
      LookupFinds(s[0], 0);
      CharsOfSymbols(s[1..]);
      assert s == [s[0]] + s[1..];
      assert SymbolsOf(s).value[1..] == SymbolsOf(s[1..]).value;
    }
  }

  /** A string that decodes is its prefix, the separator and valid symbols. */
  lemma DecodedParts(s: string, hrp: string) returns (vs: seq<symbol>)
    requires Decode(s).Some? && Decode(s).value.0 == hrp
    ensures Printable(hrp) && s == hrp + "1" + Chars(vs) && ValidChecksum(hrp, vs)
  {
    hide ValidChecksum, Lookup, SymbolsOf;
    var p := LastOne(s);
    vs := SymbolsOf(s[p+1..]).value;
    CharsOfSymbols(s[p+1..]);
    assert s == s[..p] + "1" + s[p+1..];
  }

  /** Errors in up to six consecutive characters are detected: no two different strings
      that decode with the same prefix differ only inside six consecutive places. */
  lemma BurstDetected(s: string, t: string, hrp: string, i: nat)
    requires Decode(s).Some? && Decode(t).Some? && Decode(s).value.0 == hrp && Decode(t).value.0 == hrp
    requires DifferInBurst(s, t, i)
    ensures s == t
  {
    hide Decode, ValidChecksum;
    var us := DecodedParts(s, hrp);
    var vs := DecodedParts(t, hrp);
    var o := |hrp| + 1;
    var j := if i < o then 0 else i - o;
    forall k | 0 <= k < |us| && !(j <= k < j + 6)
      ensures us[k] == vs[k]
    {
      assert s[o + k] == CHARSET[us[k]] && t[o + k] == CHARSET[vs[k]];
      assert s[o + k] == t[o + k];
      CharsetDistinct();
    }
    BurstInvalidates(hrp, us, vs, j);
  }
}
