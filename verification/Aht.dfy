/** The CRC-8 and the field decode of the AHT20 sensor frame. */
module Aht {
  import opened Common

  const POLY: bv8 := 0x31   // x^8 + x^5 + x^4 + 1

  predicate Top(a: bv8) {
    a & 0x80 != 0
  }

  function Shl(a: bv8): bv8 {
    a << 1
  }

  function Xor(a: bv8, b: bv8): bv8 {
    a ^ b
  }

  /** Multiplication by x modulo the polynomial. */
  function Step(crc: bv8): bv8 {
    if Top(crc) then Xor(Shl(crc), POLY) else Shl(crc)
  }

  function Steps(crc: bv8, n: nat): bv8 {
    if n == 0 then crc else Step(Steps(crc, n - 1))
  }

  /** The register after one more byte. */
  function Feed(crc: bv8, b: bv8): bv8 {
    Steps(Xor(crc, b), 8)
  }

  function Register(init: bv8, data: seq<bv8>): bv8 {
    if data == [] then init else Feed(Register(init, data[..|data| - 1]), data[|data| - 1])
  }

  function Crc(data: seq<bv8>): bv8 {
    Register(0xFF, data)
  }

  lemma EightTimes(a: bv8)
    ensures Steps(a, 8) == Step(Step(Step(Step(Step(Step(Step(Step(a))))))))
  {
    hide Step;
    assert Steps(a, 1) == Step(a) && Steps(a, 2) == Step(Step(a));
    assert Steps(a, 4) == Step(Step(Steps(a, 2))) && Steps(a, 6) == Step(Step(Steps(a, 4)));
  }

  lemma FeedTwo(init: bv8, a: bv8, b: bv8)
    ensures Register(init, [a, b]) == Feed(Feed(init, a), b)
  {
    hide Feed;
    assert [a, b][..1] == [a] && [a][..0] == [];
    assert Register(init, [a]) == Feed(init, a);
  }

  /** The CRC of two known messages; that of the zeros shows that the register does not start at 0. */
  lemma KnownCrcs()
    ensures Crc([0xBE, 0xEF]) == 0x92 && Crc([0, 0]) == 0x81
  {
    KnownBytes();
    KnownZeros();
  }

  lemma KnownBytes()
    ensures Crc([0xBE, 0xEF]) == 0x92
  {
    FeedTwo(0xFF, 0xBE, 0xEF);
    EightTimes(0xFF ^ 0xBE);
    EightTimes(0x0C ^ 0xEF);
    assert Step(0x41) == 0x82 && Step(0x82) == 0x35 && Step(0x35) == 0x6A && Step(0x6A) == 0xD4;
    assert Step(0xD4) == 0x99 && Step(0x99) == 0x03 && Step(0x03) == 0x06 && Step(0x06) == 0x0C;
    assert Step(0xE3) == 0xF7 && Step(0xF7) == 0xDF && Step(0xDF) == 0x8F && Step(0x8F) == 0x2F;
    assert Step(0x2F) == 0x5E && Step(0x5E) == 0xBC && Step(0xBC) == 0x49 && Step(0x49) == 0x92;
  }

  lemma KnownZeros()
    ensures Crc([0, 0]) == 0x81
  {
    FeedTwo(0xFF, 0, 0);
    EightTimes(0xFF ^ 0);
    EightTimes(0xAC ^ 0);
    assert Step(0xFF) == 0xCF && Step(0xCF) == 0xAF && Step(0xAF) == 0x6F && Step(0x6F) == 0xDE;
    assert Step(0xDE) == 0x8D && Step(0x8D) == 0x2B && Step(0x2B) == 0x56 && Step(0x56) == 0xAC;
    assert Step(0xAC) == 0x69 && Step(0x69) == 0xD2 && Step(0xD2) == 0x95 && Step(0x95) == 0x1B;
    assert Step(0x1B) == 0x36 && Step(0x36) == 0x6C && Step(0x6C) == 0xD8 && Step(0xD8) == 0x81;
  }

  /** `aht20_calc_crc`. */
  method CalcCrc(data: array<bv8>, len: nat) returns (crc: bv8)
    requires len <= data.Length && len < 256
    ensures crc == Crc(data[..len])
  {
    crc := 0xFF;
    var i := 0;
    while i < len
      invariant i <= len && crc == Crc(data[..i])
    {
      crc := crc ^ data[i];
      ghost var fed := crc;
      var k := 8;
      while k > 0
        invariant k <= 8 && crc == Steps(fed, 8 - k)
      {
        if crc & 0x80 != 0 {
          crc := (crc << 1) ^ 0x31;
        } else {
          crc := crc << 1;
        }
        k := k - 1;
      }
      assert data[..i + 1][..i] == data[..i];
      i := i + 1;
    }
  }

  // ---- Bits ----

  lemma XorFacts(a: bv8, b: bv8)
    ensures Xor(a, b) == Xor(b, a) && Xor(a, 0) == a
    ensures Xor(a, b) == 0 <==> a == b
  {
  }

  lemma XorAssociates(a: bv8, b: bv8, c: bv8)
    ensures Xor(Xor(a, b), c) == Xor(a, Xor(b, c))
  {
  }

  lemma XorShuffles(a: bv8, b: bv8, x: bv8, y: bv8)
    ensures Xor(Xor(a, b), Xor(x, y)) == Xor(Xor(a, x), Xor(b, y))
  {
    hide Xor;
    XorAssociates(a, b, Xor(x, y));
    XorAssociates(b, x, y);
    XorFacts(b, x);
    XorAssociates(x, b, y);
    XorAssociates(a, x, Xor(b, y));
  }

  lemma TopOfXor(a: bv8, b: bv8)
    ensures Top(Xor(a, b)) <==> Top(a) != Top(b)
  {
    TopOfXorCases(a, b);
  }

  lemma TopOfXorCases(a: bv8, b: bv8)
    ensures a & 0x80 != 0 && b & 0x80 != 0 ==> (a ^ b) & 0x80 == 0
    ensures a & 0x80 != 0 && b & 0x80 == 0 ==> (a ^ b) & 0x80 != 0
    ensures a & 0x80 == 0 && b & 0x80 != 0 ==> (a ^ b) & 0x80 != 0
    ensures a & 0x80 == 0 && b & 0x80 == 0 ==> (a ^ b) & 0x80 == 0
  {
  }

  lemma ShlOfXor(a: bv8, b: bv8)
    ensures Shl(Xor(a, b)) == Xor(Shl(a), Shl(b))
  {
  }

  lemma PolyMoves(x: bv8, y: bv8)
    ensures Xor(Xor(x, POLY), Xor(y, POLY)) == Xor(x, y)
    ensures Xor(Xor(x, POLY), y) == Xor(Xor(x, y), POLY) == Xor(x, Xor(y, POLY))
  {
    hide Xor;
    XorShuffles(x, POLY, y, POLY);
    XorFacts(POLY, POLY);
    XorFacts(Xor(x, y), 0);
    XorAssociates(x, POLY, y);
    XorAssociates(x, y, POLY);
    XorFacts(POLY, y);
  }

  lemma ShlIsNotPoly(a: bv8)
    ensures Xor(Shl(a), POLY) != 0
    ensures Shl(a) == 0 && !Top(a) ==> a == 0
    ensures Shl(0) == 0 && !Top(0)
  {
  }

  // ---- The register is linear, and a step loses nothing ----

  lemma StepIsLinear(a: bv8, b: bv8)
    ensures Step(Xor(a, b)) == Xor(Step(a), Step(b))
  {
    hide Top, Shl, Xor;
    TopOfXor(a, b);
    ShlOfXor(a, b);
    PolyMoves(Shl(a), Shl(b));
  }

  lemma StepIsInjective(a: bv8)
    ensures Step(a) == 0 <==> a == 0
  {
    hide Top, Shl, Xor;
    ShlIsNotPoly(a);
  }

  lemma {:induction false} StepsIsLinear(a: bv8, b: bv8, n: nat)
    ensures Steps(Xor(a, b), n) == Xor(Steps(a, n), Steps(b, n))
  {
    hide Step, Xor;
    if n > 0 {
      StepsIsLinear(a, b, n - 1);
      StepIsLinear(Steps(a, n - 1), Steps(b, n - 1));
    }
  }

  lemma {:induction false} StepsIsInjective(a: bv8, n: nat)
    ensures Steps(a, n) == 0 <==> a == 0
  {
    hide Step;
    if n > 0 {
      StepsIsInjective(a, n - 1);
      StepIsInjective(Steps(a, n - 1));
    }
  }

  /** The flipped bits. */
  function Flipped(f: seq<bv8>, g: seq<bv8>): seq<bv8>
    requires |f| == |g|
  {
    seq(|f|, i requires 0 <= i < |f| => Xor(f[i], g[i]))
  }

  lemma {:induction false} RegisterIsLinear(a: bv8, f: seq<bv8>, b: bv8, g: seq<bv8>)
    requires |f| == |g|
    ensures Register(Xor(a, b), Flipped(f, g)) == Xor(Register(a, f), Register(b, g))
    decreases |f|
  {
    hide Steps, Xor;
    if f != [] {
      var f', g' := f[..|f| - 1], g[..|g| - 1];
      var x, y, u, v := Register(a, f'), Register(b, g'), f[|f| - 1], g[|g| - 1];
      RegisterIsLinear(a, f', b, g');
      assert Flipped(f, g)[..|f| - 1] == Flipped(f', g');
      XorShuffles(x, y, u, v);
      StepsIsLinear(Xor(x, u), Xor(y, v), 8);
    }
  }

  /** Two messages have the same CRC exactly if the flipped bits alone leave the register at 0. */
  lemma SameCrc(f: seq<bv8>, g: seq<bv8>)
    requires |f| == |g|
    ensures Crc(f) == Crc(g) <==> Register(0, Flipped(f, g)) == 0
  {
    hide Xor, Register;
    RegisterIsLinear(0xFF, f, 0xFF, g);
    XorFacts(Crc(f), Crc(g));
    XorFacts(0xFF, 0xFF);
  }

  /** Zero bytes keep a register that is 0 at 0, and one that is not 0 away from 0. */
  lemma {:induction false} ZerosKeep(init: bv8, data: seq<bv8>)
    requires forall i :: 0 <= i < |data| ==> data[i] == 0
    ensures Register(init, data) == 0 <==> init == 0
    decreases |data|
  {
    hide Steps, Xor;
    if data != [] {
      var before := Register(init, data[..|data| - 1]);
      ZerosKeep(init, data[..|data| - 1]);
      XorFacts(before, 0);
      StepsIsInjective(before, 8);
    }
  }

  lemma {:induction false} RegisterOfConcat(init: bv8, a: seq<bv8>, b: seq<bv8>)
    ensures Register(init, a + b) == Register(Register(init, a), b)
    decreases |b|
  {
    if b == [] {
      assert a + b == a;
    } else {
      RegisterOfConcat(init, a, b[..|b| - 1]);
      assert (a + b)[..|a + b| - 1] == a + b[..|b| - 1];
    }
  }

  /** A message followed by its CRC leaves the register at 0, and by nothing else. */
  lemma Residue(data: seq<bv8>, c: bv8)
    ensures Crc(data + [c]) == 0 <==> c == Crc(data)
  {
    hide Steps, Xor;
    assert (data + [c])[..|data|] == data;
    XorFacts(Crc(data), c);
    StepsIsInjective(Xor(Crc(data), c), 8);
  }

  // ---- What the CRC detects ----

  /** The pattern w of up to eight bits, moved left by s bits over two bytes. */
  function Burst(w: bv8, s: nat): (bv8, bv8) {
    if s == 0 then (0, w)
    else
      var (high, low) := Burst(w, s - 1);
      (if Top(low) then Xor(Shl(high), 1) else Shl(high), Shl(low))
  }

  predicate IsBurst(flipped: seq<bv8>, at: nat, w: bv8, s: nat) {
    && at + 1 < |flipped| && (flipped[at], flipped[at + 1]) == Burst(w, s)
    && forall i :: 0 <= i < |flipped| && i != at && i != at + 1 ==> flipped[i] == 0
  }

  /** x^8 is congruent to the polynomial's lower part. */
  lemma EightSteps()
    ensures Steps(1, 8) == POLY
  {
    assert Step(1) == 2 && Step(2) == 4 && Step(4) == 8 && Step(8) == 16;
    assert Step(16) == 32 && Step(32) == 64 && Step(64) == 128 && Step(128) == POLY;
    hide Step;
    assert Steps(1, 1) == 2 && Steps(1, 2) == 4 && Steps(1, 3) == 8 && Steps(1, 4) == 16;
    assert Steps(1, 5) == 32 && Steps(1, 6) == 64 && Steps(1, 7) == 128;
  }

  lemma {:induction false} StepsCommutes(a: bv8, n: nat)
    ensures Steps(Step(a), n) == Step(Steps(a, n))
  {
    hide Step;
    if n > 0 {
      StepsCommutes(a, n - 1);
    }
  }

  /** Moving a pattern that spans two bytes by one bit multiplies what it leaves by x. */
  lemma ShiftPair(high: bv8, low: bv8)
    requires !Top(high)
    ensures var high' := if Top(low) then Xor(Shl(high), 1) else Shl(high);
            Xor(Steps(high', 8), Shl(low)) == Step(Xor(Steps(high, 8), low))
  {
    hide Steps, Xor, Top, Shl, Step;
    StepOf(high);
    StepOf(low);
    EightSteps();
    StepsCommutes(high, 8);
    StepIsLinear(Steps(high, 8), low);
    StepsIsLinear(Shl(high), 1, 8);
    var h := Steps(Shl(high), 8);
    XorAssociates(h, POLY, Shl(low));
    XorFacts(POLY, Shl(low));
  }

  lemma StepOf(a: bv8)
    ensures Step(a) == if Top(a) then Xor(Shl(a), POLY) else Shl(a)
  {
  }

  predicate Apart(a: bv8, b: bv8) {
    a & b == 0
  }

  /** All bits from s on. */
  function FromBit(s: nat): bv8 {
    if s == 0 then 0xFF else Shl(FromBit(s - 1))
  }

  lemma ApartMoves(high: bv8, mask: bv8)
    requires Apart(high, mask)
    ensures Apart(Shl(high), Shl(mask)) && Apart(Xor(Shl(high), 1), Shl(mask))
  {
  }

  lemma FromBitHasTop(s: nat)
    requires s <= 7
    ensures Top(FromBit(s))
  {
    assert FromBit(0) == 0xFF && FromBit(1) == 0xFE && FromBit(2) == 0xFC && FromBit(3) == 0xF8;
    assert FromBit(4) == 0xF0 && FromBit(5) == 0xE0 && FromBit(6) == 0xC0 && FromBit(7) == 0x80;
  }

  lemma ApartFromTop(a: bv8, mask: bv8)
    requires Apart(a, mask) && Top(mask)
    ensures !Top(a)
  {
  }

  lemma NothingApart(mask: bv8)
    ensures Apart(0, mask)
  {
  }

  /** The high byte of a burst holds at most s bits. */
  lemma {:induction false} BurstFits(w: bv8, s: nat)
    requires s <= 7
    ensures Apart(Burst(w, s).0, FromBit(s)) && !Top(Burst(w, s).0)
  {
    hide Shl, Top, Xor, Apart;
    if s == 0 {
      NothingApart(FromBit(0));
    } else {
      BurstFits(w, s - 1);
      ApartMoves(Burst(w, s - 1).0, FromBit(s - 1));
    }
    FromBitHasTop(s);
    ApartFromTop(Burst(w, s).0, FromBit(s));
  }

  lemma {:induction false} BurstIsProduct(w: bv8, s: nat)
    requires s <= 8
    ensures var (high, low) := Burst(w, s); Xor(Steps(high, 8), low) == Steps(w, s)
  {
    hide Xor, Top, Shl, Step;
    if s == 0 {
      StepsIsInjective(0, 8);
      XorFacts(w, 0);
    } else {
      var (high, low) := Burst(w, s - 1);
      BurstIsProduct(w, s - 1);
      BurstFits(w, s - 1);
      ShiftPair(high, low);
    }
  }

  /** Zeros around the flipped bits do not matter. */
  lemma OnlyFlippedPartMatters(e: seq<bv8>, i: nat, j: nat)
    requires i <= j <= |e| && forall k :: 0 <= k < |e| && !(i <= k < j) ==> e[k] == 0
    ensures Register(0, e) == 0 <==> Register(0, e[i..j]) == 0
  {
    hide Register;
    assert e == e[..j] + e[j..] && e[..j] == e[..i] + e[i..j];
    RegisterOfConcat(0, e[..j], e[j..]);
    RegisterOfConcat(0, e[..i], e[i..j]);
    ZerosKeep(0, e[..i]);
    ZerosKeep(Register(0, e[..j]), e[j..]);
  }

  lemma OneByte(b: bv8)
    ensures Register(0, [b]) == Steps(b, 8)
  {
    hide Steps, Xor;
    XorFacts(b, 0);
    XorFacts(0, b);
  }

  lemma TwoBytes(high: bv8, low: bv8)
    ensures Register(0, [high, low]) == Steps(Xor(Steps(high, 8), low), 8)
  {
    hide Steps, Xor;
    OneByte(high);
    assert [high, low][..1] == [high];
  }

  /** The CRC detects every burst of at most eight bits, wherever it starts. */
  lemma BurstIsDetected(f: seq<bv8>, g: seq<bv8>, at: nat, w: bv8, s: nat)
    requires |f| == |g| && w != 0 && s <= 8 && IsBurst(Flipped(f, g), at, w, s)
    ensures Crc(f) != Crc(g)
  {
    hide Xor, Steps, Burst, Register, Crc;
    var (high, low) := Burst(w, s);
    SameCrc(f, g);
    assert Flipped(f, g)[at..at + 2] == [high, low];
    OnlyFlippedPartMatters(Flipped(f, g), at, at + 2);
    TwoBytes(high, low);
    BurstIsProduct(w, s);
    StepsIsInjective(w, s);
    StepsIsInjective(Xor(Steps(high, 8), low), 8);
  }

  /** The CRC detects every change of a single byte. */
  lemma ByteChangeIsDetected(f: seq<bv8>, g: seq<bv8>, at: nat)
    requires |f| == |g| && at < |f| && f[at] != g[at]
    requires forall i :: 0 <= i < |f| && i != at ==> f[i] == g[i]
    ensures Crc(f) != Crc(g)
  {
    hide Xor, Steps, Register, Crc;
    var e := Flipped(f, g);
    SameCrc(f, g);
    forall i | 0 <= i < |f| ensures e[i] == 0 <==> f[i] == g[i] {
      XorFacts(f[i], g[i]);
    }
    assert e[at..at + 1] == [e[at]];
    OnlyFlippedPartMatters(e, at, at + 1);
    OneByte(e[at]);
    StepsIsInjective(e[at], 8);
  }

  /** Whether a byte has an odd number of bits set. */
  function OddByte(a: bv8): bool {
    ((((a & 0x80 != 0) != (a & 0x40 != 0)) != ((a & 0x20 != 0) != (a & 0x10 != 0))) !=
     (((a & 8 != 0) != (a & 4 != 0)) != ((a & 2 != 0) != (a & 1 != 0))))
  }

  function Odd(data: seq<bv8>): bool {
    if data == [] then false else Odd(data[..|data| - 1]) != OddByte(data[|data| - 1])
  }

  lemma OddFacts(a: bv8, b: bv8)
    ensures OddByte(Xor(a, b)) == (OddByte(a) != OddByte(b))
    ensures OddByte(Shl(a)) == (OddByte(a) != Top(a))
    ensures OddByte(POLY) && !OddByte(0)
  {
  }

  /** The polynomial has an even number of terms, so a step keeps the parity. */
  lemma StepKeepsParity(a: bv8)
    ensures OddByte(Step(a)) == OddByte(a)
  {
    hide OddByte, Top, Shl, Xor;
    OddFacts(a, 0);
    OddFacts(Shl(a), POLY);
  }

  lemma {:induction false} RegisterParity(init: bv8, data: seq<bv8>)
    ensures OddByte(Register(init, data)) == (OddByte(init) != Odd(data))
    decreases |data|
  {
    hide OddByte, Xor, Steps;
    if data != [] {
      var before, b := Register(init, data[..|data| - 1]), data[|data| - 1];
      RegisterParity(init, data[..|data| - 1]);
      OddFacts(before, b);
      StepsKeepParity(Xor(before, b), 8);
    }
  }

  lemma {:induction false} StepsKeepParity(a: bv8, n: nat)
    ensures OddByte(Steps(a, n)) == OddByte(a)
    decreases n
  {
    hide OddByte, Step;
    if n > 0 {
      StepsKeepParity(a, n - 1);
      StepKeepsParity(Steps(a, n - 1));
    }
  }

  /** The CRC detects every change of an odd number of bits. */
  lemma OddChangeIsDetected(f: seq<bv8>, g: seq<bv8>)
    requires |f| == |g| && Odd(Flipped(f, g))
    ensures Crc(f) != Crc(g)
  {
    hide OddByte, Odd, Register, Xor, Crc;
    SameCrc(f, g);
    RegisterParity(0, Flipped(f, g));
    OddFacts(0, 0);
  }

  // ---- Two flipped bits: the powers of x repeat only after 127 ----

  lemma {:induction false} StepsAdd(c: bv8, m: nat, n: nat)
    ensures Steps(Steps(c, m), n) == Steps(c, m + n)
    decreases n
  {
    hide Step;
    if n > 0 {
      StepsAdd(c, m, n - 1);
    }
  }

  lemma StepsCancel(a: bv8, b: bv8, n: nat)
    ensures Steps(a, n) == Steps(b, n) <==> a == b
  {
    hide Steps, Xor;
    StepsIsLinear(a, b, n);
    XorFacts(a, b);
    XorFacts(Steps(a, n), Steps(b, n));
    StepsIsInjective(Xor(a, b), n);
  }

  function Eight(c: bv8): bv8 {
    Step(Step(Step(Step(Step(Step(Step(Step(c))))))))
  }

  lemma StepsByEight(c: bv8, n: nat)
    ensures Steps(c, n + 8) == Eight(Steps(c, n))
  {
    hide Step;
    assert Steps(c, n + 2) == Step(Step(Steps(c, n)));
    assert Steps(c, n + 4) == Step(Step(Steps(c, n + 2)));
    assert Steps(c, n + 6) == Step(Step(Steps(c, n + 4)));
    assert Steps(c, n + 8) == Step(Step(Steps(c, n + 6)));
  }

  lemma FirstPowers()
    ensures Eight(0x01) == 0x31 && Eight(0x31) == 0xF4 && Eight(0xF4) == 0x46 && Eight(0x46) == 0x9B
    ensures Eight(0x9B) == 0xD3 && Eight(0xD3) == 0x57 && Eight(0x57) == 0xE9 && Eight(0xE9) == 0x49
  {
  }

  lemma MorePowers()
    ensures Eight(0x49) == 0xB5 && Eight(0xB5) == 0x4A && Eight(0x4A) == 0xE6 && Eight(0xE6) == 0x67
    ensures Eight(0x67) == 0x2C && Eight(0x2C) == 0xFB && Eight(0xFB) == 0x68 && Eight(0x68) == 0x02
  {
  }

  lemma Period()
    ensures Steps(1, 127) == 1
  {
    FirstPowers();
    MorePowers();
    hide Eight, Step;
    for k := 0 to 16
      invariant Steps(1, 8 * k) ==
                [0x01, 0x31, 0xF4, 0x46, 0x9B, 0xD3, 0x57, 0xE9, 0x49,
                 0xB5, 0x4A, 0xE6, 0x67, 0x2C, 0xFB, 0x68, 0x02][k]
    {
      StepsByEight(1, 8 * k);
    }
    assert Steps(1, 128) == 2;
    StepOne();
    StepsCommutes(1, 127);
    StepsAdd(1, 1, 127);
    StepsAdd(1, 127, 1);
    StepsCancel(Steps(1, 127), 1, 1);
  }

  lemma StepOne()
    ensures Steps(1, 1) == 2
  {
  }

  /** If two powers of x are 1, so is the power to a common divisor. */
  lemma {:induction false} CommonPower(m: nat, n: nat) returns (d: nat, p: nat, q: nat)
    requires m > 0 && n > 0 && Steps(1, m) == 1 && Steps(1, n) == 1
    ensures m == p * d && n == q * d && Steps(1, d) == 1
    decreases m + n
  {
    hide Steps;
    if m == n {
      d, p, q := m, 1, 1;
    } else if m > n {
      StepsAdd(1, m - n, n);
      StepsCancel(Steps(1, m - n), 1, n);
      d, p, q := CommonPower(m - n, n);
      p := p + q;
    } else {
      StepsAdd(1, n - m, m);
      StepsCancel(Steps(1, n - m), 1, m);
      d, p, q := CommonPower(m, n - m);
      q := p + q;
    }
  }

  /** 127 is prime. */
  lemma NoFactorOf127(p: nat, d: nat)
    requires 2 <= d < 12
    ensures p * d != 127
  {
    if d == 2 {} else if d == 3 {} else if d == 4 {} else if d == 5 {} else if d == 6 {}
    else if d == 7 {} else if d == 8 {} else if d == 9 {} else if d == 10 {} else {}
  }

  lemma DivisorsOf127(p: nat, d: nat)
    requires p * d == 127
    ensures d == 1 || d >= 127
  {
    if 2 <= d < 12 {
      NoFactorOf127(p, d);
    } else if 12 <= d < 127 && 2 <= p < 12 {
      NoFactorOf127(d, p);
    } else if d >= 12 && p >= 12 {
      ProductAtLeast(p, d);
    }
  }

  lemma ProductAtLeast(p: nat, d: nat)
    requires p >= 12 && d >= 12
    ensures p * d >= 144
  {
    assert p * d >= 12 * d;
  }

  lemma PowerIsNotOne(n: nat)
    requires 0 < n < 127
    ensures Steps(1, n) != 1
  {
    if Steps(1, n) == 1 {
      Period();
      var d, p, q := CommonPower(127, n);
      DivisorsOf127(p, d);
      StepOne();
      NotLonger(n, q, d);
      assert false;
    }
  }

  lemma {:induction false} PowersOfPeriod(k: nat)
    ensures Steps(1, 127 * k) == 1
    decreases k
  {
    hide Steps;
    if k == 0 {
      StepsZero(1);
    } else {
      PowersOfPeriod(k - 1);
      Period();
      StepsAdd(1, 127 * (k - 1), 127);
    }
  }

  /** The powers of x that are 1 are exactly the multiples of 127. */
  lemma PowerIsOneExactly(n: nat)
    ensures Steps(1, n) == 1 <==> n % 127 == 0
  {
    hide Steps;
    var q, r := n / 127, n % 127;
    PowersOfPeriod(q);
    StepsAdd(1, 127 * q, r);
    StepsZero(1);
    if r > 0 {
      PowerIsNotOne(r);
    }
  }

  lemma NotLonger(n: nat, q: nat, d: nat)
    requires n == q * d && n > 0
    ensures d <= n
  {
    assert q >= 1;
  }

  /** The byte with bit a set. */
  function OneBit(a: nat): bv8
    requires a < 8
  {
    if a == 0 then 1 else Shl(OneBit(a - 1))
  }

  lemma OneBitIsPower(a: nat)
    requires a < 8
    ensures OneBit(a) == Steps(1, a)
  {
    assert Step(1) == 2 && Step(2) == 4 && Step(4) == 8 && Step(8) == 16;
    assert Step(16) == 32 && Step(32) == 64 && Step(64) == 128;
    assert OneBit(0) == 1 && OneBit(1) == 2 && OneBit(2) == 4 && OneBit(3) == 8;
    assert OneBit(4) == 16 && OneBit(5) == 32 && OneBit(6) == 64 && OneBit(7) == 128;
    hide Step, OneBit;
    assert Steps(1, 0) == 1 && Steps(1, 1) == 2 && Steps(1, 2) == 4 && Steps(1, 3) == 8;
    assert Steps(1, 4) == 16 && Steps(1, 5) == 32 && Steps(1, 6) == 64 && Steps(1, 7) == 128;
  }

  lemma {:induction false} RegisterOfZeros(init: bv8, data: seq<bv8>)
    requires forall i :: 0 <= i < |data| ==> data[i] == 0
    ensures Register(init, data) == Steps(init, 8 * |data|)
    decreases |data|
  {
    hide Steps, Xor;
    if data == [] {
      StepsZero(init);
    } else {
      var n := |data| - 1;
      RegisterOfZeros(init, data[..n]);
      XorFacts(Steps(init, 8 * n), 0);
      StepsAdd(init, 8 * n, 8);
    }
  }

  lemma StepsZero(c: bv8)
    ensures Steps(c, 0) == c
  {
  }

  /** What two flipped bits in different bytes leave. */
  lemma TwoBits(e: seq<bv8>, a: nat, b: nat)
    requires |e| >= 2 && a < 8 && b < 8 && e[0] == OneBit(a) && e[|e| - 1] == OneBit(b)
    requires forall k :: 0 < k < |e| - 1 ==> e[k] == 0
    ensures Register(0, e) == 0 <==> Steps(1, 8 * (|e| - 1) + a) == Steps(1, b)
  {
    hide Steps, Xor, OneBit;
    var n := |e| - 1;
    var before := Register(0, e[..n]);
    assert e[..n] == [e[0]] + e[1..n];
    RegisterOfConcat(0, [e[0]], e[1..n]);
    OneByte(e[0]);
    RegisterOfZeros(Steps(e[0], 8), e[1..n]);
    OneBitIsPower(a);
    OneBitIsPower(b);
    StepsAdd(1, a, 8);
    StepsAdd(1, a + 8, 8 * (n - 1));
    assert before == Steps(1, 8 * n + a);
    StepsIsInjective(Xor(before, e[n]), 8);
    XorFacts(before, e[n]);
  }

  /** Two flipped bits in different bytes, in a message of any length, are missed if and only if
      their distance in bits is a multiple of 127.  (Two in the same byte are a byte change.) */
  lemma TwoBitChangeIsMissedExactly(f: seq<bv8>, g: seq<bv8>, i: nat, j: nat, a: nat, b: nat)
    requires |f| == |g| && i < j < |f| && a < 8 && b < 8
    requires Flipped(f, g)[i] == OneBit(a) && Flipped(f, g)[j] == OneBit(b)
    requires forall k :: 0 <= k < |f| && k != i && k != j ==> f[k] == g[k]
    ensures Crc(f) == Crc(g) <==> (8 * (j - i) + a - b) % 127 == 0
  {
    hide Steps, Xor, OneBit, Register, Crc;
    var e := Flipped(f, g);
    SameCrc(f, g);
    forall k | 0 <= k < |f| && f[k] == g[k] ensures e[k] == 0 {
      XorFacts(f[k], g[k]);
    }
    OnlyFlippedPartMatters(e, i, j + 1);
    TwoBits(e[i..j + 1], a, b);
    var distance := 8 * (j - i) + a - b;
    PowerIsOneExactly(distance);
    StepsAdd(1, distance, b);
    StepsCancel(Steps(1, distance), 1, b);
  }

  /** So none is missed in a message of up to fifteen bytes, such as the seven of the frame. */
  lemma TwoBitChangeIsDetected(f: seq<bv8>, g: seq<bv8>, i: nat, j: nat, a: nat, b: nat)
    requires |f| == |g| <= 15 && i < j < |f| && a < 8 && b < 8
    requires Flipped(f, g)[i] == OneBit(a) && Flipped(f, g)[j] == OneBit(b)
    requires forall k :: 0 <= k < |f| && k != i && k != j ==> f[k] == g[k]
    ensures Crc(f) != Crc(g)
  {
    hide OneBit, Crc;
    TwoBitChangeIsMissedExactly(f, g, i, j, a, b);
  }

  // ---- The frame ----

  /** What `aht20_read_measures` accepts: six bytes and their CRC. */
  predicate FrameOk(frame: seq<bv8>) {
    |frame| == 7 && Crc(frame[..6]) == frame[6]
  }

  /** A change that changes the CRC of the whole frame is not accepted. */
  lemma ChangedFrameIsRefused(sent: seq<bv8>, received: seq<bv8>)
    requires FrameOk(sent) && |received| == 7 && Crc(sent) != Crc(received)
    ensures !FrameOk(received)
  {
    hide Crc;
    assert sent == sent[..6] + [sent[6]] && received == received[..6] + [received[6]];
    Residue(sent[..6], sent[6]);
    Residue(received[..6], received[6]);
  }

  type raw20 = n: int | 0 <= n < 0x10_0000

  function RawHumidity(b1: byte, b2: byte, b3: byte): raw20 {
    (b1 * 65536 + b2 * 256 + b3) / 16
  }

  function RawTemperature(b3: byte, b4: byte, b5: byte): raw20 {
    b3 % 16 * 65536 + b4 * 256 + b5
  }

  lemma HumidityBytes(b1: byte, b2: byte, b3: byte)
    ensures var h := RawHumidity(b1, b2, b3);
            b1 == h / 4096 && b2 == h / 16 % 256 && b3 / 16 == h % 16
  {
    var high := b3 / 16;
    QuotientRemainder(b1 * 65536 + b2 * 256 + b3, b1 * 4096 + b2 * 16 + high, b3 % 16, 16);
    QuotientRemainder(b1 * 4096 + b2 * 16 + high, b1, b2 * 16 + high, 4096);
    QuotientRemainder(b1 * 4096 + b2 * 16 + high, b1 * 256 + b2, high, 16);
    QuotientRemainder(b1 * 256 + b2, b1, b2, 256);
  }

  lemma TemperatureBytes(b3: byte, b4: byte, b5: byte)
    ensures var t := RawTemperature(b3, b4, b5);
            b3 % 16 == t / 65536 && b4 == t / 256 % 256 && b5 == t % 256
  {
    var low := b3 % 16;
    QuotientRemainder(low * 65536 + b4 * 256 + b5, low, b4 * 256 + b5, 65536);
    QuotientRemainder(low * 65536 + b4 * 256 + b5, low * 256 + b4, b5, 256);
    QuotientRemainder(low * 256 + b4, low, b4, 256);
  }

  /** Five data bytes and two 20-bit values determine each other. */
  lemma FieldsOfBytes(b1: byte, b2: byte, b3: byte, b4: byte, b5: byte)
    ensures var (h, t) := (RawHumidity(b1, b2, b3), RawTemperature(b3, b4, b5));
            (b1, b2, b3, b4, b5) == (h / 4096, h / 16 % 256, h % 16 * 16 + t / 65536, t / 256 % 256, t % 256)
  {
    HumidityBytes(b1, b2, b3);
    TemperatureBytes(b3, b4, b5);
    hide RawHumidity, RawTemperature;
  }

  lemma BytesOfFields(h: raw20, t: raw20)
    ensures var b3 := h % 16 * 16 + t / 65536;
            && RawHumidity(h / 4096, h / 16 % 256, b3) == h
            && RawTemperature(b3, t / 256 % 256, t % 256) == t
  {
    var b1, b2, low := h / 4096, h / 16 % 256, h % 16;
    var top, b4, b5 := t / 65536, t / 256 % 256, t % 256;
    QuotientRemainder(low * 16 + top, low, top, 16);
    var m := h / 16;
    assert m == m / 256 * 256 + m % 256;
    QuotientRemainder(h, m / 256, m % 256 * 16 + low, 4096);
    QuotientRemainder(b1 * 65536 + b2 * 256 + (low * 16 + top), b1 * 4096 + b2 * 16 + low, top, 16);
    var k := t / 256;
    assert k == k / 256 * 256 + k % 256;
    QuotientRemainder(t, k / 256, k % 256 * 256 + b5, 65536);
  }

  function Humidity(raw: raw20): real {
    raw as real * 0.000095367
  }

  function Temperature(raw: raw20): real {
    raw as real * 0.000190735 - 50.0
  }

  lemma MeasuresInRange(raw: raw20)
    ensures 0.0 <= Humidity(raw) < 100.0
    ensures -50.0 <= Temperature(raw) < 150.0
  {
  }

  /** The two factors are those of the sensor's formulas, 100 / 2^20 and 200 / 2^20, to within a
      rounding that stays far below the sensor's resolution over the whole range. */
  lemma ScalesAreClose(raw: raw20)
    ensures var ideal := raw as real * 100.0 / 1048576.0;
            ideal - 0.0005 < Humidity(raw) <= ideal
    ensures var ideal := raw as real * 200.0 / 1048576.0 - 50.0;
            ideal <= Temperature(raw) < ideal + 0.00015
  {
  }

  datatype Reading = Measures(humidity: real, temperature: real) | BadCrc | NotFinished

  /** Calibrated, CRC enabled and not busy. */
  predicate StatusOk(status: bv8) {
    status & 0x08 != 0 && status & 0x10 != 0 && status & 0x80 == 0
  }

  /** The decode in `aht20_read_measures`. */
  method DecodeFields(b1: byte, b2: byte, b3: byte, b4: byte, b5: byte) returns (humidity: real, temperature: real)
    ensures humidity == Humidity(RawHumidity(b1, b2, b3))
    ensures temperature == Temperature(RawTemperature(b3, b4, b5))
  {
    var rawHumidity: int := b1;
    rawHumidity := rawHumidity * 256;
    rawHumidity := rawHumidity + b2;
    rawHumidity := rawHumidity * 256;
    rawHumidity := rawHumidity + b3;
    rawHumidity := rawHumidity / 16;
    humidity := rawHumidity as real * 0.000095367;
    var rawTemperature: int := b3 % 16;
    rawTemperature := rawTemperature * 256;
    rawTemperature := rawTemperature + b4;
    rawTemperature := rawTemperature * 256;
    rawTemperature := rawTemperature + b5;
    temperature := rawTemperature as real * 0.000190735 - 50.0;
  }

  /** `aht20_read_measures` after the bus transfers: the status byte and the frame. */
  method ReadMeasures(status: bv8, buf: array<bv8>) returns (r: Reading)
    requires buf.Length == 7
    ensures r == NotFinished <==> !StatusOk(status)
    ensures r == BadCrc <==> StatusOk(status) && !FrameOk(buf[..])
    ensures r.Measures? ==>
              && r.humidity == Humidity(RawHumidity(buf[1] as int, buf[2] as int, buf[3] as int))
              && r.temperature == Temperature(RawTemperature(buf[3] as int, buf[4] as int, buf[5] as int))
              && 0.0 <= r.humidity < 100.0 && -50.0 <= r.temperature < 150.0
  {
    hide Crc, Humidity, Temperature, RawHumidity, RawTemperature;
    if status & 0x08 != 0 && status & 0x10 != 0 && status & 0x80 == 0 {
      assert buf[..][..6] == buf[..6];
      var crc := CalcCrc(buf, 6);
      if crc != buf[6] {
        return BadCrc;
      }
      var humidity, temperature :=
        DecodeFields(buf[1] as int, buf[2] as int, buf[3] as int, buf[4] as int, buf[5] as int);
      MeasuresInRange(RawHumidity(buf[1] as int, buf[2] as int, buf[3] as int));
      MeasuresInRange(RawTemperature(buf[3] as int, buf[4] as int, buf[5] as int));
      return Measures(humidity, temperature);
    } else {
      return NotFinished;
    }
  }
}
