/** ADC calibration by curve fitting: a scaled linear step, then a polynomial correction. */
module Adc {
  import opened Common

  type i32 = n: int | -TWO_31 <= n < TWO_31

  const TWO_31: int := 0x8000_0000
  const SCALING: nat := 65536

  // ---- First step ----

  /** `calc_first_step_coefficients`: the gradient, scaled by 2^16, in 32-bit arithmetic. */
  function CoeffA(voltage: u32, digi: u32): u32
    requires digi > 0
  {
    SCALING * voltage % TWO_32 / digi
  }

  /** v_cali_1 in `cali_raw_to_voltage`, with coeff_b = 0. */
  function FirstStep(raw: nat, coeffA: u32): nat {
    raw * coeffA / SCALING
  }

  lemma DivBound(n: nat, d: nat)
    requires d > 0
    ensures n / d * d <= n < n / d * d + d
  {
  }

  lemma ProductMonotone(k: nat, m: int, n: int)
    requires m <= n
    ensures k * m <= k * n
  {
  }

  lemma ProductStrict(k: nat, m: int, n: int)
    requires m < n && k > 0
    ensures k * m < k * n
  {
  }

  /** The gradient is rounded down. */
  lemma CoeffABound(voltage: u32, digi: u32)
    requires digi > 0
    ensures voltage < 65536 ==>
              CoeffA(voltage, digi) * digi <= SCALING * voltage < CoeffA(voltage, digi) * digi + digi
  {
    if voltage < 65536 {
      assert SCALING * voltage % TWO_32 == SCALING * voltage;
      DivBound(SCALING * voltage, digi);
    }
  }

  /** The bound of the first step in whole numbers. */
  lemma FirstStepScaled(raw: nat, voltage: u32, digi: u32)
    requires voltage < 65536 && digi > 0
    ensures var v := FirstStep(raw, CoeffA(voltage, digi));
            digi * v <= raw * voltage && SCALING * (raw * voltage) < digi * (SCALING * (v + 1) + raw)
  {
    var a := CoeffA(voltage, digi);
    var v := FirstStep(raw, a);
    CoeffABound(voltage, digi);
    DivBound(raw * a, SCALING);
    hide CoeffA, FirstStep;
    ScaledArithmetic(raw, voltage, digi, a, v);
  }

  lemma ScaledArithmetic(raw: nat, voltage: nat, digi: nat, a: nat, v: nat)
    requires digi > 0 && a * digi <= SCALING * voltage < a * digi + digi
    requires v * SCALING <= raw * a < v * SCALING + SCALING
    ensures digi * v <= raw * voltage && SCALING * (raw * voltage) < digi * (SCALING * (v + 1) + raw)
  {
    ProductMonotone(digi, v * SCALING, raw * a);
    ProductMonotone(raw, a * digi, SCALING * voltage);
    Reorder(digi, raw, a, v);
    assert raw * (SCALING * voltage) == SCALING * (raw * voltage);
    ProductMonotone(raw, SCALING * voltage, a * digi + digi);
    ProductStrict(digi, raw * a, v * SCALING + SCALING);
    Distribute(digi, v * SCALING + SCALING, raw);
    Distribute(raw, a * digi, digi);
  }

  lemma Reorder(digi: nat, raw: nat, a: nat, v: nat)
    ensures digi * (raw * a) == raw * (a * digi) && digi * (v * SCALING) == SCALING * (digi * v)
  {
    assert digi * (raw * a) == (digi * raw) * a;
    assert raw * (a * digi) == (raw * digi) * a;
  }

  lemma Distribute(k: nat, x: int, y: int)
    ensures k * (x + y) == k * x + k * y
  {
  }

  lemma SignOfProduct(x: real, d: real)
    requires d > 0.0
    ensures x > 0.0 ==> x * d > 0.0
    ensures x >= 0.0 ==> x * d >= 0.0
  {
  }

  lemma QuotientAtLeast(x: real, n: real, d: real)
    requires d > 0.0 && x * d <= n
    ensures x <= n / d
  {
    var y := n / d;
    assert y * d == n;
    SignOfProduct(x - y, d);
    assert (x - y) * d == x * d - y * d;
    assert !(x - y > 0.0);
  }

  lemma QuotientBelow(x: real, n: real, d: real)
    requires d > 0.0 && n < x * d
    ensures n / d < x
  {
    var y := n / d;
    assert y * d == n;
    SignOfProduct(y - x, d);
    assert (y - x) * d == y * d - x * d;
  }

  /** For a reference voltage below 65536 the two roundings cost less than one millivolt and
      raw / 65536 together, and only ever downwards. */
  lemma FirstStepBound(raw: nat, voltage: u32, digi: u32)
    requires voltage < 65536 && digi > 0
    ensures var ideal := (raw * voltage) as real / digi as real;
            var v := FirstStep(raw, CoeffA(voltage, digi)) as real;
            v <= ideal < v + 1.0 + raw as real / 65536.0
  {
    FirstStepScaled(raw, voltage, digi);
    var v, n, d := FirstStep(raw, CoeffA(voltage, digi)), raw * voltage, digi as real;
    hide CoeffA, FirstStep;
    assert (digi * v) as real == v as real * d;
    QuotientAtLeast(v as real, n as real, d);
    var x := v as real + 1.0 + raw as real / 65536.0;
    var w := SCALING * (v + 1) + raw;
    assert w as real == 65536.0 * x;
    assert (digi * w) as real == w as real * d;
    assert (65536.0 * x) * d == 65536.0 * (x * d);
    QuotientBelow(x, n as real, d);
  }

  lemma FirstStepIsMonotone(raw: nat, raw': nat, coeffA: u32)
    requires raw <= raw'
    ensures FirstStep(raw, coeffA) <= FirstStep(raw', coeffA)
  {
    ProductMonotone(coeffA, raw, raw');
  }

  // ---- Second step ----

  /** One coefficient: sign * num / den. */
  datatype Coeff = Coeff(num: u64, den: u64, sign: int)

  type Table = t: seq<Coeff> | forall i :: 0 <= i < |t| ==> t[i].den > 0 && -1 <= t[i].sign <= 1 witness []

  function Times(m: nat, n: nat): nat {
    m * n
  }

  function Quotient(n: nat, d: nat): nat
    requires d > 0
  {
    n / d
  }

  function Signed(n: int, sign: int): int {
    n * sign
  }

  function Pow(v: nat, n: nat): nat {
    if n == 0 then 1 else Times(Pow(v, n - 1), v)
  }

  /** Term i of the polynomial, rounded down as the code does. */
  function RoundedTerm(v: nat, t: Table, i: nat): nat
    requires i < |t|
  {
    Quotient(Times(Pow(v, i), t[i].num), t[i].den)
  }

  /** The sum of the first n rounded terms. */
  function RoundedSum(v: nat, t: Table, n: nat): int
    requires n <= |t|
  {
    if n == 0 then 0 else RoundedSum(v, t, n - 1) + Signed(RoundedTerm(v, t, n - 1), t[n - 1].sign)
  }

  /** The error polynomial itself. */
  ghost function ExactTerm(v: nat, t: Table, i: nat): real
    requires i < |t|
  {
    Times(Pow(v, i), t[i].num) as real / t[i].den as real
  }

  ghost function ExactSum(v: nat, t: Table, n: nat): real
    requires n <= |t|
  {
    if n == 0 then 0.0 else ExactSum(v, t, n - 1) + t[n - 1].sign as real * ExactTerm(v, t, n - 1)
  }

  /** No intermediate value leaves its 64 or 32 bits. */
  predicate Fits(v: nat, t: Table) {
    && v < TWO_64
    && forall i :: 0 <= i < |t| ==>
         && Pow(v, i) < TWO_64 && Times(Pow(v, i), t[i].num) < TWO_64 && RoundedTerm(v, t, i) < TWO_31
         && -TWO_31 < RoundedSum(v, t, i + 1) < TWO_31
  }

  function Wrap64(n: int): u64 {
    n % TWO_64
  }

  /** Conversion to a signed 32-bit number. */
  function ToInt32(n: int): i32 {
    (n + TWO_31) % TWO_32 - TWO_31
  }

  lemma InRange(n: int)
    ensures 0 <= n < TWO_64 ==> Wrap64(n) == n
    ensures -TWO_31 <= n < TWO_31 ==> ToInt32(n) == n
  {
  }

  /** Both conversions keep the value modulo the width of their type. */
  lemma Conversions(n: int)
    ensures (Wrap64(n) - n) % TWO_64 == 0 && (ToInt32(n) - n) % TWO_32 == 0
  {
    assert n == n / TWO_64 * TWO_64 + n % TWO_64;
    var m := n + TWO_31;
    assert m == m / TWO_32 * TWO_32 + m % TWO_32;
  }

  // ---- The polynomial in the widths of the code ----

  /** `variable[i]`, in 64 bits. */
  function Power64(v: u64, i: nat): u64 {
    if i == 0 then 1 else Wrap64(Times(Power64(v, i - 1), v))
  }

  /** The term that is added, in 64 and then 32 bits. */
  function Term32(v: u64, t: Table, i: nat): i32
    requires i < |t|
  {
    ToInt32(Signed(ToInt32(Quotient(Wrap64(Times(Power64(v, i), t[i].num)), t[i].den)), t[i].sign))
  }

  /** `error` after n terms, in 32 bits. */
  function Error32(v: u64, t: Table, n: nat): i32
    requires n <= |t|
  {
    if n == 0 then 0 else ToInt32(Error32(v, t, n - 1) + Term32(v, t, n - 1))
  }

  /** While nothing overflows, that is the sum of the rounded terms. */
  lemma {:induction false} Error32IsExact(v: u64, t: Table, n: nat)
    requires Fits(v, t) && n <= |t|
    ensures Error32(v, t, n) == RoundedSum(v, t, n)
    ensures n > 0 ==> Power64(v, n - 1) == Pow(v, n - 1)
    decreases n
  {
    hide Times, Quotient, Signed, Wrap64, ToInt32, Fits, RoundedTerm;
    if n > 0 {
      Error32IsExact(v, t, n - 1);
      TermFits(v, t, n - 1);
      SumStep(v, t, n - 1);
    }
  }

  /** The correction of a voltage: none for 0. */
  function Correction(v: u64, t: Table): i32 {
    if v == 0 then 0 else Error32(v, t, |t|)
  }

  /** `get_reading_error`: while nothing overflows, the sum of the rounded terms; no correction at
      all for a reading of 0. */
  method GetReadingError(v: u64, t: Table) returns (error: i32)
    requires |t| < 256
    ensures error == Correction(v, t)
    ensures v == 0 || |t| == 0 ==> error == 0
    ensures v != 0 && Fits(v, t) ==> error == RoundedSum(v, t, |t|)
  {
    if v == 0 || |t| == 0 {
      return 0;
    }
    var variable, term := new u64[|t|](_ => 0), new u64[|t|](_ => 0);
    hide Wrap64, ToInt32, Fits, Times, Quotient, Signed, RoundedSum;
    variable[0] := 1;
    term[0] := Wrap64(Times(variable[0], t[0].num));
    term[0] := Quotient(term[0], t[0].den);
    error := ToInt32(Signed(ToInt32(term[0]), t[0].sign));
    InRange(error);
    var i := 1;
    while i < |t|
      invariant 1 <= i <= |t|
      invariant variable[i - 1] == Power64(v, i - 1) && error == Error32(v, t, i)
    {
      variable[i] := Wrap64(Times(variable[i - 1], v));
      term[i] := Wrap64(Times(variable[i], t[i].num));
      term[i] := Quotient(term[i], t[i].den);
      error := ToInt32(error + ToInt32(Signed(ToInt32(term[i]), t[i].sign)));
      i := i + 1;
    }
    if Fits(v, t) {
      Error32IsExact(v, t, |t|);
    }
  }

  lemma SignedBound(n: nat, sign: int)
    requires n < TWO_31 && -1 <= sign <= 1
    ensures -TWO_31 < Signed(n, sign) < TWO_31
  {
  }

  /** The operations of one round keep their values when the polynomial fits. */
  lemma TermFits(v: nat, t: Table, i: nat)
    requires Fits(v, t) && i < |t|
    ensures i > 0 ==> Wrap64(Times(Pow(v, i - 1), v)) == Pow(v, i)
    ensures i == 0 ==> Pow(v, i) == 1
    ensures Quotient(Wrap64(Times(Pow(v, i), t[i].num)), t[i].den) == RoundedTerm(v, t, i)
    ensures ToInt32(Signed(ToInt32(RoundedTerm(v, t, i)), t[i].sign)) == Signed(RoundedTerm(v, t, i), t[i].sign)
  {
    hide Times, Quotient, Signed, Wrap64, ToInt32;
    InRange(Pow(v, i));
    InRange(Times(Pow(v, i), t[i].num));
    InRange(RoundedTerm(v, t, i));
    SignedBound(RoundedTerm(v, t, i), t[i].sign);
    InRange(Signed(RoundedTerm(v, t, i), t[i].sign));
  }

  lemma SumStep(v: nat, t: Table, i: nat)
    requires Fits(v, t) && i < |t|
    ensures ToInt32(RoundedSum(v, t, i) + Signed(RoundedTerm(v, t, i), t[i].sign)) == RoundedSum(v, t, i + 1)
    ensures i == 0 ==> RoundedSum(v, t, i) == 0
  {
    hide Times, Quotient, Signed, ToInt32;
    InRange(RoundedSum(v, t, i + 1));
  }

  /** The rounded sum differs from the exact polynomial by less than the number of terms. */
  lemma {:induction false} SumIsClose(v: nat, t: Table, n: nat)
    requires n <= |t|
    ensures n > 0 ==> -(n as real) < RoundedSum(v, t, n) as real - ExactSum(v, t, n) < n as real
    ensures n == 0 ==> RoundedSum(v, t, n) as real == ExactSum(v, t, n)
    decreases n
  {
    hide Times, Quotient, Signed, Pow, ExactTerm, RoundedTerm;
    if n > 0 {
      SumIsClose(v, t, n - 1);
      TermIsClose(v, t, n - 1);
      var sum, term := RoundedSum(v, t, n - 1), Signed(RoundedTerm(v, t, n - 1), t[n - 1].sign);
      assert (sum + term) as real == sum as real + term as real;
      assert n as real == (n - 1) as real + 1.0;
    }
  }

  lemma TermIsClose(v: nat, t: Table, i: nat)
    requires i < |t|
    ensures -1.0 < Signed(RoundedTerm(v, t, i), t[i].sign) as real - t[i].sign as real * ExactTerm(v, t, i) < 1.0
  {
    var p, den, r := Times(Pow(v, i), t[i].num), t[i].den, RoundedTerm(v, t, i);
    QuotientIsClose(p, den);
    var x := ExactTerm(v, t, i);
    hide Times, Quotient, Pow, ExactTerm, RoundedTerm;
    SignedIsClose(r, x, t[i].sign);
  }

  lemma QuotientIsClose(p: nat, den: nat)
    requires den > 0
    ensures Quotient(p, den) as real <= p as real / den as real < Quotient(p, den) as real + 1.0
  {
    var r := p / den;
    DivBound(p, den);
    assert (r * den) as real == r as real * den as real;
    QuotientAtLeast(r as real, p as real, den as real);
    assert (r * den + den) as real == (r as real + 1.0) * den as real;
    QuotientBelow(r as real + 1.0, p as real, den as real);
  }

  lemma SignedIsClose(r: nat, x: real, sign: int)
    requires r as real <= x < r as real + 1.0 && -1 <= sign <= 1
    ensures -1.0 < Signed(r, sign) as real - sign as real * x < 1.0
  {
    if sign == 1 {
    } else if sign == 0 {
    } else {
      assert sign == -1;
    }
  }

  // ---- Both steps ----

  /** v_cali_1 as `cali_raw_to_voltage` computes it from a signed reading, with coeff_b = 0. */
  function FirstStep64(reading: int, coeffA: u32): u64 {
    Wrap64(Wrap64(reading) * coeffA) / SCALING
  }

  /** A reading that is not negative does not wrap. */
  lemma FirstStepIs64Bit(reading: nat, coeffA: u32)
    requires reading < TWO_31
    ensures FirstStep64(reading, coeffA) == FirstStep(reading, coeffA)
  {
    ProductMonotone(reading, coeffA, TWO_32);
    assert reading * TWO_32 < TWO_64;
    InRange(reading);
    InRange(reading * coeffA);
  }

  /** Neither the polynomial nor the result leaves its integer type. */
  predicate VoltageFits(v: nat, t: Table) {
    v < TWO_31 && Fits(v, t) && -TWO_31 <= v - RoundedSum(v, t, |t|) < TWO_31
  }

  /** The ideal line through the reference point, in millivolts. */
  ghost function IdealLine(reading: nat, voltage: u32, digi: u32): real
    requires digi > 0
  {
    (reading * voltage) as real / digi as real
  }

  /** The whole calibration against the ideal line and the exact polynomial. */
  lemma VoltageBound(reading: nat, voltage: u32, digi: u32, t: Table)
    requires voltage < 65536 && digi > 0 && |t| > 0
    ensures var v := FirstStep(reading, CoeffA(voltage, digi));
            var n := |t| as real;
            -n < IdealLine(reading, voltage, digi) - ExactSum(v, t, |t|) - (v - RoundedSum(v, t, |t|)) as real
              < n + 1.0 + reading as real / 65536.0
  {
    var v := FirstStep(reading, CoeffA(voltage, digi));
    FirstStepBound(reading, voltage, digi);
    SumIsClose(v, t, |t|);
    hide CoeffA, FirstStep, ExactSum, RoundedSum;
  }

  /** The context of a calibration scheme: the state that `calc_first_step_coefficients` fills in. */
  class CurveFitting {
    var coeffA: u32
    var coeffB: u32
    const table: Table
    const maxRaw: nat   // the largest reading, for chips with channel compensation

    ghost var refVoltage: u32   // the reference point the coefficients were computed from
    ghost var refDigi: u32

    ghost predicate Valid()
      reads this
    {
      && |table| < 256 && maxRaw < TWO_31
      && refDigi > 0 && coeffA == CoeffA(refVoltage, refDigi) && coeffB == 0
    }

    constructor (table: Table, maxRaw: nat)
      requires |table| < 256 && maxRaw < TWO_31
      ensures Valid() && this.table == table && this.maxRaw == maxRaw
    {
      coeffA, coeffB, refVoltage, refDigi := 0, 0, 0, 1;
      this.table, this.maxRaw := table, maxRaw;
    }

    /** `calc_first_step_coefficients`. */
    method CalcFirstStep(voltage: u32, digi: u32)
      requires Valid() && digi > 0
      modifies this
      ensures Valid() && refVoltage == voltage && refDigi == digi
      ensures coeffA == 65536 * voltage % 0x1_0000_0000 / digi
      ensures voltage < 65536 ==> coeffA * digi <= SCALING * voltage < coeffA * digi + digi
    {
      CoeffABound(voltage, digi);
      assert CoeffA(voltage, digi) == 65536 * voltage % 0x1_0000_0000 / digi;
      hide CoeffA;
      coeffA := CoeffA(voltage, digi);
      coeffB := 0;
      refVoltage, refDigi := voltage, digi;
    }

    /** The reading after channel compensation, on chips that have it. */
    function Compensated(raw: int, compensation: Option<int>): int {
      match compensation
      case None => raw
      case Some(c) => if raw - c <= 0 then 0 else if raw - c > maxRaw then maxRaw else raw - c
    }

    /** Compensation moves the reading down by the channel's amount, into the range of readings. */
    lemma CompensatedIsNearest(raw: int, c: int)
      requires maxRaw > 0
      ensures Compensated(raw, None) == raw
      ensures var r := Compensated(raw, Some(c));
              && 0 <= r <= maxRaw
              && (r + c < raw ==> r == maxRaw)
              && (r + c > raw ==> r == 0)
    {
    }

    /** `cali_raw_to_voltage`: the voltage is the first step minus the rounded correction, and lies
        close to the ideal line minus the exact polynomial. */
    method RawToVoltage(raw: i32, compensation: Option<int>) returns (voltage: i32)
      requires Valid()
      ensures var v := FirstStep64(Compensated(raw, compensation), coeffA);
              && voltage == ToInt32(ToInt32(v) - Correction(v, table))
              && (v == 0 ==> voltage == 0)
              && (v != 0 && VoltageFits(v, table) ==> voltage == v - RoundedSum(v, table, |table|))
      ensures var reading := Compensated(raw, compensation);
              reading >= 0 && refVoltage < 65536 ==>
                var v, n := FirstStep(reading, coeffA), |table| as real;
                var slack := 1.0 + reading as real / 65536.0;
                && (v == 0 ==> voltage == 0 && 0.0 <= IdealLine(reading, refVoltage, refDigi) < slack)
                && (v != 0 && VoltageFits(v, table) && |table| > 0 ==>
                    -n < IdealLine(reading, refVoltage, refDigi) - ExactSum(v, table, |table|) - voltage as real
                      < n + slack)
    {
      var reading: int := raw;
      if compensation.Some? {
        reading := reading - compensation.value;
        reading := if reading <= 0 then 0 else if reading > maxRaw then maxRaw else reading;
      }
      var v := FirstStep64(reading, coeffA);
      var error := GetReadingError(v, table);
      hide ToInt32, Fits, RoundedSum, FirstStep64, FirstStep, CoeffA, ExactSum;
      InRange(v);
      InRange(v - error);
      voltage := ToInt32(ToInt32(v) - error);
      if reading >= 0 && refVoltage < 65536 {
        FirstStepIs64Bit(reading, coeffA);
        FirstStepBound(reading, refVoltage, refDigi);
        if |table| > 0 {
          VoltageBound(reading, refVoltage, refDigi, table);
        }
      }
    }
  }

  // ---- The ESP32-S3 tables ----

  const E15: nat := 1000000000000000
  const E16: nat := 10000000000000000

  const ADC1_ATTEN0: Table :=
    [Coeff(27856531419538344, E16, -1),
     Coeff(50871540569528, E16, -1),
     Coeff(9798249589, E15, 1)]
  const ADC1_ATTEN1: Table :=
    [Coeff(29831022915028695, E16, -1),
     Coeff(49393185868806, E16, -1),
     Coeff(101379430548, E16, 1)]
  const ADC1_ATTEN2: Table :=
    [Coeff(23285545746296417, E16, -1),
     Coeff(147640181047414, E16, -1),
     Coeff(208385525314, E16, 1)]
  const ADC1_ATTEN3: Table :=
    [Coeff(644403418269478, E15, -1),
     Coeff(644334888647536, E16, -1),
     Coeff(1297891447611, E16, 1),
     Coeff(70769718, E15, -1),
     Coeff(13515, E15, 1)]
  const ADC2_ATTEN0: Table :=
    [Coeff(25668651654328927, E16, -1),
     Coeff(1353548869615, E16, 1),
     Coeff(36615265189, E16, 1)]
  const ADC2_ATTEN1: Table :=
    [Coeff(23690184690298404, E16, -1),
     Coeff(66319894226185, E16, -1),
     Coeff(118964995959, E16, 1)]
  const ADC2_ATTEN2: Table :=
    [Coeff(9452499397020617, E16, -1),
     Coeff(200996773954387, E16, -1),
     Coeff(259011467956, E16, 1)]
  const ADC2_ATTEN3: Table :=
    [Coeff(12247719764336924, E16, 1),
     Coeff(755717904943462, E16, -1),
     Coeff(1478791187119, E16, 1),
     Coeff(79672528, E15, -1),
     Coeff(15038, E15, 1)]

  lemma {:induction false} PowIsMonotone(v: nat, w: nat, n: nat)
    requires v <= w
    ensures Pow(v, n) <= Pow(w, n)
    decreases n
  {
    if n > 0 {
      PowIsMonotone(v, w, n - 1);
      ProductMonotone(Pow(v, n - 1), v, w);
      ProductMonotone(w, Pow(v, n - 1), Pow(w, n - 1));
    }
  }

  lemma QuotientIsMonotone(m: nat, n: nat, d: nat)
    requires m <= n && d > 0
    ensures Quotient(m, d) <= Quotient(n, d)
  {
    DivBound(m, d);
    DivBound(n, d);
    AtLeastOnePeriod(n / d - m / d, d);
    assert (n / d - m / d) * d == n / d * d - m / d * d;
  }

  /** At this reading every product fits, with room for the sum of five terms. */
  predicate FitsAt(v: nat, t: Table) {
    && |t| <= 5
    && forall i :: 0 <= i < |t| ==>
         Pow(v, i) < TWO_64 && Times(Pow(v, i), t[i].num) < TWO_64 && RoundedTerm(v, t, i) < 0x1000_0000
  }

  lemma {:induction false} FitsBelow(v: nat, w: nat, t: Table)
    requires v <= w < TWO_64 && FitsAt(w, t)
    ensures Fits(v, t)
  {
    forall i | 0 <= i < |t|
      ensures Pow(v, i) < TWO_64 && Times(Pow(v, i), t[i].num) < TWO_64 && RoundedTerm(v, t, i) < 0x1000_0000
    {
      PowIsMonotone(v, w, i);
      ProductMonotone(t[i].num, Pow(v, i), Pow(w, i));
      QuotientIsMonotone(Times(Pow(v, i), t[i].num), Times(Pow(w, i), t[i].num), t[i].den);
    }
    forall i | 0 <= i < |t| ensures Pow(v, i) < TWO_64 && -TWO_31 < RoundedSum(v, t, i + 1) < TWO_31 {
      SmallSum(v, t, i + 1);
    }
  }

  lemma {:induction false} SmallSum(v: nat, t: Table, n: nat)
    requires n <= |t|
    requires forall i :: 0 <= i < |t| ==> RoundedTerm(v, t, i) < 0x1000_0000
    ensures 0 - n * 0x1000_0000 <= RoundedSum(v, t, n) <= n * 0x1000_0000
    decreases n
  {
    hide RoundedTerm;
    if n > 0 {
      SmallSum(v, t, n - 1);
      SignedIsSmall(RoundedTerm(v, t, n - 1), t[n - 1].sign);
    }
  }

  lemma SignedIsSmall(n: nat, sign: int)
    requires n < 0x1000_0000 && -1 <= sign <= 1
    ensures -0x1000_0000 < Signed(n, sign) < 0x1000_0000
  {
  }

  /** A table whose term i overflows right above the limit fits exactly up to the limit. */
  lemma FitsExactlyUpTo(v: u64, limit: nat, t: Table, i: nat)
    requires limit < TWO_64 - 1 && FitsAt(limit, t) && i < |t| && Times(Pow(limit + 1, i), t[i].num) >= TWO_64
    ensures Fits(v, t) <==> v <= limit
  {
    if v <= limit {
      FitsBelow(v, limit, t);
    } else {
      PowIsMonotone(limit + 1, v, i);
      ProductMonotone(t[i].num, Pow(limit + 1, i), Pow(v, i));
    }
  }

  lemma Powers(v: nat)
    ensures Pow(v, 0) == 1 && Pow(v, 1) == v && Pow(v, 2) == v * v
    ensures Pow(v, 3) == v * v * v && Pow(v, 4) == v * v * v * v
  {
    assert Pow(v, 1) == Times(Pow(v, 0), v) && Pow(v, 2) == Times(Pow(v, 1), v) && Pow(v, 3) == Times(Pow(v, 2), v);
  }

  lemma FirstConverter0(v: u64)
    ensures Fits(v, ADC1_ATTEN0) <==> v <= 43389
  {
    Powers(43389);
    Powers(43390);
    hide Pow;
    FitsExactlyUpTo(v, 43389, ADC1_ATTEN0, 2);
  }

  lemma FirstConverter1(v: u64)
    ensures Fits(v, ADC1_ATTEN1) <==> v <= 13489
  {
    Powers(13489);
    Powers(13490);
    hide Pow;
    FitsExactlyUpTo(v, 13489, ADC1_ATTEN1, 2);
  }

  lemma FirstConverter2(v: u64)
    ensures Fits(v, ADC1_ATTEN2) <==> v <= 9408
  {
    Powers(9408);
    Powers(9409);
    hide Pow;
    FitsExactlyUpTo(v, 9408, ADC1_ATTEN2, 2);
  }

  lemma FirstConverter3(v: u64)
    ensures Fits(v, ADC1_ATTEN3) <==> v <= 3769
  {
    Powers(3769);
    Powers(3770);
    hide Pow;
    FitsExactlyUpTo(v, 3769, ADC1_ATTEN3, 2);
  }

  lemma SecondConverter0(v: u64)
    ensures Fits(v, ADC2_ATTEN0) <==> v <= 22445
  {
    Powers(22445);
    Powers(22446);
    hide Pow;
    FitsExactlyUpTo(v, 22445, ADC2_ATTEN0, 2);
  }

  lemma SecondConverter1(v: u64)
    ensures Fits(v, ADC2_ATTEN1) <==> v <= 12452
  {
    Powers(12452);
    Powers(12453);
    hide Pow;
    FitsExactlyUpTo(v, 12452, ADC2_ATTEN1, 2);
  }

  lemma SecondConverter2(v: u64)
    ensures Fits(v, ADC2_ATTEN2) <==> v <= 8439
  {
    Powers(8439);
    Powers(8440);
    hide Pow;
    FitsExactlyUpTo(v, 8439, ADC2_ATTEN2, 2);
  }

  lemma SecondConverter3(v: u64)
    ensures Fits(v, ADC2_ATTEN3) <==> v <= 3531
  {
    Powers(3531);
    Powers(3532);
    hide Pow;
    FitsExactlyUpTo(v, 3531, ADC2_ATTEN3, 2);
  }

  /** The exact reading, in millivolts, up to which each table is free of overflow. */
  lemma ExactLimits(v: u64)
    ensures Fits(v, ADC1_ATTEN0) <==> v <= 43389
    ensures Fits(v, ADC1_ATTEN1) <==> v <= 13489
    ensures Fits(v, ADC1_ATTEN2) <==> v <= 9408
    ensures Fits(v, ADC1_ATTEN3) <==> v <= 3769
    ensures Fits(v, ADC2_ATTEN0) <==> v <= 22445
    ensures Fits(v, ADC2_ATTEN1) <==> v <= 12452
    ensures Fits(v, ADC2_ATTEN2) <==> v <= 8439
    ensures Fits(v, ADC2_ATTEN3) <==> v <= 3531
  {
    hide Fits;
    FirstConverter0(v);
    FirstConverter1(v);
    FirstConverter2(v);
    FirstConverter3(v);
    SecondConverter0(v);
    SecondConverter1(v);
    SecondConverter2(v);
    SecondConverter3(v);
  }

  /** Up to 3531 no table overflows. */
  lemma TablesFitUpTo3531(v: nat, t: Table)
    requires v <= 3531
    requires t in [ADC1_ATTEN0, ADC1_ATTEN1, ADC1_ATTEN2, ADC1_ATTEN3,
                   ADC2_ATTEN0, ADC2_ATTEN1, ADC2_ATTEN2, ADC2_ATTEN3]
    ensures Fits(v, t)
  {
    hide Fits;
    ExactLimits(v);
  }
}
