/** The power-of-two encoding of scrypt parameters in key files (rs/src/crypto.rs), and the loop
    with which C minisign settles for less memory (src/minisign.c). Numbers are naturals below
    2^64; every product the source checks for overflow is checked here. */
module Kdf {
  import opened Basics

  const U32_MODULUS := 0x1_0000_0000

  const SCRYPT_R := 8
  const SCRYPT_P := 1
  const OPSLIMIT_MULTIPLIER := 4
  const MEMLIMIT_MULTIPLIER := 128
  const OPSLIMIT_MIN := 32768
  const MEMLIMIT_MIN := 16777216
  const OPSLIMIT_SENSITIVE := 33554432
  const MEMLIMIT_SENSITIVE := 1073741824
  const MAX_KDF_MEMLIMIT := 1073741824

  datatype KdfError = ScryptParam | OverBudget | Truncated

  datatype Params = Params(logN: nat, r: nat, p: nat)
  datatype Limits = Limits(ops: nat, mem: nat)

  // ---- powers of two -----------------------------------------------------------------------------

  function Pow2(k: nat): (n: nat)
    ensures n >= 1
  {
    if k == 0 then 1 else 2 * Pow2(k - 1)
  }

  predicate IsPowerOfTwo(n: nat) {
    n == 1 || (n > 0 && n % 2 == 0 && IsPowerOfTwo(n / 2))
  }

  function TrailingZeros(n: nat): nat
    requires n > 0
  {
    if n % 2 == 1 then 0 else 1 + TrailingZeros(n / 2)
  }

  lemma {:induction false} PowerOfTwoIs(n: nat)
    requires n > 0 && IsPowerOfTwo(n)
    ensures n == Pow2(TrailingZeros(n))
  {
    if n != 1 { PowerOfTwoIs(n / 2); }
  }

  lemma {:induction false} Pow2IsPower(k: nat)
    ensures IsPowerOfTwo(Pow2(k)) && TrailingZeros(Pow2(k)) == k
  {
    if k > 0 { Pow2IsPower(k - 1); }
  }

  lemma {:induction false} Pow2Grows(j: nat, k: nat)
    requires j <= k
    ensures Pow2(j) <= Pow2(k)
    decreases k - j
  {
    if j < k { Pow2Grows(j, k - 1); }
  }

  lemma Pow2Values()
    ensures Pow2(14) == 16384 && Pow2(20) == 1048576
    ensures Pow2(53) == 0x20_0000_0000_0000 && Pow2(54) == 0x40_0000_0000_0000
  {
    assert Pow2(10) == 1024;
    assert Pow2(20) == 1048576;
    assert Pow2(30) == 0x4000_0000;
    assert Pow2(40) == 0x100_0000_0000;
    assert Pow2(50) == 0x4_0000_0000_0000;
  }

  lemma Pow2Bound(k: nat)
    ensures Pow2(k) < 0x40_0000_0000_0000 <==> k <= 53
    ensures Pow2(k) <= 1048576 <==> k <= 20
  {
    Pow2Values();
    if k <= 53 { Pow2Grows(k, 53); } else { Pow2Grows(54, k); }
    if k <= 20 { Pow2Grows(k, 20); } else { Pow2Grows(20, k - 1); }
  }

  // ---- the Rust conversions -------------------------------------------------------------------------

  function CheckedMul(a: nat, b: nat): Option<nat> {
    if a * b < TWO_TO_64 then Some(a * b) else None
  }

  /** `calculate_kdf_params`; `debug` tells a build with debug assertions. */
  function Calculate(logN: nat, forceWeak: bool, debug: bool): Result<Limits, KdfError> {
    if forceWeak then (if debug then Ok(Limits(4194304, 134217728)) else Err(ScryptParam))
    else if logN >= 64 then Err(ScryptParam)
    else
      var ops := CheckedMul(OPSLIMIT_MULTIPLIER, Pow2(logN));
      var ops' := if ops.None? then None else CheckedMul(ops.value, SCRYPT_R);
      var mem := CheckedMul(MEMLIMIT_MULTIPLIER, Pow2(logN));
      var mem' := if mem.None? then None else CheckedMul(mem.value, SCRYPT_R);
      if ops'.None? || mem'.None? then Err(ScryptParam) else Ok(Limits(ops'.value, mem'.value))
  }

  /** `decode_kdf_params`, check by check; `scryptAccepts` is the scrypt library's own check. */
  function Decode(l: Limits, scryptAccepts: (nat, nat, nat) -> bool): Result<Params, KdfError> {
    var divisor := CheckedMul(MEMLIMIT_MULTIPLIER, SCRYPT_R);
    if divisor.None? || l.mem % divisor.value != 0 then Err(ScryptParam)
    else
      var n := l.mem / divisor.value;
      if n == 0 || !IsPowerOfTwo(n) || TrailingZeros(n) >= 256 then Err(ScryptParam)
      else
        var opsDivisor := CheckedMul(OPSLIMIT_MULTIPLIER, n);
        if opsDivisor.None? || l.ops % opsDivisor.value != 0 then Err(ScryptParam)
        else
          var r := l.ops / opsDivisor.value;
          if r == 0 || r >= U32_MODULUS || !scryptAccepts(TrailingZeros(n), r, SCRYPT_P) || r != SCRYPT_R
          then Err(ScryptParam)
          else Ok(Params(TrailingZeros(n), SCRYPT_R, SCRYPT_P))
  }

  predicate WithinBudget(mem: nat) {
    mem <= MAX_KDF_MEMLIMIT
  }

  /** `opslimit_memlimit_to_params`. */
  function ToParams(l: Limits, scryptAccepts: (nat, nat, nat) -> bool): Result<Params, KdfError> {
    match Decode(l, scryptAccepts)
    case Err(e) => Err(e)
    case Ok(p) => if WithinBudget(l.mem) then Ok(p) else Err(OverBudget)
  }

  lemma ParamsWithinBudget(l: Limits, scryptAccepts: (nat, nat, nat) -> bool)
    requires ToParams(l, scryptAccepts).Ok?
    ensures WithinBudget(l.mem)
  {
  }

  /** The limits that stand for N = 2^k. */
  function LimitsFor(k: nat): Limits {
    Limits(32 * Pow2(k), 1024 * Pow2(k))
  }

  lemma ExactQuotient(a: nat, n: nat, q: nat)
    requires n > 0
    ensures a % n == 0 && a / n == q <==> a == n * q
  {
    assert a == n * (a / n) + a % n;
    if a == n * q {
      QuotientOfProduct(n, q);
    }
  }

  lemma QuotientOfProduct(n: nat, q: nat)
    requires n > 0
    ensures (n * q) % n == 0 && (n * q) / n == q
  {
    var a := n * q;
    assert a == n * (a / n) + a % n && 0 <= a % n < n;
    assert n * (q - a / n) == a % n;
    SmallMultiple(n, q - a / n);
  }

  lemma SmallMultiple(n: nat, d: int)
    requires n > 0 && 0 <= n * d < n
    ensures d == 0
  {
  }

  /** Decoding accepts exactly the limits of a power of two, and answers with its exponent; no
      other r or p comes out. */
  lemma DecodeMeaning(l: Limits, scryptAccepts: (nat, nat, nat) -> bool, p: Params)
    requires l.mem < TWO_TO_64 && l.ops < TWO_TO_64
    ensures Decode(l, scryptAccepts) == Ok(p) <==>
              l == LimitsFor(p.logN) && p.r == 8 && p.p == 1 && scryptAccepts(p.logN, 8, 1)
  {
    var n := l.mem / 1024;
    if Decode(l, scryptAccepts) == Ok(p) {
      PowerOfTwoIs(n);
      ExactQuotient(l.ops, 4 * n, 8);
    }
    if l == LimitsFor(p.logN) {
      assert n == Pow2(p.logN);
      Pow2IsPower(p.logN);
      Pow2Bound(p.logN);
      ExactQuotient(l.ops, 4 * n, 8);
    }
  }

  /** Calculation succeeds for exactly the exponents up to 53, with the limits that stand for them. */
  lemma CalculateMeaning(logN: nat, debug: bool, l: Limits)
    ensures Calculate(logN, false, debug) == Ok(l) <==> logN <= 53 && l == LimitsFor(logN)
    ensures logN <= 53 ==> l == LimitsFor(logN) ==> l.mem < TWO_TO_64 && l.ops < TWO_TO_64
  {
    Pow2Bound(logN);
  }

  /** Decoding inverts calculation, in both directions. */
  lemma DecodeInvertsCalculate(logN: nat, l: Limits, debug: bool, scryptAccepts: (nat, nat, nat) -> bool)
    requires l.mem < TWO_TO_64 && l.ops < TWO_TO_64 && scryptAccepts(logN, 8, 1)
    ensures Decode(l, scryptAccepts) == Ok(Params(logN, 8, 1)) <==>
              Calculate(logN, false, debug) == Ok(l)
  {
    DecodeMeaning(l, scryptAccepts, Params(logN, 8, 1));
    CalculateMeaning(logN, debug, l);
    Pow2Bound(logN);
  }

  /** With the budget, exactly the exponents up to 20 remain. */
  lemma ToParamsMeaning(l: Limits, scryptAccepts: (nat, nat, nat) -> bool, p: Params)
    requires l.mem < TWO_TO_64 && l.ops < TWO_TO_64
    ensures ToParams(l, scryptAccepts) == Ok(p) <==>
              p.logN <= 20 && l == LimitsFor(p.logN) && p.r == 8 && p.p == 1 &&
              scryptAccepts(p.logN, 8, 1)
  {
    DecodeMeaning(l, scryptAccepts, p);
    Pow2Bound(p.logN);
  }

  lemma ToParamsOf(k: nat, scryptAccepts: (nat, nat, nat) -> bool)
    requires k <= 20
    ensures LimitsFor(k).ops < TWO_TO_64 && LimitsFor(k).mem < TWO_TO_64
    ensures ToParams(LimitsFor(k), scryptAccepts).Ok? <==> scryptAccepts(k, 8, 1)
    ensures scryptAccepts(k, 8, 1) ==> ToParams(LimitsFor(k), scryptAccepts) == Ok(Params(k, 8, 1))
  {
    Pow2Bound(k);
    ToParamsMeaning(LimitsFor(k), scryptAccepts, Params(k, 8, 1));
    if ToParams(LimitsFor(k), scryptAccepts).Ok? {
      var p := ToParams(LimitsFor(k), scryptAccepts).value;
      ToParamsMeaning(LimitsFor(k), scryptAccepts, p);
      if p.logN < k { Pow2Grows(p.logN, k - 1); }
      if k < p.logN { Pow2Grows(k, p.logN - 1); }
    }
  }

  // ---- the C loop -----------------------------------------------------------------------------------

  /** The limits the first successful derivation runs with, when the i-th try (from 0) succeeds
      exactly if `succeeds(i)`; none when all seven tries fail. */
  function Settled(succeeds: nat -> bool, i: nat): Option<Limits>
    requires i <= 7
    decreases 7 - i
  {
    if i == 7 then None
    else if succeeds(i) then Some(LimitsFor(20 - i))
    else Settled(succeeds, i + 1)
  }

  lemma SensitiveLimits()
    ensures LimitsFor(20) == Limits(OPSLIMIT_SENSITIVE, MEMLIMIT_SENSITIVE)
  {
    Pow2Values();
  }

  lemma HalfLimits(k: nat)
    requires 1 <= k <= 20
    ensures LimitsFor(k).ops / 2 == LimitsFor(k - 1).ops && LimitsFor(k).mem / 2 == LimitsFor(k - 1).mem
    ensures LimitsFor(k - 1).ops < OPSLIMIT_MIN || LimitsFor(k - 1).mem < MEMLIMIT_MIN <==> k - 1 < 14
  {
    Pow2Values();
    if k - 1 < 14 { Pow2Grows(k, 14); } else { Pow2Grows(14, k - 1); }
  }

  /** A number halved `i` times. */
  function Halved(x: nat, i: nat): nat {
    if i == 0 then x else Halved(x, i - 1) / 2
  }

  /** The first try that succeeds is the `i`-th (from 0). */
  predicate FirstSuccess(succeeds: nat -> bool, i: nat) {
    succeeds(i) && forall j :: 0 <= j < i ==> !succeeds(j)
  }

  lemma {:induction false} HalvedLimits(i: nat)
    requires i <= 6
    ensures Limits(Halved(OPSLIMIT_SENSITIVE, i), Halved(MEMLIMIT_SENSITIVE, i)) == LimitsFor(20 - i)
  {
    if i == 0 {
      SensitiveLimits();
    } else {
      HalvedLimits(i - 1);
      HalfLimits(21 - i);
    }
  }

  lemma {:induction false} SettledFrom(succeeds: nat -> bool, i: nat, k: nat)
    requires i <= k < 7 && succeeds(k) && forall j :: i <= j < k ==> !succeeds(j)
    ensures Settled(succeeds, i) == Some(LimitsFor(20 - k))
    decreases k - i
  {
    if i < k { SettledFrom(succeeds, i + 1, k); }
  }

  lemma {:induction false} SettledNone(succeeds: nat -> bool, i: nat)
    requires i <= 7
    ensures Settled(succeeds, i).None? <==> forall j :: i <= j < 7 ==> !succeeds(j)
    decreases 7 - i
  {
    if i < 7 && !succeeds(i) { SettledNone(succeeds, i + 1); }
  }

  /** The limits settled for are the sensitive ones, halved once for each try that failed before the
      first that succeeded; there are none exactly when all seven tries fail. */
  lemma SettledMeaning(succeeds: nat -> bool, l: Limits)
    ensures Settled(succeeds, 0) == Some(l) <==>
              exists i: nat :: i < 7 && FirstSuccess(succeeds, i) &&
                l == Limits(Halved(OPSLIMIT_SENSITIVE, i), Halved(MEMLIMIT_SENSITIVE, i))
  {
    SettledNone(succeeds, 0);
    if Settled(succeeds, 0).Some? {
      var k: nat :| k < 7 && succeeds(k);
      var i := First(succeeds, k);
      SettledFrom(succeeds, 0, i);
      HalvedLimits(i);
    }
    if i: nat :| i < 7 && FirstSuccess(succeeds, i) &&
                 l == Limits(Halved(OPSLIMIT_SENSITIVE, i), Halved(MEMLIMIT_SENSITIVE, i))
    {
      SettledFrom(succeeds, 0, i);
      HalvedLimits(i);
    }
  }

  lemma {:induction false} First(succeeds: nat -> bool, k: nat) returns (i: nat)
    requires succeeds(k)
    ensures i <= k && FirstSuccess(succeeds, i)
  {
    if j: nat :| j < k && succeeds(j) { i := First(succeeds, j); } else { i := k; }
  }

  /** The loop of `encrypt_key`: halve both limits until the derivation succeeds, giving up below
      the minimum. */
  method Settle(succeeds: nat -> bool) returns (r: Option<Limits>)
    ensures r == Settled(succeeds, 0)
    ensures r.None? <==> forall i :: 0 <= i < 7 ==> !succeeds(i)
    ensures forall i: nat :: i < 7 && FirstSuccess(succeeds, i) ==>
              r == Some(Limits(Halved(OPSLIMIT_SENSITIVE, i), Halved(MEMLIMIT_SENSITIVE, i)))
  {
    SettledNone(succeeds, 0);
    forall i: nat | i < 7 && FirstSuccess(succeeds, i)
      ensures Settled(succeeds, 0) == Some(Limits(Halved(OPSLIMIT_SENSITIVE, i), Halved(MEMLIMIT_SENSITIVE, i)))
    {
      SettledMeaning(succeeds, Limits(Halved(OPSLIMIT_SENSITIVE, i), Halved(MEMLIMIT_SENSITIVE, i)));
    }
    SensitiveLimits();
    var ops: nat, mem: nat := OPSLIMIT_SENSITIVE, MEMLIMIT_SENSITIVE;
    var i := 0;
    while !succeeds(i)
      invariant i <= 6 && Limits(ops, mem) == LimitsFor(20 - i)
      invariant Settled(succeeds, 0) == Settled(succeeds, i)
      decreases ops
    {
      HalfLimits(20 - i);
      ops, mem := ops / 2, mem / 2;
      i := i + 1;
      if ops < OPSLIMIT_MIN || mem < MEMLIMIT_MIN { return None; }
    }
    return Some(Limits(ops, mem));
  }

  predicate AllFail(succeeds: nat -> bool, i: nat, k: nat) {
    forall j :: i <= j < k ==> !succeeds(j)
  }

  /** The limits of 2^k, which the try before which all from the `i`-th on failed has derived with,
      and which Rust decodes within its budget. */
  predicate SettledAs(succeeds: nat -> bool, i: nat, scryptAccepts: (nat, nat, nat) -> bool, l: Limits, k: nat) {
    14 <= k <= 20 && l == LimitsFor(k) && succeeds(20 - k) && AllFail(succeeds, i, 20 - k) &&
    ToParams(l, scryptAccepts) == Ok(Params(k, 8, 1))
  }

  /** Whatever the loop settles for is within the Rust budget and decodes to an exponent from 14
      to 20, that of the first success; it gives up only after all seven. */
  lemma {:induction false} SettledDecodes(succeeds: nat -> bool, i: nat, scryptAccepts: (nat, nat, nat) -> bool)
    requires i <= 7
    requires forall k: nat :: 14 <= k <= 20 ==> scryptAccepts(k, 8, 1)
    ensures Settled(succeeds, i).None? <==> forall j: nat :: i <= j < 7 ==> !succeeds(j)
    ensures Settled(succeeds, i).Some? ==>
              exists k: nat :: SettledAs(succeeds, i, scryptAccepts, Settled(succeeds, i).value, k)
    decreases 7 - i
  {
    SettledNone(succeeds, i);
    if i < 7 {
      if succeeds(i) {
        ToParamsOf(20 - i, scryptAccepts);
        assert SettledAs(succeeds, i, scryptAccepts, LimitsFor(20 - i), 20 - i);
      } else if Settled(succeeds, i).Some? {
        SettledDecodes(succeeds, i + 1, scryptAccepts);
        var k: nat :| SettledAs(succeeds, i + 1, scryptAccepts, Settled(succeeds, i + 1).value, k);
        assert SettledAs(succeeds, i, scryptAccepts, Settled(succeeds, i).value, k);
      }
    }
  }
}
