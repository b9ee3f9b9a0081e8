/**
 * The range of an IEEE 754 binary64 double, as far as Python's `float()` of an exact decimal
 * value depends on it. Rounding to nearest sends every value of magnitude at least
 * 2^1024 - 2^970 (the midpoint between the largest finite double and 2^1024) to an infinity,
 * where the conversion of an int raises `OverflowError` instead, and every value of magnitude
 * at most 2^-1075 (half the smallest subnormal) to zero. Every integer of magnitude at most
 * 2^53 is a double exactly.
 */
module Binary64 {
  import opened Decimal

  function Pow2(n: nat): (r: nat)
    ensures r >= 1
  {
    if n == 0 then 1 else 2 * Pow2(n - 1)
  }

  /** 2^53: integers up to this magnitude convert to a double without rounding. */
  const MaxExact: nat := 9007199254740992

  /** 2^1024 - 2^970: from this magnitude on, `float()` of a decimal gives an infinity. */
  const OverflowThreshold: nat := 179769313486231580793728971405303415079934132710037826936173778980444968292764750946649017977587207096330286416692887910946555547851940402630657488671505820681908902000708383676273854845817711531764475730270069855571366959622842914819860834936475292719074168444365510704342711559699508093042880177904174497792

  /** 2^1075: a value at most 1 / 2^1075 in magnitude rounds to zero. */
  const UnderflowScale: nat := 404804506614621236704990693437834614099113299528284236713802716054860679135990693783920767402874248990374155728633623822779617474771586953734026799881477019843034848553132722728933815484186432682479535356945490137124014966849385397236206711298319112681620113024717539104666829230461005064372655017292012526615415482186989568

  /** The exact value of `d` lies at or beyond the overflow threshold. */
  predicate Overflows(d: Dec)
  {
    if d.exponent >= 0 then Abs(d.mantissa) * Pow10(d.exponent) >= OverflowThreshold
    else Abs(d.mantissa) >= OverflowThreshold * Pow10(-d.exponent)
  }

  /** The exact value of `d` is not zero but rounds to a zero double. */
  predicate Underflows(d: Dec)
  {
    d.mantissa != 0 && d.exponent < 0 && Abs(d.mantissa) * UnderflowScale <= Pow10(-d.exponent)
  }

  lemma {:induction false} Pow2Add(a: nat, b: nat)
    ensures Pow2(a + b) == Pow2(a) * Pow2(b)
    decreases b
  {
    if b > 0 {
      Pow2Add(a, b - 1);
    }
  }

  lemma {:induction false} Pow2Mono(a: nat, b: nat)
    requires a <= b
    ensures Pow2(a) <= Pow2(b)
    decreases b
  {
    if a < b {
      Pow2Mono(a, b - 1);
    }
  }

  /** 10^(3k) <= 2^(10k), since 1000 <= 1024. */
  lemma {:induction false} Pow10BelowPow2(k: nat)
    ensures Pow10(3 * k) <= Pow2(10 * k)
  {
    if k > 0 {
      Pow10BelowPow2(k - 1);
      var n := 3 * (k - 1);
      assert Pow10(3 * k) == 1000 * Pow10(n) by {
        assert Pow10(n + 3) == 10 * Pow10(n + 2) == 100 * Pow10(n + 1) == 1000 * Pow10(n);
      }
      assert Pow2(10 * k) == 1024 * Pow2(10 * (k - 1)) by {
        Pow2Add(10 * (k - 1), 10);
        assert Pow2(10) == 1024;
      }
    }
  }

  /** 2^(3k) <= 10^k, since 8 <= 10. */
  lemma {:induction false} Pow2BelowPow10(k: nat)
    ensures Pow2(3 * k) <= Pow10(k)
  {
    if k > 0 {
      Pow2BelowPow10(k - 1);
      var n := 3 * (k - 1);
      assert Pow2(3 * k) == 8 * Pow2(n) by {
        assert Pow2(n + 3) == 2 * Pow2(n + 2) == 4 * Pow2(n + 1) == 8 * Pow2(n);
      }
    }
  }

  // The powers of two the constants are built from, by repeated squaring.
  lemma Pow2Is1() ensures Pow2(1) == 2 {}
  lemma Pow2Is2() ensures Pow2(2) == 4 { Pow2Is1(); Pow2Add(1, 1); }
  lemma Pow2Is4() ensures Pow2(4) == 16 { Pow2Is2(); Pow2Add(2, 2); }
  lemma Pow2Is8() ensures Pow2(8) == 256 { Pow2Is4(); Pow2Add(4, 4); }
  lemma Pow2Is16() ensures Pow2(16) == 65536 { Pow2Is8(); Pow2Add(8, 8); }
  lemma Pow2Is32() ensures Pow2(32) == 4294967296 { Pow2Is16(); Pow2Add(16, 16); }
  lemma Pow2Is64() ensures Pow2(64) == 18446744073709551616 { Pow2Is32(); Pow2Add(32, 32); }
  lemma Pow2Is128() ensures Pow2(128) == 340282366920938463463374607431768211456 { Pow2Is64(); Pow2Add(64, 64); }
  lemma Pow2Is256() ensures Pow2(256) == 115792089237316195423570985008687907853269984665640564039457584007913129639936 { Pow2Is128(); Pow2Add(128, 128); }
  lemma Pow2Is512() ensures Pow2(512) == 13407807929942597099574024998205846127479365820592393377723561443721764030073546976801874298166903427690031858186486050853753882811946569946433649006084096 { Pow2Is256(); Pow2Add(256, 256); }
  lemma Pow2Is1024() ensures Pow2(1024) == 179769313486231590772930519078902473361797697894230657273430081157732675805500963132708477322407536021120113879871393357658789768814416622492847430639474124377767893424865485276302219601246094119453082952085005768838150682342462881473913110540827237163350510684586298239947245938479716304835356329624224137216 { Pow2Is512(); Pow2Add(512, 512); }

  lemma Pow2Is10() ensures Pow2(10) == 1024 { Pow2Is8(); Pow2Is2(); Pow2Add(8, 2); }
  lemma Pow2Is74() ensures Pow2(74) == 18889465931478580854784 { Pow2Is64(); Pow2Is10(); Pow2Add(64, 10); }
  lemma Pow2Is202() ensures Pow2(202) == 6427752177035961102167848369364650410088811975131171341205504 { Pow2Is128(); Pow2Is74(); Pow2Add(128, 74); }
  lemma Pow2Is458() ensures Pow2(458) == 744282853678701455922507579277316643178128753343813693728245963960974631028119473486019635930893891134220822124816566203939432067701407744 { Pow2Is256(); Pow2Is202(); Pow2Add(256, 202); }
  lemma Pow2Is970() ensures Pow2(970) == 9979201547673599058281863565184192830337256302177287707512736212186059459344820328924789827463178505446712234220962476219862189941967968303695858991424157101600028364755428382587688607221814935913266783722719619966654052275604351944444276342240220787535604534378780208211792476151720049639424 { Pow2Is512(); Pow2Is458(); Pow2Add(512, 458); }

  /** `MaxExact` is 2^53. */
  lemma MaxExactIsPow2()
    ensures MaxExact == Pow2(53)
  {
    Pow2Is32(); Pow2Is16(); Pow2Is4(); Pow2Is1();
    Pow2Add(32, 16); Pow2Add(48, 4); Pow2Add(52, 1);
  }

  /** `UnderflowScale` is 2^1075. */
  lemma UnderflowScaleIsPow2()
    ensures UnderflowScale == Pow2(1075)
  {
    Pow2Is1024(); Pow2Is32(); Pow2Is16(); Pow2Is2(); Pow2Is1();
    Pow2Add(32, 16); Pow2Add(48, 2); Pow2Add(50, 1); Pow2Add(1024, 51);
  }

  /** `OverflowThreshold` is 2^1024 - 2^970. */
  lemma OverflowThresholdIsPow2()
    ensures OverflowThreshold == Pow2(1024) - Pow2(970)
  {
    Pow2Is1024();
    Pow2Is970();
  }

  /** Fifteen decimal digits stay below 2^53, which stays below the overflow threshold and the underflow scale. */
  lemma RangeOrder()
    ensures Pow10(15) < MaxExact < OverflowThreshold && MaxExact < UnderflowScale
  {
    assert Pow10(15) == 1000000000000000;
  }

  /** Multiplying by a factor of at least one does not shrink a non-negative value. */
  lemma MulAtLeast(a: int, b: int)
    requires a >= 1 && b >= 0
    ensures a * b >= b && b * a >= b
  {
  }

  /** A value of at most 2^53 in magnitude with no positive exponent does not overflow. */
  lemma SmallDoesNotOverflow(d: Dec)
    requires d.exponent <= 0 && Abs(d.mantissa) <= MaxExact
    ensures !Overflows(d)
  {
    RangeOrder();
    if d.exponent < 0 {
      MulAtLeast(Pow10(-d.exponent), OverflowThreshold);
    } else {
      assert Pow10(d.exponent) == 1;
    }
  }

  /** A value of at most fifteen digits, none of them beyond the fifteenth decimal place, is within the double range. */
  lemma FifteenDigitsInRange(d: Dec, k: nat)
    requires k <= 15 && Abs(d.mantissa) < Pow10(k) && -15 <= d.exponent <= 0
    ensures !Overflows(d) && !Underflows(d)
  {
    Pow10Mono(k, 15);
    RangeOrder();
    SmallDoesNotOverflow(d);
    ShortDoesNotUnderflow(d);
  }

  /** Zero, at any exponent, is within the double range. */
  lemma ZeroInRange(e: int)
    ensures !Overflows(Dec(0, e)) && !Underflows(Dec(0, e))
  {
    if e < 0 {
      assert OverflowThreshold * Pow10(-e) > 0;
    }
  }

  /** A value with at most fifteen fractional digits is never too small for a double. */
  lemma ShortDoesNotUnderflow(d: Dec)
    requires -15 <= d.exponent
    ensures !Underflows(d)
  {
    if d.mantissa != 0 && d.exponent < 0 {
      var p := Pow10(-d.exponent);
      Pow10Mono(-d.exponent, 15);
      RangeOrder();
      assert p < UnderflowScale;
      MulAtLeast(Abs(d.mantissa), UnderflowScale);
      assert Abs(d.mantissa) * UnderflowScale > p;
    }
  }
}
