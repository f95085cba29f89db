/**
 * generatePatientId and generateOrderId: `<prefix>-<year>-<time suffix><random suffix>`,
 * where the time suffix is the last six characters of the millisecond clock written in
 * decimal and the random suffix is a number below 1000 left-padded with '0' to three
 * characters. The clock, the year and the random number are parameters.
 */
module Identifiers {
  import opened Wrappers

  function Pow10(k: nat): (r: nat)
    ensures r >= 1
  {
    if k == 0 then 1 else 10 * Pow10(k - 1)
  }

  predicate IsDigit(c: char) {
    '0' <= c <= '9'
  }

  predicate AllDigits(s: string) {
    forall i :: 0 <= i < |s| ==> IsDigit(s[i])
  }

  function DigitChar(d: nat): (c: char)
    requires d < 10
    ensures IsDigit(c)
  {
    ('0' as int + d) as char
  }

  function DigitValue(c: char): (d: nat)
    requires IsDigit(c)
    ensures d < 10 && DigitChar(d) == c
  {
    c as int - '0' as int
  }

  /** Number.prototype.toString() of a non-negative integer: its decimal digits, no leading zero. */
  function NatToString(n: nat): (s: string)
    ensures 1 <= |s| && AllDigits(s)
    ensures |s| > 1 ==> s[0] != '0'
    decreases n
  {
    if n < 10 then [DigitChar(n)] else NatToString(n / 10) + [DigitChar(n % 10)]
  }

  /** The number a string of decimal digits denotes (the reading side of NatToString). */
  function DecimalValue(s: string): nat
    requires AllDigits(s)
    decreases |s|
  {
    if s == [] then 0 else 10 * DecimalValue(s[..|s| - 1]) + DigitValue(s[|s| - 1])
  }

  /** String.prototype.slice(-k): the last k characters, or the whole string when it is shorter. */
  function LastChars(s: string, k: nat): (r: string)
    ensures |r| == if |s| <= k then |s| else k
    ensures r == s[|s| - |r|..]
  {
    if |s| <= k then s else s[|s| - k..]
  }

  /** String.prototype.padStart(width, c). */
  function PadStart(s: string, width: nat, c: char): (r: string)
    ensures |r| == if |s| >= width then |s| else width
    ensures r[|r| - |s|..] == s
    ensures forall i :: 0 <= i < |r| - |s| ==> r[i] == c
  {
    if |s| >= width then s else seq(width - |s|, _ => c) + s
  }

  /** `new Date().getTime().toString().slice(-6)` */
  function TimeSuffix(ms: nat): (t: string)
    ensures 1 <= |t| <= 6
  {
    LastChars(NatToString(ms), 6)
  }

  /** `Math.floor(Math.random() * 1000).toString().padStart(3, '0')`, with the floored number as `rnd`. */
  function RandomSuffix(rnd: nat): (r: string)
    requires rnd < 1000
    ensures |r| >= 3
  {
    PadStart(NatToString(rnd), 3, '0')
  }

  function GenerateId(prefix: string, year: nat, ms: nat, rnd: nat): (id: string)
    requires rnd < 1000
    ensures |id| >= |prefix| + 7
    ensures id[..|prefix|] == prefix && id[|prefix|] == '-'
  {
    var y, t, r := NatToString(year), TimeSuffix(ms), RandomSuffix(rnd);
    (prefix + "-") + (y + "-" + t + r)
  }

  function GeneratePatientId(year: nat, ms: nat, rnd: nat): (id: string)
    requires rnd < 1000
    ensures |id| >= 8 && id[0] == 'P' && id[1] == '-'
  {
    var prefix := "P";
    assert |prefix| == 1 && prefix[0] == 'P';
    var id := GenerateId(prefix, year, ms, rnd);
    assert id[..1][0] == id[0];
    id
  }

  function GenerateOrderId(year: nat, ms: nat, rnd: nat): (id: string)
    requires rnd < 1000
    ensures |id| >= 10 && id[0] == 'O' && id[1] == 'R' && id[2] == 'D' && id[3] == '-'
  {
    var prefix := "ORD";
    assert |prefix| == 3 && prefix[0] == 'O' && prefix[1] == 'R' && prefix[2] == 'D';
    var id := GenerateId(prefix, year, ms, rnd);
    assert id[..3][0] == id[0] && id[..3][1] == id[1] && id[..3][2] == id[2];
    id
  }

  /** The documented identifier shape `<prefix>-DDDD-DDDDDDDDD`. */
  predicate WellFormedId(prefix: string, id: string) {
    var n := |prefix|;
    && |id| == n + 15
    && id[..n] == prefix
    && id[n] == '-'
    && AllDigits(id[n + 1..n + 5])
    && id[n + 5] == '-'
    && AllDigits(id[n + 6..])
  }

  /** What an identifier carries: the year, the clock modulo 10^6 and the random number. */
  datatype IdParts = IdParts(year: nat, clock: nat, random: nat)

  /** Reads a well-formed identifier back into its parts. */
  function ParseId(prefix: string, id: string): Option<IdParts> {
    if !WellFormedId(prefix, id) then None
    else
      var n := |prefix|;
      Some(IdParts(DecimalValue(id[n + 1..n + 5]), DecimalValue(id[n + 6..n + 12]), DecimalValue(id[n + 12..])))
  }

  // ---------------------------------------------------------------------------
  // Decimal arithmetic

  lemma {:induction false} DecimalOfNatToString(n: nat)
    ensures DecimalValue(NatToString(n)) == n
    decreases n
  {
    if n >= 10 {
      var s := NatToString(n);
      assert s[..|s| - 1] == NatToString(n / 10);
      DecimalOfNatToString(n / 10);
    }
  }

  lemma {:induction false} NatToStringLength(n: nat, k: nat)
    requires k > 0 || n > 0
    ensures |NatToString(n)| > k <==> n >= Pow10(k)
    decreases n
  {
    if k == 0 {
      assert Pow10(0) == 1;
    } else if n < 10 {
      assert |NatToString(n)| == 1;
      assert Pow10(k) == 10 * Pow10(k - 1) >= 10;
    } else {
      NatToStringLength(n / 10, k - 1);
      assert |NatToString(n)| == |NatToString(n / 10)| + 1;
      assert n / 10 >= Pow10(k - 1) <==> n >= 10 * Pow10(k - 1);
    }
  }

  lemma {:induction false} DecimalBound(s: string)
    requires AllDigits(s)
    ensures DecimalValue(s) < Pow10(|s|)
    decreases |s|
  {
    if s != [] {
      DecimalBound(s[..|s| - 1]);
    }
  }

  lemma {:induction false} DecimalAppend(a: string, b: string)
    requires AllDigits(a) && AllDigits(b)
    ensures DecimalValue(a + b) == DecimalValue(a) * Pow10(|b|) + DecimalValue(b)
    decreases |b|
  {
    if b == [] {
      assert a + b == a;
    } else {
      var b' := b[..|b| - 1];
      var d := DigitValue(b[|b| - 1]);
      assert (a + b)[..|a + b| - 1] == a + b' && (a + b)[|a + b| - 1] == b[|b| - 1];
      assert DecimalValue(a + b) == 10 * DecimalValue(a + b') + d;
      assert DecimalValue(b) == 10 * DecimalValue(b') + d;
      DecimalAppend(a, b');
      assert Pow10(|b|) == 10 * Pow10(|b'|);
      ShiftDigit(DecimalValue(a), DecimalValue(b'), d, Pow10(|b'|));
    }
  }

  /** One more digit on the right: the arithmetic step of DecimalAppend. */
  lemma ShiftDigit(va: nat, vb: nat, d: nat, p: nat)
    ensures 10 * (va * p + vb) + d == va * (10 * p) + (10 * vb + d)
  {
  }

  lemma {:induction false} DecimalOfZeros(z: string, s: string)
    requires forall i :: 0 <= i < |z| ==> z[i] == '0'
    requires AllDigits(s)
    ensures AllDigits(z + s) && DecimalValue(z + s) == DecimalValue(s)
  {
    DecimalZero(z);
    DecimalAppend(z, s);
  }

  lemma {:induction false} DecimalZero(z: string)
    requires forall i :: 0 <= i < |z| ==> z[i] == '0'
    ensures AllDigits(z) && DecimalValue(z) == 0
    decreases |z|
  {
    if z != [] {
      DecimalZero(z[..|z| - 1]);
    }
  }

  /** Two digit strings of the same length that denote the same number are the same string. */
  lemma {:induction false} DecimalInjective(a: string, b: string)
    requires AllDigits(a) && AllDigits(b) && |a| == |b|
    requires DecimalValue(a) == DecimalValue(b)
    ensures a == b
    decreases |a|
  {
    if a != [] {
      var n := |a| - 1;
      assert DigitValue(a[n]) == DigitValue(b[n]);
      DecimalInjective(a[..n], b[..n]);
      assert a == a[..n] + [a[n]] && b == b[..n] + [b[n]];
    }
  }

  lemma ModMillion(x: nat, y: nat)
    requires y < 1000000
    ensures (x * 1000000 + y) % 1000000 == y
  {
  }

  // ---------------------------------------------------------------------------
  // The two suffixes

  /** The time suffix is six digits once the clock is past 99999 ms, and it denotes the clock modulo 10^6. */
  lemma TimeSuffixValue(ms: nat)
    ensures AllDigits(TimeSuffix(ms))
    ensures DecimalValue(TimeSuffix(ms)) == ms % 1000000
    ensures ms >= 100000 ==> |TimeSuffix(ms)| == 6
  {
    var s := NatToString(ms);
    DecimalOfNatToString(ms);
    NatToStringLength(ms, 5);
    NatToStringLength(ms, 6);
    assert Pow10(5) == 100000 && Pow10(6) == 1000000;
    if |s| > 6 {
      var hi, lo := s[..|s| - 6], s[|s| - 6..];
      assert s == hi + lo;
      DecimalAppend(hi, lo);
      DecimalBound(lo);
      ModMillion(DecimalValue(hi), DecimalValue(lo));
    }
  }

  lemma RandomSuffixValue(rnd: nat)
    requires rnd < 1000
    ensures |RandomSuffix(rnd)| == 3 && AllDigits(RandomSuffix(rnd))
    ensures DecimalValue(RandomSuffix(rnd)) == rnd
  {
    var s := NatToString(rnd);
    NatToStringLength(rnd, 3);
    assert Pow10(3) == 1000;
    DecimalOfNatToString(rnd);
    var r := RandomSuffix(rnd);
    var z := r[..|r| - |s|];
    assert r == z + s;
    DecimalOfZeros(z, s);
  }

  // ---------------------------------------------------------------------------
  // Properties of generated identifiers

  /** With a four-digit year and a clock past 99999 ms, every identifier has the documented shape. */
  lemma GeneratedIdWellFormed(prefix: string, year: nat, ms: nat, rnd: nat)
    requires 1000 <= year <= 9999 && ms >= 100000 && rnd < 1000
    ensures WellFormedId(prefix, GenerateId(prefix, year, ms, rnd))
  {
    var y, t, r := NatToString(year), TimeSuffix(ms), RandomSuffix(rnd);
    assert |y| == 4 by {
      NatToStringLength(year, 3);
      NatToStringLength(year, 4);
      assert Pow10(3) == 1000 && Pow10(4) == 10000;
    }
    assert |t| == 6 && AllDigits(t) by {
      TimeSuffixValue(ms);
    }
    assert |r| == 3 && AllDigits(r) by {
      RandomSuffixValue(rnd);
    }
    var id := GenerateId(prefix, year, ms, rnd);
    var n := |prefix|;
    assert id == prefix + "-" + y + "-" + (t + r);
    assert id[n + 1..n + 5] == y;
    assert id[n + 6..] == t + r;
  }

  /** Parsing a generated identifier gives back the year, the clock modulo 10^6 and the random number. */
  lemma ParseGeneratedId(prefix: string, year: nat, ms: nat, rnd: nat)
    requires 1000 <= year <= 9999 && ms >= 100000 && rnd < 1000
    ensures ParseId(prefix, GenerateId(prefix, year, ms, rnd)) == Some(IdParts(year, ms % 1000000, rnd))
  {
    GeneratedIdWellFormed(prefix, year, ms, rnd);
    DecimalOfNatToString(year);
    TimeSuffixValue(ms);
    RandomSuffixValue(rnd);
    var id := GenerateId(prefix, year, ms, rnd);
    var n := |prefix|;
    assert id[n + 1..n + 5] == NatToString(year);
    assert id[n + 6..n + 12] == TimeSuffix(ms);
    assert id[n + 12..] == RandomSuffix(rnd);
  }

  /**
   * Two identifiers generated in the same year collide exactly when the clocks agree
   * modulo 10^6 and the random numbers agree: uniqueness is not guaranteed.
   */
  lemma IdCollision(prefix: string, year: nat, ms1: nat, rnd1: nat, ms2: nat, rnd2: nat)
    requires 1000 <= year <= 9999 && ms1 >= 100000 && ms2 >= 100000 && rnd1 < 1000 && rnd2 < 1000
    ensures GenerateId(prefix, year, ms1, rnd1) == GenerateId(prefix, year, ms2, rnd2)
        <==> ms1 % 1000000 == ms2 % 1000000 && rnd1 == rnd2
  {
    ParseGeneratedId(prefix, year, ms1, rnd1);
    ParseGeneratedId(prefix, year, ms2, rnd2);
    if ms1 % 1000000 == ms2 % 1000000 && rnd1 == rnd2 {
      TimeSuffixValue(ms1);
      TimeSuffixValue(ms2);
      DecimalInjective(TimeSuffix(ms1), TimeSuffix(ms2));
    }
  }

  /** A generated patient identifier is at least 13 characters long, so it never equals a 10-character one such as "P-2024-001". */
  lemma GeneratedPatientIdLength(year: nat, ms: nat, rnd: nat)
    requires ms >= 100000 && rnd < 1000
    ensures |GeneratePatientId(year, ms, rnd)| >= 13
  {
    TimeSuffixValue(ms);
    RandomSuffixValue(rnd);
  }
}
