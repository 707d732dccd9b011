/**
 * Positional numerals in bases 2 to 16: the digit strings that Python's
 * `hex()` and JavaScript's `Number.prototype.toString()` print, the value of
 * a digit string, and left zero-padding (`zfill`, `padStart(n, '0')`).
 */
module Numerals {

  /** Value of a digit character; 16 for anything that is not a hex digit. */
  function CharValue(c: char): (v: nat)
    ensures v <= 16
  {
    if '0' <= c <= '9' then c as nat - '0' as nat
    else if 'a' <= c <= 'f' then c as nat - 'a' as nat + 10
    else if 'A' <= c <= 'F' then c as nat - 'A' as nat + 10
    else 16
  }

  /** The lower-case digit character for `d`. */
  function DigitChar(d: nat): (c: char)
    requires d < 16
    ensures CharValue(c) == d
    ensures !('A' <= c <= 'Z')
  {
    if d < 10 then ('0' as int + d) as char else ('a' as int + d - 10) as char
  }

  predicate IsDigit(c: char, base: nat) {
    CharValue(c) < base
  }

  predicate AllDigits(s: string, base: nat) {
    forall i :: 0 <= i < |s| ==> IsDigit(s[i], base)
  }

  /** The number a string of digits denotes, most significant digit first. */
  function Value(s: string, base: nat): nat
    requires AllDigits(s, base)
  {
    if |s| == 0 then 0 else Value(s[..|s| - 1], base) * base + CharValue(s[|s| - 1])
  }

  /** The shortest lower-case numeral for `n`; empty for zero. */
  function Digits(n: nat, base: nat): string
    requires 2 <= base <= 16
    decreases n
  {
    if n == 0 then "" else Digits(n / base, base) + [DigitChar(n % base)]
  }

  /** The numeral printed by `hex()` (after its prefix) or `toString()`: "0" for zero. */
  function Numeral(n: nat, base: nat): string
    requires 2 <= base <= 16
  {
    if n == 0 then "0" else Digits(n, base)
  }

  function Zeros(k: nat): (z: string)
    ensures |z| == k && forall i :: 0 <= i < k ==> z[i] == '0'
  {
    if k == 0 then "" else Zeros(k - 1) + "0"
  }

  /** `s.padStart(width, '0')`, and `s.zfill(width)` for unsigned `s`. */
  function PadLeft(s: string, width: nat): string {
    if |s| >= width then s else Zeros(width - |s|) + s
  }

  function Pow(base: nat, k: nat): nat {
    if k == 0 then 1 else base * Pow(base, k - 1)
  }

  /** ASCII lower-casing, which is what `str.lower()` does to `#` and hex digits. */
  function LowerChar(c: char): char {
    if 'A' <= c <= 'Z' then (c as int - 'A' as int + 'a' as int) as char else c
  }

  function Lower(s: string): (r: string)
    ensures |r| == |s| && forall i :: 0 <= i < |s| ==> r[i] == LowerChar(s[i])
  {
    if |s| == 0 then "" else Lower(s[..|s| - 1]) + [LowerChar(s[|s| - 1])]
  }

  lemma {:induction false} DigitsAreDigits(n: nat, base: nat)
    requires 2 <= base <= 16
    ensures AllDigits(Digits(n, base), base)
    ensures Lower(Digits(n, base)) == Digits(n, base)
    ensures n > 0 ==> |Digits(n, base)| > 0 && Digits(n, base)[0] != '0'
    decreases n
  {
    if n > 0 {
      DivMod(n, base);
      DigitsAreDigits(n / base, base);
      var d := Digits(n, base);
      assert d == Digits(n / base, base) + [DigitChar(n % base)];
      assert d[..|d| - 1] == Digits(n / base, base);
      if n / base == 0 {
        assert n % base == n;
        assert d == [DigitChar(n)];
      }
    }
  }

  lemma {:induction false} ValueOfDigits(n: nat, base: nat)
    requires 2 <= base <= 16
    ensures AllDigits(Digits(n, base), base)
    ensures Value(Digits(n, base), base) == n
    decreases n
  {
    DigitsAreDigits(n, base);
    if n > 0 {
      DivMod(n, base);
      ValueOfDigits(n / base, base);
      var d := Digits(n, base);
      assert d[..|d| - 1] == Digits(n / base, base);
    }
  }

  lemma {:induction false} ValueOfNumeral(n: nat, base: nat)
    requires 2 <= base <= 16
    ensures AllDigits(Numeral(n, base), base)
    ensures Value(Numeral(n, base), base) == n
  {
    ValueOfDigits(n, base);
    if n == 0 {
      assert Value("0", base) == Value("", base) * base + CharValue('0');
    }
  }

  /** Leading zeros do not change the value of a numeral. */
  lemma {:induction false} ValueIgnoresLeadingZeros(k: nat, s: string, base: nat)
    requires 2 <= base <= 16 && AllDigits(s, base)
    ensures AllDigits(Zeros(k) + s, base)
    ensures Value(Zeros(k) + s, base) == Value(s, base)
    decreases |s|
  {
    var z := Zeros(k) + s;
    assert AllDigits(z, base) by {
      forall i | 0 <= i < |z| ensures IsDigit(z[i], base) {
        if i < k { assert z[i] == '0'; } else { assert z[i] == s[i - k]; }
      }
    }
    if |s| == 0 {
      assert z == Zeros(k);
      ZerosValue(k, base);
    } else {
      var s' := s[..|s| - 1];
      assert z[..|z| - 1] == Zeros(k) + s';
      ValueIgnoresLeadingZeros(k, s', base);
    }
  }

  lemma {:induction false} ZerosValue(k: nat, base: nat)
    requires 2 <= base <= 16
    ensures AllDigits(Zeros(k), base) && Value(Zeros(k), base) == 0
  {
    if k > 0 {
      ZerosValue(k - 1, base);
      assert Zeros(k)[..k - 1] == Zeros(k - 1);
    }
  }

  /** A numeral of at most `k` digits is exactly a number below `base^k`. */
  lemma {:induction false} DigitsLength(n: nat, base: nat, k: nat)
    requires 2 <= base <= 16
    ensures |Digits(n, base)| <= k <==> n < Pow(base, k)
    decreases n
  {
    if n > 0 && k > 0 {
      DivMod(n, base);
      DigitsLength(n / base, base, k - 1);
      DigitsLengthStep(n, base, k);
    } else if n > 0 {
      assert |Digits(n, base)| >= 1;
    } else {
      PowPositive(base, k);
    }
  }

  lemma DigitsLengthStep(n: nat, base: nat, k: nat)
    requires 2 <= base <= 16 && n > 0 && k > 0
    requires |Digits(n / base, base)| <= k - 1 <==> n / base < Pow(base, k - 1)
    ensures |Digits(n, base)| <= k <==> n < Pow(base, k)
  {
    DigitsOneMore(n, base);
    PowStep(base, k);
    DivBound(n, base, Pow(base, k - 1));
  }

  lemma DigitsOneMore(n: nat, base: nat)
    requires 2 <= base <= 16 && n > 0
    ensures |Digits(n, base)| == |Digits(n / base, base)| + 1
  {
  }

  lemma PowStep(base: nat, k: nat)
    requires k > 0
    ensures Pow(base, k) == base * Pow(base, k - 1)
  {
  }

  lemma DivMod(n: nat, b: nat)
    requires 2 <= b
    ensures n == (n / b) * b + n % b && 0 <= n % b < b
    ensures n / b == 0 <==> n < b
    ensures n > 0 ==> n / b < n
  {
  }

  lemma MulMono(a: nat, b: nat, c: nat)
    requires a <= b
    ensures a * c <= b * c
  {
  }

  lemma DivModUnique(q: nat, r: nat, b: nat)
    requires 2 <= b && r < b
    ensures (q * b + r) / b == q && (q * b + r) % b == r
  {
    var n := q * b + r;
    var q', r' := n / b, n % b;
    DivMod(n, b);
    if q' < q {
      MulMono(q' + 1, q, b);
    } else if q < q' {
      MulMono(q + 1, q', b);
    }
  }

  lemma DivBound(n: nat, base: nat, p: nat)
    requires base >= 2
    ensures n < base * p <==> n / base < p
  {
    DivMod(n, base);
    var q := n / base;
    if q < p {
      MulMono(q + 1, p, base);
      assert (q + 1) * base == q * base + base;
    } else {
      MulMono(p, q, base);
    }
    assert base * p == p * base;
  }

  lemma {:induction false} PowPositive(base: nat, k: nat)
    requires base >= 1
    ensures Pow(base, k) >= 1
  {
    if k > 0 { PowPositive(base, k - 1); }
  }

  /**
   * A string of exactly `k` digits is, up to case, its value printed
   * zero-padded to `k` digits: the shortest numeral re-padded loses nothing.
   */
  lemma {:induction false} PaddedDigitsOfValue(s: string, base: nat)
    requires 2 <= base <= 16 && AllDigits(s, base)
    ensures |Digits(Value(s, base), base)| <= |s|
    ensures Zeros(|s| - |Digits(Value(s, base), base)|) + Digits(Value(s, base), base) == Lower(s)
    decreases |s|
  {
    if |s| > 0 {
      AllDigitsPrefix(s, base);
      PaddedDigitsOfValue(s[..|s| - 1], base);
      PaddedStep(s, base);
    }
  }

  lemma AllDigitsPrefix(s: string, base: nat)
    requires |s| > 0 && AllDigits(s, base)
    ensures AllDigits(s[..|s| - 1], base)
  {
  }

  /** One step of `PaddedDigitsOfValue`: from a string without its last digit to the whole string. */
  lemma PaddedStep(t: string, base: nat)
    requires 2 <= base <= 16 && |t| > 0 && AllDigits(t, base) && AllDigits(t[..|t| - 1], base)
    requires var s := t[..|t| - 1];
      |Digits(Value(s, base), base)| <= |s|
      && Zeros(|s| - |Digits(Value(s, base), base)|) + Digits(Value(s, base), base) == Lower(s)
    ensures |Digits(Value(t, base), base)| <= |t|
    ensures Zeros(|t| - |Digits(Value(t, base), base)|) + Digits(Value(t, base), base) == Lower(t)
  {
    DigitsStep(t, base);
    var s := t[..|t| - 1];
    PadAppend(|s|, t[|t| - 1], Digits(Value(s, base), base), Digits(Value(t, base), base), Lower(s), Lower(t));
  }

  /**
   * Appending a digit `c` to a string of `n` characters: the padded numeral
   * `d'` of the shorter one becomes `d`, and its lower-case form `l'` becomes `l`.
   */
  lemma PadAppend(n: nat, c: char, d': string, d: string, l': string, l: string)
    requires |d'| <= n && Zeros(n - |d'|) + d' == l' && l == l' + [LowerChar(c)]
    requires d == "" ==> d' == "" && LowerChar(c) == '0'
    requires d != "" ==> d == d' + [LowerChar(c)]
    ensures |d| <= n + 1 && Zeros(n + 1 - |d|) + d == l
  {
    if d == "" {
      assert Zeros(n + 1) == Zeros(n) + "0";
    } else {
      assert Zeros(n - |d'|) + d == (Zeros(n - |d'|) + d') + [LowerChar(c)];
    }
  }

  /** How the last digit of a numeral changes its value and its shortest form. */
  lemma DigitsStep(t: string, base: nat)
    requires 2 <= base <= 16 && |t| > 0 && AllDigits(t, base)
    ensures AllDigits(t[..|t| - 1], base)
    ensures Value(t, base) == 0 ==> Value(t[..|t| - 1], base) == 0 && LowerChar(t[|t| - 1]) == '0'
    ensures Value(t, base) == 0 <==> Digits(Value(t, base), base) == ""
    ensures Value(t, base) > 0 ==>
      Digits(Value(t, base), base) == Digits(Value(t[..|t| - 1], base), base) + [LowerChar(t[|t| - 1])]
  {
    var c := t[|t| - 1];
    assert IsDigit(c, base);
    DigitOfChar(c, base);
    var n', v := Value(t[..|t| - 1], base), CharValue(c);
    assert Value(t, base) == n' * base + v;
    if n' * base + v > 0 {
      DigitsSnoc(n', v, base);
    } else {
      MulMono(1, base, n');
    }
  }

  /** The shortest numeral of `q * base + r` is that of `q` followed by the digit `r`. */
  lemma DigitsSnoc(q: nat, r: nat, base: nat)
    requires 2 <= base <= 16 && r < base && q * base + r > 0
    ensures Digits(q * base + r, base) == Digits(q, base) + [DigitChar(r)]
  {
    DivModUnique(q, r, base);
  }

  lemma DigitOfChar(c: char, base: nat)
    requires 2 <= base <= 16 && IsDigit(c, base)
    ensures DigitChar(CharValue(c)) == LowerChar(c)
  {
  }
}
