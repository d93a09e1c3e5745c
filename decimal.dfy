/**
 * Rust's `Display` for integers (`{}`) and its zero-padded form (`{:02}`,
 * `{:03}`), with the parser that undoes them.
 */
module Decimal {

  predicate IsDigit(c: char)
  {
    '0' <= c <= '9'
  }

  predicate AllDigits(s: string)
  {
    forall i :: 0 <= i < |s| ==> IsDigit(s[i])
  }

  function DigitChar(d: nat): (c: char)
    requires d < 10
    ensures IsDigit(c) && c as int - '0' as int == d
  {
    ('0' as int + d) as char
  }

  /** The value of a string of decimal digits (most significant first). */
  function Value(s: string): nat
    requires AllDigits(s)
  {
    if s == [] then 0 else Value(s[..|s| - 1]) * 10 + (s[|s| - 1] as int - '0' as int)
  }

  /** `format!("{}", n)` for an unsigned integer: the shortest decimal numeral. */
  function Show(n: nat): (s: string)
    ensures 1 <= |s| && AllDigits(s)
    ensures s[0] == '0' ==> n == 0 && s == "0"
    decreases n
  {
    if n < 10 then [DigitChar(n)] else Show(n / 10) + [DigitChar(n % 10)]
  }

  /** Parsing a numeral gives back the number it shows. */
  lemma {:induction false} ValueOfShow(n: nat)
    ensures Value(Show(n)) == n
  {
    if n >= 10 {
      var s := Show(n);
      assert s[..|s| - 1] == Show(n / 10);
      ValueOfShow(n / 10);
    }
  }

  /** Distinct numbers have distinct numerals. */
  lemma ShowInjective(a: nat, b: nat)
    ensures Show(a) == Show(b) <==> a == b
  {
    ValueOfShow(a);
    ValueOfShow(b);
  }

  /** `format!("{}", i)` for a signed integer (a chrono year, an `i32`). */
  function ShowInt(i: int): (s: string)
    ensures 1 <= |s|
    ensures i >= 0 ==> AllDigits(s) && Value(s) == i
    ensures i < 0 ==> s[0] == '-' && AllDigits(s[1..]) && Value(s[1..]) == -i
    ensures i >= 0 ==> (s[0] == '0' ==> s == "0")
    ensures i < 0 ==> |s| >= 2 && s[1] != '0'
  {
    ValueOfShow(if i >= 0 then i else -i);
    if i >= 0 then Show(i) else "-" + Show(-i)
  }

  function Zeros(k: nat): (z: string)
    ensures |z| == k && AllDigits(z)
  {
    if k == 0 then [] else Zeros(k - 1) + "0"
  }

  /** Leading zeros do not change the value of a numeral. */
  lemma {:induction false} ValueIgnoresZeros(k: nat, s: string)
    requires AllDigits(s)
    ensures AllDigits(Zeros(k) + s) && Value(Zeros(k) + s) == Value(s)
  {
    if s == [] {
      assert Zeros(k) + s == Zeros(k);
      ZerosHaveNoValue(k);
    } else {
      var t := Zeros(k) + s;
      assert t[..|t| - 1] == Zeros(k) + s[..|s| - 1];
      ValueIgnoresZeros(k, s[..|s| - 1]);
    }
  }

  lemma {:induction false} ZerosHaveNoValue(k: nat)
    ensures Value(Zeros(k)) == 0
  {
    if k > 0 {
      assert Zeros(k)[..k - 1] == Zeros(k - 1);
      ZerosHaveNoValue(k - 1);
    }
  }

  /** `format!("{:0w$}", n)`: the numeral of `n` left-padded with zeros to at least `width` digits. */
  function Padded(n: nat, width: nat): (s: string)
    ensures |s| == if |Show(n)| < width then width else |Show(n)|
    ensures AllDigits(s) && Value(s) == n
    ensures s[|s| - |Show(n)|..] == Show(n)
  {
    var digits := Show(n);
    var pad := if |digits| < width then width - |digits| else 0;
    ValueOfShow(n);
    ValueIgnoresZeros(pad, digits);
    Zeros(pad) + digits
  }

  /** A number below `10^w` needs at most `w` digits, so padding to `w` gives exactly `w`. */
  lemma {:induction false} ShowFits(n: nat, w: nat, bound: nat)
    requires 1 <= w && bound == Pow10(w) && n < bound
    ensures |Show(n)| <= w
  {
    if n >= 10 {
      assert w >= 2;
      ShowFits(n / 10, w - 1, Pow10(w - 1));
    }
  }

  /** Padding a number below `10^w` to `w` digits gives exactly `w` digits. */
  lemma PaddedWidth(n: nat, w: nat)
    requires 1 <= w && n < Pow10(w)
    ensures |Padded(n, w)| == w
  {
    ShowFits(n, w, Pow10(w));
  }

  function Pow10(w: nat): (p: nat)
    ensures p >= 1
  {
    if w == 0 then 1 else 10 * Pow10(w - 1)
  }
}
