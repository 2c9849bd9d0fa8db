/** Decimal numbers as text: printing, and strtonum of compat-strtonum.c with the strtoll it calls. */
module Text {
  import opened Wrappers

  function Digit(n: nat): char
    requires n < 10
  {
    '0' + n as char
  }

  function DecimalNat(n: nat): (r: string)
    ensures r != "" && forall c :: c in r ==> '0' <= c <= '9'
  {
    if n < 10 then [Digit(n)] else DecimalNat(n / 10) + [Digit(n % 10)]
  }

  /** The number as printf writes it with %d. */
  function Decimal(i: int): (r: string)
    ensures r != "" && forall c :: c in r ==> '0' <= c <= '9' || c == '-'
  {
    if i < 0 then ['-'] + DecimalNat(-i) else DecimalNat(i)
  }

  predicate IsSpace(c: char) {
    c in [' ', '\t', '\n', '\U{0B}', '\U{0C}', '\r']
  }

  function SkipSpace(s: string): string {
    if s != "" && IsSpace(s[0]) then SkipSpace(s[1..]) else s
  }

  function Digits(s: string): Option<nat> {
    if s == "" then Some(0)
    else
      var c := s[|s| - 1];
      var high := Digits(s[..|s| - 1]);
      if high.None? || !('0' <= c <= '9') then None else Some(10 * high.value + (c - '0') as nat)
  }

  /** A number between min and max, optionally after white space and a sign, and nothing else. */
  function Strtonum(s: string, min: int, max: int): (r: Option<int>)
    ensures r.Some? ==> min <= r.value <= max
  {
    var t := SkipSpace(s);
    var neg := t != "" && t[0] == '-';
    var d := if neg || (t != "" && t[0] == '+') then t[1..] else t;
    if d == "" || Digits(d).None? then None
    else
      var n: int := Digits(d).value;
      var v := if neg then -n else n;
      if v < min || v > max then None else Some(v)
  }

  lemma {:induction false} DigitsOfDecimal(n: nat)
    ensures Digits(DecimalNat(n)) == Some(n)
  {
    if n >= 10 {
      DigitsOfDecimal(n / 10);
      assert DecimalNat(n)[..|DecimalNat(n)| - 1] == DecimalNat(n / 10);
    } else {
      assert [Digit(n)][..0] == "";
    }
  }

  /** A printed number is read back. */
  lemma StrtonumOfDecimal(i: int, min: int, max: int)
    requires min <= i <= max
    ensures Strtonum(Decimal(i), min, max) == Some(i)
  {
    var s := Decimal(i);
    assert s[0] in s;
    assert SkipSpace(s) == s;
    DigitsOfDecimal(if i < 0 then -i else i);
    if i < 0 {
      assert s[1..] == DecimalNat(-i);
    }
  }

  // ----- the texts that stand for numbers -----

  function Zeros(k: nat): (r: string)
    ensures |r| == k
  {
    seq(k, _ => '0')
  }

  /** White space, an optional sign, zeros, and a number as it is printed. */
  predicate Spelled(s: string, v: int, blanks: string, sign: string, k: nat, n: nat) {
    && (forall c :: c in blanks ==> c in [' ', '\t', '\n', '\U{0B}', '\U{0C}', '\r'])
    && (sign == "" || sign == ['+'] || sign == ['-'])
    && s == blanks + (sign + (Zeros(k) + DecimalNat(n)))
    && v == if sign == ['-'] then 0 - n else n
  }

  ghost predicate Numeral(s: string, v: int) {
    exists blanks, sign, k: nat, n: nat :: Spelled(s, v, blanks, sign, k, n)
  }

  lemma {:induction false} DigitsOfZeros(k: nat)
    ensures Digits(Zeros(k)) == Some(0)
  {
    if k == 0 {
    } else {
      DigitsOfZeros(k - 1);
      assert Zeros(k)[..k - 1] == Zeros(k - 1);
    }
  }

  lemma {:induction false} DigitsAfterZeros(k: nat, n: nat)
    ensures Digits(Zeros(k) + DecimalNat(n)) == Some(n)
  {
    hide Digits, DecimalNat, Zeros;
    if n < 10 {
      DigitsOfZeros(k);
      OneDigit(n, Digit(n));
      DigitsMore(Zeros(k), n, 0);
    } else {
      DigitsAfterZeros(k, n / 10);
      DecimalMore(n / 10, n % 10, Digit(n % 10));
      assert Zeros(k) + DecimalNat(n) == (Zeros(k) + DecimalNat(n / 10)) + [Digit(n % 10)];
      DigitsMore(Zeros(k) + DecimalNat(n / 10), n % 10, n / 10);
    }
  }

  lemma DigitsMore(s: string, n: nat, m: nat)
    requires n < 10 && Digits(s) == Some(m)
    ensures Digits(s + [Digit(n)]) == Some(10 * m + n)
  {
    assert (s + [Digit(n)])[..|s|] == s;
  }

  /** Digits are zeros and the number as it is printed. */
  lemma {:induction false} DigitsAre(d: string) returns (k: nat)
    requires d != "" && Digits(d).Some?
    ensures d == Zeros(k) + DecimalNat(Digits(d).value)
  {
    var high, c := d[..|d| - 1], d[|d| - 1];
    var n := (c - '0') as nat;
    assert d == high + [c] && Digit(n) == c;
    if high == "" {
      k := 0;
      assert DecimalNat(Digits(d).value) == [c];
    } else {
      k := DigitsAre(high);
      var m := Digits(high).value;
      hide DecimalNat, Zeros;
      if m == 0 {
        ZeroMore(k);
        OneDigit(n, c);
        k := k + 1;
      } else {
        DecimalMore(m, n, c);
      }
    }
  }

  lemma ZeroMore(k: nat)
    ensures Zeros(k) + DecimalNat(0) == Zeros(k + 1)
  {}

  lemma OneDigit(n: nat, c: char)
    requires n < 10 && Digit(n) == c
    ensures DecimalNat(n) == [c]
  {}

  lemma DecimalMore(m: nat, n: nat, c: char)
    requires m > 0 && n < 10 && Digit(n) == c
    ensures DecimalNat(10 * m + n) == DecimalNat(m) + [c]
  {
    assert (10 * m + n) / 10 == m && (10 * m + n) % 10 == n;
  }

  lemma {:induction false} SkipBlanks(blanks: string, s: string)
    requires (forall c :: c in blanks ==> IsSpace(c)) && (s == "" || !IsSpace(s[0]))
    ensures SkipSpace(blanks + s) == s
  {
    if blanks == "" {
      assert blanks + s == s;
    } else {
      assert blanks[0] in blanks && (blanks + s)[1..] == blanks[1..] + s;
      SkipBlanks(blanks[1..], s);
    }
  }

  lemma {:induction false} BlanksSkipped(s: string) returns (blanks: string)
    ensures (forall c :: c in blanks ==> IsSpace(c)) && s == blanks + SkipSpace(s)
  {
    if s != "" && IsSpace(s[0]) {
      blanks := BlanksSkipped(s[1..]);
      blanks := [s[0]] + blanks;
    } else {
      blanks := "";
    }
  }

  lemma SignedIsRead(s: string, sign: string, d: string, n: nat, v: int, min: int, max: int)
    requires SkipSpace(s) == sign + d && (sign == "" || sign == ['+'] || sign == ['-'])
    requires d != "" && d[0] != '-' && d[0] != '+' && Digits(d) == Some(n)
    requires v == (if sign == ['-'] then 0 - n else n) && min <= v <= max
    ensures Strtonum(s, min, max) == Some(v)
  {
    hide SkipSpace, Digits;
    if sign == "" {
      assert sign + d == d;
    } else {
      assert (sign + d)[1..] == d;
    }
  }

  lemma SpelledIsRead(s: string, v: int, blanks: string, sign: string, k: nat, n: nat, min: int, max: int)
    requires Spelled(s, v, blanks, sign, k, n) && min <= v <= max
    ensures Strtonum(s, min, max) == Some(v)
  {
    var d := Zeros(k) + DecimalNat(n);
    assert DecimalNat(n)[0] in DecimalNat(n);
    assert '0' <= d[0] <= '9';
    assert (sign + d)[0] == if sign == "" then d[0] else sign[0];
    hide SkipSpace, Digits, DecimalNat, Zeros, Strtonum;
    SkipBlanks(blanks, sign + d);
    DigitsAfterZeros(k, n);
    SignedIsRead(s, sign, d, n, v, min, max);
  }

  lemma ReadHasDigits(s: string, min: int, max: int, v: int) returns (sign: string, d: string)
    requires Strtonum(s, min, max) == Some(v)
    ensures SkipSpace(s) == sign + d && (sign == "" || sign == ['+'] || sign == ['-'])
    ensures d != "" && Digits(d).Some? && v == if sign == ['-'] then 0 - Digits(d).value else Digits(d).value
  {
    hide Digits, SkipSpace;
    var t := SkipSpace(s);
    sign := if t != "" && (t[0] == '-' || t[0] == '+') then [t[0]] else "";
    d := t[|sign|..];
    assert t == sign + d;
  }

  /** A text is read as a number if and only if it is a numeral of it, and the number is in range. */
  lemma StrtonumIff(s: string, min: int, max: int, v: int)
    ensures Strtonum(s, min, max) == Some(v) <==> min <= v <= max && Numeral(s, v)
  {
    hide Strtonum, Digits, DecimalNat, SkipSpace, Zeros;
    if min <= v <= max && Numeral(s, v) {
      var blanks, sign, k: nat, n: nat :| Spelled(s, v, blanks, sign, k, n);
      SpelledIsRead(s, v, blanks, sign, k, n, min, max);
    }
    if Strtonum(s, min, max) == Some(v) {
      var blanks := BlanksSkipped(s);
      var sign, d := ReadHasDigits(s, min, max, v);
      var k := DigitsAre(d);
      assert Spelled(s, v, blanks, sign, k, Digits(d).value);
    }
  }
}
