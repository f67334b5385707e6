/** Decimal text of natural numbers, as produced by Rust's `to_string` and
    read back by `parse`. Digits are kept most significant first. */
module Decimal {
  import opened Wrappers

  function Pow10(n: nat): (r: nat)
    ensures r >= 1
  {
    if n == 0 then 1 else 10 * Pow10(n - 1)
  }

  predicate IsDigits(ds: seq<nat>)
  {
    forall i :: 0 <= i < |ds| ==> ds[i] < 10
  }

  /** The decimal digits of `n` (`n.to_string()`): never empty, no leading
      zero except for `0` itself. */
  function Digits(n: nat): (r: seq<nat>)
    ensures |r| >= 1 && IsDigits(r)
    ensures r[0] == 0 ==> n == 0
    decreases n
  {
    if n < 10 then [n] else Digits(n / 10) + [n % 10]
  }

  /** A character `to_digit(10)` or a one-character `parse` accepts. */
  predicate IsDigitChar(c: char)
  {
    '0' <= c <= '9'
  }

  /** The value of a decimal digit character. */
  function DigitValue(c: char): (r: nat)
    requires IsDigitChar(c)
    ensures r < 10
  {
    c as int - '0' as int
  }

  /** The character of a decimal digit. */
  function DigitChar(d: nat): (r: char)
    requires d < 10
    ensures IsDigitChar(r)
  {
    ('0' as int + d) as char
  }

  /** Digit characters and digit values correspond one to one. */
  lemma DigitRoundTrip(c: char, d: nat)
    requires IsDigitChar(c) && d < 10
    ensures DigitValue(DigitChar(d)) == d
    ensures DigitChar(DigitValue(c)) == c
  {
  }

  /** The number a digit string denotes (`parse::<usize>()`). */
  function Value(ds: seq<nat>): nat
  {
    if |ds| == 0 then 0 else Value(ds[..|ds| - 1]) * 10 + ds[|ds| - 1]
  }

  /** Parsing the printed form gives the number back. */
  lemma {:induction false} ValueOfDigits(n: nat)
    ensures Value(Digits(n)) == n
    decreases n
  {
    if n >= 10 {
      ValueOfDigits(n / 10);
      var ds := Digits(n / 10) + [n % 10];
      assert ds[..|ds| - 1] == Digits(n / 10);
    }
  }

  /** A string of `k` digits denotes a number below 10^k. */
  lemma {:induction false} ValueBound(ds: seq<nat>)
    requires IsDigits(ds)
    ensures Value(ds) < Pow10(|ds|)
    decreases |ds|
  {
    if |ds| > 0 {
      ValueBound(ds[..|ds| - 1]);
    }
  }

  /** Writing `b` after `a` shifts `a` left by |b| places. */
  lemma {:induction false} ValueAppend(a: seq<nat>, b: seq<nat>)
    ensures Value(a + b) == Value(a) * Pow10(|b|) + Value(b)
    decreases |b|
  {
    if |b| > 0 {
      var b' := b[..|b| - 1];
      assert (a + b)[..|a + b| - 1] == a + b';
      ValueAppend(a, b');
      var x := b[|b| - 1];
      assert Value(b) == Value(b') * 10 + x;
      assert Pow10(|b|) == Pow10(|b'|) * 10;
      calc {
        Value(a + b);
        Value(a + b') * 10 + x;
        (Value(a) * Pow10(|b'|) + Value(b')) * 10 + x;
        { assert (Value(a) * Pow10(|b'|)) * 10 == Value(a) * (Pow10(|b'|) * 10); }
        Value(a) * (Pow10(|b'|) * 10) + (Value(b') * 10 + x);
      }
    } else {
      assert a + b == a;
    }
  }

  /** `n` has exactly |Digits(n)| digits: it lies below 10^|Digits(n)| and,
      unless it is 0, at or above 10^(|Digits(n)| - 1). */
  lemma DigitsLength(n: nat)
    ensures n < Pow10(|Digits(n)|)
    ensures n == 0 || Pow10(|Digits(n)| - 1) <= n
  {
    ValueOfDigits(n);
    ValueBound(Digits(n));
    if n != 0 {
      LeadingDigit(Digits(n));
    }
  }

  lemma {:induction false} LeadingDigit(ds: seq<nat>)
    requires |ds| >= 1 && IsDigits(ds) && ds[0] != 0
    ensures Pow10(|ds| - 1) <= Value(ds)
    decreases |ds|
  {
    if |ds| > 1 {
      LeadingDigit(ds[..|ds| - 1]);
    }
  }

  /** When `n == q * d + r` with `0 <= r < d`, `q` and `r` are the quotient
      and the remainder. */
  lemma DivModUnique(n: nat, d: nat, q: nat, r: nat)
    requires 0 <= r < d && n == q * d + r
    ensures n / d == q && n % d == r
  {
    var k := n / d - q;
    assert k * d == r - n % d;
    if k >= 1 {
      MulAtLeast(k, d);
    } else if k <= -1 {
      MulAtLeast(-k, d);
    }
  }

  lemma MulAtLeast(k: int, d: nat)
    requires k >= 1
    ensures k * d >= d
  {
  }

  /** Concatenating the printed forms of `a` and `b` and parsing the result
      (`format!("{}{}", a, b).parse()`). */
  function Concat(a: nat, b: nat): nat
  {
    Value(Digits(a) + Digits(b))
  }

  /** Concatenation is `a * 10^digits(b) + b`. */
  lemma ConcatArithmetic(a: nat, b: nat)
    ensures Concat(a, b) == a * Pow10(|Digits(b)|) + b
  {
    ValueAppend(Digits(a), Digits(b));
    ValueOfDigits(a);
    ValueOfDigits(b);
  }

  /** Cutting the printed form of `n` after `h` digits and parsing both parts
      gives the quotient and remainder of `n` by 10^(|digits| - h). */
  lemma SplitDigits(n: nat, h: nat)
    requires h <= |Digits(n)|
    ensures var ds := Digits(n);
            Value(ds[..h]) == n / Pow10(|ds| - h) && Value(ds[h..]) == n % Pow10(|ds| - h)
  {
    var ds := Digits(n);
    var hi, lo := ds[..h], ds[h..];
    assert ds == hi + lo && |lo| == |ds| - h;
    ValueOfDigits(n);
    ValueAppend(hi, lo);
    assert IsDigits(lo);
    ValueBound(lo);
    DivModUnique(Value(hi + lo), Pow10(|lo|), Value(hi), Value(lo));
  }

  /** `s.parse::<usize>()` for plain decimal digits: `None` on the empty
      string or any other character. */
  function ParseNat(s: string): (r: Option<nat>)
    ensures r.Some? <==> |s| > 0 && forall i :: 0 <= i < |s| ==> IsDigitChar(s[i])
  {
    if |s| == 0 then None else ParseDigits(s)
  }

  function ParseDigits(s: string): (r: Option<nat>)
    ensures r.Some? <==> forall i :: 0 <= i < |s| ==> IsDigitChar(s[i])
    decreases |s|
  {
    if |s| == 0 then Some(0)
    else
      var init := ParseDigits(s[..|s| - 1]);
      if init.None? || !IsDigitChar(s[|s| - 1]) then None
      else Some(10 * init.value + DigitValue(s[|s| - 1]))
  }

  /** The characters of a digit string. */
  function Chars(ds: seq<nat>): (r: string)
    requires IsDigits(ds)
    ensures |r| == |ds|
  {
    seq(|ds|, i requires 0 <= i < |ds| => DigitChar(ds[i]))
  }

  /** Parsing the characters of a digit string gives the number it denotes. */
  lemma {:induction false} ParseChars(ds: seq<nat>)
    requires IsDigits(ds)
    ensures ParseDigits(Chars(ds)) == Some(Value(ds))
    decreases |ds|
  {
    if |ds| > 0 {
      var init := ds[..|ds| - 1];
      assert Chars(ds)[..|ds| - 1] == Chars(init);
      ParseChars(init);
      DigitRoundTrip('0', ds[|ds| - 1]);
    }
  }

  /** `n.to_string().parse::<usize>()` gives `n` back. */
  lemma ParseNatRoundTrip(n: nat)
    ensures ParseNat(Chars(Digits(n))) == Some(n)
  {
    ParseChars(Digits(n));
    ValueOfDigits(n);
  }
}
