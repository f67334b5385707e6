/** Binary numbers: powers of two, bit strings read least significant bit
    first, and bitwise exclusive or on unbounded naturals. */
module Binary {

  function Pow2(n: nat): (r: nat)
    ensures r >= 1
  {
    if n == 0 then 1 else 2 * Pow2(n - 1)
  }

  function Bit(b: bool): nat
  {
    if b then 1 else 0
  }

  /** The number the bits spell, least significant first. */
  function BinaryValue(bits: seq<bool>): (r: nat)
    ensures r < Pow2(|bits|)
  {
    if |bits| == 0 then 0 else Bit(bits[0]) + 2 * BinaryValue(bits[1..])
  }

  /** The `n` low bits of `v`, least significant first. */
  function ToBits(v: nat, n: nat): (r: seq<bool>)
    ensures |r| == n
  {
    if n == 0 then [] else [v % 2 == 1] + ToBits(v / 2, n - 1)
  }

  /** Reading back the bits of a number gives the bits again. */
  lemma {:induction false} BinaryRoundTrip(bits: seq<bool>)
    ensures ToBits(BinaryValue(bits), |bits|) == bits
  {
    if |bits| > 0 {
      var v := BinaryValue(bits);
      var rest := BinaryValue(bits[1..]);
      assert v % 2 == Bit(bits[0]) && v / 2 == rest;
      BinaryRoundTrip(bits[1..]);
      assert bits == [bits[0]] + bits[1..];
    }
  }

  /** Appending a bit adds it at the next power of two. */
  lemma {:induction false} BinaryAppend(bits: seq<bool>, b: bool)
    ensures BinaryValue(bits + [b]) == BinaryValue(bits) + Pow2(|bits|) * Bit(b)
  {
    if |bits| > 0 {
      assert (bits + [b])[1..] == bits[1..] + [b];
      BinaryAppend(bits[1..], b);
    } else {
      assert (bits + [b])[1..] == [];
    }
  }


  /** Spelling a number below `2^n` in `n` bits and reading it back gives the
      number again. */
  lemma {:induction false} ToBitsRoundTrip(v: nat, n: nat)
    requires v < Pow2(n)
    ensures BinaryValue(ToBits(v, n)) == v
  {
    if n > 0 {
      var bits := ToBits(v, n);
      ToBitsRoundTrip(v / 2, n - 1);
      assert bits[1..] == ToBits(v / 2, n - 1);
    }
  }

  /** Bitwise exclusive or (`^` on `usize`), one bit at a time. */
  function Xor(a: nat, b: nat): nat
    decreases a + b
  {
    if a == 0 && b == 0 then 0
    else (if a % 2 == b % 2 then 0 else 1) + 2 * Xor(a / 2, b / 2)
  }

  lemma {:induction false} XorZero(a: nat)
    ensures Xor(a, 0) == a
    decreases a
  {
    if a != 0 {
      XorZero(a / 2);
    }
  }

  lemma {:induction false} XorSelf(a: nat)
    ensures Xor(a, a) == 0
    decreases a
  {
    if a != 0 {
      XorSelf(a / 2);
    }
  }

  lemma {:induction false} XorCommutes(a: nat, b: nat)
    ensures Xor(a, b) == Xor(b, a)
    decreases a + b
  {
    if a != 0 || b != 0 {
      XorCommutes(a / 2, b / 2);
    }
  }

  /** Exclusive or with the same number twice is the identity. */
  lemma {:induction false} XorTwice(a: nat, b: nat)
    ensures Xor(Xor(a, b), b) == a
    decreases a + b
  {
    var x := Xor(a, b);
    if a == 0 && b == 0 {
    } else if x == 0 && b == 0 {
      XorZero(a);
    } else {
      XorTwice(a / 2, b / 2);
      assert x % 2 == (if a % 2 == b % 2 then 0 else 1) && x / 2 == Xor(a / 2, b / 2);
    }
  }

  /** Exclusive or of two `n`-bit numbers fits in `n` bits. */
  lemma {:induction false} XorBound(a: nat, b: nat, n: nat)
    requires a < Pow2(n) && b < Pow2(n)
    ensures Xor(a, b) < Pow2(n)
    decreases n
  {
    if n > 0 && (a != 0 || b != 0) {
      XorBound(a / 2, b / 2, n - 1);
    }
  }
}
