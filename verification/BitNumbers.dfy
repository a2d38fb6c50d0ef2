/**
  Read as little-endian numbers, the in-place shifts multiply and divide by powers of two.
 */
module BitNumbers {
  import opened Bits
  import opened BitArrays

  function Pow2(k: nat): (r: nat)
    ensures r > 0
  {
    if k == 0 then 1 else 2 * Pow2(k - 1)
  }

  /** The number whose binary digits are `b`, the lowest first. */
  function Num(b: seq<bool>): nat {
    if b == [] then 0 else (if b[0] then 1 else 0) + 2 * Num(b[1..])
  }

  lemma {:induction false} Pow2Adds(a: nat, b: nat)
    ensures Pow2(a + b) == Pow2(a) * Pow2(b)
  {
    if a > 0 {
      Pow2Adds(a - 1, b);
    }
  }

  lemma {:induction false} NumBound(b: seq<bool>)
    ensures Num(b) < Pow2(|b|)
  {
    if b != [] {
      NumBound(b[1..]);
    }
  }

  lemma {:induction false} NumAppend(a: seq<bool>, b: seq<bool>)
    ensures Num(a + b) == Num(a) + Pow2(|a|) * Num(b)
  {
    if a == [] {
      assert a + b == b;
    } else {
      assert (a + b)[1..] == a[1..] + b;
      NumAppend(a[1..], b);
      Distribute(Pow2(|a| - 1), Num(b));
    }
  }

  lemma {:induction false} Distribute(p: nat, n: nat)
    ensures 2 * (p * n) == (2 * p) * n
  {
  }

  lemma {:induction false} NumZeros(k: nat)
    ensures Num(seq(k, i => false)) == 0
  {
    if k > 0 {
      assert seq(k, i => false)[1..] == seq(k - 1, i => false);
      NumZeros(k - 1);
    }
  }

  lemma {:induction false} Multiples(p: nat, d: int)
    ensures d >= 1 ==> p * d >= p
    ensures d <= -1 ==> p * d + p <= 0
  {
  }

  lemma {:induction false} DivideBy(n: nat, q: nat, r: nat, p: nat)
    requires n == r + p * q && r < p
    ensures n / p == q && n % p == r
  {
    var d := q - n / p;
    assert n == p * (n / p) + n % p;
    assert p * d == p * q - p * (n / p);
    Multiples(p, d);
  }

  /** All bits of some bytes. */
  function All(s: seq<Byte>): (b: seq<bool>) {
    FirstBits(s, 8 * |s|)
  }

  lemma {:induction false} LoweredBits(s: seq<Byte>, shift: nat)
    requires shift <= 8 * |s|
    ensures All(Lowered(s, shift)) == All(s)[shift..] + seq(shift, i => false)
  {
    var t := Lowered(s, shift);
    forall p | 0 <= p < 8 * |s| ensures Bit(t, p) == Bit(s, p + shift) {
      EightTimes(p);
      BitIs(t, p / 8, p % 8);
    }
    forall p | p >= 8 * |s| ensures !Bit(s, p) {
      BitBehind(s, p);
    }
  }

  lemma {:induction false} RaisedBits(s: seq<Byte>, shift: nat)
    requires shift <= 8 * |s|
    ensures All(Raised(s, shift)) == seq(shift, i => false) + All(s)[..8 * |s| - shift]
  {
    var t := Raised(s, shift);
    forall p | 0 <= p < 8 * |s| ensures Bit(t, p) == (p >= shift && Bit(s, p - shift)) {
      EightTimes(p);
      BitIs(t, p / 8, p % 8);
    }
  }

  /** A right shift divides, rounding down. */
  lemma {:induction false} RightShiftDivides(s: seq<Byte>, shift: nat)
    requires shift <= 8 * |s|
    ensures Num(All(Lowered(s, shift))) == Num(All(s)) / Pow2(shift)
  {
    var b := All(s);
    LoweredBits(s, shift);
    NumAppend(b[shift..], seq(shift, i => false));
    NumZeros(shift);
    NumAppend(b[..shift], b[shift..]);
    assert b == b[..shift] + b[shift..];
    NumBound(b[..shift]);
    DivideBy(Num(b), Num(b[shift..]), Num(b[..shift]), Pow2(shift));
  }

  /** A left shift multiplies, modulo the number of values of all bytes together. */
  lemma {:induction false} LeftShiftMultiplies(s: seq<Byte>, shift: nat)
    requires shift <= 8 * |s|
    ensures Num(All(Raised(s, shift))) == Num(All(s)) * Pow2(shift) % Pow2(8 * |s|)
  {
    var b, n := All(s), 8 * |s|;
    RaisedBits(s, shift);
    RaisedNum(b, shift);
    assert |b| == n;
  }

  lemma {:induction false} RaisedNum(b: seq<bool>, shift: nat)
    requires shift <= |b|
    ensures Num(seq(shift, i => false) + b[..|b| - shift]) == Num(b) * Pow2(shift) % Pow2(|b|)
  {
    var n := |b|;
    var low, high := b[..n - shift], b[n - shift..];
    NumAppend(seq(shift, i => false), low);
    NumZeros(shift);
    assert b == low + high;
    NumAppend(low, high);
    NumBound(low);
    Pow2Adds(n - shift, shift);
    Overflow(Num(low), Num(high), Pow2(n - shift), Pow2(shift));
  }

  lemma {:induction false} Overflow(low: nat, high: nat, p: nat, q: nat)
    requires low < p && 0 < q
    ensures (low + p * high) * q % (p * q) == q * low
  {
    assert (low + p * high) * q == q * low + (p * q) * high;
    assert q * low < p * q;
    DivideBy(q * low + (p * q) * high, high, q * low, p * q);
  }
}
