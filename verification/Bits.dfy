/**
  Shifting packed bits in place (libbinom/include/utils/util_functions.hxx).  A byte is its eight bits,
  the lowest first, as in libbinom/include/binom_impl/bits.hxx.
 */
module Bits {
  type Byte = b: seq<bool> | |b| == 8 witness [false, false, false, false, false, false, false, false]

  const ZERO: Byte := [false, false, false, false, false, false, false, false]

  // ------------------------------------------------------------------------------- byte operators

  /** `value << k`, cut to a byte. */
  function Up(b: Byte, k: nat): Byte {
    seq(8, j requires 0 <= j < 8 => j >= k && b[j - k])
  }

  /** `value >> k`. */
  function Down(b: Byte, k: nat): Byte {
    seq(8, j requires 0 <= j < 8 => j + k < 8 && b[j + k])
  }

  function Or(a: Byte, b: Byte): Byte {
    seq(8, j requires 0 <= j < 8 => a[j] || b[j])
  }

  /** `value & (0xFF >> (8 - from))` and `value & (0xFF << before)`. */
  function Set0From(b: Byte, from: nat): Byte {
    seq(8, j requires 0 <= j < 8 => j < from && b[j])
  }

  function Set0Before(b: Byte, before: nat): Byte {
    seq(8, j requires 0 <= j < 8 => j >= before && b[j])
  }

  // --------------------------------------------------------------------------- what a shift means

  /** Bit `p` of some bytes, and nothing behind their end. */
  function Bit(s: seq<Byte>, p: nat): bool {
    p / 8 < |s| && s[p / 8][p % 8]
  }

  /** Every bit comes from `shift` places further up. */
  function Lowered(s: seq<Byte>, shift: nat): seq<Byte> {
    seq(|s|, i requires 0 <= i < |s| => LoweredByte(s, shift, i))
  }

  function LoweredByte(s: seq<Byte>, shift: nat, i: nat): Byte {
    seq(8, j requires 0 <= j < 8 => Bit(s, 8 * i + j + shift))
  }

  /** Every bit comes from `shift` places further down. */
  function Raised(s: seq<Byte>, shift: nat): seq<Byte> {
    seq(|s|, i requires 0 <= i < |s| => RaisedByte(s, shift, i))
  }

  function RaisedByte(s: seq<Byte>, shift: nat, i: nat): Byte {
    seq(8, j requires 0 <= j < 8 => 8 * i + j >= shift && Bit(s, 8 * i + j - shift))
  }

  lemma {:induction false} BitIs(s: seq<Byte>, i: nat, j: nat)
    requires j < 8
    ensures Bit(s, 8 * i + j) == (i < |s| && s[i][j])
  {
    assert (8 * i + j) / 8 == i && (8 * i + j) % 8 == j;
  }

  lemma {:induction false} BitBehind(s: seq<Byte>, p: nat)
    requires p >= 8 * |s|
    ensures !Bit(s, p)
  {
  }

  lemma {:induction false} LoweredBit(s: seq<Byte>, i: nat, j: nat, q: nat, r: nat)
    requires i + q < |s| && j < 8 && r < 8
    ensures Bit(s, 8 * i + j + (8 * q + r)) == if j + r < 8 then s[i + q][j + r]
            else i + q + 1 < |s| && s[i + q + 1][j + r - 8]
  {
    if j + r < 8 {
      BitIs(s, i + q, j + r);
      assert 8 * i + j + (8 * q + r) == 8 * (i + q) + (j + r);
    } else {
      BitIs(s, i + q + 1, j + r - 8);
      assert 8 * i + j + (8 * q + r) == 8 * (i + q + 1) + (j + r - 8);
    }
  }

  /** The two source bytes of a byte after a right shift. */
  lemma {:induction false} LoweredFrom(s: seq<Byte>, shift: nat, i: nat, q: nat, r: nat)
    requires shift == 8 * q + r && r < 8 && i + q < |s|
    ensures LoweredByte(s, shift, i) ==
              if r == 0 then s[i + q]
              else if i + q + 1 < |s| then Or(Down(s[i + q], r), Up(s[i + q + 1], 8 - r))
              else Down(s[i + q], r)
  {
    var b := LoweredByte(s, shift, i);
    forall j | 0 <= j < 8 ensures b[j] == if j + r < 8 then s[i + q][j + r]
        else i + q + 1 < |s| && s[i + q + 1][j + r - 8] {
      LoweredBit(s, i, j, q, r);
    }
    Spliced(b, r, s[i + q], if i + q + 1 < |s| then s[i + q + 1] else ZERO);
  }

  lemma {:induction false} Spliced(b: Byte, r: nat, x: Byte, y: Byte)
    requires r < 8 && forall j | 0 <= j < 8 :: b[j] == if j + r < 8 then x[j + r] else y[j + r - 8]
    ensures b == Or(Down(x, r), Up(y, 8 - r))
    ensures r == 0 ==> b == x
    ensures y == ZERO ==> b == Down(x, r)
  {
  }

  lemma {:induction false} LoweredEnd(s: seq<Byte>, shift: nat, i: nat)
    requires i + shift / 8 >= |s|
    ensures LoweredByte(s, shift, i) == ZERO
  {
    forall j | 0 <= j < 8 ensures !LoweredByte(s, shift, i)[j] {
      BitBehind(s, 8 * i + j + shift);
    }
  }

  lemma {:induction false} RaisedBit(s: seq<Byte>, i: nat, j: nat, q: nat, r: nat)
    requires q <= i < |s| && j < 8 && r < 8
    ensures 8 * i + j >= 8 * q + r <==> j >= r || i > q
    ensures j >= r ==> Bit(s, 8 * i + j - (8 * q + r)) == s[i - q][j - r]
    ensures j < r && i > q ==> Bit(s, 8 * i + j - (8 * q + r)) == s[i - q - 1][j + 8 - r]
  {
    if j >= r {
      BitIs(s, i - q, j - r);
      assert 8 * i + j - (8 * q + r) == 8 * (i - q) + (j - r);
    } else if i > q {
      BitIs(s, i - q - 1, j + 8 - r);
      assert 8 * i + j - (8 * q + r) == 8 * (i - q - 1) + (j + 8 - r);
    }
  }

  lemma {:induction false} RaisedFrom(s: seq<Byte>, shift: nat, i: nat, q: nat, r: nat)
    requires shift == 8 * q + r && r < 8 && q <= i < |s|
    ensures RaisedByte(s, shift, i) ==
              if r == 0 then s[i - q]
              else if i > q then Or(Up(s[i - q], r), Down(s[i - q - 1], 8 - r))
              else Up(s[i - q], r)
  {
    var b := RaisedByte(s, shift, i);
    forall j | 0 <= j < 8 ensures b[j] == if j >= r then s[i - q][j - r] else i > q && s[i - q - 1][j + 8 - r] {
      RaisedBit(s, i, j, q, r);
    }
    Joined(b, r, s[i - q], if i > q then s[i - q - 1] else ZERO);
  }

  /** A byte put together from the low bits of `x` and the high bits of `y`. */
  lemma {:induction false} Joined(b: Byte, r: nat, x: Byte, y: Byte)
    requires r < 8 && forall j | 0 <= j < 8 :: b[j] == if j >= r then x[j - r] else y[j + 8 - r]
    ensures b == Or(Up(x, r), Down(y, 8 - r))
    ensures r == 0 ==> b == x
    ensures y == ZERO ==> b == Up(x, r)
  {
  }

  lemma {:induction false} RaisedStart(s: seq<Byte>, shift: nat, i: nat)
    requires i < shift / 8
    ensures RaisedByte(s, shift, i) == ZERO
  {
  }

  // ------------------------------------------------------------------------------------- in place

  /** `size` bytes from position `from` on, and nothing else, have become `s`. */
  twostate predicate Became(a: array<Byte>, from: nat, size: nat, s: seq<Byte>)
    requires from + size <= a.Length
    reads a
  {
    && a[from..from + size] == s
    && a[..from] == old(a[..from]) && a[from + size..] == old(a[from + size..])
  }

  /** std::fill with zero. */
  method Fill(a: array<Byte>, from: nat, to: nat)
    requires from <= to <= a.Length
    modifies a
    ensures forall k | 0 <= k < a.Length :: a[k] == if from <= k < to then ZERO else old(a[k])
  {
    var i := from;
    while i < to
      invariant from <= i <= to
      invariant forall k | 0 <= k < a.Length :: a[k] == if from <= k < i then ZERO else old(a[k])
    {
      a[i] := ZERO;
      i := i + 1;
    }
  }

  lemma {:induction false} EightTimes(shift: nat)
    ensures shift == 8 * (shift / 8) + shift % 8
  {
  }

  /** The loop of the right shift for a shift by whole bytes. */
  method LowerWholeBytes(a: array<Byte>, from: nat, size: nat, q: nat, ghost shift: nat)
    requires from + size <= a.Length && q < size && shift == 8 * q
    modifies a
    ensures forall k | 0 <= k < a.Length ::
        a[k] == if from <= k < from + size - q then LoweredByte(old(a[from..from + size]), shift, k - from)
            else old(a[k])
  {
    ghost var s := a[from..from + size];
    var i, limit := 0, size - q - 1;
    while i <= limit
      invariant 0 <= i <= limit + 1
      invariant forall k | 0 <= k < a.Length ::
          a[k] == if from <= k < from + i then LoweredByte(s, shift, k - from) else old(a[k])
    {
      LoweredFrom(s, shift, i, q, 0);
      a[from + i] := a[from + i + q];
      i := i + 1;
    }
  }

  /** The first `n` bytes from position `from` on have been shifted. */
  predicate LoweredTo(now: seq<Byte>, was: seq<Byte>, from: nat, s: seq<Byte>, shift: nat, n: nat) {
    && |now| == |was|
    && forall k | 0 <= k < |was| :: now[k] == if from <= k < from + n then LoweredByte(s, shift, k - from) else was[k]
  }

  lemma {:induction false} LoweredNext(now: seq<Byte>, was: seq<Byte>, from: nat, s: seq<Byte>, shift: nat, n: nat)
    requires LoweredTo(now, was, from, s, shift, n) && from + n < |was|
    ensures LoweredTo(now[from + n := LoweredByte(s, shift, n)], was, from, s, shift, n + 1)
  {
  }

  /** The loop of the right shift for a shift by `q` bytes and `r` bits, and its last byte. */
  method LowerBytes(a: array<Byte>, from: nat, size: nat, q: nat, r: nat, ghost shift: nat)
    requires from + size <= a.Length && q < size && 0 < r < 8 && shift == 8 * q + r
    modifies a
    ensures LoweredTo(a[..], old(a[..]), from, old(a[from..from + size]), shift, size - q)
  {
    ghost var was, s := a[..], a[from..from + size];
    var i, limit := 0, size - q - 1;
    var subBitOffset := 8 - r;
    while i < limit
      invariant 0 <= i <= limit && LoweredTo(a[..], was, from, s, shift, i)
    {
      assert a[..][from + i + q] == s[i + q] && a[..][from + i + q + 1] == s[i + q + 1];
      LoweredFrom(s, shift, i, q, r);
      LoweredNext(a[..], was, from, s, shift, i);
      a[from + i] := Or(Down(a[from + i + q], r), Up(a[from + i + q + 1], subBitOffset));
      i := i + 1;
    }
    assert a[..][from + size - 1] == s[size - 1];
    LoweredFrom(s, shift, limit, q, r);
    LoweredNext(a[..], was, from, s, shift, limit);
    a[from + limit] := Down(a[from + size - 1], r);
  }

  /** A right shift of `size` bytes from position `from` on.  With `shift` reaching the size, the limit of
      the source loop falls below zero and wraps around. */
  method DoRightShift(a: array<Byte>, from: nat, size: nat, shift: nat)
    requires from + size <= a.Length && shift / 8 < size
    modifies a
    ensures Became(a, from, size, Lowered(old(a[from..from + size]), shift))
  {
    ghost var s := a[from..from + size];
    EightTimes(shift);
    var typeShift, bitOffset := shift / 8, shift % 8;
    if bitOffset == 0 {
      LowerWholeBytes(a, from, size, typeShift, shift);
    } else {
      LowerBytes(a, from, size, typeShift, bitOffset, shift);
    }
    Fill(a, from + size - typeShift, from + size);
    forall k | size - typeShift <= k < size ensures LoweredByte(s, shift, k) == ZERO {
      LoweredEnd(s, shift, k);
    }
    assert forall k | 0 <= k < size :: a[from + k] == LoweredByte(s, shift, k);
  }

  /** The loop of the left shift for a shift by whole bytes. */
  method RaiseWholeBytes(a: array<Byte>, from: nat, size: nat, q: nat, ghost shift: nat)
    requires from + size <= a.Length && 0 < q <= size && shift == 8 * q
    modifies a
    ensures forall k | 0 <= k < a.Length ::
        a[k] == if from + q <= k < from + size then RaisedByte(old(a[from..from + size]), shift, k - from)
            else old(a[k])
  {
    ghost var s := a[from..from + size];
    var i := size - 1;
    while i >= q
      invariant q - 1 <= i < size
      invariant forall k | 0 <= k < a.Length ::
          a[k] == if from + i < k < from + size then RaisedByte(s, shift, k - from) else old(a[k])
    {
      RaisedFrom(s, shift, i, q, 0);
      a[from + i] := a[from + i - q];
      i := i - 1;
    }
  }

  /** The bytes from `n` to `size`, counted from position `from`, have been shifted. */
  predicate RaisedTo(now: seq<Byte>, was: seq<Byte>, from: nat, size: nat, s: seq<Byte>, shift: nat, n: nat) {
    && |now| == |was|
    && forall k | 0 <= k < |was| :: now[k] == if from + n <= k < from + size then RaisedByte(s, shift, k - from)
       else was[k]
  }

  lemma {:induction false} RaisedNext(now: seq<Byte>, was: seq<Byte>, from: nat, size: nat, s: seq<Byte>, shift: nat,
                                      n: nat)
    requires RaisedTo(now, was, from, size, s, shift, n + 1) && n < size && from + size <= |was|
    ensures RaisedTo(now[from + n := RaisedByte(s, shift, n)], was, from, size, s, shift, n)
  {
  }

  /** The body of the loop. */
  method RaiseByte(a: array<Byte>, from: nat, size: nat, i: nat, q: nat, r: nat, subBitOffset: nat, ghost shift: nat,
                   ghost was: seq<Byte>, ghost s: seq<Byte>)
    requires from + size <= |was| && q < i < size && 0 < r < 8 && subBitOffset == 8 - r && shift == 8 * q + r
    requires s == was[from..from + size] && RaisedTo(a[..], was, from, size, s, shift, i + 1)
    modifies a
    ensures RaisedTo(a[..], was, from, size, s, shift, i)
  {
    assert a[..][from + i - q] == s[i - q] && a[..][from + i - q - 1] == s[i - q - 1];
    RaisedFrom(s, shift, i, q, r);
    RaisedNext(a[..], was, from, size, s, shift, i);
    a[from + i] := Or(Up(a[from + i - q], r), Down(a[from + i - q - 1], subBitOffset));
  }

  /** The loop of the left shift for a shift by `q` bytes and `r` bits, and its first byte. */
  method RaiseBytes(a: array<Byte>, from: nat, size: nat, q: nat, r: nat, ghost shift: nat)
    requires from + size <= a.Length && q < size && 0 < r < 8 && shift == 8 * q + r
    modifies a
    ensures RaisedTo(a[..], old(a[..]), from, size, old(a[from..from + size]), shift, q)
  {
    ghost var was, s := a[..], a[from..from + size];
    var subBitOffset := 8 - r;
    var i := size - 1;
    while i > q
      invariant q <= i < size && RaisedTo(a[..], was, from, size, s, shift, i + 1)
    {
      RaiseByte(a, from, size, i, q, r, subBitOffset, shift, was, s);
      i := i - 1;
    }
    assert a[..][from] == s[0];
    RaisedFrom(s, shift, q, q, r);
    RaisedNext(a[..], was, from, size, s, shift, q);
    a[from + q] := Up(a[from], r);
  }

  /** A left shift of `size` bytes from position `from` on.  Without a shift, the first source loop counts
      below zero and wraps around; a shift by more than the size fills beyond the end. */
  method DoLeftShift(a: array<Byte>, from: nat, size: nat, shift: nat)
    requires from + size <= a.Length && 0 < shift <= 8 * size
    modifies a
    ensures Became(a, from, size, Raised(old(a[from..from + size]), shift))
  {
    ghost var s := a[from..from + size];
    EightTimes(shift);
    var typeShift, bitOffset := shift / 8, shift % 8;
    if bitOffset == 0 {
      RaiseWholeBytes(a, from, size, typeShift, shift);
    } else {
      RaiseBytes(a, from, size, typeShift, bitOffset, shift);
    }
    Fill(a, from, from + typeShift);
    forall k | 0 <= k < typeShift ensures RaisedByte(s, shift, k) == ZERO {
      RaisedStart(s, shift, k);
    }
    assert forall k | 0 <= k < size :: a[from + k] == RaisedByte(s, shift, k);
  }
}
