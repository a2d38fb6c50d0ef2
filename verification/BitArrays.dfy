/**
  Bit arrays and the removal of a range of bits
  (libbinom/source/binom_impl/ram_storage_implementation/bit_array_impl.cxx).
 */
module BitArrays {
  import opened Bits

  /** calculateByteSize. */
  function ByteSize(bits: nat): nat {
    (bits + 7) / 8
  }

  /** The bits without `count` bits from `at` on. */
  function CutOut<T>(b: seq<T>, at: nat, count: nat): seq<T> {
    if at >= |b| then b
    else if at + count >= |b| then b[..at]
    else b[..at] + b[at + count..]
  }

  /** The bits of it, position by position: a range that begins behind the end takes nothing away, and one that reaches
      the end takes everything from its begin on. */
  lemma {:induction false} CutOutAt<T>(b: seq<T>, at: nat, count: nat, i: nat)
    ensures |CutOut(b, at, count)|
         == if at >= |b| then |b| else if |b| - at <= count then at else |b| - count
    ensures i < |CutOut(b, at, count)| ==>
              if i < at || at >= |b| then i < |b| && CutOut(b, at, count)[i] == b[i]
              else i + count < |b| && CutOut(b, at, count)[i] == b[i + count]
  {
  }

  /** The removals for which the shift of the following bytes stays inside of them. */
  predicate InReach(bits: nat, at: nat, count: nat) {
    || at + count >= bits
    || at % 8 == 0
    || (at + count) / 8 + 1 < ByteSize(bits)
    || (at + count) % 8 < at % 8
  }

  /** Where the bytes behind an unaligned range are enough for the shift. */
  lemma {:induction false} ReachIs(bits: nat, at: nat, count: nat)
    requires at + count < bits && at % 8 != 0
    ensures InReach(bits, at, count) <==> count / 8 < ByteSize(bits) - at / 8 - 1
  {
  }

  /** Inside the last byte, only a removal from its first bit on is in reach. */
  lemma {:induction false} InsideLastByte(bits: nat, at: nat, count: nat)
    requires at + count < bits && at / 8 + 1 == ByteSize(bits)
    ensures InReach(bits, at, count) <==> at % 8 == 0
  {
    assert (at + count) / 8 == at / 8;
    assert (at + count) % 8 == at % 8 + count;
  }

  // ---------------------------------------------- the byte in which the removed range begins

  /** The range ends in or right behind the byte. */
  function EndsInByte(x: Byte, y: Byte, r: nat, count: nat): Byte
    requires r + count <= 8
  {
    Or(Or(Set0From(x, r), Set0Before(Down(x, count), r)), Up(y, 8 - count))
  }

  /** The range ends in a byte `e` further to the right than it begins in `x`. */
  function EndsFurtherRight(x: Byte, e: Byte, y: Byte, r: nat, er: nat): Byte
    requires r < er < 8
  {
    Or(Or(Set0From(x, r), Down(Set0Before(e, er), er - r)), Up(y, 8 - (er - r)))
  }

  function EndsFurtherLeft(x: Byte, e: Byte, r: nat, er: nat): Byte
    requires er <= r < 8
  {
    Or(Set0From(x, r), Up(Set0Before(e, er), r - er))
  }

  lemma {:induction false} EndsInByteIs(x: Byte, y: Byte, r: nat, count: nat, j: nat)
    requires r + count <= 8 && j < 8
    ensures EndsInByte(x, y, r, count)[j] == if j < r then x[j] else if j + count < 8 then x[j + count]
            else y[j + count - 8]
  {
  }

  lemma {:induction false} EndsFurtherRightIs(x: Byte, e: Byte, y: Byte, r: nat, er: nat, j: nat)
    requires r < er < 8 && j < 8
    ensures EndsFurtherRight(x, e, y, r, er)[j]
         == if j < r then x[j] else if j + er - r < 8 then e[j + er - r] else y[j + er - r - 8]
  {
  }

  lemma {:induction false} EndsFurtherLeftIs(x: Byte, e: Byte, r: nat, er: nat, j: nat)
    requires er <= r < 8 && j < 8
    ensures EndsFurtherLeft(x, e, r, er)[j] == if j < r then x[j] else e[j + er - r]
  {
  }

  /** Byte `b` after the removal of `count` bits from its bit `r` on, where the range ends at bit `er` of
      byte `e`. */
  function BeginByte(s: seq<Byte>, b: nat, r: nat, e: nat, er: nat, count: nat): Byte
    requires r < 8 && er < 8 && b + 1 < |s| && (if r < er then e + 1 < |s| else e < |s|)
  {
    if 8 - r >= count then EndsInByte(s[b], s[b + 1], r, count)
    else if 8 - r > 8 - er then EndsFurtherRight(s[b], s[e], s[e + 1], r, er)
    else EndsFurtherLeft(s[b], s[e], r, er)
  }

  /** Bit by bit, whichever case it is. */
  lemma {:induction false} BeginByteIs(s: seq<Byte>, b: nat, r: nat, e: nat, er: nat, count: nat, j: nat)
    requires r < 8 && er < 8 && b + 1 < |s| && (if r < er then e + 1 < |s| else e < |s|)
    requires 8 * b + r + count == 8 * e + er && j < 8
    ensures BeginByte(s, b, r, e, er, count)[j] == if j < r then s[b][j] else Bit(s, 8 * b + j + count)
  {
    if 8 - r >= count {
      EndsInByteIs(s[b], s[b + 1], r, count, j);
      BitAt(s, 8 * b + j + count, b, j + count);
    } else {
      var d := j + er - r;
      if r < er {
        EndsFurtherRightIs(s[b], s[e], s[e + 1], r, er, j);
      } else {
        EndsFurtherLeftIs(s[b], s[e], r, er, j);
      }
      if j >= r {
        BitAt(s, 8 * b + j + count, e, d);
      }
    }
  }

  lemma {:induction false} BitAt(s: seq<Byte>, p: nat, i: nat, d: nat)
    requires p == 8 * i + d && d < 16
    ensures Bit(s, p) == if d < 8 then i < |s| && s[i][d] else i + 1 < |s| && s[i + 1][d - 8]
  {
    if d < 8 {
      BitIs(s, i, d);
    } else {
      BitIs(s, i + 1, d - 8);
    }
  }

  // ------------------------------------------------------------------------------- all the bytes

  /** The bytes `b..n` lowered by `count` bits. */
  function LoweredTail(s: seq<Byte>, b: nat, n: nat, count: nat): seq<Byte>
    requires b <= n <= |s|
  {
    s[..b] + Lowered(s[b..n], count) + s[n..]
  }

  lemma {:induction false} LoweredTailBit(s: seq<Byte>, b: nat, n: nat, count: nat, i: nat, j: nat)
    requires b <= n <= |s| && i < n && j < 8
    ensures LoweredTail(s, b, n, count)[i][j] ==
              if i < b then s[i][j] else 8 * i + j + count < 8 * n && Bit(s, 8 * i + j + count)
  {
    if i >= b {
      var t := s[b..n];
      var p := 8 * (i - b) + j + count;
      assert LoweredTail(s, b, n, count)[i] == LoweredByte(t, count, i - b);
      SliceBit(s, b, n, p, p / 8, p % 8);
    }
  }

  lemma {:induction false} SliceBit(s: seq<Byte>, b: nat, n: nat, p: nat, q: nat, d: nat)
    requires b <= n <= |s| && p == 8 * q + d && d < 8
    ensures Bit(s[b..n], p) == (8 * b + p < 8 * n && Bit(s, 8 * b + p))
  {
    BitIs(s[b..n], q, d);
    assert 8 * b + p == 8 * (b + q) + d;
    BitIs(s, b + q, d);
  }

  /** All bytes after a removal, `n` of them in use. */
  function Removed(s: seq<Byte>, n: nat, at: nat, count: nat): seq<Byte>
    requires n <= |s| && at + count < 8 * n
    requires at % 8 == 0 || (at + count) / 8 + 1 < n || (at + count) % 8 < at % 8
  {
    var b := at / 8;
    if at % 8 == 0 then LoweredTail(s, b, n, count)
    else
      LoweredTail(s[b := BeginByte(s, b, at % 8, (at + count) / 8, (at + count) % 8, count)], b + 1, n, count)
  }

  lemma {:induction false} RemovedBit(s: seq<Byte>, n: nat, at: nat, count: nat, i: nat, j: nat)
    requires n <= |s| && at + count < 8 * n
    requires at % 8 == 0 || (at + count) / 8 + 1 < n || (at + count) % 8 < at % 8
    requires j < 8 && 8 * i + j + count < 8 * n
    ensures |Removed(s, n, at, count)| == |s|
    ensures Removed(s, n, at, count)[i][j] == if 8 * i + j < at then s[i][j] else Bit(s, 8 * i + j + count)
  {
    var b, r := at / 8, at % 8;
    EightTimes(at);
    EightTimes(at + count);
    if r == 0 {
      LoweredTailBit(s, b, n, count, i, j);
    } else {
      RemovedInside(s, n, b, r, (at + count) / 8, (at + count) % 8, count, i, j);
    }
  }

  lemma {:induction false} RemovedInside(s: seq<Byte>, n: nat, b: nat, r: nat, e: nat, er: nat, count: nat, i: nat,
                                         j: nat)
    requires n <= |s| && 8 * b + r + count == 8 * e + er && 0 < r < 8 && er < 8 && e < n
    requires e + 1 < n || er < r
    requires j < 8 && 8 * i + j + count < 8 * n
    ensures LoweredTail(s[b := BeginByte(s, b, r, e, er, count)], b + 1, n, count)[i][j]
         == if 8 * i + j < 8 * b + r then s[i][j] else Bit(s, 8 * i + j + count)
  {
    var t := s[b := BeginByte(s, b, r, e, er, count)];
    LoweredTailBit(t, b + 1, n, count, i, j);
    if i == b {
      BeginByteIs(s, b, r, e, er, count, j);
    } else if i > b {
      var p := 8 * i + j + count;
      EightTimes(p);
      OtherByte(s, b, t[b], p, p / 8, p % 8);
    }
  }

  lemma {:induction false} OtherByte(s: seq<Byte>, b: nat, x: Byte, p: nat, q: nat, d: nat)
    requires b < |s| && p == 8 * q + d && d < 8 && q != b
    ensures Bit(s[b := x], p) == Bit(s, p)
  {
    BitIs(s, q, d);
    BitIs(s[b := x], q, d);
  }

  /** The first `n` bits. */
  function FirstBits(s: seq<Byte>, n: nat): seq<bool> {
    seq(n, p requires 0 <= p < n => Bit(s, p))
  }

  lemma {:induction false} RemovedBitAt(s: seq<Byte>, n: nat, at: nat, count: nat, p: nat)
    requires n <= |s| && at + count < 8 * n && p + count < 8 * n
    requires at % 8 == 0 || (at + count) / 8 + 1 < n || (at + count) % 8 < at % 8
    ensures Bit(Removed(s, n, at, count), p) == Bit(s, if p < at then p else p + count)
  {
    EightTimes(p);
    RemovedBit(s, n, at, count, p / 8, p % 8);
    SplitBit(Removed(s, n, at, count), p, p / 8, p % 8);
    SplitBit(s, p, p / 8, p % 8);
  }

  lemma {:induction false} SplitBit(s: seq<Byte>, p: nat, i: nat, j: nat)
    requires p == 8 * i + j && j < 8
    ensures Bit(s, p) == (i < |s| && s[i][j])
  {
    BitIs(s, i, j);
  }

  lemma {:induction false} WithoutIs<T>(a: seq<T>, b: seq<T>, at: nat, count: nat)
    requires at + count < |a| && |b| == |a| - count
    requires forall p | 0 <= p < |b| :: b[p] == a[if p < at then p else p + count]
    ensures b == CutOut(a, at, count)
  {
    assert b[..at] == a[..at] && b[at..] == a[at + count..];
  }

  lemma {:induction false} BitsWithout(s: seq<Byte>, t: seq<Byte>, size: nat, at: nat, count: nat)
    requires at + count < size
    requires forall p | 0 <= p < size - count :: Bit(t, p) == Bit(s, if p < at then p else p + count)
    ensures FirstBits(t, size - count) == CutOut(FirstBits(s, size), at, count)
  {
    var a, b := FirstBits(s, size), FirstBits(t, size - count);
    forall p | 0 <= p < |b| ensures b[p] == a[if p < at then p else p + count] {
      assert Bit(t, p) == Bit(s, if p < at then p else p + count);
    }
    WithoutIs(a, b, at, count);
  }

  /** The bytes after a removal hold the other bits, in order. */
  lemma {:induction false} RemovedBits(s: seq<Byte>, size: nat, at: nat, count: nat)
    requires at + count < size && ByteSize(size) <= |s| && InReach(size, at, count)
    ensures FirstBits(Removed(s, ByteSize(size), at, count), size - count) == CutOut(FirstBits(s, size), at, count)
  {
    var n := ByteSize(size);
    forall p | 0 <= p < size - count
      ensures Bit(Removed(s, n, at, count), p) == Bit(s, if p < at then p else p + count)
    {
      RemovedBitAt(s, n, at, count, p);
    }
    BitsWithout(s, Removed(s, n, at, count), size, at, count);
  }

  lemma {:induction false} Reassembled(s: seq<Byte>, t: seq<Byte>, b: nat, n: nat, count: nat)
    requires b <= n <= |s| == |t|
    requires t[..b] == s[..b] && t[b..n] == Lowered(s[b..n], count) && t[n..] == s[n..]
    ensures t == LoweredTail(s, b, n, count)
  {
    assert t == t[..b] + t[b..n] + t[n..];
  }

  class BitArray {
    var bitSize: nat
    const data: array<Byte>

    ghost predicate Valid()
      reads this
    {
      ByteSize(bitSize) <= data.Length
    }

    /** The bits of the array, in order. */
    ghost function Contents(): seq<bool>
      reads this, data
    {
      FirstBits(data[..], bitSize)
    }

    constructor (bits: seq<bool>)
      ensures Valid() && fresh(data) && Contents() == bits
    {
      bitSize := |bits|;
      data := new Byte[ByteSize(|bits|)](i requires 0 <= i => seq(8, j requires 0 <= j < 8 => 8 * i + j < |bits|
              && bits[8 * i + j]));
      new;
      forall p | 0 <= p < |bits| ensures Bit(data[..], p) == bits[p] {
        EightTimes(p);
        BitIs(data[..], p / 8, p % 8);
      }
    }

    method ReduceSize(count: nat)
      modifies this`bitSize
      ensures bitSize == if count <= old(bitSize) then old(bitSize) - count else 0
    {
      if count <= bitSize {
        bitSize := bitSize - count;
      } else {
        bitSize := 0;
      }
    }

    /** The byte in which the range begins, and the bytes behind it; false where these are too few for the
        shift. */
    method ShiftDown(at: nat, count: nat) returns (ok: bool)
      requires Valid() && at + count < bitSize
      modifies data
      ensures ok <==> InReach(bitSize, at, count)
      ensures ok ==> data[..] == Removed(old(data[..]), ByteSize(bitSize), at, count)
    {
      ghost var s := data[..];
      var n := ByteSize(bitSize);
      var b, r := at / 8, at % 8;
      var e, er := (at + count) / 8, (at + count) % 8;
      EightTimes(at);
      EightTimes(at + count);
      if r == 0 {
        DoRightShift(data, b, n - b, count);
        Reassembled(s, data[..], b, n, count);
        return true;
      }
      ReachIs(bitSize, at, count);
      if count / 8 >= n - b - 1 { return false; }
      ShiftInside(n, b, r, e, er, count);
      return true;
    }

    /** The byte in which an unaligned range begins, and the bytes behind it. */
    method ShiftInside(n: nat, b: nat, r: nat, e: nat, er: nat, count: nat)
      requires n <= data.Length && 0 < r < 8 && er < 8 && 8 * b + r + count == 8 * e + er && e < n
      requires count / 8 < n - b - 1
      modifies data
      ensures data[..] == LoweredTail(old(data[..])[b := BeginByte(old(data[..]), b, r, e, er, count)], b + 1, n, count)
    {
      ghost var s := data[..];
      data[b] := if 8 - r >= count then EndsInByte(data[b], data[b + 1], r, count)
                 else if 8 - r > 8 - er then EndsFurtherRight(data[b], data[e], data[e + 1], r, er)
                 else EndsFurtherLeft(data[b], data[e], r, er);
      ghost var t := data[..];
      assert t == s[b := BeginByte(s, b, r, e, er, count)];
      DoRightShift(data, b + 1, n - b - 1, count);
      Reassembled(t, data[..], b + 1, n, count);
    }

    /** Removes `count` bits from position `at` on; false where the source shifts outside of its bytes. */
    method RemoveBits(at: nat, count: nat) returns (ok: bool)
      requires Valid()
      modifies this`bitSize, data
      ensures ok <==> InReach(old(bitSize), at, count)
      ensures at + count >= old(bitSize) || at % 8 == 0 ==> ok
      ensures at + count < old(bitSize) && at % 8 != 0 ==>
                (ok <==> (at + count) / 8 + 1 < (old(bitSize) + 7) / 8 || (at + count) % 8 < at % 8)
      ensures ok ==> Valid() && Contents() == CutOut(old(Contents()), at, count)
    {
      if at >= bitSize { return true; }
      if at + count >= bitSize {
        ReduceSize(count - (count - (bitSize - at)));
        return true;
      }
      ghost var s, size := data[..], bitSize;
      ok := ShiftDown(at, count);
      if ok {
        ReduceSize(count);
        RemovedBits(s, size, at, count);
      }
    }
  }
}
