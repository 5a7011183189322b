/**
  Little-endian bit codec of the player editor: reading and writing an
  unsigned value of `numBits` bits starting at an arbitrary bit position of a
  byte buffer. Bit `p` of the buffer is bit `p % 8` (least significant first)
  of byte `p / 8`; bits past the end of the buffer read as 0 and writes to
  them are dropped, so the buffer never grows.
 */
module BitCodec {

  /** An element of a Python `bytearray`. */
  type byte = x: int | 0 <= x < 256

  function Pow2(n: nat): (r: nat)
    ensures r >= 1
  {
    if n == 0 then 1 else 2 * Pow2(n - 1)
  }

  lemma {:induction false} Pow2Monotonic(a: nat, b: nat)
    requires a < b
    ensures Pow2(a) < Pow2(b)
    decreases b
  {
    if a < b - 1 {
      Pow2Monotonic(a, b - 1);
    }
  }

  /** Bit `i` of an unsigned integer (Python `(v >> i) & 1`). */
  function NatBit(v: nat, i: nat): (r: nat)
    ensures r <= 1
  {
    if i == 0 then v % 2 else NatBit(v / 2, i - 1)
  }

  /** Python `a | b` on non-negative integers, one bit at a time. */
  function BitOr(a: nat, b: nat): (r: nat)
    decreases a + b
  {
    if a == 0 && b == 0 then 0
    else 2 * BitOr(a / 2, b / 2) + (if a % 2 == 1 || b % 2 == 1 then 1 else 0)
  }

  /** Python `a & ~b` on non-negative integers: the bits of `a` that are not set in `b`. */
  function BitAndNot(a: nat, b: nat): (r: nat)
    ensures r <= a
  {
    if a == 0 then 0
    else 2 * BitAndNot(a / 2, b / 2) + (if a % 2 == 1 && b % 2 == 0 then 1 else 0)
  }

  /** `v | (1 << i)` adds `2^i` to a value below `2^i`: the step of the read loop. */
  lemma {:induction false} BitOrAddsBit(v: nat, i: nat)
    requires v < Pow2(i)
    ensures BitOr(v, Pow2(i)) == v + Pow2(i)
  {
    if i > 0 {
      BitOrAddsBit(v / 2, i - 1);
      assert Pow2(i) / 2 == Pow2(i - 1) && Pow2(i) % 2 == 0;
    }
  }

  lemma {:induction false} NatBitZero(i: nat)
    ensures NatBit(0, i) == 0
  {
    if i > 0 {
      NatBitZero(i - 1);
    }
  }

  /** `1 << k` has bit `k` and no other. */
  lemma {:induction false} Pow2Bit(k: nat, i: nat)
    ensures NatBit(Pow2(k), i) == if i == k then 1 else 0
  {
    if k == 0 {
      if i > 0 {
        NatBitZero(i - 1);
      }
    } else if i > 0 {
      Pow2Bit(k - 1, i - 1);
    }
  }

  /** A bit of `a | b` is set exactly when it is set in `a` or in `b`. */
  lemma {:induction false} BitOrBit(a: nat, b: nat, i: nat)
    ensures NatBit(BitOr(a, b), i) == if NatBit(a, i) == 1 || NatBit(b, i) == 1 then 1 else 0
    decreases i
  {
    if a == 0 && b == 0 {
      NatBitZero(i);
    } else if i > 0 {
      BitOrBit(a / 2, b / 2, i - 1);
    }
  }

  /** A bit of `a & ~b` is set exactly when it is set in `a` and not in `b`. */
  lemma {:induction false} BitAndNotBit(a: nat, b: nat, i: nat)
    ensures NatBit(BitAndNot(a, b), i) == if NatBit(a, i) == 1 && NatBit(b, i) == 0 then 1 else 0
    decreases i
  {
    if a == 0 {
      NatBitZero(i);
    } else if i > 0 {
      BitAndNotBit(a / 2, b / 2, i - 1);
    }
  }

  /** `a | b` of two `n`-bit values is an `n`-bit value. */
  lemma {:induction false} BitOrBelow(a: nat, b: nat, n: nat)
    requires a < Pow2(n) && b < Pow2(n)
    ensures BitOr(a, b) < Pow2(n)
  {
    if n > 0 && !(a == 0 && b == 0) {
      BitOrBelow(a / 2, b / 2, n - 1);
    }
  }

  /** Two `n`-bit values with the same bits are equal. */
  lemma {:induction false} NatBitsUnique(x: nat, y: nat, n: nat)
    requires x < Pow2(n) && y < Pow2(n)
    requires forall i :: 0 <= i < n ==> NatBit(x, i) == NatBit(y, i)
    ensures x == y
  {
    if n > 0 {
      assert NatBit(x, 0) == NatBit(y, 0);
      forall i | 0 <= i < n - 1
        ensures NatBit(x / 2, i) == NatBit(y / 2, i)
      {
        assert NatBit(x, i + 1) == NatBit(y, i + 1);
      }
      NatBitsUnique(x / 2, y / 2, n - 1);
    }
  }

  /** `b | (1 << k)` on a byte. */
  function SetByteBit(b: byte, k: nat): (r: byte)
    requires k < 8
  {
    assert Pow2(8) == 256;
    Pow2Monotonic(k, 8);
    BitOrBelow(b, Pow2(k), 8);
    BitOr(b, Pow2(k))
  }

  /** `b & ~(1 << k)` on a byte. */
  function ClearByteBit(b: byte, k: nat): (r: byte)
    requires k < 8
  {
    BitAndNot(b, Pow2(k))
  }

  /** Setting or clearing bit `k` of a byte changes bit `k` only. */
  lemma ByteBitUpdate(x: byte, k: nat, one: bool, j: nat)
    requires k < 8
    ensures NatBit(if one then SetByteBit(x, k) else ClearByteBit(x, k), j)
         == if j == k then (if one then 1 else 0) else NatBit(x, j)
  {
    Pow2Bit(k, j);
    if one {
      BitOrBit(x, Pow2(k), j);
    } else {
      BitAndNotBit(x, Pow2(k), j);
    }
  }

  /** `_get_bit`: bit `bitIndex` of the buffer, 0 past its end. */
  function GetBit(data: seq<byte>, bitIndex: nat): (r: nat)
    ensures r <= 1
    ensures bitIndex >= 8 * |data| ==> r == 0
  {
    if bitIndex / 8 >= |data| then 0 else NatBit(data[bitIndex / 8], bitIndex % 8)
  }

  /**
    The value of the `n` bits starting at `start`, least significant first:
    the specification of the read loop.
   */
  function BitsValue(data: seq<byte>, start: nat, n: nat): (r: nat)
    ensures r < Pow2(n)
    decreases n
  {
    if n == 0 then 0 else GetBit(data, start) + 2 * BitsValue(data, start + 1, n - 1)
  }

  /** Bit `i` of the value read is the buffer's bit `start + i`. */
  lemma {:induction false} BitsValueBit(data: seq<byte>, start: nat, n: nat, i: nat)
    requires i < n
    ensures NatBit(BitsValue(data, start, n), i) == GetBit(data, start + i)
    decreases n
  {
    var g, t := GetBit(data, start), BitsValue(data, start + 1, n - 1);
    assert BitsValue(data, start, n) == g + 2 * t;
    if i == 0 {
      assert (g + 2 * t) % 2 == g;
    } else {
      assert (g + 2 * t) / 2 == t;
      BitsValueBit(data, start + 1, n - 1, i - 1);
    }
  }

  /**
    A value below 2^n whose bits agree with the buffer's bits is the value
    read: the bits determine the result uniquely.
   */
  lemma {:induction false} BitsValueUnique(data: seq<byte>, start: nat, n: nat, v: nat)
    requires v < Pow2(n)
    requires forall i :: 0 <= i < n ==> NatBit(v, i) == GetBit(data, start + i)
    ensures BitsValue(data, start, n) == v
    decreases n
  {
    if n > 0 {
      assert NatBit(v, 0) == GetBit(data, start);
      forall i | 0 <= i < n - 1
        ensures NatBit(v / 2, i) == GetBit(data, start + 1 + i)
      {
        assert NatBit(v, i + 1) == GetBit(data, start + (i + 1));
      }
      BitsValueUnique(data, start + 1, n - 1, v / 2);
    }
  }

  /** The value read depends only on the bits in its range. */
  lemma {:induction false} BitsValueFrame(a: seq<byte>, b: seq<byte>, start: nat, n: nat)
    requires forall q: nat :: start <= q < start + n ==> GetBit(a, q) == GetBit(b, q)
    ensures BitsValue(a, start, n) == BitsValue(b, start, n)
    decreases n
  {
    if n > 0 {
      BitsValueFrame(a, b, start + 1, n - 1);
    }
  }

  /** Reading one more bit adds that bit at weight 2^n: the step of the read loop. */
  lemma {:induction false} BitsValueSnoc(data: seq<byte>, start: nat, n: nat)
    ensures BitsValue(data, start, n + 1)
         == BitsValue(data, start, n) + if GetBit(data, start + n) == 1 then Pow2(n) else 0
    decreases n
  {
    if n > 0 {
      var b := GetBit(data, start + n);
      var rest := BitsValue(data, start + 1, n - 1);
      var rest1 := BitsValue(data, start + 1, n);
      BitsValueSnoc(data, start + 1, n - 1);
      assert start + 1 + (n - 1) == start + n;
      assert Pow2(n) == 2 * Pow2(n - 1);
      if b == 1 {
        assert rest1 == rest + Pow2(n - 1);
      } else {
        assert rest1 == rest;
      }
    }
  }

  /** `_read_value_from_bits_little_endian`. */
  method ReadBits(data: seq<byte>, startBit: nat, numBits: nat) returns (value: nat)
    ensures value == BitsValue(data, startBit, numBits)
    ensures value < Pow2(numBits)
    ensures forall i :: 0 <= i < numBits ==> NatBit(value, i) == GetBit(data, startBit + i)
  {
    value := 0;
    for i := 0 to numBits
      invariant value == BitsValue(data, startBit, i)
    {
      BitsValueSnoc(data, startBit, i);
      if GetBit(data, startBit + i) == 1 {
        BitOrAddsBit(value, i);
        value := BitOr(value, Pow2(i));
      }
    }
    forall i | 0 <= i < numBits
      ensures NatBit(value, i) == GetBit(data, startBit + i)
    {
      BitsValueBit(data, startBit, numBits, i);
    }
  }

  /** Sets (`one`) or clears bit `p` of the buffer; a bit past the end is left alone. */
  function SetBit(data: seq<byte>, p: nat, one: bool): (r: seq<byte>)
    ensures |r| == |data|
  {
    if p / 8 < |data| then
      data[p / 8 := if one then SetByteBit(data[p / 8], p % 8) else ClearByteBit(data[p / 8], p % 8)]
    else
      data
  }

  /** Setting or clearing one bit of the buffer changes that bit alone. */
  lemma SetBitAt(data: seq<byte>, p: nat, one: bool, q: nat)
    ensures GetBit(SetBit(data, p, one), q)
         == if q == p && p / 8 < |data| then (if one then 1 else 0) else GetBit(data, q)
  {
    var r := SetBit(data, p, one);
    var i, j := p / 8, q / 8;
    if i < |data| {
      if j == i {
        assert q % 8 == p % 8 <==> q == p;
        ByteBitUpdate(data[i], p % 8, one, q % 8);
      } else if j < |data| {
        assert r[j] == data[j];
      }
    }
  }

  /**
    The buffer after writing the low `n` bits of `v` at bit `start`: the
    specification of the write loops, defined one bit at a time.
   */
  function Written(data: seq<byte>, start: nat, n: nat, v: nat): (r: seq<byte>)
    ensures |r| == |data|
  {
    if n == 0 then data
    else SetBit(Written(data, start, n - 1, v), start + n - 1, NatBit(v, n - 1) == 1)
  }

  /**
    Bit isolation: a write changes exactly the target bits that lie inside
    the buffer, each to the matching bit of the value; every other bit keeps
    its value.
   */
  lemma {:induction false} WrittenBit(data: seq<byte>, start: nat, n: nat, v: nat, q: nat)
    ensures GetBit(Written(data, start, n, v), q)
         == if start <= q < start + n && q / 8 < |data| then NatBit(v, q - start) else GetBit(data, q)
  {
    if n > 0 {
      var prev := Written(data, start, n - 1, v);
      var b := NatBit(v, n - 1);
      SetBitAt(prev, start + n - 1, b == 1, q);
      WrittenBit(data, start, n - 1, v, q);
      if q == start + n - 1 && q / 8 < |data| {
        assert GetBit(Written(data, start, n, v), q) == b;
      } else {
        assert GetBit(Written(data, start, n, v), q) == GetBit(prev, q);
      }
    }
  }

  /** Two buffers of the same length with the same bits are equal. */
  lemma BitExtensionality(a: seq<byte>, b: seq<byte>)
    requires |a| == |b|
    requires forall q: nat :: GetBit(a, q) == GetBit(b, q)
    ensures a == b
  {
    assert Pow2(8) == 256;
    forall j | 0 <= j < |a|
      ensures a[j] == b[j]
    {
      forall k | 0 <= k < 8
        ensures NatBit(a[j], k) == NatBit(b[j], k)
      {
        assert GetBit(a, 8 * j + k) == GetBit(b, 8 * j + k);
      }
      NatBitsUnique(a[j], b[j], 8);
    }
  }

  /**
    Round trip: when the whole range lies inside the buffer, reading it back
    after a write of a value that fits in `n` bits gives that value.
   */
  lemma WrittenRoundTrip(data: seq<byte>, start: nat, n: nat, v: nat)
    requires start + n <= 8 * |data|
    requires v < Pow2(n)
    ensures BitsValue(Written(data, start, n, v), start, n) == v
  {
    forall i | 0 <= i < n
      ensures NatBit(v, i) == GetBit(Written(data, start, n, v), start + i)
    {
      WrittenBit(data, start, n, v, start + i);
    }
    BitsValueUnique(Written(data, start, n, v), start, n, v);
  }

  /** `d` is `before` with target bits `[start, start + i)` that lie in the buffer cleared. */
  ghost predicate ClearedUpTo(d: seq<byte>, before: seq<byte>, start: nat, i: nat) {
    && |d| == |before|
    && forall q: nat :: GetBit(d, q) ==
                        if start <= q < start + i && q / 8 < |before| then 0 else GetBit(before, q)
  }

  /** `d` is `cleared` with target bits `[start, start + i)` that lie in the buffer set from `v`. */
  ghost predicate SetUpTo(d: seq<byte>, cleared: seq<byte>, start: nat, i: nat, v: nat) {
    && |d| == |cleared|
    && forall q: nat :: GetBit(d, q) ==
                        if start <= q < start + i && q / 8 < |cleared| then NatBit(v, q - start)
                        else GetBit(cleared, q)
  }

  /** One iteration of the clearing loop clears one more target bit. */
  lemma ClearStep(before: seq<byte>, cur: seq<byte>, start: nat, i: nat)
    requires ClearedUpTo(cur, before, start, i)
    ensures ClearedUpTo(SetBit(cur, start + i, false), before, start, i + 1)
  {
    var next := SetBit(cur, start + i, false);
    forall q: nat
      ensures GetBit(next, q) ==
              if start <= q < start + (i + 1) && q / 8 < |before| then 0 else GetBit(before, q)
    {
      assert GetBit(cur, q) == if start <= q < start + i && q / 8 < |before| then 0 else GetBit(before, q);
      SetBitAt(cur, start + i, false, q);
    }
    assert |next| == |before|;
  }

  /** One iteration of the setting loop copies one more bit of the value. */
  lemma SetStep(before: seq<byte>, cleared: seq<byte>, cur: seq<byte>, start: nat, n: nat, i: nat, v: nat)
    requires i < n
    requires ClearedUpTo(cleared, before, start, n)
    requires SetUpTo(cur, cleared, start, i, v)
    ensures SetUpTo(if NatBit(v, i) == 1 then SetBit(cur, start + i, true) else cur, cleared, start, i + 1, v)
  {
    var next := if NatBit(v, i) == 1 then SetBit(cur, start + i, true) else cur;
    forall q: nat
      ensures GetBit(next, q) ==
              if start <= q < start + (i + 1) && q / 8 < |cleared| then NatBit(v, q - start)
              else GetBit(cleared, q)
    {
      SetStepAt(before, cleared, cur, start, n, i, v, q);
    }
    assert |next| == |cleared|;
  }

  /** `SetStep` for one buffer bit `q`. */
  lemma SetStepAt(before: seq<byte>, cleared: seq<byte>, cur: seq<byte>, start: nat, n: nat, i: nat, v: nat, q: nat)
    requires i < n
    requires ClearedUpTo(cleared, before, start, n)
    requires SetUpTo(cur, cleared, start, i, v)
    ensures GetBit(if NatBit(v, i) == 1 then SetBit(cur, start + i, true) else cur, q) ==
            if start <= q < start + (i + 1) && q / 8 < |cleared| then NatBit(v, q - start)
            else GetBit(cleared, q)
  {
    var p := start + i;
    assert GetBit(cur, q) ==
           if start <= q < p && q / 8 < |cleared| then NatBit(v, q - start) else GetBit(cleared, q);
    if NatBit(v, i) == 1 {
      SetBitAt(cur, p, true, q);
    } else if q == p && q / 8 < |cleared| {
      assert GetBit(cleared, q) ==
             if start <= q < start + n && q / 8 < |before| then 0 else GetBit(before, q);
    }
  }

  /** Clearing the whole range, then setting it from `v`, is the bit-by-bit write. */
  lemma ClearThenSet(before: seq<byte>, cleared: seq<byte>, d: seq<byte>, start: nat, n: nat, v: nat)
    requires ClearedUpTo(cleared, before, start, n)
    requires SetUpTo(d, cleared, start, n, v)
    ensures d == Written(before, start, n, v)
  {
    forall q: nat ensures GetBit(d, q) == GetBit(Written(before, start, n, v), q) {
      WrittenBit(before, start, n, v, q);
    }
    BitExtensionality(d, Written(before, start, n, v));
  }

  /**
    `_write_value_to_bits_little_endian`: first clears every target bit that
    lies in the buffer, then sets those whose bit in `newValue` is 1.
   */
  method WriteBits(data: array<byte>, startBit: nat, numBits: nat, newValue: nat)
    modifies data
    ensures data[..] == Written(old(data[..]), startBit, numBits, newValue)
  {
    ghost var before := data[..];
    for i := 0 to numBits
      invariant ClearedUpTo(data[..], before, startBit, i)
    {
      ghost var cur := data[..];
      var byteIndex := (startBit + i) / 8;
      var bitOffsetInByte := (startBit + i) % 8;
      if byteIndex < data.Length {
        data[byteIndex] := ClearByteBit(data[byteIndex], bitOffsetInByte);
      }
      assert data[..] == SetBit(cur, startBit + i, false);
      ClearStep(before, cur, startBit, i);
    }
    ghost var cleared := data[..];
    for i := 0 to numBits
      invariant SetUpTo(data[..], cleared, startBit, i, newValue)
    {
      ghost var cur := data[..];
      if NatBit(newValue, i) == 1 {
        var byteIndex := (startBit + i) / 8;
        var bitOffsetInByte := (startBit + i) % 8;
        if byteIndex < data.Length {
          data[byteIndex] := SetByteBit(data[byteIndex], bitOffsetInByte);
        }
        assert data[..] == SetBit(cur, startBit + i, true);
      }
      SetStep(before, cleared, cur, startBit, numBits, i, newValue);
    }
    ClearThenSet(before, cleared, data[..], startBit, numBits, newValue);
  }
}
