/**
 Base 128 varints, as the generated codec reads and writes them (Protocol
 Buffers Encoding, "Base 128 Varints"). A 64-bit accumulator takes seven bits a
 byte, ten bytes at most; bits past the 64th are lost. The bits or-ed in are
 always above those already there, so the or is written as a sum.
 */
module Varint {
  import opened Basics

  type byte = b: int | 0 <= b < 256

  const TWO_TO_THE_32 := 4_294_967_296
  const TWO_TO_THE_63 := 9_223_372_036_854_775_808
  const TWO_TO_THE_64 := 18_446_744_073_709_551_616

  datatype Error = IntOverflow | UnexpectedEOF | EndGroup | IllegalTag | WrongWireType | InvalidLength
                 | UnexpectedEndOfGroup | IllegalWireType

  datatype Result<+T> = Ok(value: T) | Err(error: Error)

  function Pow128(k: nat): (p: nat)
    ensures p >= 1
  {
    if k == 0 then 1 else 128 * Pow128(k - 1)
  }

  /** The number in the leading bytes of s, unbounded, and the count of those
      bytes; `left` bytes may still be read. */
  function Raw(s: seq<byte>, left: nat): Result<(nat, nat)> {
    if left == 0 then Err(IntOverflow)
    else if s == [] then Err(UnexpectedEOF)
    else if s[0] < 128 then Ok((s[0], 1))
    else
      match Raw(s[1..], left - 1)
      case Err(e) => Err(e)
      case Ok((v, n)) => Ok((s[0] - 128 + 128 * v, n + 1))
  }

  /** The 64-bit value that the reading loop produces, and the bytes it takes. */
  function Read(s: seq<byte>): Result<(nat, nat)> {
    match Raw(s, 10)
    case Err(e) => Err(e)
    case Ok((v, n)) => Ok((v % TWO_TO_THE_64, n))
  }

  /** What the loop has put together when it ends, also where it ends in an error. */
  function Bits(s: seq<byte>, left: nat): nat {
    if left == 0 || s == [] then 0
    else if s[0] < 128 then s[0]
    else s[0] - 128 + 128 * Bits(s[1..], left - 1)
  }

  function Write(v: nat): (s: seq<byte>)
    ensures |s| >= 1
  {
    if v < 128 then [v] else [v % 128 + 128] + Write(v / 128)
  }

  // ----- reading back, and reading more -----

  lemma {:induction false} BitsOfRaw(s: seq<byte>, left: nat)
    ensures Raw(s, left).Ok? ==> Bits(s, left) == Raw(s, left).value.0
  {
    if left > 0 && s != [] && s[0] >= 128 {
      BitsOfRaw(s[1..], left - 1);
    }
  }

  lemma {:induction false} RawRange(s: seq<byte>, left: nat)
    requires Raw(s, left).Ok?
    ensures var (v, n) := Raw(s, left).value; 1 <= n <= |s| && n <= left && v < Pow128(n)
  {
    if s[0] >= 128 {
      RawRange(s[1..], left - 1);
    }
  }

  /** A read that succeeds depends on the bytes it takes and on no others. */
  lemma {:induction false} RawPrefix(s: seq<byte>, t: seq<byte>, left: nat)
    requires Raw(s, left).Ok? && Raw(s, left).value.1 <= |s|
    requires s[..Raw(s, left).value.1] <= t
    ensures Raw(t, left) == Raw(s, left)
  {
    var n := Raw(s, left).value.1;
    RawRange(s, left);
    assert s[0] == s[..n][0] == t[0];
    if s[0] >= 128 {
      RawRange(s[1..], left - 1);
      assert s[1..][..n - 1] == s[..n][1..];
      RawPrefix(s[1..], t[1..], left - 1);
    }
  }

  lemma {:induction false} RawOfWrite(v: nat, rest: seq<byte>, left: nat)
    requires left >= 1 && v < Pow128(left)
    ensures Raw(Write(v) + rest, left) == Ok((v, |Write(v)|))
  {
    if v >= 128 {
      assert left >= 2 by {
        assert Pow128(1) == 128 * Pow128(0);
      }
      RawOfWrite(v / 128, rest, left - 1);
      assert (Write(v) + rest)[1..] == Write(v / 128) + rest;
    }
  }

  lemma TenBytesHold64Bits()
    ensures TWO_TO_THE_64 <= Pow128(10)
  {
  }

  /** Every 64-bit value is read back, whatever follows it. */
  lemma ReadOfWrite(v: nat, rest: seq<byte>)
    requires v < TWO_TO_THE_64
    ensures Read(Write(v) + rest) == Ok((v, |Write(v)|))
  {
    TenBytesHold64Bits();
    RawOfWrite(v, rest, 10);
  }

  lemma ReadPrefix(s: seq<byte>, t: seq<byte>)
    requires Read(s).Ok? && Read(s).value.1 <= |s| && s[..Read(s).value.1] <= t
    ensures Read(t) == Read(s)
  {
    RawPrefix(s, t, 10);
  }

  lemma {:induction false} WriteLength(v: nat, n: nat)
    requires n >= 1 && v < Pow128(n)
    ensures |Write(v)| <= n
  {
    if v >= 128 {
      assert n >= 2 by {
        assert Pow128(1) == 128 * Pow128(0);
      }
      WriteLength(v / 128, n - 1);
    }
  }

  /** The written form is never longer than the bytes the value was read from. */
  lemma ReadRange(s: seq<byte>)
    requires Read(s).Ok?
    ensures var (v, n) := Read(s).value;
            1 <= n <= |s| && v < TWO_TO_THE_64 && |Write(v)| <= n
  {
    RawRange(s, 10);
    var (raw, n) := Raw(s, 10).value;
    assert raw % TWO_TO_THE_64 <= raw;
    WriteLength(raw % TWO_TO_THE_64, n);
  }

  lemma {:induction false} WriteMonotone(u: nat, v: nat)
    requires u <= v
    ensures |Write(u)| <= |Write(v)|
  {
    if v >= 128 && u >= 128 {
      WriteMonotone(u / 128, v / 128);
    }
  }

  // ----- the size formula -----

  function BitLength(v: nat): nat {
    if v == 0 then 0 else 1 + BitLength(v / 2)
  }

  /** The closed form of the size: (bit length of v|1, plus 6) / 7. */
  function Sov(v: nat): int {
    (BitLength(if v % 2 == 0 then v + 1 else v) + 6) / 7
  }

  lemma BitLengthShift(v: nat)
    requires v >= 128
    ensures BitLength(v) == 7 + BitLength(v / 128)
  {
    hide BitLength;
    BitLengthHalf(v, v / 2);
    BitLengthHalf(v / 2, v / 4);
    BitLengthHalf(v / 4, v / 8);
    BitLengthHalf(v / 8, v / 16);
    BitLengthHalf(v / 16, v / 32);
    BitLengthHalf(v / 32, v / 64);
    BitLengthHalf(v / 64, v / 128);
  }

  lemma BitLengthHalf(v: nat, half: nat)
    requires v > 0 && half == v / 2
    ensures BitLength(v) == 1 + BitLength(half)
  {
  }

  lemma BitLengthOdd(v: nat)
    requires v % 2 == 0 && v > 0
    ensures BitLength(v + 1) == BitLength(v)
  {
  }

  lemma {:induction false} SovIsLength(v: nat)
    ensures Sov(v) == |Write(v)|
  {
    if v % 2 == 0 && v > 0 {
      BitLengthOdd(v);
    }
    if v >= 128 {
      BitLengthShift(v);
      var w := v / 128;
      if w % 2 == 0 {
        BitLengthOdd(w);
      }
      SovIsLength(w);
    } else if v > 0 {
      assert Pow2(7) == 8 * Pow2(4) && Pow2(4) == 8 * Pow2(1);
      BitLengthBelow(v, 7);
    }
  }

  lemma {:induction false} BitLengthBelow(v: nat, k: nat)
    requires v < Pow2(k)
    ensures BitLength(v) <= k
  {
    if v > 0 {
      BitLengthBelow(v / 2, k - 1);
    }
  }
}
