/**
 The loops that the generated readers and writers share. The generated code
 repeats them inline; the skipping and varint writing come from its runtime
 library. Index sums wrap to negative from 2^63 on.
 */
module Codec {
  import opened Basics
  import opened Varint
  import opened Wire

  /** A 64-bit sum or unsigned value read as signed. */
  function Signed(v: nat): int {
    if v >= TWO_TO_THE_63 then v - TWO_TO_THE_64 else v
  }

  // ----- reading -----

  lemma SevenBits(k: nat)
    ensures Pow2(7 * k) == Pow128(k)
  {
    if k > 0 {
      SevenBits(k - 1);
      assert Pow2(7) == 128 by {
        assert Pow2(3) == 8;
        assert Pow2(7) == 16 * Pow2(3);
      }
      Pow2Sum(7, 7 * (k - 1));
    }
  }

  /** The number whose low digits, k of them, make acc and whose others make v. */
  function Joined(acc: nat, k: nat, v: nat): nat {
    acc + Pow128(k) * v
  }

  lemma Accumulate(acc: nat, b: byte, k: nat)
    ensures (acc % TWO_TO_THE_64 + (b % 128) * Pow2(7 * k)) % TWO_TO_THE_64
            == Joined(acc, k, b % 128) % TWO_TO_THE_64
  {
    SevenBits(k);
    var x := (b % 128) * Pow2(7 * k);
    assert x == Pow128(k) * (b % 128);
    WrapTwice(acc, x);
  }

  lemma WrapTwice(a: nat, b: nat)
    ensures (a % TWO_TO_THE_64 + b) % TWO_TO_THE_64 == (a + b) % TWO_TO_THE_64
  {
  }

  lemma JoinNothing(v: nat)
    ensures Joined(0, 0, v) == v
  {
  }

  /** One more byte: the last one, or one with seven bits more. */
  lemma RawStep(s: seq<byte>, left: nat, acc: nat, k: nat)
    requires left > 0 && s != []
    ensures s[0] < 128 ==> Raw(s, left) == Ok((s[0], 1)) && s[0] % 128 == s[0]
    ensures s[0] >= 128 ==>
              match Raw(s[1..], left - 1)
              case Err(e) => Raw(s, left) == Err(e)
              case Ok((v, n)) =>
                Raw(s, left).Ok? && Raw(s, left).value.1 == n + 1
                && Joined(acc, k, Raw(s, left).value.0) == Joined(Joined(acc, k, s[0] % 128), k + 1, v)
  {
    hide Joined;
    if s[0] >= 128 && Raw(s[1..], left - 1).Ok? {
      SevenMoreBits(acc, k, s[0] - 128, Raw(s[1..], left - 1).value.0);
    }
  }

  lemma SevenMoreBits(acc: nat, k: nat, b: nat, v: nat)
    ensures Joined(acc, k, b + 128 * v) == Joined(Joined(acc, k, b), k + 1, v)
  {
    var p := Pow128(k);
    assert p * (b + 128 * v) == p * b + (128 * p) * v;
  }

  lemma BitsStep(s: seq<byte>, left: nat, acc: nat, k: nat)
    ensures left == 0 || s == [] ==> Joined(acc, k, Bits(s, left)) == acc
    ensures left > 0 && s != [] ==>
              Joined(acc, k, Bits(s, left))
              == if s[0] < 128 then Joined(acc, k, s[0])
                 else Joined(Joined(acc, k, s[0] % 128), k + 1, Bits(s[1..], left - 1))
  {
    hide Joined;
    if left == 0 || s == [] {
      JoinZero(acc, k);
    } else if s[0] >= 128 {
      SevenMoreBits(acc, k, s[0] - 128, Bits(s[1..], left - 1));
    }
  }

  lemma JoinZero(acc: nat, k: nat)
    ensures Joined(acc, k, 0) == acc
  {
  }

  /** The varint loop, from index start on; `value` is what it has put together, also on an error. */
  method ReadVarint(dAtA: seq<byte>, start: nat) returns (r: Result<nat>, iNdEx: nat, value: nat)
    requires start <= |dAtA|
    ensures match r
            case Ok(v) => Read(dAtA[start..]) == Ok((v, iNdEx - start)) && start < iNdEx <= |dAtA|
            case Err(e) => Read(dAtA[start..]) == Err(e)
    ensures value == Bits(dAtA[start..], 10) % TWO_TO_THE_64
  {
    hide Raw, Bits, Pow2, Pow128, Joined;
    iNdEx := start;
    var shift := 0;
    value := 0;
    ghost var k: nat := 0;
    ghost var acc: nat := 0;
    ghost var whole := Raw(dAtA[start..], 10);
    if whole.Ok? {
      JoinNothing(whole.value.0);
    }
    JoinNothing(Bits(dAtA[start..], 10));
    while true
      invariant iNdEx == start + k <= |dAtA| && k <= 10 && shift == 7 * k
      invariant value == acc % TWO_TO_THE_64
      invariant Joined(acc, k, Bits(dAtA[iNdEx..], 10 - k)) == Bits(dAtA[start..], 10)
      invariant match Raw(dAtA[iNdEx..], 10 - k)
                case Err(e) => whole == Err(e)
                case Ok((v, n)) => whole == Ok((Joined(acc, k, v), n + k))
      decreases 10 - k
    {
      RawEnds(dAtA[iNdEx..], 10 - k);
      BitsStep(dAtA[iNdEx..], 10 - k, acc, k);
      if shift >= 64 {
        return Err(IntOverflow), iNdEx, value;
      }
      if iNdEx >= |dAtA| {
        return Err(UnexpectedEOF), iNdEx, value;
      }
      var b := dAtA[iNdEx];
      RawStep(dAtA[iNdEx..], 10 - k, acc, k);
      assert dAtA[iNdEx..][1..] == dAtA[iNdEx + 1..];
      Accumulate(acc, b, k);
      iNdEx := iNdEx + 1;
      value := (value + (b % 128) * Pow2(shift)) % TWO_TO_THE_64;
      acc := Joined(acc, k, b % 128);
      if b < 128 {
        return Ok(value), iNdEx, value;
      }
      k := k + 1;
      shift := shift + 7;
    }
  }

  lemma RawEnds(s: seq<byte>, left: nat)
    ensures left == 0 ==> Raw(s, left) == Err(IntOverflow)
    ensures left > 0 && s == [] ==> Raw(s, left) == Err(UnexpectedEOF)
  {
  }

  /** Skip: the end of the field that starts at the front of dAtA. */
  method Skip(dAtA: seq<byte>) returns (r: Result<nat>)
    requires |dAtA| < TWO_TO_THE_63
    ensures r == SkipFrom(dAtA, 0, 0)
  {
    hide Read;
    var iNdEx, depth := 0, 0;
    while iNdEx < |dAtA|
      invariant iNdEx >= 0 && depth >= 0
      invariant SkipFrom(dAtA, iNdEx, depth) == SkipFrom(dAtA, 0, 0)
      decreases |dAtA| - iNdEx
    {
      var tag, next, wire := ReadVarint(dAtA, iNdEx);
      if tag.Err? {
        return Err(tag.error);
      }
      var end: int;
      match tag.value % 8 {
      case 0 =>
        var value, after, bits := ReadVarint(dAtA, next);
        if value.Err? {
          return Err(value.error);
        }
        end := after;
      case 1 =>
        end := Signed(next + 8);
      case 2 =>
        var length, after, bits := ReadVarint(dAtA, next);
        if length.Err? {
          return Err(length.error);
        }
        LengthRange(dAtA[next..]);
        if Signed(length.value) < 0 {
          return Err(InvalidLength);
        }
        end := Signed(after + length.value);
      case 3 =>
        depth := depth + 1;
        end := next;
      case 4 =>
        if depth == 0 {
          return Err(UnexpectedEndOfGroup);
        }
        depth := depth - 1;
        end := next;
      case 5 =>
        end := Signed(next + 4);
      case _ =>
        return Err(IllegalWireType);
      }
      if end < 0 {
        return Err(InvalidLength);
      }
      iNdEx := end;
      if depth == 0 {
        return Ok(iNdEx);
      }
    }
    return Err(UnexpectedEOF);
  }

  /** The tag of the field at index i: its field number, its wire value, where it ends. */
  method ReadTag(ghost schema: Schema, dAtA: seq<byte>, i: nat) returns (num: Result<nat>, wire: nat, next: nat)
    requires i < |dAtA|
    ensures match num
            case Err(e) => NextField(schema, dAtA[i..], i) == Err(e)
            case Ok(n) => 0 < n == FieldNumber(wire) && wire % 8 != 4
                          && i < next <= |dAtA| && Read(dAtA[i..]) == Ok((wire, next - i))
    ensures num.Err? ==>
              match Read(dAtA[i..])
              case Err(_) => true
              case Ok((w, _)) => w % 8 == 4 || FieldNumber(w) <= 0
  {
    hide Read;
    var tag;
    tag, next, wire := ReadVarint(dAtA, i);
    if tag.Err? {
      return Err(tag.error), 0, next;
    }
    wire := tag.value;
    if wire % 8 == 4 {
      return Err(EndGroup), wire, next;
    }
    var fieldNum := FieldNumber(wire);
    if fieldNum <= 0 {
      return Err(IllegalTag), wire, next;
    }
    return Ok(fieldNum), wire, next;
  }

  /** The payload bounds of a length-delimited field at index i whose tag ends at next. */
  method ReadChunk(dAtA: seq<byte>, ghost i: nat, next: nat, ghost num: nat) returns (r: Result<(nat, nat)>)
    requires i < next <= |dAtA| < TWO_TO_THE_63
    ensures match r
            case Err(e) => KnownField(Nested, num, dAtA[i..], next - i, i) == Err(e)
            case Ok((from, to)) =>
              next <= from <= to <= |dAtA|
              && KnownField(Nested, num, dAtA[i..], next - i, i) == Ok((ChunkField(num, dAtA[from..to]), to - i))
  {
    hide Read;
    assert dAtA[i..][next - i..] == dAtA[next..];
    var length, iNdEx, bits := ReadVarint(dAtA, next);
    if length.Err? {
      return Err(length.error);
    }
    LengthRange(dAtA[next..]);
    var msglen := Signed(length.value);
    if msglen < 0 {
      return Err(InvalidLength);
    }
    var postIndex := Signed(iNdEx + msglen);
    if postIndex < 0 {
      return Err(InvalidLength);
    }
    if postIndex > |dAtA| {
      return Err(UnexpectedEOF);
    }
    assert dAtA[i..][iNdEx - i..postIndex - i] == dAtA[iNdEx..postIndex];
    return Ok((iNdEx, postIndex));
  }

  /** The value of a number field at index i whose tag ends at next; on an error
      `value` is what has been put together of it. */
  method ReadScalar(dAtA: seq<byte>, ghost i: nat, next: nat, ghost num: nat)
    returns (r: Result<nat>, iNdEx: nat, value: nat)
    requires i < next <= |dAtA|
    ensures match r
            case Err(e) => KnownField(Scalar, num, dAtA[i..], next - i, i) == Err(e)
            case Ok(v) =>
              v == value && next < iNdEx <= |dAtA|
              && KnownField(Scalar, num, dAtA[i..], next - i, i) == Ok((ScalarField(num, v), iNdEx - i))
    ensures value == Bits(dAtA[next..], 10) % TWO_TO_THE_64
  {
    hide Raw, Bits;
    assert dAtA[i..][next - i..] == dAtA[next..];
    r, iNdEx, value := ReadVarint(dAtA, next);
    BitsOfRaw(dAtA[next..], 10);
  }

  lemma LengthRange(s: seq<byte>)
    requires Read(s).Ok?
    ensures Read(s).value.0 < TWO_TO_THE_64
  {
  }

  /** Where the unknown field at index i ends. */
  method SkipUnknown(ghost schema: Schema, dAtA: seq<byte>, i: nat, ghost wire: nat, ghost next: nat)
    returns (r: Result<nat>)
    requires i < next <= |dAtA| < TWO_TO_THE_63 && Read(dAtA[i..]) == Ok((wire, next - i))
    requires wire % 8 != 4 && FieldNumber(wire) > 0 && FieldNumber(wire) !in schema
    ensures match r
            case Err(e) => NextField(schema, dAtA[i..], i) == Err(e)
            case Ok(to) =>
              i < to <= |dAtA| && NextField(schema, dAtA[i..], i) == Ok((UnknownField(dAtA[i..to]), to - i))
  {
    hide Read, FieldNumber;
    var skippy := Skip(dAtA[i..]);
    if skippy.Err? {
      return Err(skippy.error);
    }
    SkipRange(dAtA[i..], 0, 0);
    SkipBelow(dAtA[i..], 0, 0);
    if Signed(i + skippy.value) < 0 {
      return Err(InvalidLength);
    }
    if i + skippy.value > |dAtA| {
      return Err(UnexpectedEOF);
    }
    assert dAtA[i..][..skippy.value] == dAtA[i..i + skippy.value];
    return Ok(i + skippy.value);
  }

  lemma {:induction false} SkipBelow(s: seq<byte>, i: nat, depth: nat)
    requires SkipFrom(s, i, depth).Ok?
    ensures SkipFrom(s, i, depth).value < TWO_TO_THE_63
    decreases |s| - i
  {
    ReadRange(s[i..]);
    var (wire, n) := Read(s[i..]).value;
    SkipValueAdvances(s, i + n, wire % 8);
    if NewDepth(depth, wire % 8).value != 0 {
      SkipBelow(s, SkipValue(s, i + n, wire % 8).value, NewDepth(depth, wire % 8).value);
    }
  }

  // ----- writing, from the end of the buffer to its front -----

  /** copy(dAtA[i - len(bs):], bs): puts bs before what is at index i. */
  method PutBytes(dAtA: array<byte>, i: nat, bs: seq<byte>) returns (at: nat)
    requires |bs| <= i <= dAtA.Length
    modifies dAtA
    ensures at == i - |bs| && dAtA[at..] == bs + old(dAtA[i..])
  {
    at := i - |bs|;
    forall k | 0 <= k < |bs| {
      dAtA[at + k] := bs[k];
    }
  }

  /** EncodeVarint: puts the varint of v before what is at the offset. */
  method EncodeVarint(dAtA: array<byte>, offset: nat, v: nat) returns (at: nat)
    requires |Write(v)| <= offset <= dAtA.Length
    modifies dAtA
    ensures at == offset - |Write(v)| && dAtA[at..] == Write(v) + old(dAtA[offset..])
  {
    hide Write, Sov;
    SovIsLength(v);
    at := offset - Sov(v);
    var o, w := at, v;
    while w >= 128
      invariant at <= o && o + |Write(w)| == offset && Write(v)[o - at..] == Write(w)
      invariant forall k :: at <= k < o ==> dAtA[k] == Write(v)[k - at]
      invariant forall k :: offset <= k < dAtA.Length ==> dAtA[k] == old(dAtA[k])
      decreases w
    {
      WriteStep(w);
      assert Write(w)[0] == Write(v)[o - at];
      dAtA[o] := w % 128 + 128;
      assert Write(v)[o + 1 - at..] == Write(w)[1..] == Write(w / 128);
      w := w / 128;
      o := o + 1;
    }
    WriteStep(w);
    assert Write(w)[0] == Write(v)[o - at];
    dAtA[o] := w;
  }

  lemma WriteStep(w: nat)
    ensures w < 128 ==> Write(w) == [w]
    ensures w >= 128 ==> Write(w) == [w % 128 + 128] + Write(w / 128)
  {
  }

  /** i--; dAtA[i] = tag. */
  method PutTag(dAtA: array<byte>, i: nat, tag: byte) returns (at: nat)
    requires 1 <= i <= dAtA.Length
    modifies dAtA
    ensures at == i - 1 && dAtA[at..] == [tag] + old(dAtA[i..])
  {
    at := i - 1;
    dAtA[at] := tag;
  }

  /** Puts a length-delimited field with a one-byte tag before what is at index i. */
  method PutChunk(dAtA: array<byte>, i: nat, num: nat, payload: seq<byte>) returns (at: nat)
    requires 0 < num < 16 && |FieldBytes(ChunkField(num, payload))| <= i <= dAtA.Length
    modifies dAtA
    ensures at == i - |FieldBytes(ChunkField(num, payload))|
    ensures dAtA[at..] == FieldBytes(ChunkField(num, payload)) + old(dAtA[i..])
  {
    hide FieldBytes, Write, Varint.Read, FieldNumber;
    ghost var before := dAtA[i..];
    ChunkBytes(num, payload, before);
    at := PutBytes(dAtA, i, payload);
    at := EncodeVarint(dAtA, at, |payload|);
    at := PutTag(dAtA, at, 8 * num + 2);
  }

  lemma ChunkBytes(num: nat, payload: seq<byte>, before: seq<byte>)
    requires 0 < num < 16
    ensures |FieldBytes(ChunkField(num, payload))| == 1 + |Write(|payload|)| + |payload|
    ensures FieldBytes(ChunkField(num, payload)) + before == [8 * num + 2] + (Write(|payload|) + (payload + before))
  {
    hide Write, Varint.Read, FieldNumber;
    TagReads(num, 2, []);
    assert [8 * num + 2] + Write(|payload|) + payload + before
        == [8 * num + 2] + (Write(|payload|) + (payload + before));
  }

  /** Puts a number field with a one-byte tag before what is at index i. */
  method PutScalar(dAtA: array<byte>, i: nat, num: nat, v: nat) returns (at: nat)
    requires 0 < num < 16 && |FieldBytes(ScalarField(num, v))| <= i <= dAtA.Length
    modifies dAtA
    ensures at == i - |FieldBytes(ScalarField(num, v))|
    ensures dAtA[at..] == FieldBytes(ScalarField(num, v)) + old(dAtA[i..])
  {
    hide FieldBytes, Write, Varint.Read, FieldNumber;
    ghost var before := dAtA[i..];
    ScalarBytes(num, v, before);
    at := EncodeVarint(dAtA, i, v);
    at := PutTag(dAtA, at, 8 * num);
  }

  lemma ScalarBytes(num: nat, v: nat, before: seq<byte>)
    requires 0 < num < 16
    ensures |FieldBytes(ScalarField(num, v))| == 1 + |Write(v)|
    ensures FieldBytes(ScalarField(num, v)) + before == [8 * num] + (Write(v) + before)
  {
  }
}
