/** The messages as objects that are read into and written from in place. */
module MessageObjects {
  import opened Basics
  import opened Varint
  import opened Wire
  import opened Messages
  import opened Codec
  import opened RepeatedFields
  import D = DenomLiquidity
  import P = AccountedPool
  import G = GenesisState

  class DenomLiquidityMessage {
    var denom: seq<byte>
    var liquidity: seq<byte>
    var unknownFields: seq<byte>

    function Value(): D.Coin
      reads this
    {
      D.Coin(denom, liquidity, unknownFields)
    }

    constructor (c: D.Coin)
      ensures Value() == c
    {
      denom, liquidity, unknownFields := c.denom, c.liquidity, c.unknown;
    }

    /** The size closure: the length that Marshal will produce. */
    method Size() returns (n: int)
      ensures n == |D.Bytes(Value())|
    {
      D.BytesSize(Value());
      SovIsLength(|denom|);
      SovIsLength(|liquidity|);
      n := 0;
      var l := |denom|;
      if l > 0 {
        n := n + 1 + l + Sov(l);
      }
      l := |liquidity|;
      if l > 0 {
        n := n + 1 + l + Sov(l);
      }
      n := n + |unknownFields|;
    }

    /** The marshal closure: fills the buffer from its end; the cursor ends at 0. */
    method Marshal() returns (dAtA: array<byte>)
      ensures fresh(dAtA) && dAtA[..] == D.Bytes(Value())
    {
      hide FieldBytes, D.Bytes;
      var size := Size();
      WholeSplits(Value());
      ghost var head := if denom != [] then FieldBytes(ChunkField(1, denom)) else [];
      ghost var tail := (if liquidity != [] then FieldBytes(ChunkField(2, liquidity)) else []) + unknownFields;
      dAtA := new byte[size];
      var i := PutBytes(dAtA, size, unknownFields);
      if |liquidity| > 0 {
        i := PutChunk(dAtA, i, 2, liquidity);
      }
      assert dAtA[i..] == tail;
      if |denom| > 0 {
        i := PutChunk(dAtA, i, 1, denom);
      }
      assert dAtA[i..] == head + tail;
      assert i == 0;
      assert dAtA[0..] == dAtA[..];
    }

    lemma WholeSplits(c: D.Coin)
      ensures D.Bytes(c) == (if c.denom != [] then FieldBytes(ChunkField(1, c.denom)) else [])
                            + ((if c.liquidity != [] then FieldBytes(ChunkField(2, c.liquidity)) else []) + c.unknown)
    {
      hide FieldBytes;
      var f, g := ChunkField(1, c.denom), ChunkField(2, c.liquidity);
      FieldsBytesAppend(if c.denom != [] then [f] else [], if c.liquidity != [] then [g] else []);
      assert FieldsBytes([f]) == FieldBytes(f) && FieldsBytes([g]) == FieldBytes(g);
    }

    /** The unmarshal closure: reads into this message, up to the error if there is one. */
    method Unmarshal(dAtA: seq<byte>, discard: bool) returns (err: Option<Error>)
      requires |dAtA| < TWO_TO_THE_63
      modifies this
      ensures Value() == D.Left(old(Value()), dAtA, discard)
      ensures match D.Read(old(Value()), dAtA, discard)
              case Err(e) => err == Some(e)
              case Ok(m) => err == None && Value() == m
    {
      hide NextField, KnownField, Varint.Read, FieldNumber, Decode;
      var iNdEx := 0;
      assert dAtA[0..] == dAtA;
      while iNdEx < |dAtA|
        invariant iNdEx <= |dAtA|
        invariant D.Read(old(Value()), dAtA, discard)
                  == Decode(D.SCHEMA, D.Step(discard), Value(), dAtA[iNdEx..], iNdEx)
        invariant D.Left(old(Value()), dAtA, discard) == D.LeftFrom(Value(), dAtA[iNdEx..], discard, iNdEx)
        decreases |dAtA| - iNdEx
      {
        DecodeUnfold(D.SCHEMA, D.Step(discard), Value(), dAtA[iNdEx..], iNdEx);
        var fieldNum, wire, next := ReadTag(D.SCHEMA, dAtA, iNdEx);
        if fieldNum.Err? {
          return Some(fieldNum.error);
        }
        NextFieldCases(D.SCHEMA, dAtA[iNdEx..], iNdEx, wire, next - iNdEx);
        if fieldNum.value == 1 {
          if wire % 8 != 2 {
            return Some(WrongWireType);
          }
          var chunk := ReadChunk(dAtA, iNdEx, next, 1);
          if chunk.Err? {
            return Some(chunk.error);
          }
          var (from, postIndex) := chunk.value;
          assert dAtA[iNdEx..][postIndex - iNdEx..] == dAtA[postIndex..];
          denom := dAtA[from..postIndex];
          iNdEx := postIndex;
        } else if fieldNum.value == 2 {
          if wire % 8 != 2 {
            return Some(WrongWireType);
          }
          var chunk := ReadChunk(dAtA, iNdEx, next, 2);
          if chunk.Err? {
            return Some(chunk.error);
          }
          var (from, postIndex) := chunk.value;
          assert dAtA[iNdEx..][postIndex - iNdEx..] == dAtA[postIndex..];
          liquidity := dAtA[from..postIndex];
          iNdEx := postIndex;
        } else {
          var skippy := SkipUnknown(D.SCHEMA, dAtA, iNdEx, wire, next);
          if skippy.Err? {
            return Some(skippy.error);
          }
          assert dAtA[iNdEx..][skippy.value - iNdEx..] == dAtA[skippy.value..];
          if !discard {
            unknownFields := unknownFields + dAtA[iNdEx..skippy.value];
          }
          iNdEx := skippy.value;
        }
      }
      // The final check for an index past the end can never fire.
      assert iNdEx == |dAtA|;
      DecodeUnfold(D.SCHEMA, D.Step(discard), Value(), dAtA[iNdEx..], iNdEx);
      return None;
    }
  }

  class AccountedPoolMessage {
    var poolId: nat
    var totalTokens: seq<D.Coin>
    var nonAmmPoolTokens: seq<D.Coin>
    var unknownFields: seq<byte>

    function Value(): P.Pool
      reads this
    {
      P.Pool(poolId, totalTokens, nonAmmPoolTokens, unknownFields)
    }

    constructor (p: P.Pool)
      ensures Value() == p
    {
      poolId, totalTokens, nonAmmPoolTokens, unknownFields :=
        p.poolId, p.totalTokens, p.nonAmmPoolTokens, p.unknown;
    }

    /** The size of a repeated nested field, element by element. */
    static method ListSize(cs: seq<D.Coin>) returns (n: int)
      ensures n == RepeatedFields.ListSize(D.Bytes, cs)
    {
      hide D.Bytes, Sov, Write;
      n := 0;
      for k := 0 to |cs|
        invariant n == RepeatedFields.ListSize(D.Bytes, cs[..k])
      {
        var e := new DenomLiquidityMessage(cs[k]);
        var l := e.Size();
        SovIsLength(l);
        ListSizeAppend(D.Bytes, cs[..k], cs[k]);
        assert cs[..k] + [cs[k]] == cs[..k + 1];
        n := n + 1 + l + Sov(l);
      }
      assert cs[..|cs|] == cs;
    }

    /** The size closure: the length that Marshal will produce. */
    method Size() returns (n: int)
      ensures n == |P.Bytes(Value())|
    {
      hide P.Bytes, Sov, Write;
      P.BytesSize(Value());
      SovIsLength(poolId);
      n := 0;
      if poolId != 0 {
        n := n + 1 + Sov(poolId);
      }
      var total := ListSize(totalTokens);
      var nonAmm := ListSize(nonAmmPoolTokens);
      n := n + total + nonAmm + |unknownFields|;
    }

    /** What remains to be written before the first j total and k other tokens are. */
    static function Before(m: P.Pool, j: nat, k: nat): seq<byte>
      requires j <= |m.totalTokens| && k <= |m.nonAmmPoolTokens|
    {
      FieldsBytes(P.IdField(m.poolId) + Chunks(2, Payloads(D.Bytes, m.totalTokens[..j]))
                  + Chunks(3, Payloads(D.Bytes, m.nonAmmPoolTokens[..k])))
    }

    static lemma BeforeAll(m: P.Pool)
      ensures P.Bytes(m) == Before(m, |m.totalTokens|, |m.nonAmmPoolTokens|) + m.unknown
    {
      assert m.totalTokens[..|m.totalTokens|] == m.totalTokens;
      assert m.nonAmmPoolTokens[..|m.nonAmmPoolTokens|] == m.nonAmmPoolTokens;
    }

    static lemma LastChunk(num: nat, cs: seq<D.Coin>, k: nat, fs: seq<Field>)
      requires 0 < k <= |cs|
      ensures FieldsBytes(fs + Chunks(num, Payloads(D.Bytes, cs[..k])))
              == FieldsBytes(fs + Chunks(num, Payloads(D.Bytes, cs[..k - 1])))
                 + FieldBytes(ChunkField(num, D.Bytes(cs[k - 1])))
    {
      hide D.Bytes, FieldBytes;
      var f := ChunkField(num, D.Bytes(cs[k - 1]));
      var shorter := fs + Chunks(num, Payloads(D.Bytes, cs[..k - 1]));
      assert fs + Chunks(num, Payloads(D.Bytes, cs[..k])) == shorter + [f];
      FieldsBytesAppend(shorter, [f]);
      assert [f][1..] == [] && FieldsBytes([f]) == FieldBytes(f);
    }

    static lemma BeforeNonAmm(m: P.Pool, k: nat)
      requires 0 < k <= |m.nonAmmPoolTokens|
      ensures Before(m, |m.totalTokens|, k)
              == Before(m, |m.totalTokens|, k - 1) + FieldBytes(ChunkField(3, D.Bytes(m.nonAmmPoolTokens[k - 1])))
    {
      hide D.Bytes, Payloads, P.IdField, FieldBytes, FieldsBytes, Chunks;
      LastChunk(3, m.nonAmmPoolTokens, k,
                P.IdField(m.poolId) + Chunks(2, Payloads(D.Bytes, m.totalTokens[..|m.totalTokens|])));
    }

    static lemma BeforeTotal(m: P.Pool, j: nat)
      requires 0 < j <= |m.totalTokens|
      ensures Before(m, j, 0) == Before(m, j - 1, 0) + FieldBytes(ChunkField(2, D.Bytes(m.totalTokens[j - 1])))
    {
      hide D.Bytes, Payloads, P.IdField, FieldBytes, FieldsBytes, Chunks, Before;
      LastChunk(2, m.totalTokens, j, P.IdField(m.poolId));
      NoMore(m, j);
      NoMore(m, j - 1);
    }

    static lemma NoMore(m: P.Pool, j: nat)
      requires j <= |m.totalTokens|
      ensures Before(m, j, 0) == FieldsBytes(P.IdField(m.poolId) + Chunks(2, Payloads(D.Bytes, m.totalTokens[..j])))
    {
      var fs := P.IdField(m.poolId) + Chunks(2, Payloads(D.Bytes, m.totalTokens[..j]));
      assert Chunks(3, Payloads(D.Bytes, m.nonAmmPoolTokens[..0])) == [];
      assert fs + [] == fs;
    }

    static lemma BeforeId(m: P.Pool)
      ensures Before(m, 0, 0) == if m.poolId == 0 then [] else FieldBytes(ScalarField(1, m.poolId))
    {
      NoMore(m, 0);
      var fs := P.IdField(m.poolId);
      assert fs + Chunks(2, Payloads(D.Bytes, m.totalTokens[..0])) == fs;
      if m.poolId != 0 {
        assert fs[1..] == [];
      }
    }

    /** Puts a nested coin before what is at index i. */
    static method PutCoin(dAtA: array<byte>, i: nat, num: nat, c: D.Coin) returns (at: nat)
      requires 0 < num < 16 && |FieldBytes(ChunkField(num, D.Bytes(c)))| <= i <= dAtA.Length
      modifies dAtA
      ensures at == i - |FieldBytes(ChunkField(num, D.Bytes(c)))|
      ensures dAtA[at..] == FieldBytes(ChunkField(num, D.Bytes(c))) + old(dAtA[i..])
    {
      hide FieldBytes, D.Bytes;
      var e := new DenomLiquidityMessage(c);
      var encoded := e.Marshal();
      at := PutChunk(dAtA, i, num, encoded[..]);
    }

    /** The marshal closure: fills the buffer from its end; the cursor ends at 0. */
    method Marshal() returns (dAtA: array<byte>)
      ensures fresh(dAtA) && dAtA[..] == P.Bytes(Value())
    {
      hide FieldBytes, P.Bytes, D.Bytes, Before;
      ghost var m := Value();
      var size := Size();
      BeforeAll(m);
      dAtA := new byte[size];
      var i := PutBytes(dAtA, size, unknownFields);
      ghost var total := |m.totalTokens|;
      var k: nat := |nonAmmPoolTokens|;
      while k > 0
        invariant k <= |nonAmmPoolTokens|
        invariant i == |Before(m, total, k)| <= dAtA.Length && P.Bytes(m) == Before(m, total, k) + dAtA[i..]
      {
        k := k - 1;
        BeforeNonAmm(m, k + 1);
        i := PutCoin(dAtA, i, 3, nonAmmPoolTokens[k]);
      }
      var j: nat := |totalTokens|;
      while j > 0
        invariant j <= |totalTokens|
        invariant i == |Before(m, j, 0)| <= dAtA.Length && P.Bytes(m) == Before(m, j, 0) + dAtA[i..]
      {
        j := j - 1;
        BeforeTotal(m, j + 1);
        i := PutCoin(dAtA, i, 2, totalTokens[j]);
      }
      BeforeId(m);
      if poolId != 0 {
        i := PutScalar(dAtA, i, 1, poolId);
      }
      assert i == 0;
      assert dAtA[0..] == dAtA[..];
    }

    /** Reads one nested message from its payload. */
    static method ReadCoin(payload: seq<byte>, discard: bool) returns (c: D.Coin, err: Option<Error>)
      requires |payload| < TWO_TO_THE_63
      ensures c == D.Left(D.EMPTY, payload, discard)
      ensures D.Read(D.EMPTY, payload, discard) == if err.Some? then Err(err.value) else Ok(c)
    {
      var e := new DenomLiquidityMessage(D.EMPTY);
      err := e.Unmarshal(payload, discard);
      c := e.Value();
    }

    /** Appends an element to the list of field 2 or 3 and reads its payload into it. */
    method ReadElement(num: nat, payload: seq<byte>, discard: bool) returns (err: Option<Error>)
      requires |payload| < TWO_TO_THE_63 && (num == 2 || num == 3)
      modifies this
      ensures match P.Apply(discard, old(Value()), ChunkField(num, payload))
              case Err(e) => err == Some(e) && Value() == P.Torn(discard)(old(Value()), ChunkField(num, payload))
              case Ok(m) => err == None && Value() == m
    {
      hide D.Read, D.Left;
      var coin;
      coin, err := ReadCoin(payload, discard);
      if num == 2 {
        totalTokens := totalTokens + [coin];
      } else {
        nonAmmPoolTokens := nonAmmPoolTokens + [coin];
      }
    }

    /** The unmarshal closure: reads into this message, up to the error if there is one. */
    method Unmarshal(dAtA: seq<byte>, discard: bool) returns (err: Option<Error>)
      requires |dAtA| < TWO_TO_THE_63
      modifies this
      ensures Value() == P.Left(old(Value()), dAtA, discard)
      ensures match P.Read(old(Value()), dAtA, discard)
              case Err(e) => err == Some(e)
              case Ok(m) => err == None && Value() == m
    {
      hide NextField, KnownField, Varint.Read, Bits, FieldNumber, Decode, Leave, D.Read, D.Left;
      var iNdEx := 0;
      assert dAtA[0..] == dAtA;
      while iNdEx < |dAtA|
        invariant iNdEx <= |dAtA|
        invariant P.Read(old(Value()), dAtA, discard)
                  == Decode(P.SCHEMA, P.Step(discard), Value(), dAtA[iNdEx..], iNdEx)
        invariant P.Left(old(Value()), dAtA, discard) == P.LeftFrom(Value(), dAtA[iNdEx..], discard, iNdEx)
        decreases |dAtA| - iNdEx
      {
        DecodeUnfold(P.SCHEMA, P.Step(discard), Value(), dAtA[iNdEx..], iNdEx);
        LeaveUnfold(P.SCHEMA, P.Step(discard), P.Torn(discard), P.Cut(), Value(), dAtA[iNdEx..], iNdEx);
        var fieldNum, wire, next := ReadTag(P.SCHEMA, dAtA, iNdEx);
        if fieldNum.Err? {
          return Some(fieldNum.error);
        }
        NextFieldCases(P.SCHEMA, dAtA[iNdEx..], iNdEx, wire, next - iNdEx);
        if fieldNum.value == 1 {
          if wire % 8 != 0 {
            return Some(WrongWireType);
          }
          var value, after, bits := ReadScalar(dAtA, iNdEx, next, 1);
          assert dAtA[iNdEx..][next - iNdEx..] == dAtA[next..];
          poolId := bits;
          if value.Err? {
            return Some(value.error);
          }
          assert dAtA[iNdEx..][after - iNdEx..] == dAtA[after..];
          iNdEx := after;
        } else if fieldNum.value == 2 || fieldNum.value == 3 {
          if wire % 8 != 2 {
            return Some(WrongWireType);
          }
          var chunk := ReadChunk(dAtA, iNdEx, next, fieldNum.value);
          if chunk.Err? {
            return Some(chunk.error);
          }
          var (from, postIndex) := chunk.value;
          var nested := ReadElement(fieldNum.value, dAtA[from..postIndex], discard);
          if nested.Some? {
            return nested;
          }
          assert dAtA[iNdEx..][postIndex - iNdEx..] == dAtA[postIndex..];
          iNdEx := postIndex;
        } else {
          var skippy := SkipUnknown(P.SCHEMA, dAtA, iNdEx, wire, next);
          if skippy.Err? {
            return Some(skippy.error);
          }
          assert dAtA[iNdEx..][skippy.value - iNdEx..] == dAtA[skippy.value..];
          if !discard {
            unknownFields := unknownFields + dAtA[iNdEx..skippy.value];
          }
          iNdEx := skippy.value;
        }
      }
      // The final check for an index past the end can never fire.
      assert iNdEx == |dAtA|;
      DecodeUnfold(P.SCHEMA, P.Step(discard), Value(), dAtA[iNdEx..], iNdEx);
      LeaveUnfold(P.SCHEMA, P.Step(discard), P.Torn(discard), P.Cut(), Value(), dAtA[iNdEx..], iNdEx);
      return None;
    }
  }

  class GenesisStateMessage {
    var accountedPoolList: seq<P.Pool>
    var unknownFields: seq<byte>

    function Value(): G.Genesis
      reads this
    {
      G.Genesis(accountedPoolList, unknownFields)
    }

    constructor (g: G.Genesis)
      ensures Value() == g
    {
      accountedPoolList, unknownFields := g.pools, g.unknown;
    }

    /** The size closure: the length that Marshal will produce. */
    method Size() returns (n: int)
      ensures n == |G.Bytes(Value())|
    {
      hide P.Bytes, Sov, Write;
      ChunksSize(1, P.Bytes, accountedPoolList);
      n := 0;
      for k := 0 to |accountedPoolList|
        invariant n == RepeatedFields.ListSize(P.Bytes, accountedPoolList[..k])
      {
        var e := new AccountedPoolMessage(accountedPoolList[k]);
        var l := e.Size();
        SovIsLength(l);
        ListSizeAppend(P.Bytes, accountedPoolList[..k], accountedPoolList[k]);
        assert accountedPoolList[..k] + [accountedPoolList[k]] == accountedPoolList[..k + 1];
        n := n + 1 + l + Sov(l);
      }
      assert accountedPoolList[..|accountedPoolList|] == accountedPoolList;
      n := n + |unknownFields|;
    }

    /** What remains to be written before the first k pools are. */
    static function Before(m: G.Genesis, k: nat): seq<byte>
      requires k <= |m.pools|
    {
      FieldsBytes(Chunks(1, Payloads(P.Bytes, m.pools[..k])))
    }

    static lemma BeforeSplits(m: G.Genesis, k: nat)
      requires k <= |m.pools|
      ensures Before(m, 0) == []
      ensures G.Bytes(m) == Before(m, |m.pools|) + m.unknown
      ensures k > 0 ==> Before(m, k) == Before(m, k - 1) + FieldBytes(ChunkField(1, P.Bytes(m.pools[k - 1])))
    {
      hide P.Bytes, FieldBytes;
      assert m.pools[..|m.pools|] == m.pools;
      assert Chunks(1, Payloads(P.Bytes, m.pools[..0])) == [];
      if k > 0 {
        var f := ChunkField(1, P.Bytes(m.pools[k - 1]));
        var shorter := Chunks(1, Payloads(P.Bytes, m.pools[..k - 1]));
        assert Chunks(1, Payloads(P.Bytes, m.pools[..k])) == shorter + [f];
        FieldsBytesAppend(shorter, [f]);
        assert [f][1..] == [] && FieldsBytes([f]) == FieldBytes(f);
      }
    }

    /** The marshal closure: fills the buffer from its end; the cursor ends at 0. */
    method Marshal() returns (dAtA: array<byte>)
      ensures fresh(dAtA) && dAtA[..] == G.Bytes(Value())
    {
      hide FieldBytes, P.Bytes, G.Bytes, Before;
      ghost var m := Value();
      var size := Size();
      BeforeSplits(m, 0);
      dAtA := new byte[size];
      var i := PutBytes(dAtA, size, unknownFields);
      var k: nat := |accountedPoolList|;
      while k > 0
        invariant k <= |accountedPoolList|
        invariant i == |Before(m, k)| <= dAtA.Length && G.Bytes(m) == Before(m, k) + dAtA[i..]
      {
        BeforeSplits(m, k);
        k := k - 1;
        var e := new AccountedPoolMessage(accountedPoolList[k]);
        var encoded := e.Marshal();
        i := PutChunk(dAtA, i, 1, encoded[..]);
      }
      assert i == 0;
      assert dAtA[0..] == dAtA[..];
    }

    /** The unmarshal closure: reads into this state, up to the error if there is one. */
    method Unmarshal(dAtA: seq<byte>, discard: bool) returns (err: Option<Error>)
      requires |dAtA| < TWO_TO_THE_63
      modifies this
      ensures Value() == G.Left(old(Value()), dAtA, discard)
      ensures match G.Read(old(Value()), dAtA, discard)
              case Err(e) => err == Some(e)
              case Ok(m) => err == None && Value() == m
    {
      hide NextField, KnownField, Varint.Read, FieldNumber, Decode, P.Read;
      var iNdEx := 0;
      assert dAtA[0..] == dAtA;
      while iNdEx < |dAtA|
        invariant iNdEx <= |dAtA|
        invariant G.Read(old(Value()), dAtA, discard)
                  == Decode(G.SCHEMA, G.Step(discard), Value(), dAtA[iNdEx..], iNdEx)
        invariant G.Left(old(Value()), dAtA, discard) == G.LeftFrom(Value(), dAtA[iNdEx..], discard, iNdEx)
        decreases |dAtA| - iNdEx
      {
        DecodeUnfold(G.SCHEMA, G.Step(discard), Value(), dAtA[iNdEx..], iNdEx);
        var fieldNum, wire, next := ReadTag(G.SCHEMA, dAtA, iNdEx);
        if fieldNum.Err? {
          return Some(fieldNum.error);
        }
        NextFieldCases(G.SCHEMA, dAtA[iNdEx..], iNdEx, wire, next - iNdEx);
        if fieldNum.value == 1 {
          if wire % 8 != 2 {
            return Some(WrongWireType);
          }
          var chunk := ReadChunk(dAtA, iNdEx, next, 1);
          if chunk.Err? {
            return Some(chunk.error);
          }
          var (from, postIndex) := chunk.value;
          var pool := new AccountedPoolMessage(P.EMPTY);
          var nested := pool.Unmarshal(dAtA[from..postIndex], discard);
          accountedPoolList := accountedPoolList + [pool.Value()];
          if nested.Some? {
            return nested;
          }
          assert dAtA[iNdEx..][postIndex - iNdEx..] == dAtA[postIndex..];
          iNdEx := postIndex;
        } else {
          var skippy := SkipUnknown(G.SCHEMA, dAtA, iNdEx, wire, next);
          if skippy.Err? {
            return Some(skippy.error);
          }
          assert dAtA[iNdEx..][skippy.value - iNdEx..] == dAtA[skippy.value..];
          if !discard {
            unknownFields := unknownFields + dAtA[iNdEx..skippy.value];
          }
          iNdEx := skippy.value;
        }
      }
      // The final check for an index past the end can never fire.
      assert iNdEx == |dAtA|;
      DecodeUnfold(G.SCHEMA, G.Step(discard), Value(), dAtA[iNdEx..], iNdEx);
      return None;
    }
  }

  /** What a tag of wire value `wire` and n bytes makes of the field. */
  lemma NextFieldCases(schema: Schema, s: seq<byte>, pos: nat, wire: nat, n: nat)
    requires Varint.Read(s) == Ok((wire, n)) && n <= |s|
    requires FieldNumber(wire) > 0 && wire % 8 != 4
    ensures FieldNumber(wire) in schema ==>
              NextField(schema, s, pos)
              == if wire % 8 != WireType(schema[FieldNumber(wire)]) then Err(WrongWireType)
                 else KnownField(schema[FieldNumber(wire)], FieldNumber(wire), s, n, pos)
  {
  }
}
