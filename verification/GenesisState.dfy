/** A list of nested pool messages (api/elys/accountedpool/genesis.pulsar.go). */
module GenesisState {
  import opened Basics
  import opened Varint
  import opened Wire
  import opened Messages
  import opened RepeatedFields
  import P = AccountedPool

  type Pool = P.Pool

  datatype Genesis = Genesis(pools: seq<Pool>, unknown: seq<byte>)

  const EMPTY := Genesis([], [])
  const SCHEMA: Schema := map[1 := Nested]

  function Step(discard: bool): (Genesis, Field) -> Result<Genesis> {
    (m: Genesis, f: Field) => Apply(discard, m, f)
  }

  function Apply(discard: bool, m: Genesis, f: Field): Result<Genesis> {
    match f
    case ScalarField(num, v) => Ok(m)
    case ChunkField(num, p) =>
      (match P.Read(P.EMPTY, p, discard)
       case Err(e) => Err(e)
       case Ok(c) => Ok(m.(pools := m.pools + [c])))
    case UnknownField(raw) => if discard then Ok(m) else Ok(m.(unknown := m.unknown + raw))
  }

  /** Unmarshal: reads s into m. */
  function Read(m: Genesis, s: seq<byte>, discard: bool): Result<Genesis> {
    Decode(SCHEMA, Step(discard), m, s, 0)
  }

  /** What Unmarshal leaves in m, error or not: a pool that cannot be read is in
      the list already, as far as it was read. */
  function Left(m: Genesis, s: seq<byte>, discard: bool): Genesis {
    LeftFrom(m, s, discard, 0)
  }

  function LeftFrom(m: Genesis, s: seq<byte>, discard: bool, pos: nat): Genesis {
    Leave(SCHEMA, Step(discard), Torn(discard), (g: Genesis, rest: seq<byte>) => g, m, s, pos)
  }

  function Torn(discard: bool): (Genesis, Field) -> Genesis {
    (m: Genesis, f: Field) =>
      if f.ChunkField? then m.(pools := m.pools + [P.Left(P.EMPTY, f.payload, discard)]) else m
  }

  function Fields(m: Genesis): seq<Field> {
    Chunks(1, Payloads(P.Bytes, m.pools))
  }

  /** Marshal. */
  function Bytes(m: Genesis): seq<byte> {
    FieldsBytes(Fields(m)) + m.unknown
  }

  /** The ids are 64-bit numbers. */
  predicate Ids(ps: seq<Pool>) {
    forall p | p in ps :: p.poolId < TWO_TO_THE_64
  }

  ghost predicate CleanPools(ps: seq<Pool>) {
    forall p | p in ps :: P.Clean(p)
  }

  /** Every unknown part, down to the coins, is made of unknown fields. */
  ghost predicate Clean(m: Genesis) {
    CleanPools(m.pools) && UnknownOnly(SCHEMA, m.unknown)
  }

  /** The written bytes: the pools under tag 0x0a. */
  lemma Layout(m: Genesis)
    ensures Bytes(m) == Elements(0x0a, P.Bytes, m.pools) + m.unknown
  {
    hide P.Bytes;
    ElementsAre(1, P.Bytes, m.pools);
  }

  // ----- what reading does to each part -----

  lemma ApplyShape(discard: bool, m: Genesis, f: Field)
    requires Apply(discard, m, f).Ok?
    ensures var r := Apply(discard, m, f).value;
            && m.pools <= r.pools
            && r.unknown == (if discard || !f.UnknownField? then m.unknown else m.unknown + f.raw)
  {
  }

  /** The list only grows, unknown bytes are appended raw. */
  lemma {:induction false} FoldShape(discard: bool, m: Genesis, fs: seq<Field>)
    requires Fold(Step(discard), m, fs).Ok?
    ensures var r := Fold(Step(discard), m, fs).value;
            m.pools <= r.pools && r.unknown == (if discard then m.unknown else m.unknown + RawOf(fs))
    decreases fs
  {
    hide Apply, P.Read, RawOf;
    RawOfFirst(fs);
    if fs != [] {
      var f, rest := fs[0], RawOf(fs[1..]);
      ApplyShape(discard, m, f);
      FoldShape(discard, Apply(discard, m, f).value, fs[1..]);
      if f.UnknownField? && !discard {
        assert m.unknown + (f.raw + rest) == m.unknown + f.raw + rest;
      }
    }
  }

  lemma FoldAllUnknown(m: Genesis, fs: seq<Field>)
    requires forall f | f in fs :: f.UnknownField?
    ensures Fold(Step(false), m, fs) == Ok(m.(unknown := m.unknown + RawOf(fs)))
  {
    var add := (m: Genesis, raw: seq<byte>) => m.(unknown := m.unknown + raw);
    forall m: Genesis ensures add(m, []) == m {
    }
    forall m: Genesis, a: seq<byte>, b: seq<byte> ensures add(add(m, a), b) == add(m, a + b) {
      assert m.unknown + (a + b) == m.unknown + a + b;
    }
    RepeatedFields.FoldAllUnknown(Step(false), add, m, fs);
  }

  function Append(): (Genesis, seq<Pool>) -> Genesis {
    (m: Genesis, ps: seq<Pool>) => m.(pools := m.pools + ps)
  }

  lemma AppendsPools()
    ensures AppendsTo(Step(false), Append(), 1, P.Reader(false))
  {
    hide P.Read;
    var append := Append();
    forall m: Genesis, p: seq<byte>
      ensures Step(false)(m, ChunkField(1, p)) == AppendAll(append, m, Single(P.Reader(false)(p)))
    {
    }
    forall m: Genesis ensures append(m, []) == m {
      assert m.pools + [] == m.pools;
    }
    forall m: Genesis, ps, qs ensures append(append(m, ps), qs) == append(m, ps + qs) {
      assert m.pools + (ps + qs) == m.pools + ps + qs;
    }
  }

  /** The pools that are read back as they were written are the clean ones. */
  lemma RereadPools(ps: seq<Pool>)
    requires Ids(ps) && forall p | p in ps :: |P.Bytes(p)| < TWO_TO_THE_63
    ensures Reread(P.Reader(false), P.Bytes, ps) == Ok(ps) <==> CleanPools(ps)
    ensures Reread(P.Reader(false), P.Bytes, ps).Ok? ==> |Reread(P.Reader(false), P.Bytes, ps).value| == |ps|
  {
    hide P.Read, P.Bytes, P.Clean;
    forall p | p in ps ensures P.Reader(false)(P.Bytes(p)) == Ok(p) <==> P.Clean(p) {
      P.RoundTrip(p);
    }
    RereadClean(P.Reader(false), P.Bytes, P.Clean, ps);
  }

  // ----- round trips -----

  lemma FieldsWritable(m: Genesis)
    requires |Bytes(m)| < TWO_TO_THE_63
    ensures forall f | f in Fields(m) :: Writable(SCHEMA, f)
    ensures forall p | p in m.pools :: |P.Bytes(p)| < TWO_TO_THE_63
  {
    hide P.Bytes;
    var fs := Fields(m);
    forall f | f in fs ensures Writable(SCHEMA, f) {
      FieldWithin(fs, f);
    }
    ChunkWithin(1, P.Bytes, m.pools);
    forall p | p in m.pools ensures |P.Bytes(p)| < TWO_TO_THE_63 {
      assert Writable(SCHEMA, ChunkField(1, P.Bytes(p)));
    }
  }

  /** Written messages are read back exactly when every unknown part is made of unknown fields. */
  lemma RoundTrip(m: Genesis)
    requires |Bytes(m)| < TWO_TO_THE_63 && Ids(m.pools)
    ensures Read(EMPTY, Bytes(m), false) == Ok(m) <==> Clean(m)
  {
    hide Parse, UnknownOnly, FieldsBytes, Reread, Fields, CleanPools, AppendsTo;
    FieldsWritable(m);
    DecodeOfWritten(SCHEMA, Step(false), EMPTY, Fields(m), m.unknown);
    assert Fields(m) == Chunks(1, Payloads(P.Bytes, m.pools)) by {
      FieldsAre(m);
    }
    AppendsPools();
    FoldChunks(Step(false), Append(), 1, P.Reader(false), P.Bytes, EMPTY, m.pools);
    RereadPools(m.pools);
    var pos := |FieldsBytes(Fields(m))|;
    UnknownOnlyIsRaw(SCHEMA, m.unknown, pos);
    if Reread(P.Reader(false), P.Bytes, m.pools).Ok? {
      var ps := Reread(P.Reader(false), P.Bytes, m.pools).value;
      assert [] + ps == ps;
      FoldRest(Genesis(ps, []), m, pos);
    }
  }

  lemma FieldsAre(m: Genesis)
    ensures Fields(m) == Chunks(1, Payloads(P.Bytes, m.pools))
  {
  }

  lemma FoldRest(m0: Genesis, m: Genesis, pos: nat)
    requires pos + |m.unknown| < TWO_TO_THE_63 && m0.unknown == [] && |m0.pools| == |m.pools|
    ensures Decode(SCHEMA, Step(false), m0, m.unknown, pos) == Ok(m)
            <==> m0 == m.(unknown := []) && UnknownOnly(SCHEMA, m.unknown)
  {
    hide Parse, UnknownOnly, RawOf;
    UnknownOnlyIsRaw(SCHEMA, m.unknown, pos);
    var fs := Parse(SCHEMA, m.unknown, pos).fields;
    assert [] + RawOf(fs) == RawOf(fs);
    if Fold(Step(false), m0, fs).Ok? {
      FoldShape(false, m0, fs);
    }
    if UnknownOnly(SCHEMA, m.unknown) {
      FoldAllUnknown(m0, fs);
    }
  }

  // ----- sizes -----

  lemma ApplyGrows(discard: bool, m: Genesis, f: Field)
    requires Writable(SCHEMA, f) && Clean(m) && |m.unknown| + |FieldBytes(f)| < TWO_TO_THE_63
    requires Ids(m.pools) && Apply(discard, m, f).Ok?
    ensures var r := Apply(discard, m, f).value;
            && |Bytes(r)| <= |Bytes(m)| + |FieldBytes(f)|
            && |r.unknown| <= |m.unknown| + |FieldBytes(f)|
            && Clean(r) && Ids(r.pools)
  {
    hide FieldsBytes, UnknownOnly, P.Read, P.Bytes, P.Clean, ListSize, FieldBytes, NextField, ChunkSize, Write;
    var r := Apply(discard, m, f).value;
    ChunksSize(1, P.Bytes, m.pools);
    ChunksSize(1, P.Bytes, r.pools);
    FieldSizes(f);
    match f
    case ScalarField(num, v) =>
    case ChunkField(num, p) =>
      P.ReadWriteRead(p, discard);
      var c := P.Read(P.EMPTY, p, discard).value;
      ChunkSizeMonotone(|P.Bytes(c)|, |p|);
      ListSizeAppend(P.Bytes, m.pools, c);
    case UnknownField(raw) =>
      P.RawSize(raw);
      if !discard {
        UnknownOnlyAppend(SCHEMA, m.unknown, raw);
      }
  }

  lemma {:induction false} FoldGrows(discard: bool, m: Genesis, fs: seq<Field>)
    requires forall f | f in fs :: Writable(SCHEMA, f)
    requires Clean(m) && |m.unknown| + |FieldsBytes(fs)| < TWO_TO_THE_63 && Ids(m.pools)
    requires Fold(Step(discard), m, fs).Ok?
    ensures var r := Fold(Step(discard), m, fs).value;
            |Bytes(r)| <= |Bytes(m)| + |FieldsBytes(fs)| && Clean(r) && Ids(r.pools)
    decreases fs
  {
    hide Bytes, Clean, Writable, Apply, FieldBytes, Ids;
    if fs != [] {
      ApplyGrows(discard, m, fs[0]);
      FoldGrows(discard, Apply(discard, m, fs[0]).value, fs[1..]);
    }
  }

  /** Accepted bytes, written and read again, give the same state in no more bytes. */
  lemma ReadWriteRead(s: seq<byte>, discard: bool)
    requires |s| < TWO_TO_THE_63 && Read(EMPTY, s, discard).Ok?
    ensures var m := Read(EMPTY, s, discard).value;
            && |Bytes(m)| <= |s|
            && Clean(m) && Ids(m.pools)
            && Read(EMPTY, Bytes(m), false) == Ok(m)
  {
    hide Parse, Bytes;
    ParseWritable(SCHEMA, s, 0);
    EmptyBytes();
    NoUnknown(SCHEMA);
    FoldGrows(discard, EMPTY, Parse(SCHEMA, s, 0).fields);
    RoundTrip(Read(EMPTY, s, discard).value);
  }

  lemma EmptyBytes()
    ensures Bytes(EMPTY) == []
  {
  }

  /** Reading a ++ b is reading a and then b into the same state. */
  lemma ReadAppend(m: Genesis, a: seq<byte>, b: seq<byte>, discard: bool)
    requires Read(m, a, discard).Ok? && |a| + |b| < TWO_TO_THE_63
    ensures Agree(Read(m, a + b, discard), Read(Read(m, a, discard).value, b, discard))
  {
    DecodeConcat(SCHEMA, Step(discard), m, a, b);
  }

  function StripAll(ps: seq<Pool>): (qs: seq<Pool>)
    ensures |qs| == |ps|
  {
    seq(|ps|, i requires 0 <= i < |ps| => P.Strip(ps[i]))
  }

  function Strip(m: Genesis): Genesis {
    Genesis(StripAll(m.pools), [])
  }

  /** Reading with unknown fields discarded is reading and then dropping them, at every level. */
  lemma ReadDiscarding(s: seq<byte>)
    ensures Read(EMPTY, s, true) == MapOk(Strip, Read(EMPTY, s, false))
  {
    hide Parse, P.Read, P.Strip;
    forall x: Genesis, y: Field ensures Step(true)(Strip(x), y) == MapOk(Strip, Step(false)(x, y)) {
      if y.ChunkField? {
        P.ReadDiscarding(y.payload);
        if P.Read(P.EMPTY, y.payload, false).Ok? {
          var c := P.Read(P.EMPTY, y.payload, false).value;
          assert StripAll(x.pools + [c]) == StripAll(x.pools) + [P.Strip(c)];
        }
      }
    }
    assert Strip(EMPTY) == EMPTY;
    FoldCommutes(Step(false), Step(true), Strip, EMPTY, Parse(SCHEMA, s, 0).fields);
  }
}
