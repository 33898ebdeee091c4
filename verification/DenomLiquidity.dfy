/** The two-string leaf message (api/elys/amm/denom_liquidity.pulsar.go). */
module DenomLiquidity {
  import opened Basics
  import opened Varint
  import opened Wire
  import opened Messages
  import opened RepeatedFields

  datatype Coin = Coin(denom: seq<byte>, liquidity: seq<byte>, unknown: seq<byte>)

  const EMPTY := Coin([], [], [])
  const SCHEMA: Schema := map[1 := Nested, 2 := Nested]

  function Step(discard: bool): (Coin, Field) -> Result<Coin> {
    (m: Coin, f: Field) => Apply(discard, m, f)
  }

  function Apply(discard: bool, m: Coin, f: Field): Result<Coin> {
    match f
    case ScalarField(num, v) => Ok(m)
    case ChunkField(num, p) =>
      if num == 1 then Ok(m.(denom := p)) else if num == 2 then Ok(m.(liquidity := p)) else Ok(m)
    case UnknownField(raw) => if discard then Ok(m) else Ok(m.(unknown := m.unknown + raw))
  }

  /** Unmarshal: reads s into m. */
  function Read(m: Coin, s: seq<byte>, discard: bool): Result<Coin> {
    Decode(SCHEMA, Step(discard), m, s, 0)
  }

  /** Reads a new message. */
  function Reader(discard: bool): seq<byte> -> Result<Coin> {
    (s: seq<byte>) => Read(EMPTY, s, discard)
  }

  /** What Unmarshal leaves in m, error or not: the fields before the failing one. */
  function Left(m: Coin, s: seq<byte>, discard: bool): Coin {
    LeftFrom(m, s, discard, 0)
  }

  function LeftFrom(m: Coin, s: seq<byte>, discard: bool, pos: nat): Coin {
    Leave(SCHEMA, Step(discard), (c: Coin, f: Field) => c, (c: Coin, rest: seq<byte>) => c, m, s, pos)
  }

  function Fields(m: Coin): seq<Field> {
    (if m.denom != [] then [ChunkField(1, m.denom)] else [])
    + (if m.liquidity != [] then [ChunkField(2, m.liquidity)] else [])
  }

  /** Marshal. */
  function Bytes(m: Coin): seq<byte> {
    FieldsBytes(Fields(m)) + m.unknown
  }

  /** The written bytes: denom under tag 0x0a, liquidity under tag 0x12, empty strings left out. */
  lemma Layout(m: Coin)
    ensures Bytes(m)
            == (if m.denom != [] then [0x0a] + Write(|m.denom|) + m.denom else [])
               + (if m.liquidity != [] then [0x12] + Write(|m.liquidity|) + m.liquidity else [])
               + m.unknown
  {
    hide Write;
    SmallTag(1, 2);
    SmallTag(2, 2);
    var f, g := ChunkField(1, m.denom), ChunkField(2, m.liquidity);
    FieldsBytesAppend(if m.denom != [] then [f] else [], if m.liquidity != [] then [g] else []);
    OneField(f);
    OneField(g);
  }

  // ----- unknown bytes -----

  lemma {:induction false} FoldUnknown(discard: bool, m: Coin, fs: seq<Field>)
    ensures var r := Fold(Step(discard), m, fs);
            && r.Ok?
            && r.value.unknown == (if discard then m.unknown else m.unknown + RawOf(fs))
            && ((forall f | f in fs :: f.UnknownField?) ==>
                  r.value == m.(unknown := r.value.unknown))
    decreases fs
  {
    if fs != [] {
      FoldUnknown(discard, Apply(discard, m, fs[0]).value, fs[1..]);
      assert fs[0] in fs && forall f | f in fs[1..] :: f in fs;
    }
  }

  /** The payload of the last field with a number, if there is one. */
  function LastPayload(num: nat, fs: seq<Field>, otherwise: seq<byte>): seq<byte> {
    if fs == [] then otherwise
    else
      var f := fs[|fs| - 1];
      if f.ChunkField? && f.num == num then f.payload else LastPayload(num, fs[..|fs| - 1], otherwise)
  }

  /** For each string the last field given wins, else it stays; unknown bytes are appended. */
  lemma {:induction false} FoldIs(discard: bool, m: Coin, fs: seq<Field>)
    ensures Fold(Step(discard), m, fs)
            == Ok(Coin(LastPayload(1, fs, m.denom), LastPayload(2, fs, m.liquidity),
                       if discard then m.unknown else m.unknown + RawOf(fs)))
    decreases |fs|
  {
    hide Fold, RawOf;
    FoldUnknown(discard, m, fs);
    if fs == [] {
      FoldNone(Step(discard), m);
    } else {
      var before, f := fs[..|fs| - 1], fs[|fs| - 1];
      assert fs == before + [f];
      FoldIs(discard, m, before);
      FoldAppend(Step(discard), m, before, [f]);
      FoldOne(Step(discard), Fold(Step(discard), m, before).value, f);
    }
  }

  lemma ReadIs(m: Coin, s: seq<byte>, discard: bool)
    ensures var p := Parse(SCHEMA, s, 0);
            Read(m, s, discard)
            == if p.error.Some? then Err(p.error.value)
               else Ok(Coin(LastPayload(1, p.fields, m.denom), LastPayload(2, p.fields, m.liquidity),
                            if discard then m.unknown else m.unknown + RawOf(p.fields)))
  {
    hide Parse;
    FoldIs(discard, m, Parse(SCHEMA, s, 0).fields);
  }

  // ----- round trips -----

  lemma FieldsWritable(m: Coin)
    requires |Bytes(m)| < TWO_TO_THE_63
    ensures forall f | f in Fields(m) :: Writable(SCHEMA, f)
    ensures Fold(Step(false), EMPTY, Fields(m)) == Ok(m.(unknown := []))
  {
    var fs := Fields(m);
    forall f | f in fs ensures Writable(SCHEMA, f) {
      FieldWithin(fs, f);
    }
    FoldTwo(Step(false), EMPTY, ChunkField(1, m.denom), ChunkField(2, m.liquidity));
    FoldOne(Step(false), EMPTY, ChunkField(1, m.denom));
    FoldOne(Step(false), EMPTY, ChunkField(2, m.liquidity));
    assert fs == if m.denom == [] && m.liquidity == [] then []
                 else if m.denom == [] then [ChunkField(2, m.liquidity)]
                 else if m.liquidity == [] then [ChunkField(1, m.denom)]
                 else [ChunkField(1, m.denom), ChunkField(2, m.liquidity)];
  }

  /** Written messages are read back exactly when their unknown bytes are unknown fields. */
  lemma RoundTrip(m: Coin)
    requires |Bytes(m)| < TWO_TO_THE_63
    ensures Read(EMPTY, Bytes(m), false) == Ok(m) <==> UnknownOnly(SCHEMA, m.unknown)
  {
    hide Parse, UnknownOnly, FieldsBytes, Fields;
    FieldsWritable(m);
    DecodeOfWritten(SCHEMA, Step(false), EMPTY, Fields(m), m.unknown);
    var pos := |FieldsBytes(Fields(m))|;
    var p := Parse(SCHEMA, m.unknown, pos);
    var m0 := m.(unknown := []);
    FoldUnknown(false, m0, p.fields);
    UnknownOnlyIsRaw(SCHEMA, m.unknown, pos);
    assert [] + RawOf(p.fields) == RawOf(p.fields);
  }

  // ----- reading, writing, reading again -----

  function StringSize(p: seq<byte>): nat {
    if p == [] then 0 else ChunkSize(|p|)
  }

  lemma BytesSize(m: Coin)
    ensures |Bytes(m)| == StringSize(m.denom) + StringSize(m.liquidity) + |m.unknown|
  {
    var f, g := ChunkField(1, m.denom), ChunkField(2, m.liquidity);
    FieldSizes(f);
    FieldSizes(g);
    FieldsBytesAppend(if m.denom != [] then [f] else [], if m.liquidity != [] then [g] else []);
    assert FieldsBytes([f]) == FieldBytes(f) && FieldsBytes([g]) == FieldBytes(g);
  }

  /** Applying a field adds at most its own size, and keeps unknown bytes unknown. */
  lemma {:induction false} FoldGrows(discard: bool, m: Coin, fs: seq<Field>)
    requires forall f | f in fs :: Writable(SCHEMA, f)
    requires UnknownOnly(SCHEMA, m.unknown) && |m.unknown| + |FieldsBytes(fs)| < TWO_TO_THE_63
    ensures var r := Fold(Step(discard), m, fs);
            && r.Ok? && |Bytes(r.value)| <= |Bytes(m)| + |FieldsBytes(fs)|
            && UnknownOnly(SCHEMA, r.value.unknown)
    decreases fs
  {
    hide Bytes, UnknownOnly, Writable;
    if fs != [] {
      var f := fs[0];
      var m' := Apply(discard, m, f).value;
      BytesSize(m);
      BytesSize(m');
      FieldSizes(f);
      if f.UnknownField? && !discard {
        UnknownOnlyAppend(SCHEMA, m.unknown, f.raw);
      }
      KnownNumber(f);
      FoldGrows(discard, m', fs[1..]);
    }
  }

  lemma KnownNumber(f: Field)
    requires Writable(SCHEMA, f)
    ensures !f.UnknownField? ==> 0 < f.num < 16
  {
  }

  /**
   Whatever bytes were accepted, writing the message and reading it again gives
   the same message, in no more bytes than before.
   */
  lemma ReadWriteRead(s: seq<byte>, discard: bool)
    requires |s| < TWO_TO_THE_63 && Read(EMPTY, s, discard).Ok?
    ensures var m := Read(EMPTY, s, discard).value;
            && |Bytes(m)| <= |s|
            && UnknownOnly(SCHEMA, m.unknown)
            && Read(EMPTY, Bytes(m), false) == Ok(m)
  {
    hide Parse, Bytes;
    ParseWritable(SCHEMA, s, 0);
    BytesSize(EMPTY);
    NoUnknown(SCHEMA);
    FoldGrows(discard, EMPTY, Parse(SCHEMA, s, 0).fields);
    RoundTrip(Read(EMPTY, s, discard).value);
  }

  /** Reading a ++ b is reading a and then b into the same message. */
  lemma ReadAppend(m: Coin, a: seq<byte>, b: seq<byte>, discard: bool)
    requires Read(m, a, discard).Ok? && |a| + |b| < TWO_TO_THE_63
    ensures Agree(Read(m, a + b, discard), Read(Read(m, a, discard).value, b, discard))
  {
    DecodeConcat(SCHEMA, Step(discard), m, a, b);
  }

  function Strip(m: Coin): Coin {
    m.(unknown := [])
  }

  /** Reading with unknown fields discarded is reading and then dropping them. */
  lemma ReadDiscarding(s: seq<byte>)
    ensures Read(EMPTY, s, true) == MapOk(Strip, Read(EMPTY, s, false))
  {
    hide Parse;
    FoldCommutes(Step(false), Step(true), Strip, EMPTY, Parse(SCHEMA, s, 0).fields);
  }
}
