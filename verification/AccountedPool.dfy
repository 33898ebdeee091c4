/** The message with a number and two lists (api/elys/accountedpool/accounted_pool.pulsar.go). */
module AccountedPool {
  import opened Basics
  import opened Varint
  import opened Wire
  import opened Messages
  import opened RepeatedFields
  import D = DenomLiquidity

  type Coin = D.Coin

  datatype Pool = Pool(poolId: nat, totalTokens: seq<Coin>, nonAmmPoolTokens: seq<Coin>, unknown: seq<byte>)

  const EMPTY := Pool(0, [], [], [])
  const SCHEMA: Schema := map[1 := Scalar, 2 := Nested, 3 := Nested]

  function Step(discard: bool): (Pool, Field) -> Result<Pool> {
    (m: Pool, f: Field) => Apply(discard, m, f)
  }

  function Apply(discard: bool, m: Pool, f: Field): Result<Pool> {
    match f
    case ScalarField(num, v) => Ok(m.(poolId := v))
    case ChunkField(num, p) =>
      (match D.Read(D.EMPTY, p, discard)
       case Err(e) => Err(e)
       case Ok(c) =>
         if num == 2 then Ok(m.(totalTokens := m.totalTokens + [c]))
         else Ok(m.(nonAmmPoolTokens := m.nonAmmPoolTokens + [c])))
    case UnknownField(raw) => if discard then Ok(m) else Ok(m.(unknown := m.unknown + raw))
  }

  /** Unmarshal: reads s into m. */
  function Read(m: Pool, s: seq<byte>, discard: bool): Result<Pool> {
    Decode(SCHEMA, Step(discard), m, s, 0)
  }

  /** A nested message that cannot be read is in its list already, as far as it was read. */
  function Torn(discard: bool): (Pool, Field) -> Pool {
    (m: Pool, f: Field) =>
      match f
      case ChunkField(num, p) =>
        var c := D.Left(D.EMPTY, p, discard);
        if num == 2 then m.(totalTokens := m.totalTokens + [c])
        else m.(nonAmmPoolTokens := m.nonAmmPoolTokens + [c])
      case _ => m
  }

  /** A number that cannot be read has overwritten the one before, as far as it was read. */
  function Cut(): (Pool, seq<byte>) -> Pool {
    (m: Pool, s: seq<byte>) =>
      match Varint.Read(s)
      case Err(_) => m
      case Ok((wire, n)) =>
        if FieldNumber(wire) == 1 && wire % 8 == 0 && n <= |s| then
          m.(poolId := Bits(s[n..], 10) % TWO_TO_THE_64)
        else m
  }

  /** Reads a new message. */
  function Reader(discard: bool): seq<byte> -> Result<Pool> {
    (s: seq<byte>) => Read(EMPTY, s, discard)
  }

  /** What Unmarshal leaves in m, error or not. */
  function Left(m: Pool, s: seq<byte>, discard: bool): Pool {
    LeftFrom(m, s, discard, 0)
  }

  function LeftFrom(m: Pool, s: seq<byte>, discard: bool, pos: nat): Pool {
    Leave(SCHEMA, Step(discard), Torn(discard), Cut(), m, s, pos)
  }

  function IdField(id: nat): seq<Field> {
    if id != 0 then [ScalarField(1, id)] else []
  }

  function Fields(m: Pool): seq<Field> {
    IdField(m.poolId) + Chunks(2, Payloads(D.Bytes, m.totalTokens)) + Chunks(3, Payloads(D.Bytes, m.nonAmmPoolTokens))
  }

  /** Marshal. */
  function Bytes(m: Pool): seq<byte> {
    FieldsBytes(Fields(m)) + m.unknown
  }

  /** Every unknown part, nested ones included, is made of unknown fields. */
  ghost predicate CleanCoins(cs: seq<Coin>) {
    forall c | c in cs :: UnknownOnly(D.SCHEMA, c.unknown)
  }

  ghost predicate Clean(m: Pool) {
    CleanCoins(m.totalTokens) && CleanCoins(m.nonAmmPoolTokens) && UnknownOnly(SCHEMA, m.unknown)
  }

  /** The written bytes: the number under tag 0x08 unless it is 0, the lists under 0x12 and 0x1a. */
  lemma Layout(m: Pool)
    ensures Bytes(m)
            == (if m.poolId != 0 then [0x08] + Write(m.poolId) else [])
               + Elements(0x12, D.Bytes, m.totalTokens) + Elements(0x1a, D.Bytes, m.nonAmmPoolTokens) + m.unknown
  {
    hide Write, D.Bytes;
    var total, nonAmm := Chunks(2, Payloads(D.Bytes, m.totalTokens)), Chunks(3, Payloads(D.Bytes, m.nonAmmPoolTokens));
    FieldsBytesAppend(IdField(m.poolId) + total, nonAmm);
    FieldsBytesAppend(IdField(m.poolId), total);
    ElementsAre(2, D.Bytes, m.totalTokens);
    ElementsAre(3, D.Bytes, m.nonAmmPoolTokens);
    SmallTag(1, 0);
    OneField(ScalarField(1, m.poolId));
  }

  // ----- what reading does to each part -----

  lemma ApplyShape(discard: bool, m: Pool, f: Field)
    requires Apply(discard, m, f).Ok?
    ensures var r := Apply(discard, m, f).value;
            && m.totalTokens <= r.totalTokens && m.nonAmmPoolTokens <= r.nonAmmPoolTokens
            && r.unknown == (if discard || !f.UnknownField? then m.unknown else m.unknown + f.raw)
  {
  }

  /** Lists only grow, unknown bytes are appended raw. */
  lemma {:induction false} FoldShape(discard: bool, m: Pool, fs: seq<Field>)
    requires Fold(Step(discard), m, fs).Ok?
    ensures var r := Fold(Step(discard), m, fs).value;
            && m.totalTokens <= r.totalTokens && m.nonAmmPoolTokens <= r.nonAmmPoolTokens
            && r.unknown == (if discard then m.unknown else m.unknown + RawOf(fs))
    decreases fs
  {
    hide Apply, D.Read, RawOf;
    RawOfFirst(fs);
    if fs != [] {
      var f, rest := fs[0], RawOf(fs[1..]);
      ApplyShape(discard, m, f);
      FoldShape(discard, Apply(discard, m, f).value, fs[1..]);
      if f.UnknownField? && !discard {
        assert m.unknown + (f.raw + rest) == m.unknown + f.raw + rest;
      }
    }
  }

  lemma FoldAllUnknown(m: Pool, fs: seq<Field>)
    requires forall f | f in fs :: f.UnknownField?
    ensures Fold(Step(false), m, fs) == Ok(m.(unknown := m.unknown + RawOf(fs)))
  {
    var add := (m: Pool, raw: seq<byte>) => m.(unknown := m.unknown + raw);
    forall m: Pool ensures add(m, []) == m {
    }
    forall m: Pool, a: seq<byte>, b: seq<byte> ensures add(add(m, a), b) == add(m, a + b) {
      assert m.unknown + (a + b) == m.unknown + a + b;
    }
    RepeatedFields.FoldAllUnknown(Step(false), add, m, fs);
  }

  /** Appends to the list of field 2 or 3. */
  function Append(num: nat): (Pool, seq<Coin>) -> Pool {
    (m: Pool, cs: seq<Coin>) =>
      if num == 2 then m.(totalTokens := m.totalTokens + cs) else m.(nonAmmPoolTokens := m.nonAmmPoolTokens + cs)
  }

  lemma AppendsCoins(num: nat)
    requires num == 2 || num == 3
    ensures AppendsTo(Step(false), Append(num), num, D.Reader(false))
  {
    hide D.Read;
    var append := Append(num);
    forall m: Pool, p: seq<byte>
      ensures Step(false)(m, ChunkField(num, p)) == AppendAll(append, m, Single(D.Reader(false)(p)))
    {
    }
    forall m: Pool ensures append(m, []) == m {
      assert m.totalTokens + [] == m.totalTokens && m.nonAmmPoolTokens + [] == m.nonAmmPoolTokens;
    }
    forall m: Pool, cs, ds ensures append(append(m, cs), ds) == append(m, cs + ds) {
      assert m.totalTokens + (cs + ds) == m.totalTokens + cs + ds;
      assert m.nonAmmPoolTokens + (cs + ds) == m.nonAmmPoolTokens + cs + ds;
    }
  }

  /** The coins that are read back as they were written are the clean ones. */
  lemma RereadCoins(cs: seq<Coin>)
    requires forall c | c in cs :: |D.Bytes(c)| < TWO_TO_THE_63
    ensures Reread(D.Reader(false), D.Bytes, cs) == Ok(cs) <==> CleanCoins(cs)
    ensures Reread(D.Reader(false), D.Bytes, cs).Ok? ==> |Reread(D.Reader(false), D.Bytes, cs).value| == |cs|
  {
    hide D.Read, D.Bytes, UnknownOnly;
    var clean := (c: Coin) => UnknownOnly(D.SCHEMA, c.unknown);
    forall c | c in cs ensures D.Reader(false)(D.Bytes(c)) == Ok(c) <==> clean(c) {
      D.RoundTrip(c);
    }
    RereadClean(D.Reader(false), D.Bytes, clean, cs);
  }

  // ----- round trips -----

  lemma FieldsWritable(m: Pool)
    requires |Bytes(m)| < TWO_TO_THE_63 && m.poolId < TWO_TO_THE_64
    ensures forall f | f in Fields(m) :: Writable(SCHEMA, f)
    ensures forall c | c in m.totalTokens || c in m.nonAmmPoolTokens :: |D.Bytes(c)| < TWO_TO_THE_63
  {
    var fs := Fields(m);
    forall f | f in fs ensures Writable(SCHEMA, f) {
      FieldWithin(fs, f);
    }
    var total, nonAmm := Chunks(2, Payloads(D.Bytes, m.totalTokens)), Chunks(3, Payloads(D.Bytes, m.nonAmmPoolTokens));
    ChunkWithin(2, D.Bytes, m.totalTokens);
    ChunkWithin(3, D.Bytes, m.nonAmmPoolTokens);
    forall c | c in m.totalTokens ensures |D.Bytes(c)| < TWO_TO_THE_63 {
      assert ChunkField(2, D.Bytes(c)) in fs;
    }
    forall c | c in m.nonAmmPoolTokens ensures |D.Bytes(c)| < TWO_TO_THE_63 {
      assert ChunkField(3, D.Bytes(c)) in fs;
    }
  }

  lemma FoldId(id: nat)
    ensures Fold(Step(false), EMPTY, IdField(id)) == Ok(EMPTY.(poolId := id))
  {
  }

  /** The known fields alone are read back as what the lists read back as. */
  lemma FoldFields(m: Pool)
    ensures Fold(Step(false), EMPTY, Fields(m))
            == match Reread(D.Reader(false), D.Bytes, m.totalTokens)
               case Err(e) => Err(e)
               case Ok(cs) =>
                 match Reread(D.Reader(false), D.Bytes, m.nonAmmPoolTokens)
                 case Err(e) => Err(e)
                 case Ok(ds) => Ok(Pool(m.poolId, cs, ds, []))
  {
    hide Reread, Fold, AppendsTo;
    FoldId(m.poolId);
    var total, nonAmm := Chunks(2, Payloads(D.Bytes, m.totalTokens)), Chunks(3, Payloads(D.Bytes, m.nonAmmPoolTokens));
    var step, read := Step(false), D.Reader(false);
    FoldAppend(step, EMPTY, IdField(m.poolId) + total, nonAmm);
    FoldAppend(step, EMPTY, IdField(m.poolId), total);
    AppendsCoins(2);
    AppendsCoins(3);
    FoldChunks(step, Append(2), 2, read, D.Bytes, EMPTY.(poolId := m.poolId), m.totalTokens);
    if Reread(read, D.Bytes, m.totalTokens).Ok? {
      var cs := Reread(read, D.Bytes, m.totalTokens).value;
      assert [] + cs == cs;
      FoldChunks(step, Append(3), 3, read, D.Bytes, Pool(m.poolId, cs, [], []), m.nonAmmPoolTokens);
      if Reread(read, D.Bytes, m.nonAmmPoolTokens).Ok? {
        assert [] + Reread(read, D.Bytes, m.nonAmmPoolTokens).value == Reread(read, D.Bytes, m.nonAmmPoolTokens).value;
      }
    }
  }

  /** Written messages are read back exactly when every unknown part is made of unknown fields. */
  lemma RoundTrip(m: Pool)
    requires |Bytes(m)| < TWO_TO_THE_63 && m.poolId < TWO_TO_THE_64
    ensures Read(EMPTY, Bytes(m), false) == Ok(m) <==> Clean(m)
  {
    hide Parse, UnknownOnly, FieldsBytes, Reread, Fields, CleanCoins;
    FieldsWritable(m);
    DecodeOfWritten(SCHEMA, Step(false), EMPTY, Fields(m), m.unknown);
    FoldFields(m);
    RereadCoins(m.totalTokens);
    RereadCoins(m.nonAmmPoolTokens);
    var pos := |FieldsBytes(Fields(m))|;
    UnknownOnlyIsRaw(SCHEMA, m.unknown, pos);
    if Fold(Step(false), EMPTY, Fields(m)).Ok? {
      FoldRest(Fold(Step(false), EMPTY, Fields(m)).value, m, pos);
    }
  }

  /** Unknown bytes that spell a known field do not survive: [8, 1] is read as the number 1. */
  lemma RoundTripMayFail()
    ensures var m := Pool(0, [], [], [8, 1]);
            Bytes(m) == [8, 1] && Read(EMPTY, Bytes(m), false) == Ok(Pool(1, [], [], []))
  {
    var f := ScalarField(1, 1);
    assert Fields(Pool(0, [], [], [8, 1])) == [];
    TagReads(1, 0, []);
    assert FieldBytes(f) == [8, 1];
    assert [f][1..] == [] && FieldsBytes([f]) == [8, 1] + [];
    DecodeOfWritten(SCHEMA, Step(false), EMPTY, [f], []);
    FoldOne(Step(false), EMPTY, f);
    DecodeUnfold(SCHEMA, Step(false), EMPTY.(poolId := 1), [], 2);
    assert [8, 1] + [] == [8, 1];
  }

  /** Reading the unknown bytes last: the lists cannot shrink back. */
  lemma FoldRest(m0: Pool, m: Pool, pos: nat)
    requires pos + |m.unknown| < TWO_TO_THE_63 && m0.poolId == m.poolId && m0.unknown == []
    requires |m0.totalTokens| == |m.totalTokens| && |m0.nonAmmPoolTokens| == |m.nonAmmPoolTokens|
    ensures Decode(SCHEMA, Step(false), m0, m.unknown, pos) == Ok(m)
            <==> m0 == m.(unknown := []) && UnknownOnly(SCHEMA, m.unknown)
  {
    hide Parse, UnknownOnly, RawOf;
    UnknownOnlyIsRaw(SCHEMA, m.unknown, pos);
    var fs := Parse(SCHEMA, m.unknown, pos).fields;
    assert [] + RawOf(fs) == RawOf(fs);
    if Fold(Step(false), m0, fs).Ok? {
      FoldShape(false, m0, fs);
    }
    if UnknownOnly(SCHEMA, m.unknown) {
      FoldAllUnknown(m0, fs);
    }
  }

  // ----- sizes -----

  function IdSize(id: nat): nat {
    if id == 0 then 0 else 1 + |Write(id)|
  }

  lemma BytesSize(m: Pool)
    ensures |Bytes(m)| == IdSize(m.poolId) + ListSize(D.Bytes, m.totalTokens) + ListSize(D.Bytes, m.nonAmmPoolTokens) + |m.unknown|
  {
    var total, nonAmm := Chunks(2, Payloads(D.Bytes, m.totalTokens)), Chunks(3, Payloads(D.Bytes, m.nonAmmPoolTokens));
    FieldsBytesAppend(IdField(m.poolId) + total, nonAmm);
    FieldsBytesAppend(IdField(m.poolId), total);
    ChunksSize(2, D.Bytes, m.totalTokens);
    ChunksSize(3, D.Bytes, m.nonAmmPoolTokens);
    FieldSizes(ScalarField(1, m.poolId));
    assert [ScalarField(1, m.poolId)][1..] == [];
  }

  lemma ApplyGrows(discard: bool, m: Pool, f: Field)
    requires Writable(SCHEMA, f) && Clean(m) && |m.unknown| + |FieldBytes(f)| < TWO_TO_THE_63
    requires m.poolId < TWO_TO_THE_64 && Apply(discard, m, f).Ok?
    ensures var r := Apply(discard, m, f).value;
            && |Bytes(r)| <= |Bytes(m)| + |FieldBytes(f)|
            && |r.unknown| <= |m.unknown| + |FieldBytes(f)|
            && Clean(r) && r.poolId < TWO_TO_THE_64
  {
    hide Bytes, UnknownOnly, D.Read, D.Bytes, ListSize, FieldBytes, NextField, ChunkSize, Write;
    var r := Apply(discard, m, f).value;
    BytesSize(m);
    BytesSize(r);
    FieldSizes(f);
    match f
    case ScalarField(num, v) =>
    case ChunkField(num, p) =>
      D.ReadWriteRead(p, discard);
      var c := D.Read(D.EMPTY, p, discard).value;
      ChunkSizeMonotone(|D.Bytes(c)|, |p|);
      ListSizeAppend(D.Bytes, m.totalTokens, c);
      ListSizeAppend(D.Bytes, m.nonAmmPoolTokens, c);
    case UnknownField(raw) =>
      RawSize(raw);
      if !discard {
        UnknownOnlyAppend(SCHEMA, m.unknown, raw);
      }
  }

  lemma RawSize(raw: seq<byte>)
    ensures FieldBytes(UnknownField(raw)) == raw
  {
  }

  lemma {:induction false} FoldGrows(discard: bool, m: Pool, fs: seq<Field>)
    requires forall f | f in fs :: Writable(SCHEMA, f)
    requires Clean(m) && |m.unknown| + |FieldsBytes(fs)| < TWO_TO_THE_63 && m.poolId < TWO_TO_THE_64
    requires Fold(Step(discard), m, fs).Ok?
    ensures var r := Fold(Step(discard), m, fs).value;
            |Bytes(r)| <= |Bytes(m)| + |FieldsBytes(fs)| && Clean(r) && r.poolId < TWO_TO_THE_64
    decreases fs
  {
    hide Bytes, Clean, Writable, Apply, FieldBytes;
    if fs != [] {
      ApplyGrows(discard, m, fs[0]);
      FoldGrows(discard, Apply(discard, m, fs[0]).value, fs[1..]);
    }
  }

  /**
   Whatever bytes were accepted, with tags and lengths in long form, fields out
   of order or repeated, unknown fields anywhere: writing the message and
   reading it again gives the same message, in no more bytes than before.
   */
  lemma ReadWriteRead(s: seq<byte>, discard: bool)
    requires |s| < TWO_TO_THE_63 && Read(EMPTY, s, discard).Ok?
    ensures var m := Read(EMPTY, s, discard).value;
            && |Bytes(m)| <= |s|
            && Clean(m) && m.poolId < TWO_TO_THE_64
            && Read(EMPTY, Bytes(m), false) == Ok(m)
  {
    hide Parse, Bytes;
    ParseWritable(SCHEMA, s, 0);
    BytesSize(EMPTY);
    NoUnknown(SCHEMA);
    FoldGrows(discard, EMPTY, Parse(SCHEMA, s, 0).fields);
    RoundTrip(Read(EMPTY, s, discard).value);
  }

  // ----- reading into a message -----

  /** Reading a ++ b is reading a and then b into the same message. */
  lemma ReadAppend(m: Pool, a: seq<byte>, b: seq<byte>, discard: bool)
    requires Read(m, a, discard).Ok? && |a| + |b| < TWO_TO_THE_63
    ensures Agree(Read(m, a + b, discard), Read(Read(m, a, discard).value, b, discard))
  {
    DecodeConcat(SCHEMA, Step(discard), m, a, b);
  }

  /** A nested message that cannot be read is an error, and the list has it as far as it was read. */
  lemma BrokenElement(m: Pool, num: nat, p: seq<byte>, rest: seq<byte>, discard: bool)
    requires (num == 2 || num == 3) && |FieldBytes(ChunkField(num, p))| + |rest| < TWO_TO_THE_63
    requires D.Read(D.EMPTY, p, discard).Err?
    ensures var s, c := FieldBytes(ChunkField(num, p)) + rest, D.Left(D.EMPTY, p, discard);
            Read(m, s, discard).Err?
            && Left(m, s, discard) == if num == 2 then m.(totalTokens := m.totalTokens + [c])
                                      else m.(nonAmmPoolTokens := m.nonAmmPoolTokens + [c])
  {
    hide NextField, FieldBytes, D.Read, D.Left, Parse;
    var f := ChunkField(num, p);
    var s := FieldBytes(f) + rest;
    ShortChunk(num, p);
    NextFieldOfWritten(SCHEMA, f, rest, 0);
    NextFieldRange(SCHEMA, s, 0);
    DecodeUnfold(SCHEMA, Step(discard), m, s, 0);
    LeaveUnfold(SCHEMA, Step(discard), Torn(discard), Cut(), m, s, 0);
  }

  lemma ShortChunk(num: nat, p: seq<byte>)
    requires (num == 2 || num == 3) && |FieldBytes(ChunkField(num, p))| < TWO_TO_THE_63
    ensures Writable(SCHEMA, ChunkField(num, p))
  {
  }

  /** A number that cannot be read is an error, and what was read of it is the number. */
  lemma BrokenNumber(m: Pool, t: seq<byte>, discard: bool)
    requires Varint.Read(t).Err?
    ensures Read(m, [0x08] + t, discard).Err? && Left(m, [0x08] + t, discard) == m.(poolId := Bits(t, 10) % TWO_TO_THE_64)
  {
    hide Varint.Read, Bits;
    var s := [0x08] + t;
    TagReads(1, 0, t);
    SmallTag(1, 0);
    assert s[1..] == t;
    DecodeUnfold(SCHEMA, Step(discard), m, s, 0);
    LeaveUnfold(SCHEMA, Step(discard), Torn(discard), Cut(), m, s, 0);
  }

  predicate HasId(fs: seq<Field>) {
    exists f | f in fs :: f.ScalarField?
  }

  /** The number is replaced if given, lists and unknown bytes are concatenated. */
  function Merge(m: Pool, e: Pool, hasId: bool): Pool {
    Pool(if hasId then e.poolId else m.poolId, m.totalTokens + e.totalTokens,
         m.nonAmmPoolTokens + e.nonAmmPoolTokens, m.unknown + e.unknown)
  }

  lemma MergeAssociative(m: Pool, e: Pool, t: Pool, p: bool, q: bool)
    ensures Merge(m, Merge(e, t, q), p || q) == Merge(Merge(m, e, p), t, q)
  {
  }

  lemma ApplyMerges(discard: bool, m: Pool, f: Field)
    ensures Apply(discard, m, f)
            == match Apply(discard, EMPTY, f)
               case Err(e) => Err(e)
               case Ok(e) => Ok(Merge(m, e, f.ScalarField?))
  {
    hide D.Read;
    assert m.totalTokens + [] == m.totalTokens && m.nonAmmPoolTokens + [] == m.nonAmmPoolTokens;
    assert m.unknown + [] == m.unknown;
    if f.UnknownField? {
      assert [] + f.raw == f.raw;
    } else if f.ChunkField? && D.Read(D.EMPTY, f.payload, discard).Ok? {
      var c := D.Read(D.EMPTY, f.payload, discard).value;
      assert [] + [c] == [c];
    }
  }

  lemma {:induction false} FoldMerges(discard: bool, m: Pool, fs: seq<Field>)
    ensures Fold(Step(discard), m, fs)
            == match Fold(Step(discard), EMPTY, fs)
               case Err(e) => Err(e)
               case Ok(e) => Ok(Merge(m, e, HasId(fs)))
    decreases fs
  {
    hide Apply, Merge;
    if fs == [] {
      MergeNothing(m);
    } else {
      var f, tail := fs[0], fs[1..];
      ApplyMerges(discard, m, f);
      if Apply(discard, EMPTY, f).Ok? {
        var e := Apply(discard, EMPTY, f).value;
        FoldMerges(discard, Merge(m, e, f.ScalarField?), tail);
        FoldMerges(discard, e, tail);
        assert HasId(fs) == (f.ScalarField? || HasId(tail));
        if Fold(Step(discard), EMPTY, tail).Ok? {
          MergeAssociative(m, e, Fold(Step(discard), EMPTY, tail).value, f.ScalarField?, HasId(tail));
        }
      }
    }
  }

  lemma MergeNothing(m: Pool)
    ensures Merge(m, EMPTY, false) == m
  {
  }

  /** Reading into a message: what the bytes say, merged into what was there;
      the number is the last one given. */
  lemma ReadMerges(m: Pool, s: seq<byte>, discard: bool)
    ensures Read(m, s, discard)
            == match Read(EMPTY, s, discard)
               case Err(e) => Err(e)
               case Ok(e) => Ok(Merge(m, e, HasId(Parse(SCHEMA, s, 0).fields)))
  {
    hide Parse, Merge, HasId;
    FoldMerges(discard, m, Parse(SCHEMA, s, 0).fields);
  }

  function StripAll(cs: seq<Coin>): (ds: seq<Coin>)
    ensures |ds| == |cs|
  {
    seq(|cs|, i requires 0 <= i < |cs| => D.Strip(cs[i]))
  }

  function Strip(m: Pool): Pool {
    Pool(m.poolId, StripAll(m.totalTokens), StripAll(m.nonAmmPoolTokens), [])
  }

  /** Reading with unknown fields discarded is reading and then dropping them, at every level. */
  lemma ReadDiscarding(s: seq<byte>)
    ensures Read(EMPTY, s, true) == MapOk(Strip, Read(EMPTY, s, false))
  {
    hide Parse, D.Read;
    forall x: Pool, y: Field ensures Step(true)(Strip(x), y) == MapOk(Strip, Step(false)(x, y)) {
      if y.ChunkField? {
        D.ReadDiscarding(y.payload);
        if D.Read(D.EMPTY, y.payload, false).Ok? {
          var c := D.Read(D.EMPTY, y.payload, false).value;
          assert StripAll(x.totalTokens + [c]) == StripAll(x.totalTokens) + [D.Strip(c)];
          assert StripAll(x.nonAmmPoolTokens + [c]) == StripAll(x.nonAmmPoolTokens) + [D.Strip(c)];
        }
      }
    }
    assert Strip(EMPTY) == EMPTY;
    FoldCommutes(Step(false), Step(true), Strip, EMPTY, Parse(SCHEMA, s, 0).fields);
  }
}
