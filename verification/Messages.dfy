/** What every message's reader has in common: fields are applied one by one. */
module Messages {
  import opened Basics
  import opened Varint
  import opened Wire

  function Fold<M>(step: (M, Field) -> Result<M>, m: M, fs: seq<Field>): Result<M> {
    if fs == [] then Ok(m)
    else
      match step(m, fs[0])
      case Err(e) => Err(e)
      case Ok(m') => Fold(step, m', fs[1..])
  }

  /** Reads s into m; `pos` is the index of s in the input. */
  function Decode<M>(schema: Schema, step: (M, Field) -> Result<M>, m: M, s: seq<byte>, pos: nat): Result<M> {
    var p := Parse(schema, s, pos);
    match Fold(step, m, p.fields)
    case Err(e) => Err(e)
    case Ok(r) => if p.error.Some? then Err(p.error.value) else Ok(r)
  }

  lemma {:induction false} FoldAppend<M>(step: (M, Field) -> Result<M>, m: M, fs: seq<Field>, gs: seq<Field>)
    ensures Fold(step, m, fs + gs)
            == match Fold(step, m, fs) case Err(e) => Err(e) case Ok(r) => Fold(step, r, gs)
  {
    if fs == [] {
      assert fs + gs == gs;
    } else {
      assert (fs + gs)[1..] == fs[1..] + gs;
      if step(m, fs[0]).Ok? {
        FoldAppend(step, step(m, fs[0]).value, fs[1..], gs);
      }
    }
  }

  /** Reading a ++ b is reading b into what was read from a. */
  lemma DecodeAppend<M>(schema: Schema, step: (M, Field) -> Result<M>, m: M, a: seq<byte>, b: seq<byte>, pos: nat)
    requires Decode(schema, step, m, a, pos).Ok? && pos + |a| + |b| < TWO_TO_THE_63
    ensures Decode(schema, step, m, a + b, pos)
            == Decode(schema, step, Decode(schema, step, m, a, pos).value, b, pos + |a|)
  {
    hide Parse;
    ParseAppend(schema, a, b, pos);
    FoldAppend(step, m, Parse(schema, a, pos).fields, Parse(schema, b, pos + |a|).fields);
  }

  /** Two results agree up to the kind of error. */
  predicate Agree<M(==)>(x: Result<M>, y: Result<M>) {
    if x.Ok? then y == x else y.Err?
  }

  lemma DecodePosition<M>(schema: Schema, step: (M, Field) -> Result<M>, m: M, s: seq<byte>, pos: nat, pos': nat)
    requires pos + |s| < TWO_TO_THE_63 && pos' + |s| < TWO_TO_THE_63
    ensures Agree(Decode(schema, step, m, s, pos), Decode(schema, step, m, s, pos'))
  {
    hide Parse;
    ParsePosition(schema, s, pos, pos');
  }

  /** Reading a ++ b: as reading b alone into the result of a, but for the kind of error. */
  lemma DecodeConcat<M>(schema: Schema, step: (M, Field) -> Result<M>, m: M, a: seq<byte>, b: seq<byte>)
    requires Decode(schema, step, m, a, 0).Ok? && |a| + |b| < TWO_TO_THE_63
    ensures Agree(Decode(schema, step, m, a + b, 0),
                  Decode(schema, step, Decode(schema, step, m, a, 0).value, b, 0))
  {
    DecodeAppend(schema, step, m, a, b, 0);
    DecodePosition(schema, step, Decode(schema, step, m, a, 0).value, b, |a|, 0);
  }

  function MapOk<M>(h: M -> M, r: Result<M>): Result<M> {
    match r case Ok(v) => Ok(h(v)) case Err(e) => Err(e)
  }

  /** A map that commutes with every step commutes with reading. */
  lemma {:induction false} FoldCommutes<M(!new)>(f: (M, Field) -> Result<M>, g: (M, Field) -> Result<M>, h: M -> M,
                                                 m: M, fs: seq<Field>)
    requires forall x, y :: g(h(x), y) == MapOk(h, f(x, y))
    ensures Fold(g, h(m), fs) == MapOk(h, Fold(f, m, fs))
    decreases fs
  {
    if fs != [] && f(m, fs[0]).Ok? {
      FoldCommutes(f, g, h, f(m, fs[0]).value, fs[1..]);
    }
  }

  /** Written fields are applied in order, then whatever follows them. */
  lemma DecodeOfWritten<M>(schema: Schema, step: (M, Field) -> Result<M>, m: M, fs: seq<Field>, rest: seq<byte>)
    requires forall f | f in fs :: Writable(schema, f)
    requires |FieldsBytes(fs)| + |rest| < TWO_TO_THE_63
    ensures Decode(schema, step, m, FieldsBytes(fs) + rest, 0)
            == match Fold(step, m, fs)
               case Err(e) => Err(e)
               case Ok(r) => Decode(schema, step, r, rest, |FieldsBytes(fs)|)
  {
    hide Parse, FieldsBytes;
    ParseOfWritten(schema, fs, rest, 0);
    FoldAppend(step, m, fs, Parse(schema, rest, |FieldsBytes(fs)|).fields);
  }

  lemma {:induction false} FieldsBytesAppend(fs: seq<Field>, gs: seq<Field>)
    ensures FieldsBytes(fs + gs) == FieldsBytes(fs) + FieldsBytes(gs)
  {
    if fs == [] {
      assert fs + gs == gs;
    } else {
      assert (fs + gs)[1..] == fs[1..] + gs;
      FieldsBytesAppend(fs[1..], gs);
    }
  }

  lemma OneField(f: Field)
    ensures FieldsBytes([f]) == FieldBytes(f)
  {
    assert [f][1..] == [];
  }

  lemma {:induction false} FieldWithin(fs: seq<Field>, f: Field)
    requires f in fs
    ensures |FieldBytes(f)| <= |FieldsBytes(fs)|
  {
    if f != fs[0] {
      FieldWithin(fs[1..], f);
    }
  }

  lemma FoldNone<M>(step: (M, Field) -> Result<M>, m: M)
    ensures Fold(step, m, []) == Ok(m)
  {
  }

  lemma FoldOne<M>(step: (M, Field) -> Result<M>, m: M, f: Field)
    ensures Fold(step, m, [f]) == step(m, f)
  {
  }

  lemma FoldTwo<M>(step: (M, Field) -> Result<M>, m: M, f: Field, g: Field)
    ensures Fold(step, m, [f, g]) == match step(m, f) case Err(e) => Err(e) case Ok(r) => step(r, g)
  {
    assert [f, g][1..] == [g];
    if step(m, f).Ok? {
      FoldOne(step, step(m, f).value, g);
    }
  }

  /** The fields of one repeated nested field. */
  function Chunks(num: nat, payloads: seq<seq<byte>>): seq<Field> {
    seq(|payloads|, i requires 0 <= i < |payloads| => ChunkField(num, payloads[i]))
  }

  /** The size of a length-delimited field with a one-byte tag. */
  function ChunkSize(length: nat): nat {
    1 + |Write(length)| + length
  }

  lemma FieldSizes(f: Field)
    ensures f.ChunkField? && 0 < f.num < 16 ==> |FieldBytes(f)| == ChunkSize(|f.payload|)
    ensures f.ScalarField? && 0 < f.num < 16 ==> |FieldBytes(f)| == 1 + |Write(f.value)|
  {
  }

  lemma ChunkSizeMonotone(a: nat, b: nat)
    requires a <= b
    ensures ChunkSize(a) <= ChunkSize(b)
  {
    WriteMonotone(a, b);
  }

  /** Reading field by field. */
  lemma DecodeUnfold<M>(schema: Schema, step: (M, Field) -> Result<M>, m: M, s: seq<byte>, pos: nat)
    ensures s == [] ==> Decode(schema, step, m, s, pos) == Ok(m)
    ensures s != [] ==>
              match NextField(schema, s, pos)
              case Err(e) => Decode(schema, step, m, s, pos) == Err(e)
              case Ok((f, n)) =>
                1 <= n <= |s|
                && Decode(schema, step, m, s, pos)
                   == match step(m, f)
                      case Err(e) => Err(e)
                      case Ok(m') => Decode(schema, step, m', s[n..], pos + n)
  {
    hide NextField;
    if s != [] && NextField(schema, s, pos).Ok? {
      hide Parse;
      ParseUnfold(schema, s, pos);
      var (f, n) := NextField(schema, s, pos).value;
      FoldAppend(step, m, [f], Parse(schema, s[n..], pos + n).fields);
      FoldOne(step, m, f);
    }
  }

  // ----- what is left in the message when reading fails -----

  /** The message after reading s into m, error or not. A field that cannot be
      read may still `cut` into the message, one that cannot be applied leaves
      it `torn`; the fields before it are all there, those after it are not. */
  function Leave<M>(schema: Schema, step: (M, Field) -> Result<M>, torn: (M, Field) -> M, cut: (M, seq<byte>) -> M,
                    m: M, s: seq<byte>, pos: nat): M
    decreases |s|
  {
    if s == [] then m
    else
      match NextField(schema, s, pos)
      case Err(e) => cut(m, s)
      case Ok((f, n)) =>
        match step(m, f)
        case Err(e) => torn(m, f)
        case Ok(m') => NextFieldRange(schema, s, pos); Leave(schema, step, torn, cut, m', s[n..], pos + n)
  }

  lemma LeaveUnfold<M>(schema: Schema, step: (M, Field) -> Result<M>, torn: (M, Field) -> M, cut: (M, seq<byte>) -> M,
                       m: M, s: seq<byte>, pos: nat)
    ensures s == [] ==> Leave(schema, step, torn, cut, m, s, pos) == m
    ensures s != [] ==>
              match NextField(schema, s, pos)
              case Err(e) => Leave(schema, step, torn, cut, m, s, pos) == cut(m, s)
              case Ok((f, n)) =>
                n <= |s|
                && Leave(schema, step, torn, cut, m, s, pos)
                   == match step(m, f)
                      case Err(e) => torn(m, f)
                      case Ok(m') => Leave(schema, step, torn, cut, m', s[n..], pos + n)
  {
    hide NextField;
    if s != [] && NextField(schema, s, pos).Ok? {
      NextFieldRange(schema, s, pos);
    }
  }

  /** Without an error it is what was read. */
  lemma {:induction false} LeaveOfDecode<M>(schema: Schema, step: (M, Field) -> Result<M>, torn: (M, Field) -> M,
                                            cut: (M, seq<byte>) -> M, m: M, s: seq<byte>, pos: nat)
    requires Decode(schema, step, m, s, pos).Ok?
    ensures Leave(schema, step, torn, cut, m, s, pos) == Decode(schema, step, m, s, pos).value
    decreases |s|
  {
    hide NextField, Decode;
    DecodeUnfold(schema, step, m, s, pos);
    if s != [] {
      var (f, n) := NextField(schema, s, pos).value;
      LeaveOfDecode(schema, step, torn, cut, step(m, f).value, s[n..], pos + n);
    }
  }

  /** Everything before the failing part is kept. */
  lemma {:induction false} LeaveAppend<M>(schema: Schema, step: (M, Field) -> Result<M>, torn: (M, Field) -> M,
                                          cut: (M, seq<byte>) -> M, m: M, a: seq<byte>, b: seq<byte>, pos: nat)
    requires Decode(schema, step, m, a, pos).Ok? && pos + |a| + |b| < TWO_TO_THE_63
    ensures Leave(schema, step, torn, cut, m, a + b, pos)
            == Leave(schema, step, torn, cut, Decode(schema, step, m, a, pos).value, b, pos + |a|)
    decreases |a|
  {
    hide NextField, Decode;
    DecodeUnfold(schema, step, m, a, pos);
    if a == [] {
      assert a + b == b;
    } else {
      var (f, n) := NextField(schema, a, pos).value;
      assert a[..n] <= a + b;
      NextFieldPrefix(schema, a, a + b, pos, pos);
      assert (a + b)[n..] == a[n..] + b;
      LeaveAppend(schema, step, torn, cut, step(m, f).value, a[n..], b, pos + n);
    }
  }
}
