/**
 The wire format that all messages share: fields are read one by one from a
 byte string, known ones against a schema, unknown ones kept as raw bytes.
 Indices are 64-bit signed: a length or an index from 2^63 on reads as negative.
 */
module Wire {
  import opened Basics
  import opened Varint

  datatype Kind = Scalar | Nested

  /** Which field numbers a message knows, and how each is encoded. */
  type Schema = map<int, Kind>

  datatype Field =
    | ScalarField(num: nat, value: nat)
    | ChunkField(num: nat, payload: seq<byte>)
    | UnknownField(raw: seq<byte>)

  /** The fields read before the end of the bytes or the first error. */
  datatype Parsed = Parsed(fields: seq<Field>, error: Option<Error>)

  /** A tag's field number is cut to 32 bits and read as signed. */
  function FieldNumber(wire: nat): int {
    var n := (wire / 8) % TWO_TO_THE_32;
    if n < TWO_TO_THE_32 / 2 then n else n - TWO_TO_THE_32
  }

  function WireType(k: Kind): nat {
    if k.Scalar? then 0 else 2
  }

  // ----- skipping an unknown field -----

  /** Where a value of the given wire type ends, from index i on. */
  function SkipValue(s: seq<byte>, i: nat, wireType: nat): Result<nat>
    requires i <= |s|
  {
    match wireType
    case 0 => (match Read(s[i..]) case Err(e) => Err(e) case Ok((v, n)) => Ok(i + n))
    case 1 => Ok(i + 8)
    case 2 =>
      (match Read(s[i..])
       case Err(e) => Err(e)
       case Ok((v, n)) => if v >= TWO_TO_THE_63 then Err(InvalidLength) else Ok(i + n + v))
    case 3 => Ok(i)
    case 4 => Ok(i)
    case 5 => Ok(i + 4)
    case _ => Err(IllegalWireType)
  }

  function NewDepth(depth: nat, wireType: nat): Option<nat> {
    if wireType == 3 then Some(depth + 1)
    else if wireType == 4 then if depth == 0 then None else Some(depth - 1)
    else Some(depth)
  }

  /** The end of the field, group or rest of a group that starts at index i. */
  function SkipFrom(s: seq<byte>, i: nat, depth: nat): Result<nat>
    decreases |s| - i
  {
    if i >= |s| then Err(UnexpectedEOF)
    else
      match Read(s[i..])
      case Err(e) => Err(e)
      case Ok((wire, n)) =>
        ReadRange(s[i..]);
        match NewDepth(depth, wire % 8)
        case None => Err(UnexpectedEndOfGroup)
        case Some(depth') =>
          match SkipValue(s, i + n, wire % 8)
          case Err(e) => Err(e)
          case Ok(k) =>
            SkipValueAdvances(s, i + n, wire % 8);
            if k >= TWO_TO_THE_63 then Err(InvalidLength)
            else if depth' == 0 then Ok(k)
            else SkipFrom(s, k, depth')
  }

  lemma SkipValueAdvances(s: seq<byte>, i: nat, wireType: nat)
    requires i <= |s| && SkipValue(s, i, wireType).Ok?
    ensures SkipValue(s, i, wireType).value >= i
  {
  }

  // ----- one field -----

  /** The field at the front of s, which starts at index pos of the input, and
      its length. */
  function NextField(schema: Schema, s: seq<byte>, pos: nat): Result<(Field, nat)> {
    match Read(s)
    case Err(e) => Err(e)
    case Ok((wire, n)) =>
      var num := FieldNumber(wire);
      if wire % 8 == 4 then Err(EndGroup)
      else if num <= 0 then Err(IllegalTag)
      else if num in schema then
        if wire % 8 != WireType(schema[num]) then Err(WrongWireType)
        else ReadRange(s); KnownField(schema[num], num, s, n, pos)
      else
        match SkipFrom(s, 0, 0)
        case Err(e) => Err(e)
        case Ok(k) =>
          if pos + k >= TWO_TO_THE_63 then Err(InvalidLength)
          else if k > |s| then Err(UnexpectedEOF)
          else Ok((UnknownField(s[..k]), k))
  }

  /** The value of a known field whose tag took n bytes. */
  function KnownField(kind: Kind, num: nat, s: seq<byte>, n: nat, pos: nat): Result<(Field, nat)>
    requires n <= |s|
  {
    match Read(s[n..])
    case Err(e) => Err(e)
    case Ok((v, m)) =>
      if kind.Scalar? then Ok((ScalarField(num, v), n + m))
      else if v >= TWO_TO_THE_63 || pos + n + m + v >= TWO_TO_THE_63 then Err(InvalidLength)
      else if n + m + v > |s| then Err(UnexpectedEOF)
      else Ok((ChunkField(num, s[n + m..n + m + v]), n + m + v))
  }

  lemma {:induction false} SkipRange(s: seq<byte>, i: nat, depth: nat)
    requires SkipFrom(s, i, depth).Ok?
    ensures SkipFrom(s, i, depth).value > i
    decreases |s| - i
  {
    ReadRange(s[i..]);
    var (wire, n) := Read(s[i..]).value;
    SkipValueAdvances(s, i + n, wire % 8);
    var k := SkipValue(s, i + n, wire % 8).value;
    if NewDepth(depth, wire % 8).value != 0 {
      SkipRange(s, k, NewDepth(depth, wire % 8).value);
    }
  }

  lemma NextFieldRange(schema: Schema, s: seq<byte>, pos: nat)
    requires NextField(schema, s, pos).Ok?
    ensures 1 <= NextField(schema, s, pos).value.1 <= |s|
    ensures pos + |s| < TWO_TO_THE_63 ==> pos + NextField(schema, s, pos).value.1 < TWO_TO_THE_63
  {
    ReadRange(s);
    var (wire, n) := Read(s).value;
    if FieldNumber(wire) in schema {
      ReadRange(s[n..]);
    } else {
      SkipRange(s, 0, 0);
    }
  }

  /** All fields of s, in order. */
  function Parse(schema: Schema, s: seq<byte>, pos: nat): Parsed
    decreases |s|
  {
    if s == [] then Parsed([], None)
    else
      match NextField(schema, s, pos)
      case Err(e) => Parsed([], Some(e))
      case Ok((f, n)) =>
        NextFieldRange(schema, s, pos);
        var rest := Parse(schema, s[n..], pos + n);
        Parsed([f] + rest.fields, rest.error)
  }

  // ----- a field depends on its own bytes only -----

  lemma ReadAt(s: seq<byte>, t: seq<byte>, i: nat, k: nat)
    requires i <= k <= |s| && s[..k] <= t && Read(s[i..]).Ok? && i + Read(s[i..]).value.1 <= k
    ensures Read(t[i..]) == Read(s[i..])
  {
    var n := Read(s[i..]).value.1;
    assert s[i..][..n] == s[..k][i..i + n] == t[i..][..n];
    ReadPrefix(s[i..], t[i..]);
  }

  lemma SkipValuePrefix(s: seq<byte>, t: seq<byte>, i: nat, wireType: nat)
    requires i <= |s| && SkipValue(s, i, wireType).Ok? && SkipValue(s, i, wireType).value <= |s|
    requires s[..SkipValue(s, i, wireType).value] <= t
    ensures SkipValue(t, i, wireType) == SkipValue(s, i, wireType)
  {
    if wireType == 0 || wireType == 2 {
      ReadAt(s, t, i, SkipValue(s, i, wireType).value);
    }
  }

  lemma {:induction false} SkipPrefix(s: seq<byte>, t: seq<byte>, i: nat, depth: nat)
    requires SkipFrom(s, i, depth).Ok? && SkipFrom(s, i, depth).value <= |s|
    requires s[..SkipFrom(s, i, depth).value] <= t
    ensures SkipFrom(t, i, depth) == SkipFrom(s, i, depth)
    decreases |s| - i
  {
    hide Read, SkipValue;
    var end := SkipFrom(s, i, depth).value;
    ReadRange(s[i..]);
    var (wire, n) := Read(s[i..]).value;
    SkipValueAdvances(s, i + n, wire % 8);
    var k := SkipValue(s, i + n, wire % 8).value;
    var depth' := NewDepth(depth, wire % 8).value;
    if depth' != 0 {
      SkipRange(s, k, depth');
    }
    assert k <= end && s[..k] == s[..end][..k];
    ReadAt(s, t, i, end);
    SkipValuePrefix(s, t, i + n, wire % 8);
    if depth' != 0 {
      SkipPrefix(s, t, k, depth');
    }
  }

  lemma NextFieldPrefix(schema: Schema, s: seq<byte>, t: seq<byte>, pos: nat, pos': nat)
    requires NextField(schema, s, pos).Ok? && NextField(schema, s, pos).value.1 <= |s|
    requires s[..NextField(schema, s, pos).value.1] <= t && pos' + |t| < TWO_TO_THE_63
    ensures NextField(schema, t, pos') == NextField(schema, s, pos)
  {
    var (f, k) := NextField(schema, s, pos).value;
    ReadRange(s);
    var (wire, n) := Read(s).value;
    assert s[0..] == s && t[0..] == t;
    if FieldNumber(wire) in schema {
      ReadRange(s[n..]);
      ReadAt(s, t, 0, k);
      ReadAt(s, t, n, k);
      if f.ChunkField? {
        var (v, m) := Read(s[n..]).value;
        assert s[n + m..k] == s[..k][n + m..] == t[n + m..k];
      }
    } else {
      SkipFirstTag(s);
      ReadAt(s, t, 0, k);
      SkipPrefix(s, t, 0, 0);
      assert s[..k] == t[..k];
    }
  }

  lemma SkipFirstTag(s: seq<byte>)
    requires SkipFrom(s, 0, 0).Ok?
    ensures Read(s).Ok? && SkipFrom(s, 0, 0).value >= Read(s).value.1
  {
    assert s[0..] == s;
    ReadRange(s);
    var (wire, n) := Read(s).value;
    SkipValueAdvances(s, n, wire % 8);
    if NewDepth(0, wire % 8).value != 0 {
      SkipRange(s, SkipValue(s, n, wire % 8).value, NewDepth(0, wire % 8).value);
    }
  }

  function Prepend(fs: seq<Field>, p: Parsed): Parsed {
    Parsed(fs + p.fields, p.error)
  }

  lemma PrependNothing(p: Parsed)
    ensures Prepend([], p) == p
  {
  }

  lemma ParseEmpty(schema: Schema, pos: nat)
    ensures Parse(schema, [], pos) == Parsed([], None)
  {
  }

  lemma PrependTwice(f: Field, fs: seq<Field>, p: Parsed)
    ensures Prepend([f], Prepend(fs, p)) == Prepend([f] + fs, p)
  {
  }

  lemma ParseUnfold(schema: Schema, s: seq<byte>, pos: nat)
    requires s != []
    ensures match NextField(schema, s, pos)
            case Err(e) => Parse(schema, s, pos) == Parsed([], Some(e))
            case Ok((f, n)) =>
              1 <= n <= |s| && Parse(schema, s, pos) == Prepend([f], Parse(schema, s[n..], pos + n))
  {
    hide NextField;
    if NextField(schema, s, pos).Ok? {
      NextFieldRange(schema, s, pos);
    }
  }

  /** Appending bytes to bytes that parse: the fields of both, in order. */
  lemma {:induction false} ParseAppend(schema: Schema, a: seq<byte>, b: seq<byte>, pos: nat)
    requires Parse(schema, a, pos).error.None? && pos + |a| + |b| < TWO_TO_THE_63
    ensures Parse(schema, a + b, pos) == Prepend(Parse(schema, a, pos).fields, Parse(schema, b, pos + |a|))
    decreases |a|
  {
    hide NextField, Parse;
    if a == [] {
      assert a + b == b;
      ParseEmpty(schema, pos);
      PrependNothing(Parse(schema, b, pos));
    } else {
      ParseUnfold(schema, a, pos);
      var (f, n) := NextField(schema, a, pos).value;
      assert a[..n] <= a + b;
      NextFieldPrefix(schema, a, a + b, pos, pos);
      ParseUnfold(schema, a + b, pos);
      assert (a + b)[n..] == a[n..] + b;
      ParseAppend(schema, a[n..], b, pos + n);
      PrependTwice(f, Parse(schema, a[n..], pos + n).fields, Parse(schema, b, pos + |a|));
    }
  }

  /** Where the input starts decides at most which error is reported. */
  lemma {:induction false} ParsePosition(schema: Schema, s: seq<byte>, pos: nat, pos': nat)
    requires pos + |s| < TWO_TO_THE_63 && pos' + |s| < TWO_TO_THE_63
    ensures var p, q := Parse(schema, s, pos), Parse(schema, s, pos');
            p.fields == q.fields && p.error.Some? == q.error.Some?
    decreases |s|
  {
    hide NextField;
    if s != [] {
      if NextField(schema, s, pos).Ok? {
        NextFieldRange(schema, s, pos);
        var n := NextField(schema, s, pos).value.1;
        assert s[..n] <= s;
        NextFieldPrefix(schema, s, s, pos, pos');
        ParsePosition(schema, s[n..], pos + n, pos' + n);
      } else if NextField(schema, s, pos').Ok? {
        NextFieldRange(schema, s, pos');
        assert s[..NextField(schema, s, pos').value.1] <= s;
        NextFieldPrefix(schema, s, s, pos', pos);
        assert false;
      }
    }
  }

  // ----- writing fields -----

  function Tag(num: nat, wireType: nat): nat {
    num * 8 + wireType
  }

  function FieldBytes(f: Field): seq<byte> {
    match f
    case ScalarField(num, v) => Write(Tag(num, 0)) + Write(v)
    case ChunkField(num, p) => Write(Tag(num, 2)) + Write(|p|) + p
    case UnknownField(raw) => raw
  }

  function FieldsBytes(fs: seq<Field>): seq<byte> {
    if fs == [] then [] else FieldBytes(fs[0]) + FieldsBytes(fs[1..])
  }

  /** A known field with a value that fits, or the raw bytes of one unknown field. */
  ghost predicate Writable(schema: Schema, f: Field) {
    match f
    case ScalarField(num, v) => 0 < num < 16 && num in schema && schema[num].Scalar? && v < TWO_TO_THE_64
    case ChunkField(num, p) => 0 < num < 16 && num in schema && schema[num].Nested? && |p| < TWO_TO_THE_63
    case UnknownField(raw) => NextField(schema, raw, 0) == Ok((f, |raw|)) && |raw| < TWO_TO_THE_63
  }

  lemma TagReads(num: nat, wireType: nat, rest: seq<byte>)
    requires 0 < num < 16 && wireType < 8
    ensures Write(Tag(num, wireType)) == [Tag(num, wireType)]
    ensures Read([Tag(num, wireType)] + rest) == Ok((Tag(num, wireType), 1))
    ensures FieldNumber(Tag(num, wireType)) == num && Tag(num, wireType) % 8 == wireType
  {
  }

  lemma ScalarReads(schema: Schema, num: nat, v: nat, rest: seq<byte>, pos: nat)
    requires Writable(schema, ScalarField(num, v))
    ensures var s := FieldBytes(ScalarField(num, v));
            NextField(schema, s + rest, pos) == Ok((ScalarField(num, v), |s|))
  {
    hide Read, Write, FieldNumber, Tag;
    var bytes := FieldBytes(ScalarField(num, v));
    var s := bytes + rest;
    TagReads(num, 0, Write(v) + rest);
    assert s == [Tag(num, 0)] + (Write(v) + rest);
    assert s[1..] == Write(v) + rest;
    ReadOfWrite(v, rest);
  }

  lemma ChunkReads(schema: Schema, num: nat, p: seq<byte>, rest: seq<byte>, pos: nat)
    requires Writable(schema, ChunkField(num, p))
    requires pos + |FieldBytes(ChunkField(num, p))| < TWO_TO_THE_63
    ensures var s := FieldBytes(ChunkField(num, p));
            NextField(schema, s + rest, pos) == Ok((ChunkField(num, p), |s|))
  {
    hide Read, Write, FieldNumber, Tag;
    var bytes := FieldBytes(ChunkField(num, p));
    var s := bytes + rest;
    TagReads(num, 2, Write(|p|) + p + rest);
    assert s == [Tag(num, 2)] + (Write(|p|) + p + rest);
    assert s[1..] == Write(|p|) + (p + rest);
    ReadOfWrite(|p|, p + rest);
    var k := 1 + |Write(|p|)|;
    assert s[k..k + |p|] == p;
  }

  /** A written field is read back, whatever follows it. */
  lemma NextFieldOfWritten(schema: Schema, f: Field, rest: seq<byte>, pos: nat)
    requires Writable(schema, f) && pos + |FieldBytes(f)| + |rest| < TWO_TO_THE_63
    ensures NextField(schema, FieldBytes(f) + rest, pos) == Ok((f, |FieldBytes(f)|))
  {
    hide NextField;
    match f
    case ScalarField(num, v) => ScalarReads(schema, num, v, rest, pos);
    case ChunkField(num, p) => ChunkReads(schema, num, p, rest, pos);
    case UnknownField(raw) =>
      assert raw[..|raw|] <= raw + rest;
      NextFieldPrefix(schema, raw, raw + rest, 0, pos);
  }

  lemma {:induction false} ParseOfWritten(schema: Schema, fs: seq<Field>, rest: seq<byte>, pos: nat)
    requires forall f | f in fs :: Writable(schema, f)
    requires pos + |FieldsBytes(fs)| + |rest| < TWO_TO_THE_63
    ensures Parse(schema, FieldsBytes(fs) + rest, pos) == Prepend(fs, Parse(schema, rest, pos + |FieldsBytes(fs)|))
    decreases fs
  {
    hide NextField, Parse, FieldBytes, Writable;
    var q := Parse(schema, rest, pos + |FieldsBytes(fs)|);
    if fs == [] {
      assert FieldsBytes(fs) + rest == rest;
      PrependNothing(q);
    } else {
      var f, s := fs[0], FieldsBytes(fs) + rest;
      var tail := FieldsBytes(fs[1..]) + rest;
      assert s == FieldBytes(f) + tail;
      NextFieldOfWritten(schema, f, tail, pos);
      var n := |FieldBytes(f)|;
      NextFieldRange(schema, s, pos);
      assert s[n..] == tail;
      ParseUnfold(schema, s, pos);
      ParseOfWritten(schema, fs[1..], rest, pos + n);
      PrependTwice(f, fs[1..], q);
      assert fs == [f] + fs[1..];
    }
  }

  // ----- what parsing yields can be written again -----

  /** Field numbers whose tag takes one byte, as all known fields here do. */
  ghost predicate SmallNumbers(schema: Schema) {
    forall num | num in schema :: 0 < num < 16
  }

  /** A field as read can be written, in no more bytes than it was read from. */
  lemma NextFieldWritable(schema: Schema, s: seq<byte>, pos: nat)
    requires SmallNumbers(schema) && s != [] && NextField(schema, s, pos).Ok? && pos + |s| < TWO_TO_THE_63
    ensures var (f, n) := NextField(schema, s, pos).value;
            && Writable(schema, f) && |FieldBytes(f)| <= n
            && (f.UnknownField? ==> f.raw == s[..n])
  {
    hide Read, SkipFrom, FieldNumber, Write;
    var (f, n) := NextField(schema, s, pos).value;
    NextFieldRange(schema, s, pos);
    if f.UnknownField? {
      assert s[..n] <= f.raw;
      NextFieldPrefix(schema, s, f.raw, pos, 0);
    } else {
      ReadRange(s);
      TagReads(f.num, if f.ScalarField? then 0 else 2, []);
      ReadRange(s[Read(s).value.1..]);
    }
  }

  lemma {:induction false} ParseWritable(schema: Schema, s: seq<byte>, pos: nat)
    requires SmallNumbers(schema) && pos + |s| < TWO_TO_THE_63
    ensures var fs := Parse(schema, s, pos).fields;
            (forall f | f in fs :: Writable(schema, f)) && |FieldsBytes(fs)| <= |s|
    decreases |s|
  {
    hide NextField, Writable, FieldBytes;
    if s != [] && NextField(schema, s, pos).Ok? {
      NextFieldRange(schema, s, pos);
      NextFieldWritable(schema, s, pos);
      var (f, n) := NextField(schema, s, pos).value;
      ParseWritable(schema, s[n..], pos + n);
      var fs := Parse(schema, s, pos).fields;
      assert fs[0] == f && fs[1..] == Parse(schema, s[n..], pos + n).fields;
    }
  }

  // ----- unknown fields -----

  /** The raw bytes of the unknown fields, in order. */
  function RawOf(fs: seq<Field>): seq<byte> {
    if fs == [] then []
    else (if fs[0].UnknownField? then fs[0].raw else []) + RawOf(fs[1..])
  }

  lemma RawOfFirst(fs: seq<Field>)
    ensures fs == [] ==> RawOf(fs) == []
    ensures fs != [] && fs[0].UnknownField? ==> RawOf(fs) == fs[0].raw + RawOf(fs[1..])
    ensures fs != [] && !fs[0].UnknownField? ==> RawOf(fs) == RawOf(fs[1..])
  {
  }

  /** The bytes are a sequence of complete fields, none of them known. */
  predicate UnknownOnly(schema: Schema, s: seq<byte>) {
    var p := Parse(schema, s, 0);
    p.error.None? && forall f | f in p.fields :: f.UnknownField?
  }

  lemma {:induction false} RawOfParse(schema: Schema, s: seq<byte>, pos: nat)
    requires SmallNumbers(schema) && pos + |s| < TWO_TO_THE_63
    ensures var p := Parse(schema, s, pos);
            && |RawOf(p.fields)| <= |s|
            && (RawOf(p.fields) == s <==> p.error.None? && forall f | f in p.fields :: f.UnknownField?)
    decreases |s|
  {
    hide NextField, Writable, FieldBytes;
    if s != [] && NextField(schema, s, pos).Ok? {
      NextFieldRange(schema, s, pos);
      NextFieldWritable(schema, s, pos);
      var (f, n) := NextField(schema, s, pos).value;
      RawOfParse(schema, s[n..], pos + n);
      var fs := Parse(schema, s, pos).fields;
      assert fs[0] == f && fs[1..] == Parse(schema, s[n..], pos + n).fields;
      assert s == s[..n] + s[n..];
      if f.UnknownField? {
        assert RawOf(fs)[n..] == RawOf(fs[1..]);
      }
    }
  }

  /** Bytes are unknown fields throughout exactly when their raw parts are all of them. */
  lemma UnknownOnlyIsRaw(schema: Schema, s: seq<byte>, pos: nat)
    requires SmallNumbers(schema) && pos + |s| < TWO_TO_THE_63
    ensures UnknownOnly(schema, s) <==> RawOf(Parse(schema, s, pos).fields) == s
    ensures UnknownOnly(schema, s) ==>
              Parse(schema, s, pos).error.None? && forall f | f in Parse(schema, s, pos).fields :: f.UnknownField?
  {
    hide Parse, RawOf;
    RawOfParse(schema, s, 0);
    ParsePosition(schema, s, 0, pos);
    RawOfParse(schema, s, pos);
  }

  lemma NoUnknown(schema: Schema)
    ensures UnknownOnly(schema, [])
  {
  }

  lemma UnknownOnlyAppend(schema: Schema, s: seq<byte>, raw: seq<byte>)
    requires UnknownOnly(schema, s) && Writable(schema, UnknownField(raw)) && |s| + |raw| < TWO_TO_THE_63
    ensures UnknownOnly(schema, s + raw)
  {
    hide NextField;
    ParseAppend(schema, s, raw, 0);
    NextFieldRange(schema, raw, 0);
    var f := UnknownField(raw);
    assert raw[..|raw|] <= raw;
    NextFieldPrefix(schema, raw, raw, 0, |s|);
    assert raw[|raw|..] == [];
    assert Parse(schema, raw, |s|).fields == [f];
  }
}
