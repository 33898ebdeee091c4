/** A list of nested messages, given how one of them is written and read. */
module RepeatedFields {
  import opened Basics
  import opened Varint
  import opened Wire
  import opened Messages

  function Payloads<E>(write: E -> seq<byte>, es: seq<E>): (ps: seq<seq<byte>>)
    ensures |ps| == |es|
  {
    seq(|es|, i requires 0 <= i < |es| => write(es[i]))
  }

  // ----- sizes -----

  function ListSize<E>(write: E -> seq<byte>, es: seq<E>): nat {
    if es == [] then 0 else ChunkSize(|write(es[0])|) + ListSize(write, es[1..])
  }

  lemma {:induction false} ListSizeAppend<E>(write: E -> seq<byte>, es: seq<E>, e: E)
    ensures ListSize(write, es + [e]) == ListSize(write, es) + ChunkSize(|write(e)|)
  {
    hide ChunkSize;
    if es == [] {
      assert es + [e] == [e] && [e][1..] == [];
      assert ListSize(write, []) == 0 && ListSize(write, [e]) == ChunkSize(|write(e)|) + ListSize(write, []);
    } else {
      assert (es + [e])[1..] == es[1..] + [e];
      ListSizeAppend(write, es[1..], e);
    }
  }

  lemma {:induction false} ChunksSize<E>(num: nat, write: E -> seq<byte>, es: seq<E>)
    requires 0 < num < 16
    ensures |FieldsBytes(Chunks(num, Payloads(write, es)))| == ListSize(write, es)
  {
    hide FieldBytes, ChunkSize;
    var fs := Chunks(num, Payloads(write, es));
    if es != [] {
      FieldSizes(fs[0]);
      assert fs[1..] == Chunks(num, Payloads(write, es[1..]));
      ChunksSize(num, write, es[1..]);
    }
  }

  /** The bytes of a list: for each element a tag byte, its length, and what it is written as. */
  function Elements<E>(tag: byte, write: E -> seq<byte>, es: seq<E>): seq<byte> {
    if es == [] then [] else [tag] + Write(|write(es[0])|) + write(es[0]) + Elements(tag, write, es[1..])
  }

  lemma {:induction false} ElementsAre<E>(num: nat, write: E -> seq<byte>, es: seq<E>)
    requires 0 < num < 16
    ensures FieldsBytes(Chunks(num, Payloads(write, es))) == Elements(8 * num + 2, write, es)
  {
    hide Write;
    var fs := Chunks(num, Payloads(write, es));
    if es != [] {
      assert fs[1..] == Chunks(num, Payloads(write, es[1..]));
      ElementsAre(num, write, es[1..]);
      SmallTag(num, 2);
    }
  }

  /** Tags up to field number 15 take one byte. */
  lemma SmallTag(num: nat, wireType: nat)
    requires 0 < num < 16 && wireType < 8
    ensures Write(Tag(num, wireType)) == [8 * num + wireType]
  {
  }

  // ----- written and read back -----

  /** Each element written and read back, or the first error. */
  function Reread<E>(read: seq<byte> -> Result<E>, write: E -> seq<byte>, es: seq<E>): Result<seq<E>> {
    if es == [] then Ok([])
    else
      match read(write(es[0]))
      case Err(e) => Err(e)
      case Ok(c) =>
        match Reread(read, write, es[1..])
        case Err(e) => Err(e)
        case Ok(ds) => Ok([c] + ds)
  }

  /** If the clean elements are those that are read back, the clean lists are. */
  lemma {:induction false} RereadClean<E>(read: seq<byte> -> Result<E>, write: E -> seq<byte>, clean: E -> bool,
                                          es: seq<E>)
    requires forall e | e in es :: read(write(e)) == Ok(e) <==> clean(e)
    ensures Reread(read, write, es) == Ok(es) <==> forall e | e in es :: clean(e)
    ensures Reread(read, write, es).Ok? ==> |Reread(read, write, es).value| == |es|
    decreases es
  {
    if es != [] {
      var e, tail := es[0], es[1..];
      assert e in es && (forall d | d in tail :: d in es) && (forall d | d in es :: d == e || d in tail);
      RereadClean(read, write, clean, tail);
      assert es == [e] + tail;
      if Reread(read, write, es).Ok? {
        assert Reread(read, write, es).value[1..] == Reread(read, write, tail).value;
      }
    }
  }

  function AppendAll<M, E>(append: (M, seq<E>) -> M, m: M, r: Result<seq<E>>): Result<M> {
    match r case Err(e) => Err(e) case Ok(es) => Ok(append(m, es))
  }

  function Single<E>(r: Result<E>): Result<seq<E>> {
    match r case Err(e) => Err(e) case Ok(e) => Ok([e])
  }

  /** `append` adds elements to the list that field `num` of a message holds. */
  ghost predicate AppendsTo<M(!new), E(!new)>(step: (M, Field) -> Result<M>, append: (M, seq<E>) -> M, num: nat,
                                              read: seq<byte> -> Result<E>) {
    (forall m, p :: step(m, ChunkField(num, p)) == AppendAll(append, m, Single(read(p))))
    && (forall m :: append(m, []) == m)
    && (forall m, cs, ds :: append(append(m, cs), ds) == append(m, cs + ds))
  }

  /** Reading the written form of a list appends what its elements read back as. */
  lemma {:induction false} FoldChunks<M(!new), E(!new)>(step: (M, Field) -> Result<M>, append: (M, seq<E>) -> M,
                                                        num: nat, read: seq<byte> -> Result<E>,
                                                        write: E -> seq<byte>, m: M, es: seq<E>)
    requires AppendsTo(step, append, num, read)
    ensures Fold(step, m, Chunks(num, Payloads(write, es)))
            == AppendAll(append, m, Reread(read, write, es))
    decreases es
  {
    var fs := Chunks(num, Payloads(write, es));
    if es != [] {
      var tail := es[1..];
      assert fs[1..] == Chunks(num, Payloads(write, tail));
      var r := read(write(es[0]));
      if r.Ok? {
        FoldChunks(step, append, num, read, write, append(m, [r.value]), tail);
      }
    }
  }

  lemma ChunkWithin<E>(num: nat, write: E -> seq<byte>, es: seq<E>)
    ensures forall e | e in es :: ChunkField(num, write(e)) in Chunks(num, Payloads(write, es))
  {
    forall e | e in es ensures ChunkField(num, write(e)) in Chunks(num, Payloads(write, es)) {
      var i :| 0 <= i < |es| && es[i] == e;
      assert Chunks(num, Payloads(write, es))[i] == ChunkField(num, write(e));
    }
  }

  // ----- unknown fields -----

  /** `add` appends to the unknown bytes of a message. */
  ghost predicate AddsUnknown<M(!new)>(step: (M, Field) -> Result<M>, add: (M, seq<byte>) -> M) {
    (forall m, raw :: step(m, UnknownField(raw)) == Ok(add(m, raw)))
    && (forall m :: add(m, []) == m)
    && (forall m, a, b :: add(add(m, a), b) == add(m, a + b))
  }

  lemma {:induction false} FoldAllUnknown<M(!new)>(step: (M, Field) -> Result<M>, add: (M, seq<byte>) -> M, m: M,
                                                   fs: seq<Field>)
    requires AddsUnknown(step, add) && forall f | f in fs :: f.UnknownField?
    ensures Fold(step, m, fs) == Ok(add(m, RawOf(fs)))
    decreases fs
  {
    if fs != [] {
      var f := fs[0];
      assert f in fs;
      FoldAllUnknown(step, add, add(m, f.raw), fs[1..]);
    }
  }
}
