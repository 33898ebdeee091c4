/** Transactions whose messages may be wrapped, one level deep, in an authz execution. */
module Authz {
  import opened Basics

  /** A message, or an execution of packed messages; None is one that cannot be unpacked. */
  datatype TxMsg<+M> = Plain(msg: M) | Exec(packed: seq<Option<M>>)

  /** The messages that are checked, in order. A wrapped execution is not opened again. */
  function Flatten<M>(msgs: seq<TxMsg<M>>): seq<Option<M>> {
    if msgs == [] then []
    else (match msgs[0] case Plain(m) => [Some(m)] case Exec(packed) => packed) + Flatten(msgs[1..])
  }

  /** The outcome of checking the messages in order: the first error, if any. */
  function FirstError<M, E>(valid: M -> Option<E>, unpackError: E, ms: seq<Option<M>>): Option<E> {
    if ms == [] then None
    else
      var here := match ms[0] case None => Some(unpackError) case Some(m) => valid(m);
      if here.Some? then here else FirstError(valid, unpackError, ms[1..])
  }

  /** Nothing is reported exactly when every message unpacks and is valid. */
  lemma {:induction false} NoErrorIffAllValid<M, E>(valid: M -> Option<E>, unpackError: E, ms: seq<Option<M>>)
    ensures FirstError(valid, unpackError, ms) == None <==> forall m | m in ms :: m.Some? && valid(m.value) == None
  {
    if ms != [] {
      NoErrorIffAllValid(valid, unpackError, ms[1..]);
      assert forall m | m in ms :: m == ms[0] || m in ms[1..];
      assert ms[0] in ms && forall m | m in ms[1..] :: m in ms;
    }
  }

  predicate AllPass<M, E>(valid: M -> Option<E>, t: TxMsg<M>) {
    match t
    case Plain(m) => valid(m).None?
    case Exec(packed) => forall i | 0 <= i < |packed| :: packed[i].Some? && valid(packed[i].value).None?
  }

  /** The same in terms of the transaction: executions are opened, but not those within them. */
  lemma {:induction false} NoErrorExactly<M, E>(valid: M -> Option<E>, unpackError: E, msgs: seq<TxMsg<M>>)
    ensures FirstError(valid, unpackError, Flatten(msgs)).None? <==> forall i | 0 <= i < |msgs| :: AllPass(valid, msgs[i])
  {
    if msgs != [] {
      var t, tail := msgs[0], msgs[1..];
      NoErrorExactly(valid, unpackError, tail);
      assert forall i | 0 < i < |msgs| :: msgs[i] == tail[i - 1];
      assert forall i | 0 <= i < |tail| :: tail[i] == msgs[i + 1];
      var here := match t case Plain(m) => [Some(m)] case Exec(packed) => packed;
      FirstErrorAppend(valid, unpackError, here, Flatten(tail));
      FirstErrorIs(valid, unpackError, here);
      assert t.Plain? ==> here[0] == Some(t.msg);
    }
  }

  /** What is reported is the error of the first message that has one. */
  lemma {:induction false} FirstErrorIs<M, E>(valid: M -> Option<E>, unpackError: E, ms: seq<Option<M>>)
    ensures match FirstError(valid, unpackError, ms)
            case None => forall i | 0 <= i < |ms| :: ms[i].Some? && valid(ms[i].value).None?
            case Some(e) =>
              exists i | 0 <= i < |ms| ::
                (if ms[i].None? then e == unpackError else valid(ms[i].value) == Some(e))
                && forall j | 0 <= j < i :: ms[j].Some? && valid(ms[j].value).None?
  {
    if ms != [] {
      var tail := ms[1..];
      FirstErrorIs(valid, unpackError, tail);
      assert forall i | 0 <= i < |tail| :: tail[i] == ms[i + 1];
      assert forall i | 0 < i < |ms| :: ms[i] == tail[i - 1];
      if ms[0].Some? && valid(ms[0].value).None? {
        var f := FirstError(valid, unpackError, tail);
        if f.Some? {
          var i :| 0 <= i < |tail| && (if tail[i].None? then f.value == unpackError else valid(tail[i].value) == Some(f.value))
                   && forall j | 0 <= j < i :: tail[j].Some? && valid(tail[j].value).None?;
          assert ms[i + 1] == tail[i];
        }
      }
    }
  }

  lemma {:induction false} FirstErrorAppend<M, E>(valid: M -> Option<E>, unpackError: E,
                                                  xs: seq<Option<M>>, ys: seq<Option<M>>)
    ensures FirstError(valid, unpackError, xs + ys)
            == if FirstError(valid, unpackError, xs).Some? then FirstError(valid, unpackError, xs)
               else FirstError(valid, unpackError, ys)
  {
    if xs == [] {
      assert xs + ys == ys;
    } else {
      assert (xs + ys)[1..] == xs[1..] + ys;
      FirstErrorAppend(valid, unpackError, xs[1..], ys);
    }
  }
}
