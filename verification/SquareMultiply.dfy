/** Square-and-multiply, as both decimal types raise a number to a whole power. */
module SquareMultiply {
  import opened Basics

  function PowerLoop(mul: (int, int) -> int, d: int, acc: int, i: nat): int
    decreases i
  {
    if i <= 1 then mul(d, acc)
    else PowerLoop(mul, mul(d, d), if i % 2 != 0 then mul(acc, d) else acc, i / 2)
  }

  /** Factors on one side of 1, the number `one`, have their product on that side. */
  ghost predicate KeepsSide(mul: (int, int) -> int, one: int) {
    forall a, b ::
      (a >= one && b >= one ==> mul(a, b) >= one)
      && (0 <= a <= one && 0 <= b <= one ==> 0 <= mul(a, b) <= one)
  }

  lemma {:induction false} PowerLoopSide(mul: (int, int) -> int, one: int, d: int, acc: int, i: nat)
    requires KeepsSide(mul, one)
    ensures d >= one && acc >= one ==> PowerLoop(mul, d, acc, i) >= one
    ensures 0 <= d <= one && 0 <= acc <= one ==> 0 <= PowerLoop(mul, d, acc, i) <= one
    decreases i
  {
    if i > 1 {
      PowerLoopSide(mul, one, mul(d, d), if i % 2 != 0 then mul(acc, d) else acc, i / 2);
    }
  }

  /** Products of whole numbers, as `whole` writes them, are not rounded. */
  ghost predicate ExactOnWhole(mul: (int, int) -> int, whole: int -> int) {
    forall a, b :: mul(whole(a), whole(b)) == whole(a * b)
  }

  lemma {:induction false} PowerLoopOfWhole(mul: (int, int) -> int, whole: int -> int, a: int, c: int, i: nat)
    requires ExactOnWhole(mul, whole) && i >= 1
    ensures PowerLoop(mul, whole(a), whole(c), i) == whole(IntPow(a, i) * c)
    decreases i
  {
    hide IntPow;
    if i == 1 {
      IntPowOne(a);
    } else {
      PowerLoopOfWhole(mul, whole, a * a, if i % 2 != 0 then c * a else c, i / 2);
      IntPowHalves(a, c, i);
    }
  }
}
