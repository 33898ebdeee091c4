/**
 A decimal is a handle on a big integer, and the `Mut` operations overwrite
 that integer and return the same handle. So two names may share one number
 (utils/math.go, utils/pow_approx.go).
 */
module MutableDecimal {
  import opened Basics
  import opened Decimal

  class Dec {
    var i: int

    constructor (value: int)
      ensures i == value
    {
      i := value;
    }

    method Clone() returns (r: Dec)
      ensures fresh(r) && r.i == i
    {
      r := new Dec(i);
    }

    method MulMut(d: Dec) returns (r: Dec)
      modifies this
      ensures r == this && i == Mul(old(i), old(d.i))
    {
      i := Mul(i, d.i);
      r := this;
    }

    method QuoMut(d: Dec) returns (r: Dec)
      requires d.i != 0
      modifies this
      ensures r == this && i == Quo(old(i), old(d.i))
    {
      i := Quo(i, d.i);
      r := this;
    }

    method AddMut(d: Dec) returns (r: Dec)
      modifies this
      ensures r == this && i == old(i) + old(d.i)
    {
      i := i + d.i;
      r := this;
    }

    method SubMut(d: Dec) returns (r: Dec)
      modifies this
      ensures r == this && i == old(i) - old(d.i)
    {
      i := i - d.i;
      r := this;
    }

    method NegMut() returns (r: Dec)
      modifies this
      ensures r == this && i == -old(i)
    {
      i := -i;
      r := this;
    }

    method Set(d: Dec)
      modifies this
      ensures i == old(d.i)
    {
      i := d.i;
    }

    method SetInt64(n: int)
      modifies this
      ensures i == n * ONE
    {
      i := n * ONE;
    }
  }

  /** Overwrites a with |a - b| and returns it, with the sign of a - b; correct
      also when both names denote one number. */
  method AbsDifferenceWithSign(a: Dec, b: Dec) returns (r: Dec, negative: bool)
    modifies a
    ensures r == a && a.i == Abs(old(a.i) - old(b.i))
    ensures negative <==> old(a.i) < old(b.i)
  {
    if a.i >= b.i {
      r := a.SubMut(b);
      negative := false;
    } else {
      r := a.NegMut();
      r := r.AddMut(b);
      negative := true;
    }
  }
}
