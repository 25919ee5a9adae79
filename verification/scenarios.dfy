/**
 * Worked examples in the field of integers modulo 11 and on small sets of
 * its elements, stated as client code of the Field and Sets modules. They
 * use only the contracts of the operations they call.
 */
module Scenarios {
  import opened Field
  import opened Sets

  /** 7 + 5 = 1 and 7 - 5 = 2 modulo 11. */
  method AddSubModEleven() {
    var x := new Zp.Zi(11, 7);
    var y := new Zp.Zi(11, 5);
    var sum := new Zp.Z(11);
    sum.Add(x, y);
    assert sum.i == 1;
    var diff := new Zp.Z(11);
    diff.Sub(x, y);
    assert diff.i == 2;
  }

  /** 7 * 5 = 2 and -7 = 4 modulo 11. */
  method MulNegModEleven() {
    var x := new Zp.Zi(11, 7);
    var y := new Zp.Zi(11, 5);
    var prod := new Zp.Z(11);
    prod.Mul(x, y);
    assert prod.i == 2;
    var neg := x.Copy();
    neg.Neg();
    assert neg.i == 4;
  }

  /** 1/5 = 9 modulo 11. */
  method InvModEleven() {
    var y := new Zp.Zi(11, 5);
    y.Inv();
    assert y.i == 9;
  }

  /** 7 / 5 = 8 modulo 11. */
  method DivModEleven() {
    var x := new Zp.Zi(11, 7);
    var y := new Zp.Zi(11, 5);
    var quot := new Zp.Z(11);
    quot.Div(x, y);
    assert quot.i == 8;
  }

  /** Zi reduces a negative int64 into the field: -1 becomes 10. */
  method NegativeInput() {
    var z := new Zp.Zi(11, -1);
    assert z.i == 10;
  }

  /** {1, 2} minus {2} is {1}, in the field of the first set. */
  method SetDifference() {
    var one := new Zp.Zi(11, 1);
    var two := new Zp.Zi(11, 2);
    var a := new ZSet.NewZSet([]);
    a.Add(one);
    a.Add(two);
    var b := new ZSet.NewZSet([]);
    b.Add(two);
    var d := ZSetDiff(a, b);
    assert d.Members() == {1};
    assert d.p == 11;
  }

  /** Adding a member a second time leaves the set as it was. */
  method AddTwice() {
    var two := new Zp.Zi(11, 2);
    var a := new ZSet.NewZSet([]);
    a.Add(two);
    ghost var before := a.s;
    a.Add(two);
    assert a.s == before;
    assert Len(a) == 1;
  }
}
