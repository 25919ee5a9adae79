/**
 * Zp: an integer of the finite field Z(p), updated in place by the
 * arithmetic methods, as conflux's zp.go has it.
 *
 * A modulus is a natural number; 0 stands for the nil modulus of a Zp that
 * has not been bound to a field yet (Go's zero value Zp{}). Every usable
 * modulus is positive, since normalising divides by it, so 0 is free for
 * this purpose. Operations that would dereference a nil modulus, or that
 * assert two moduli equal and panic otherwise, require it of their callers.
 */
module Field {
  import opened Wrappers
  import opened Arith
  import opened Encoding

  /** Go's 64-bit int. */
  newtype int64 = x: int | -0x8000_0000_0000_0000 <= x < 0x8000_0000_0000_0000

  class Zp {
    /** The value. */
    var i: int
    /** The modulus of the field; 0 while unbound. */
    var p: nat

    /** The element has been bound to a field. */
    predicate Bound()
      reads this
    {
      p != 0
    }

    /** The value lies in [0, p); an unbound element holds 0. */
    ghost predicate Valid()
      reads this
    {
      0 <= i && (if p == 0 then i == 0 else i < p)
    }

    /** The zero value Zp{}: 0, not yet bound to a field. */
    constructor Unbound()
      ensures Valid() && !Bound() && i == 0
    {
      i, p := 0, 0;
    }

    /** Z: the element 0 of the field q. */
    constructor Z(q: nat)
      ensures Valid() && p == q && i == 0
    {
      i, p := 0, q;
    }

    /** Zzp: a new element with the value and field of zp. */
    constructor Zzp(zp: Zp)
      requires zp.Valid()
      ensures Valid() && p == zp.p && i == zp.i
    {
      p := zp.p;
      i := zp.i;
    }

    /** Zi: the machine integer n, reduced into the field q (also when negative). */
    constructor Zi(q: nat, n: int64)
      requires q > 0
      ensures Valid() && p == q
      ensures i == n as int % q
      ensures 0 <= n as int < q ==> i == n as int
    {
      p := q;
      i := n as int;
      new;
      Norm();
    }

    /** Zb: the element of the field q whose Bytes() would be b, reduced mod q. */
    constructor Zb(q: nat, b: seq<byte>)
      requires q > 0
      ensures Valid() && p == q
      ensures i == BigEndianValue(Rev(b)) % q
    {
      p := q;
      i := 0;
      new;
      SetBytes(b);
    }

    /** Zs: the base-10 literal s reduced into the field q; a malformed literal panics. */
    constructor Zs(q: nat, s: string)
      requires q > 0
      requires ParseDecimal(s).Some?
      ensures Valid() && p == q
      ensures i == ParseDecimal(s).value % q
    {
      p := q;
      i := ParseDecimal(s).value;
      new;
      Norm();
    }

    /**
     * Zrand, with the random bytes that randint reads from crypto/rand given
     * as `entropy`: as many bytes as the modulus has, read big-endian and
     * reduced modulo q.
     */
    constructor Zrand(q: nat, entropy: seq<byte>)
      requires q > 0 && |entropy| == |MinimalBigEndian(q)|
      ensures Valid() && p == q
      ensures i == BigEndianValue(entropy) % q
    {
      p := q;
      i := BigEndianValue(entropy) % q;
    }

    /** Norm: reduce the value modulo p; an element already in range is left as it is. */
    method Norm()
      requires Bound()
      modifies this
      ensures Valid() && p == old(p)
      ensures i == old(i) % p
      ensures old(Valid()) ==> i == old(i)
    {
      if 0 <= i < p {
        ModUnique(i, p, 0, i);
      }
      i := i % p;
    }

    /** Set: take the value and the field of x. */
    method Set(x: Zp)
      requires x.Valid()
      modifies this
      ensures Valid() && p == old(x.p) && i == old(x.i)
    {
      p := x.p;
      i := x.i;
    }

    /** Copy: a new element equal to this one. */
    method Copy() returns (c: Zp)
      requires Valid()
      ensures fresh(c) && c.Valid()
      ensures c.p == p && c.i == i
    {
      c := new Zp.Zzp(this);
    }

    /** Cmp: the sign of this value minus x's; both must be in the same field. */
    function Cmp(x: Zp): (c: int)
      reads this, x
      requires Bound() && x.p == p
      ensures -1 <= c <= 1
      ensures c < 0 <==> i < x.i
      ensures c == 0 <==> i == x.i
      ensures c > 0 <==> i > x.i
    {
      if i < x.i then -1 else if i == x.i then 0 else 1
    }

    /** IsZero: the value is 0, that is, divisible by the modulus. */
    function IsZero(): (z: bool)
      reads this
      ensures z <==> i == 0
      ensures Valid() && Bound() ==> (z <==> i % p == 0)
    {
      i == 0
    }

    /** String: the unsigned base-10 numeral of the value, which parses back to it. */
    function String(): (s: string)
      reads this
      requires Valid()
      ensures ParseDecimal(s) == Some(i)
      ensures |s| > 0 && AllDigits(s)
      ensures s[0] == '0' ==> s == "0"
      ensures s[0] == '0' ==> i == 0
    {
      DecimalRoundTrip(i);
      DecimalDigits(i);
      Decimal(i)
    }

    /**
     * Bytes: the minimal big-endian bytes of the value, reversed; the last
     * byte is never 0 and the length is the fewest bytes that hold the value.
     */
    method Bytes() returns (b: seq<byte>)
      requires Valid()
      ensures b == Rev(MinimalBigEndian(i))
      ensures BigEndianValue(Rev(b)) == i
      ensures |b| > 0 ==> b[|b| - 1] != 0
      ensures i < Pow(256, |b|) && (|b| > 0 ==> Pow(256, |b| - 1) <= i)
    {
      var be := MinimalBigEndian(i);
      b := Reversed(be);
      RevInvolution(be);
      RevLength(be);
      BigEndianRoundTrip(i);
      MinimalBigEndianIsMinimal(i);
      if |b| > 0 {
        RevAt(be, |b| - 1);
      }
    }

    /** SetBytes: read b back to front as a big-endian number, then reduce it. */
    method SetBytes(b: seq<byte>)
      requires Bound()
      modifies this
      ensures Valid() && p == old(p)
      ensures i == BigEndianValue(Rev(b)) % p
    {
      var r := Reversed(b);
      i := BigEndianValue(r);
      Norm();
    }

    /** Add: this := (x + y) mod p, in x's field; subtracting y gives x back. */
    method Add(x: Zp, y: Zp)
      requires x.Valid() && y.Valid() && x.Bound() && x.p == y.p
      modifies this
      ensures Valid() && p == old(x.p)
      ensures i == (old(x.i) + old(y.i)) % p
      ensures (i - old(y.i)) % p == old(x.i)
    {
      ghost var x0, y0 := x.i, y.i;
      p := x.p;
      i := x.i + y.i;
      Norm();
      SubUndoesAdd(x0, y0, p);
    }

    /** Sub: this := (x - y) mod p, in x's field; adding y gives x back. */
    method Sub(x: Zp, y: Zp)
      requires x.Valid() && y.Valid() && x.Bound() && x.p == y.p
      modifies this
      ensures Valid() && p == old(x.p)
      ensures i == (old(x.i) - old(y.i)) % p
      ensures (i + old(y.i)) % p == old(x.i)
    {
      ghost var x0, y0 := x.i, y.i;
      p := x.p;
      i := x.i - y.i;
      Norm();
      AddUndoesSub(x0, y0, p);
    }

    /** Mul: this := (x * y) mod p, in x's field. */
    method Mul(x: Zp, y: Zp)
      requires x.Valid() && y.Valid() && x.Bound() && x.p == y.p
      modifies this
      ensures Valid() && p == old(x.p)
      ensures i == (old(x.i) * old(y.i)) % p
    {
      p := x.p;
      i := x.i * y.i;
      Norm();
    }

    /**
     * Neg: this := (p - this) mod p, the additive inverse; 0 stays 0 and
     * negating twice gives the value back.
     */
    method Neg()
      requires Valid() && Bound()
      modifies this
      ensures Valid() && p == old(p)
      ensures i == (p - old(i)) % p
      ensures (old(i) + i) % p == 0
      ensures old(i) == 0 ==> i == 0
      ensures (p - i) % p == old(i)
    {
      ghost var x0 := i;
      i := p - i;
      Norm();
      if x0 == 0 {
        ModUnique(p, p, 1, 0);
        ModUnique(p - 0, p, 1, 0);
      } else {
        ModUnique(p - x0, p, 0, p - x0);
        ModUnique(x0 + i, p, 1, 0);
        ModUnique(p - i, p, 0, x0);
      }
    }

    /**
     * Inv: the multiplicative inverse, computed as big.Int.ModInverse does.
     * When the value and p are not coprime (0, for one) ModInverse has no
     * answer, and since its nil result is ignored the value stays as it was.
     */
    method Inv()
      requires Valid() && Bound()
      modifies this
      ensures Valid() && p == old(p)
      ensures Gcd(old(i), p) == 1 ==> IsInverse(old(i), i, p)
      ensures Gcd(old(i), p) != 1 ==> i == old(i)
    {
      match ModInverse(i, p)
      case Some(y) =>
        i := y;
      case None =>
    }

    /** Exp: this := x to the power y mod p, y's value used as the exponent as it is. */
    method Exp(x: Zp, y: Zp)
      requires x.Valid() && y.Valid() && x.Bound() && x.p == y.p
      modifies this
      ensures Valid() && p == old(x.p)
      ensures i == Pow(old(x.i), old(y.i)) % p
    {
      p := x.p;
      i := ModPow(x.i, y.i, p);
    }

    /**
     * Div: this := x times the inverse of a copy of y, so y itself is not
     * changed. When y is invertible, multiplying the quotient by y gives x;
     * when it is not, the copy stays y and the result is x * y.
     */
    method Div(x: Zp, y: Zp)
      requires x.Valid() && y.Valid() && x.Bound() && x.p == y.p
      modifies this
      ensures Valid() && p == old(x.p)
      ensures Gcd(old(y.i), p) == 1 ==> i == (old(x.i) * ModInverse(old(y.i), p).value) % p
      ensures Gcd(old(y.i), p) == 1 ==> (i * old(y.i)) % p == old(x.i)
      ensures Gcd(old(y.i), p) != 1 ==> i == (old(x.i) * old(y.i)) % p
      ensures y != this ==> y.i == old(y.i) && y.p == old(y.p)
    {
      ghost var x0, y0 := x.i, y.i;
      var c := y.Copy();
      c.Inv();
      ghost var inv := c.i;
      if Gcd(y0, x.p) == 1 {
        InverseUnique(y0, inv, ModInverse(y0, x.p).value, x.p);
      }
      Mul(x, c);
      if Gcd(y0, p) == 1 {
        DivisionRoundTrip(x0, y0, inv, p);
      }
    }

    /** In: bind an unbound element to the field q; a bound one must already be in q. */
    method In(q: nat)
      requires Valid()
      requires Bound() ==> p == q
      modifies this
      ensures Valid() && p == q && i == old(i)
    {
      if p == 0 {
        p := q;
      }
    }
  }

  /** SetBytes(Bytes()) restores a value of the field. */
  lemma BytesRoundTrip(n: nat, q: nat)
    requires n < q
    ensures BigEndianValue(Rev(Rev(MinimalBigEndian(n)))) % q == n
  {
    RevInvolution(MinimalBigEndian(n));
    BigEndianRoundTrip(n);
    ModUnique(n, q, 0, n);
  }

  /** Zarray: n new elements, each set to v's value and field; q is not used. */
  method Zarray(q: nat, n: nat, v: Zp) returns (a: array<Zp>)
    requires v.Valid()
    ensures fresh(a) && a.Length == n
    ensures forall k :: 0 <= k < n ==> fresh(a[k]) && a[k].Valid() && a[k].p == v.p && a[k].i == v.i
    ensures forall j, k :: 0 <= j < k < n ==> a[j] != a[k]
  {
    var z0 := new Zp.Unbound();
    a := new Zp[n](_ => z0);
    for k := 0 to n
      invariant forall j :: 0 <= j < k ==> fresh(a[j]) && a[j].Valid() && a[j].p == v.p && a[j].i == v.i
      invariant forall j, l :: 0 <= j < l < k ==> a[j] != a[l]
    {
      var z := new Zp.Unbound();
      z.Set(v);
      a[k] := z;
    }
  }
}
