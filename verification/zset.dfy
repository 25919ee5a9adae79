/**
 * ZSet: a set of field values, kept as zp.go keeps it, in a map from the
 * base-10 numeral of each value to the value, plus the modulus of the set
 * (0 while no element has fixed it). Since a numeral names exactly one
 * value, the map's values form the set and its keys are only for lookup.
 */
module Sets {
  import opened Encoding
  import opened Field

  // ---------------------------------------------------------------------
  // Maps keyed by numerals

  /** Every key is the numeral of the value stored under it. */
  ghost predicate DecimalKeyed(m: map<string, nat>) {
    forall k :: k in m ==> k == Decimal(m[k])
  }

  /** The values stored under the keys ks. */
  ghost function ValuesOf(m: map<string, nat>, ks: set<string>): set<nat> {
    set k | k in ks && k in m :: m[k]
  }

  /** A value is present exactly when its numeral is a key, and then it is stored there. */
  lemma KeyOfValue(m: map<string, nat>, v: nat)
    requires DecimalKeyed(m)
    ensures v in m.Values <==> Decimal(v) in m
    ensures Decimal(v) in m ==> m[Decimal(v)] == v
  {
    if v in m.Values {
      var k :| k in m && m[k] == v;
    }
    if Decimal(v) in m {
      DecimalInjective(m[Decimal(v)], v);
    }
  }

  /** Storing v under its numeral adds v and nothing else. */
  lemma PutValue(m: map<string, nat>, v: nat)
    requires DecimalKeyed(m)
    ensures DecimalKeyed(m[Decimal(v) := v])
    ensures m[Decimal(v) := v].Values == m.Values + {v}
  {
    var key := Decimal(v);
    KeyOfValue(m, v);
    var m' := m[key := v];
    forall x | x in m'.Values
      ensures x in m.Values + {v}
    {
      var k :| k in m' && m'[k] == x;
      if k != key {
        assert m[k] == x;
      }
    }
    forall x | x in m.Values
      ensures x in m'.Values
    {
      var k :| k in m && m[k] == x;
      if k != key {
        assert m'[k] == x;
      } else {
        assert x == v && m'[key] == v;
      }
    }
    assert m'[key] == v;
  }

  /** Deleting v's numeral removes v and nothing else. */
  lemma DeleteValue(m: map<string, nat>, v: nat)
    requires DecimalKeyed(m)
    ensures DecimalKeyed(m - {Decimal(v)})
    ensures (m - {Decimal(v)}).Values == m.Values - {v}
  {
    var m' := m - {Decimal(v)};
    forall x | x in m'.Values
      ensures x != v
    {
      var k :| k in m' && m'[k] == x;
      assert k == Decimal(x);
    }
    forall x | x in m.Values && x != v
      ensures x in m'.Values
    {
      var k :| k in m && m[k] == x;
      if Decimal(x) == Decimal(v) {
        DecimalInjective(x, v);
      }
      assert k in m' && m'[k] == x;
    }
  }

  /** There are as many values as keys. */
  lemma {:induction false} KeyedSize(m: map<string, nat>)
    requires DecimalKeyed(m)
    ensures |m.Values| == |m|
    decreases |m|
  {
    if |m| > 0 {
      var k :| k in m;
      var v := m[k];
      DeleteValue(m, v);
      var m' := m - {k};
      assert m'.Keys == m.Keys - {k};
      KeyedSize(m');
    }
  }

  /** Inclusion of key sets is inclusion of value sets. */
  lemma KeysAndValues(m1: map<string, nat>, m2: map<string, nat>)
    requires DecimalKeyed(m1) && DecimalKeyed(m2)
    ensures m1.Keys <= m2.Keys <==> m1.Values <= m2.Values
  {
    if m1.Keys <= m2.Keys {
      forall v | v in m1.Values
        ensures v in m2.Values
      {
        KeyOfValue(m1, v);
        KeyOfValue(m2, v);
      }
    }
    if m1.Values <= m2.Values {
      forall k | k in m1
        ensures k in m2
      {
        KeyOfValue(m2, m1[k]);
      }
    }
  }

  /** Equal size plus inclusion of keys is equality of values. */
  lemma SameValues(m1: map<string, nat>, m2: map<string, nat>)
    requires DecimalKeyed(m1) && DecimalKeyed(m2)
    ensures (|m1.Keys| == |m2.Keys| && m1.Keys <= m2.Keys) <==> m1.Values == m2.Values
  {
    KeysAndValues(m1, m2);
    KeysAndValues(m2, m1);
    if |m1.Keys| == |m2.Keys| && m1.Keys <= m2.Keys {
      SubsetSameSize(m1.Keys, m2.Keys);
    }
    if m1.Values == m2.Values {
      assert m1.Keys == m2.Keys;
    }
  }

  /** Visiting one more key adds its value to the values visited. */
  lemma VisitKey(m: map<string, nat>, todo: set<string>, key: string)
    requires DecimalKeyed(m) && key in todo && todo <= m.Keys
    ensures ValuesOf(m, m.Keys - (todo - {key})) == ValuesOf(m, m.Keys - todo) + {m[key]}
    ensures m[key] !in ValuesOf(m, m.Keys - todo)
  {
    assert m.Keys - (todo - {key}) == (m.Keys - todo) + {key};
  }

  /** No value occurs twice in vs. */
  ghost predicate Distinct(vs: seq<nat>) {
    forall a, b :: 0 <= a < b < |vs| ==> vs[a] != vs[b]
  }

  /** vals lists, once each, the values under the keys of m outside todo. */
  ghost predicate ListsVisited(m: map<string, nat>, todo: set<string>, vals: seq<nat>) {
    (set x | x in vals) == ValuesOf(m, m.Keys - todo) && Distinct(vals)
  }

  /** Listing the value of one more key keeps the list complete and free of repeats. */
  lemma VisitNext(m: map<string, nat>, todo: set<string>, key: string, vals: seq<nat>)
    requires DecimalKeyed(m) && key in todo && todo <= m.Keys && ListsVisited(m, todo, vals)
    ensures ListsVisited(m, todo - {key}, vals + [m[key]])
  {
    VisitKey(m, todo, key);
    var vals' := vals + [m[key]];
    assert (set x | x in vals') == (set x | x in vals) + {m[key]};
  }

  /** The values of a sequence prefix grow by one element at a time. */
  lemma SeqPrefixStep(a: seq<Zp>, j: int)
    requires 0 <= j < |a|
    ensures (set k | 0 <= k < j + 1 :: a[k].i) == (set k | 0 <= k < j :: a[k].i) + {a[j].i}
  {
  }

  /** The values of an array prefix grow by one element at a time. */
  lemma ArrayPrefixStep(a: array<Zp>, j: int)
    requires 0 <= j < a.Length
    ensures (set k | 0 <= k < j + 1 :: a[k].i) == (set k | 0 <= k < j :: a[k].i) + {a[j].i}
  {
  }

  /** A subset as large as its superset is the superset. */
  lemma SubsetSameSize<T>(a: set<T>, b: set<T>)
    requires a <= b && |a| == |b|
    ensures a == b
  {
    assert b == a + (b - a);
    assert |b| == |a| + |b - a|;
  }

  // ---------------------------------------------------------------------
  // The set

  class ZSet {
    /** Numeral of each member to the member. */
    var s: map<string, nat>
    /** The modulus shared by the members; 0 while unset. */
    var p: nat

    ghost predicate Valid()
      reads this
    {
      DecimalKeyed(s)
    }

    /** The values in the set. */
    ghost function Members(): set<nat>
      reads this
    {
      s.Values
    }

    /**
     * Every member lies in [0, p). Add keeps this when v is bound. AddAll is
     * proved to keep it when the set had no modulus or the two moduli agree;
     * it never compares them, so merging members of a larger field can
     * break it.
     */
    ghost predicate InField()
      reads this
    {
      forall k :: k in s ==> s[k] < p
    }

    /** NewZSet: the set of the given elements, which share one field. */
    constructor NewZSet(elements: seq<Zp>)
      requires forall j :: 0 <= j < |elements| ==> elements[j].Valid() && elements[j].p == elements[0].p
      ensures Valid()
      ensures Members() == set j | 0 <= j < |elements| :: elements[j].i
      ensures p == if elements == [] then 0 else elements[0].p
    {
      s := map[];
      p := 0;
      new;
      for j := 0 to |elements|
        invariant Valid()
        invariant Members() == set k | 0 <= k < j :: elements[k].i
        invariant p == if j == 0 then 0 else elements[0].p
      {
        Add(elements[j]);
        SeqPrefixStep(elements, j);
      }
    }

    /** NewZSetSlice: the set of the elements of a slice, which share one field. */
    constructor NewZSetSlice(elements: array<Zp>)
      requires forall j :: 0 <= j < elements.Length ==> elements[j].Valid() && elements[j].p == elements[0].p
      ensures Valid()
      ensures Members() == set j | 0 <= j < elements.Length :: elements[j].i
      ensures p == if elements.Length == 0 then 0 else elements[0].p
    {
      s := map[];
      p := 0;
      new;
      for j := 0 to elements.Length
        invariant Valid()
        invariant Members() == set k | 0 <= k < j :: elements[k].i
        invariant p == if j == 0 then 0 else elements[0].p
      {
        Add(elements[j]);
        ArrayPrefixStep(elements, j);
      }
    }

    /** Contains: v's value is a member. */
    function Contains(v: Zp): (b: bool)
      reads this, v
      requires Valid() && v.Valid()
      ensures b <==> v.i in Members()
    {
      KeyOfValue(s, v.i);
      v.String() in s
    }

    /**
     * Add: v's value becomes a member; the set takes v's field if it had
     * none and must otherwise be in v's field. Adding a member again changes
     * nothing.
     */
    method Add(v: Zp)
      requires Valid() && v.Valid()
      requires p == 0 || v.p == p
      modifies this
      ensures Valid()
      ensures p == if old(p) == 0 then v.p else old(p)
      ensures Members() == old(Members()) + {v.i}
      ensures Contains(v)
      ensures v.i in old(Members()) ==> s == old(s)
      ensures old(InField()) && v.Bound() ==> InField()
    {
      if p == 0 {
        p := v.p;
      }
      KeyOfValue(s, v.i);
      PutValue(s, v.i);
      s := s[v.String() := v.i];
    }

    /** Remove: v's value is no longer a member; every other member stays. */
    method Remove(v: Zp)
      requires Valid() && v.Valid()
      modifies this
      ensures Valid() && p == old(p)
      ensures Members() == old(Members()) - {v.i}
      ensures !Contains(v)
      ensures old(InField()) ==> InField()
    {
      DeleteValue(s, v.i);
      s := s - {v.String()};
    }

    /** Equal: the two sets have the same members (same size, and one within the other). */
    function Equal(other: ZSet): (b: bool)
      reads this, other
      requires Valid() && other.Valid()
      ensures b <==> Members() == other.Members()
    {
      SameValues(s, other.s);
      |s.Keys| == |other.s.Keys| && s.Keys <= other.s.Keys
    }

    /** AddSlice: add each element of the slice in turn. */
    method AddSlice(other: array<Zp>)
      requires Valid()
      requires forall j :: 0 <= j < other.Length ==>
                 other[j].Valid() && other[j].p == (if p == 0 then other[0].p else p)
      modifies this
      ensures Valid()
      ensures Members() == old(Members()) + set j | 0 <= j < other.Length :: other[j].i
      ensures p == if old(p) == 0 && other.Length > 0 then other[0].p else old(p)
    {
      for j := 0 to other.Length
        invariant Valid()
        invariant Members() == old(Members()) + set k | 0 <= k < j :: other[k].i
        invariant p == if old(p) == 0 && j > 0 then other[0].p else old(p)
      {
        Add(other[j]);
        ArrayPrefixStep(other, j);
      }
    }

    /**
     * AddAll: the members become the union of both sets. The set takes
     * other's modulus only if it had none; the moduli are not compared.
     */
    method AddAll(other: ZSet)
      requires Valid() && other.Valid()
      modifies this
      ensures Valid()
      ensures p == if old(p) == 0 then old(other.p) else old(p)
      ensures Members() == old(Members()) + old(other.Members())
      ensures old(InField()) && old(other.InField()) && (old(p) == 0 || old(p) == old(other.p)) ==> InField()
    {
      if p == 0 {
        p := other.p;
      }
      var src := other.s;
      var todo := src.Keys;
      while todo != {}
        invariant todo <= src.Keys && DecimalKeyed(src) && src == old(other.s)
        invariant Valid() && p == if old(p) == 0 then old(other.p) else old(p)
        invariant Members() == old(Members()) + ValuesOf(src, src.Keys - todo)
        invariant forall k :: k in s ==> k in old(s) || k in src
        invariant forall k :: k in s ==> (k in old(s) && s[k] == old(s)[k]) || (k in src && s[k] == src[k])
        decreases todo
      {
        var k :| k in todo;
        VisitKey(src, todo, k);
        PutValue(s, src[k]);
        s := s[k := src[k]];
        todo := todo - {k};
      }
      assert ValuesOf(src, src.Keys) == src.Values;
    }

    /** RemoveSlice: remove each element of the slice in turn. */
    method RemoveSlice(other: array<Zp>)
      requires Valid()
      requires forall j :: 0 <= j < other.Length ==> other[j].Valid()
      modifies this
      ensures Valid() && p == old(p)
      ensures Members() == old(Members()) - set j | 0 <= j < other.Length :: other[j].i
    {
      for j := 0 to other.Length
        invariant Valid() && p == old(p)
        invariant Members() == old(Members()) - set k | 0 <= k < j :: other[k].i
      {
        Remove(other[j]);
        ArrayPrefixStep(other, j);
      }
    }

    /**
     * RemoveAll: the members of other are removed and nothing else. The set
     * takes other's modulus only if it had none.
     */
    method RemoveAll(other: ZSet)
      requires Valid() && other.Valid()
      modifies this
      ensures Valid()
      ensures p == if old(p) == 0 then old(other.p) else old(p)
      ensures Members() == old(Members()) - old(other.Members())
      ensures old(InField()) ==> InField()
    {
      if p == 0 {
        p := other.p;
      }
      var src := other.s;
      var todo := src.Keys;
      while todo != {}
        invariant todo <= src.Keys && DecimalKeyed(src) && src == old(other.s)
        invariant Valid() && p == if old(p) == 0 then old(other.p) else old(p)
        invariant Members() == old(Members()) - ValuesOf(src, src.Keys - todo)
        invariant forall k :: k in s ==> k in old(s) && s[k] == old(s)[k]
        decreases todo
      {
        var k :| k in todo;
        VisitKey(src, todo, k);
        DeleteValue(s, src[k]);
        s := s - {k};
        todo := todo - {k};
      }
      assert ValuesOf(src, src.Keys) == src.Values;
    }
  }

  /** Len: the number of members; a nil set has none. */
  function Len(zs: ZSet?): (n: nat)
    reads zs
    requires zs != null ==> zs.Valid()
    ensures zs == null ==> n == 0
    ensures zs != null ==> n == |zs.Members()|
  {
    if zs == null then 0
    else
      KeyedSize(zs.s);
      |zs.s|
  }

  /** The struct literal Zp{p: q} given the value v, as Items builds each element. */
  method NewElement(q: nat, v: nat) returns (z: Zp)
    ensures fresh(z) && z.p == q && z.i == v
  {
    z := new Zp.Z(q);
    z.i := v;
  }

  /**
   * Items: a new slice holding each member once, as an element of the set's
   * field, in an unspecified order; nil for a nil set.
   */
  method Items(zs: ZSet?) returns (r: array?<Zp>)
    requires zs != null ==> zs.Valid()
    ensures zs == null <==> r == null
    ensures r != null ==> fresh(r) && r.Length == Len(zs)
    ensures r != null ==> (set k | 0 <= k < r.Length :: r[k].i) == zs.Members()
    ensures r != null ==> forall j, k :: 0 <= j < k < r.Length ==> r[j].i != r[k].i
    ensures r != null ==> forall k :: 0 <= k < r.Length ==> fresh(r[k]) && r[k].p == zs.p
    ensures r != null && zs.InField() ==> forall k :: 0 <= k < r.Length ==> r[k].Valid()
  {
    if zs == null {
      return null;
    }
    r := ElementsOf(zs.s, zs.p);
    KeyedSize(zs.s);
  }

  /** One new element of the field q for each value of m, no value twice. */
  method ElementsOf(m: map<string, nat>, q: nat) returns (r: array<Zp>)
    requires DecimalKeyed(m)
    ensures fresh(r) && r.Length == |m|
    ensures (set k | 0 <= k < r.Length :: r[k].i) == m.Values
    ensures forall j, k :: 0 <= j < k < r.Length ==> r[j].i != r[k].i
    ensures forall k :: 0 <= k < r.Length ==> fresh(r[k]) && r[k].p == q && 0 <= r[k].i
    ensures (forall key :: key in m ==> m[key] < q) ==> forall k :: 0 <= k < r.Length ==> r[k].i < q
  {
    var n := |m|;
    var z0 := new Zp.Unbound();
    var result := new Zp[n](_ => z0);
    var todo := m.Keys;
    var j := 0;
    ghost var vals: seq<nat> := [];
    while todo != {}
      invariant todo <= m.Keys && j + |todo| == n && |vals| == j
      invariant forall k :: 0 <= k < j ==> fresh(result[k]) && result[k].p == q && result[k].i == vals[k]
      invariant ListsVisited(m, todo, vals)
      decreases todo
    {
      var key :| key in todo;
      VisitNext(m, todo, key, vals);
      var z := NewElement(q, m[key]);
      result[j] := z;
      vals := vals + [m[key]];
      j := j + 1;
      todo := todo - {key};
    }
    r := result;
    ItemsCover(r, m, vals, q);
  }

  /** Elements holding, in order, a complete repeat-free listing of the values of m hold exactly those values. */
  lemma ItemsCover(r: array<Zp>, m: map<string, nat>, vals: seq<nat>, q: nat)
    requires ListsVisited(m, {}, vals) && |vals| == r.Length
    requires forall k :: 0 <= k < r.Length ==> r[k].i == vals[k]
    ensures (set k | 0 <= k < r.Length :: r[k].i) == m.Values
    ensures forall j, k :: 0 <= j < k < r.Length ==> r[j].i != r[k].i
    ensures (forall key :: key in m ==> m[key] < q) ==> forall k :: 0 <= k < r.Length ==> r[k].i < q
  {
    assert m.Keys - {} == m.Keys;
    assert ValuesOf(m, m.Keys) == m.Values;
    assert (set k | 0 <= k < r.Length :: r[k].i) == (set x | x in vals) by {
      forall x | x in vals
        ensures x in (set k | 0 <= k < r.Length :: r[k].i)
      {
        var k :| 0 <= k < |vals| && vals[k] == x;
        assert r[k].i == x;
      }
    }
    if forall key :: key in m ==> m[key] < q {
      forall k | 0 <= k < r.Length
        ensures r[k].i < q
      {
        assert r[k].i in (set x | x in vals);
        assert r[k].i in m.Values;
        var key :| key in m && m[key] == r[k].i;
      }
    }
  }

  /**
   * ZSetDiff: a new set of the members of a that are not members of b, in
   * a's field if a has one and b's otherwise. Neither a nor b changes.
   */
  method ZSetDiff(a: ZSet, b: ZSet) returns (r: ZSet)
    requires a.Valid() && b.Valid()
    ensures fresh(r) && r.Valid()
    ensures r.Members() == a.Members() - b.Members()
    ensures r.Members() <= a.Members() && r.Members() !! b.Members()
    ensures r.p == if a.p != 0 then a.p else b.p
  {
    r := new ZSet.NewZSet([]);
    if a.p != 0 {
      r.p := a.p;
    } else if b.p != 0 {
      r.p := b.p;
    }
    var am, bm := a.s, b.s;
    var todo := am.Keys;
    while todo != {}
      invariant todo <= am.Keys
      invariant r.Valid() && r.p == if a.p != 0 then a.p else b.p
      invariant r.Members() == ValuesOf(am, am.Keys - todo) - bm.Values
      decreases todo
    {
      var k :| k in todo;
      VisitKey(am, todo, k);
      KeyOfValue(bm, am[k]);
      if k !in bm {
        PutValue(r.s, am[k]);
        r.s := r.s[k := am[k]];
      }
      todo := todo - {k};
    }
    assert ValuesOf(am, am.Keys) == am.Values;
  }
}
