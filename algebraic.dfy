/** `AlgebraicDict`: a mutable dict with element-wise `+`, `*` and `**`.
  * Values are integers; the operators build new dicts and leave their
  * operands alone. */
module Algebraic {
  import opened Wrappers

  /** The right-hand side of `+` or `*`: a mapping (a dict or another
    * `AlgebraicDict`), or a number. */
  datatype Operand<K> = Mapping(entries: map<K, int>) | Scalar(c: int)

  /** `rhs[key]` for a mapping, `rhs` itself for a number. */
  function OperandAt<K>(rhs: Operand<K>, key: K): int
    requires rhs.Mapping? ==> key in rhs.entries
  {
    if rhs.Mapping? then rhs.entries[key] else rhs.c
  }

  /** A mapping operand must hold every key of the left operand, or the
    * comprehension raises KeyError at the first key it lacks. */
  predicate Covers<K>(d: map<K, int>, rhs: Operand<K>)
  {
    rhs.Mapping? ==> d.Keys <= rhs.entries.Keys
  }

  // ---------------------------------------------------------------------
  // The element-wise operators on plain maps

  /** `{key: self[key] + rhs[key] for key in self}`, or `+ rhs` for a number. */
  function Plus<K(==)>(d: map<K, int>, rhs: Operand<K>): (r: Result<map<K, int>, PyError>)
    ensures r.Failure? <==> !Covers(d, rhs)
    ensures r.Failure? ==> r.error == KeyError
    ensures r.Success? ==> r.value.Keys == d.Keys
    ensures r.Success? ==> forall k :: k in d ==> r.value[k] == d[k] + OperandAt(rhs, k)
  {
    if !Covers(d, rhs) then Failure(KeyError)
    else Success(map k | k in d :: d[k] + OperandAt(rhs, k))
  }

  /** `{key: self[key] * rhs[key] for key in self}`, or `* rhs` for a number. */
  function Times<K(==)>(d: map<K, int>, rhs: Operand<K>): (r: Result<map<K, int>, PyError>)
    ensures r.Failure? <==> !Covers(d, rhs)
    ensures r.Failure? ==> r.error == KeyError
    ensures r.Success? ==> r.value.Keys == d.Keys
    ensures r.Success? ==> forall k :: k in d ==> r.value[k] == d[k] * OperandAt(rhs, k)
  {
    if !Covers(d, rhs) then Failure(KeyError)
    else Success(map k | k in d :: d[k] * OperandAt(rhs, k))
  }

  /** `b ** n` for a natural exponent. */
  function IntPow(b: int, n: nat): (r: int)
    ensures n == 0 ==> r == 1
    ensures n == 1 ==> r == b
    ensures b == 0 && n > 0 ==> r == 0
    ensures b == 1 ==> r == 1
    ensures b >= 0 ==> r >= 0
  {
    if n == 0 then 1 else b * IntPow(b, n - 1)
  }

  /** `b ** (m + n) == b ** m * b ** n`. */
  lemma {:induction false} IntPowAdd(b: int, m: nat, n: nat)
    ensures IntPow(b, m + n) == IntPow(b, m) * IntPow(b, n)
  {
    if m > 0 {
      IntPowAdd(b, m - 1, n);
      var x, y := IntPow(b, m - 1), IntPow(b, n);
      assert IntPow(b, m + n) == b * (x * y);
      assert IntPow(b, m) == b * x;
      MulAssoc(b, x, y);
    }
  }

  lemma MulAssoc(a: int, b: int, c: int)
    ensures a * (b * c) == (a * b) * c
  {
  }

  /** `{key: self[key] ** rhs for key in self}`. */
  function Power<K(==)>(d: map<K, int>, n: nat): (r: map<K, int>)
    ensures r.Keys == d.Keys
    ensures forall k :: k in d ==> r[k] == IntPow(d[k], n)
  {
    map k | k in d :: IntPow(d[k], n)
  }

  // ---------------------------------------------------------------------
  // Sums

  /** The sum of the values, taken in no particular key order. */
  ghost function MapSum<K>(d: map<K, int>): int
    decreases |d|
  {
    if d == map[] then 0
    else
      NonEmptyHasElement(d.Keys);
      var k :| k in d;
      d[k] + MapSum(d - {k})
  }

  /** Whichever key is taken out first, the sum is the same. */
  lemma {:induction false} MapSumRemove<K>(d: map<K, int>, k: K)
    requires k in d
    ensures MapSum(d) == d[k] + MapSum(d - {k})
    decreases |d|
  {
    NonEmptyHasElement(d.Keys);
    var j :| j in d && MapSum(d) == d[j] + MapSum(d - {j});
    if j != k {
      MapSumRemove(d - {j}, k);
      MapSumRemove(d - {k}, j);
      assert d - {j} - {k} == d - {k} - {j};
    }
  }

  lemma Distributes(c: int, a: int, b: int)
    ensures c * (a + b) == c * a + c * b
  {
  }

  /** Taking a key out commutes with an element-wise operation. */
  lemma RemoveCommutes<K>(d: map<K, int>, rhs: Operand<K>, k: K)
    requires Covers(d, rhs)
    ensures Plus(d, rhs).value - {k} == Plus(d - {k}, rhs).value
    ensures Times(d, rhs).value - {k} == Times(d - {k}, rhs).value
  {
    assert Plus(d, rhs).value - {k} == Plus(d - {k}, rhs).value;
    assert Times(d, rhs).value - {k} == Times(d - {k}, rhs).value;
  }

  /** `sum()` of a dict shifted by a number grows by that number per key. */
  lemma {:induction false} SumPlusScalar<K>(d: map<K, int>, c: int)
    ensures MapSum(Plus(d, Scalar(c)).value) == MapSum(d) + c * |d|
    decreases |d|
  {
    if d != map[] {
      NonEmptyHasElement(d.Keys);
      var k :| k in d;
      var p := Plus(d, Scalar(c)).value;
      var rest := d - {k};
      MapSumRemove(d, k);
      MapSumRemove(p, k);
      RemoveCommutes(d, Scalar(c), k);
      SumPlusScalar(rest, c);
      assert |d| == |rest| + 1;
      assert MapSum(p) == p[k] + MapSum(Plus(rest, Scalar(c)).value);
      Distributes(c, |rest|, 1);
    }
  }

  /** `c * (x + y) == x * c + c * y`, the step of `SumTimesScalar`. */
  lemma ScaleStep(c: int, x: int, y: int)
    ensures c * (x + y) == x * c + c * y
  {
    Distributes(c, x, y);
  }

  /** `sum()` of a dict scaled by a number is scaled by that number. */
  lemma {:induction false} SumTimesScalar<K>(d: map<K, int>, c: int)
    ensures MapSum(Times(d, Scalar(c)).value) == c * MapSum(d)
    decreases |d|
  {
    if d != map[] {
      NonEmptyHasElement(d.Keys);
      var k :| k in d;
      var rest := d - {k};
      MapSumRemove(d, k);
      MapSumRemove(Times(d, Scalar(c)).value, k);
      RemoveCommutes(d, Scalar(c), k);
      SumTimesScalar(rest, c);
      ScaleStep(c, d[k], MapSum(rest));
    } else {
      assert Times(d, Scalar(c)).value == map[];
    }
  }

  /** For two dicts over the same keys, `(a + b).sum() == a.sum() + b.sum()`. */
  lemma {:induction false} SumPlusMapping<K>(a: map<K, int>, b: map<K, int>)
    requires a.Keys == b.Keys
    ensures MapSum(Plus(a, Mapping(b)).value) == MapSum(a) + MapSum(b)
    decreases |a|
  {
    if a != map[] {
      NonEmptyHasElement(a.Keys);
      var k :| k in a;
      var p := Plus(a, Mapping(b)).value;
      MapSumRemove(a, k);
      MapSumRemove(b, k);
      MapSumRemove(p, k);
      SumPlusMapping(a - {k}, b - {k});
      assert p - {k} == Plus(a - {k}, Mapping(b - {k})).value;
    }
  }

  // ---------------------------------------------------------------------
  // Algebraic laws of the element-wise operators

  /** Adding 0 or multiplying by 1 gives back the same dict. */
  lemma Identities<K>(d: map<K, int>)
    ensures Plus(d, Scalar(0)) == Success(d)
    ensures Times(d, Scalar(1)) == Success(d)
    ensures Power(d, 1) == d
  {
    assert Plus(d, Scalar(0)).value == d;
    assert Times(d, Scalar(1)).value == d;
    forall k | k in d ensures Power(d, 1)[k] == d[k] {
      assert IntPow(d[k], 1) == d[k] * IntPow(d[k], 0);
    }
    assert Power(d, 1) == d;
  }

  /** Over the same keys, `a + b == b + a` and `a * b == b * a`. */
  lemma Commutative<K>(a: map<K, int>, b: map<K, int>)
    requires a.Keys == b.Keys
    ensures Plus(a, Mapping(b)) == Plus(b, Mapping(a))
    ensures Times(a, Mapping(b)) == Times(b, Mapping(a))
  {
    SameEntries(Plus(a, Mapping(b)).value, Plus(b, Mapping(a)).value);
    forall k | k in a ensures a[k] * b[k] == b[k] * a[k] {
    }
    SameEntries(Times(a, Mapping(b)).value, Times(b, Mapping(a)).value);
  }

  /** Maps with the same keys and the same value at each key are equal. */
  lemma SameEntries<K>(p: map<K, int>, q: map<K, int>)
    requires p.Keys == q.Keys && forall k :: k in p ==> p[k] == q[k]
    ensures p == q
  {
  }

  /** `d ** (n + 1) == d ** n * d`. */
  lemma PowerStep<K>(d: map<K, int>, n: nat)
    ensures Times(Power(d, n), Mapping(d)) == Success(Power(d, n + 1))
  {
    var t := Times(Power(d, n), Mapping(d)).value;
    forall k | k in d ensures t[k] == Power(d, n + 1)[k] {
      assert IntPow(d[k], n + 1) == d[k] * IntPow(d[k], n);
    }
    assert t == Power(d, n + 1);
  }

  // ---------------------------------------------------------------------
  // The class

  /** The mutable dict wrapper; `dict` is its underlying `_dict`. */
  class AlgebraicDict<K(==)> {
    var dict: map<K, int>

    /** `AlgebraicDict(d)` copies the given entries. */
    constructor (entries: map<K, int>)
      ensures dict == entries
    {
      dict := entries;
    }

    /** `self[key]`: the stored value, or KeyError. */
    function Get(key: K): (r: Result<int, PyError>)
      reads this
      ensures r.Success? <==> key in dict
      ensures r.Success? ==> r.value == dict[key]
      ensures r.Failure? ==> r.error == KeyError
    {
      if key in dict then Success(dict[key]) else Failure(KeyError)
    }

    /** `len(self)`. */
    function Len(): (n: nat)
      reads this
      ensures n == |dict.Keys|
    {
      |dict|
    }

    /** `self[key] = value`: that key now reads back `value`; every other
      * key keeps its value. */
    method SetItem(key: K, value: int)
      modifies this
      ensures dict == old(dict)[key := value]
      ensures Get(key) == Success(value)
      ensures forall k :: k != key && k in old(dict) ==> k in dict && dict[k] == old(dict)[k]
      ensures forall k :: k != key && k !in old(dict) ==> k !in dict
      ensures Len() == old(Len()) + (if key in old(dict) then 0 else 1)
    {
      dict := dict[key := value];
      assert key !in old(dict) ==> dict.Keys == old(dict).Keys + {key};
    }

    /** `del self[key]`: removes only that key, or raises KeyError and
      * changes nothing. */
    method DelItem(key: K) returns (r: Result<(), PyError>)
      modifies this
      ensures r.Success? <==> key in old(dict)
      ensures r.Failure? ==> r.error == KeyError && dict == old(dict)
      ensures r.Success? ==> dict == old(dict) - {key} && Len() == old(Len()) - 1
      ensures Get(key).Failure?
    {
      if key !in dict {
        return Failure(KeyError);
      }
      dict := dict - {key};
      return Success(());
    }

    /** `self + rhs`: a fresh dict, or KeyError; `self` is unchanged. */
    method Add(rhs: Operand<K>) returns (r: Result<AlgebraicDict<K>, PyError>)
      ensures r.Failure? <==> !Covers(dict, rhs)
      ensures r.Failure? ==> r.error == KeyError
      ensures r.Success? ==> fresh(r.value) && Success(r.value.dict) == Plus(dict, rhs)
    {
      var p := Plus(dict, rhs);
      if p.Failure? {
        return Failure(p.error);
      }
      var result := new AlgebraicDict(p.value);
      return Success(result);
    }

    /** `self * rhs`: a fresh dict, or KeyError; `self` is unchanged. */
    method Mul(rhs: Operand<K>) returns (r: Result<AlgebraicDict<K>, PyError>)
      ensures r.Failure? <==> !Covers(dict, rhs)
      ensures r.Failure? ==> r.error == KeyError
      ensures r.Success? ==> fresh(r.value) && Success(r.value.dict) == Times(dict, rhs)
    {
      var p := Times(dict, rhs);
      if p.Failure? {
        return Failure(p.error);
      }
      var result := new AlgebraicDict(p.value);
      return Success(result);
    }

    /** `self ** n`: a fresh dict; `self` is unchanged. */
    method Pow(n: nat) returns (r: AlgebraicDict<K>)
      ensures fresh(r) && r.dict == Power(dict, n)
    {
      r := new AlgebraicDict(Power(dict, n));
    }

    /** `self.sum()`: the total of the values, 0 when empty. */
    method Sum() returns (s: int)
      ensures s == MapSum(dict)
      ensures dict == map[] ==> s == 0
    {
      s := 0;
      var rest := dict;
      while rest != map[]
        invariant s + MapSum(rest) == MapSum(dict)
        decreases |rest|
      {
        var k := Pop(rest.Keys);
        MapSumRemove(rest, k);
        s := s + rest[k];
        rest := rest - {k};
      }
    }
  }
}
