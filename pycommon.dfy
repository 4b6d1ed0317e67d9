/** The sequence and dict helpers of the package's root module, with the
  * `sorted` and `itertools.groupby` behaviour they rely on. */
module Pycommon {
  import opened Wrappers
  import opened Seqs

  // ---------------------------------------------------------------------
  // lfind, rfind

  /** `xs.index(x)`: the leftmost position of `x`, or ValueError. */
  function Lfind<T(==)>(xs: seq<T>, x: T): (r: Result<nat, PyError>)
    ensures r.Success? <==> x in xs
    ensures r.Success? ==> r.value < |xs| && xs[r.value] == x
    ensures r.Success? ==> forall j :: 0 <= j < r.value ==> xs[j] != x
    ensures r.Failure? ==> r.error == ValueError
  {
    if xs == [] then Failure(ValueError)
    else if xs[0] == x then Success(0)
    else
      match Lfind(xs[1..], x)
      case Success(i) => Success(i + 1)
      case Failure(e) => Failure(e)
  }

  /** `xs[::-1]`. */
  function Reverse<T>(xs: seq<T>): (r: seq<T>)
    ensures |r| == |xs|
    ensures forall i :: 0 <= i < |xs| ==> r[i] == xs[|xs| - 1 - i]
  {
    if xs == [] then [] else Reverse(xs[1..]) + [xs[0]]
  }

  /** `(len(xs) - 1) - xs[::-1].index(x)`: the rightmost position of `x`,
    * or ValueError. */
  function Rfind<T(==)>(xs: seq<T>, x: T): (r: Result<nat, PyError>)
    ensures r.Success? <==> x in xs
    ensures r.Success? ==> r.value < |xs| && xs[r.value] == x
    ensures r.Success? ==> forall j :: r.value < j < |xs| ==> xs[j] != x
    ensures r.Failure? ==> r.error == ValueError
  {
    var rev := Reverse(xs);
    assert x in rev <==> x in xs by {
      if x in xs {
        var i :| 0 <= i < |xs| && xs[i] == x;
        assert rev[|xs| - 1 - i] == x;
      }
    }
    match Lfind(rev, x)
    case Success(i) =>
      assert forall j :: |xs| - 1 - i < j < |xs| ==> xs[j] == rev[|xs| - 1 - j];
      Success(|xs| - 1 - i)
    case Failure(e) => Failure(e)
  }

  // ---------------------------------------------------------------------
  // head, window, prefixes, suffixes

  /** The default `n` of `head`. */
  const DefaultHeadCount: int := 10

  /** `itertools.islice(xs, n)` for a non-negative `n`: walks the input and
    * stops after `n` items or at its end. */
  function Take<T>(xs: seq<T>, n: nat): (r: seq<T>)
    ensures r == xs[..if n < |xs| then n else |xs|]
  {
    if n == 0 || xs == [] then [] else [xs[0]] + Take(xs[1..], n - 1)
  }

  /** `head(xs, n)`: the first `min(n, len(xs))` items; `islice` refuses a
    * negative count with ValueError. */
  function Head<T>(xs: seq<T>, n: int): (r: Result<seq<T>, PyError>)
    ensures r.Failure? <==> n < 0
    ensures r.Failure? ==> r.error == ValueError
    ensures r.Success? ==> |r.value| == (if n < |xs| then n else |xs|)
    ensures r.Success? ==> forall i :: 0 <= i < |r.value| ==> r.value[i] == xs[i]
  {
    if n < 0 then Failure(ValueError) else Success(Take(xs, n))
  }

  /** `head(xs)` with the default count: at most the first ten items. */
  lemma HeadByDefault<T>(xs: seq<T>)
    ensures Head(xs, DefaultHeadCount) == Success(xs[..if |xs| < 10 then |xs| else 10])
  {
  }

  /** Python's `t[1:]` on a tuple: empty when `t` is empty. */
  function DropFirst<T>(t: seq<T>): seq<T>
  {
    if t == [] then [] else t[1..]
  }

  /** After `i` items with `1 <= n <= i`: the window holds the last `n`
    * items, and the windows so far are every `n`-wide slice in order. */
  ghost predicate Slid<T>(xs: seq<T>, n: nat, i: nat, window: seq<T>, windows: seq<seq<T>>)
  {
    && 1 <= n <= i <= |xs|
    && window == xs[i - n..i]
    && |windows| == i - n + 1
    && forall j :: 0 <= j < |windows| ==> windows[j] == xs[j..j + n]
  }

  /** After `i` items with `n == 0`: the empty window, then one window per
    * item holding just that item. */
  ghost predicate Singles<T>(xs: seq<T>, i: nat, window: seq<T>, windows: seq<seq<T>>)
  {
    && i <= |xs|
    && window == (if i == 0 then [] else [xs[i - 1]])
    && |windows| == i + 1 && windows[0] == []
    && forall j :: 0 <= j < i ==> windows[j + 1] == [xs[j]]
  }

  lemma SlideStep<T>(xs: seq<T>, n: nat, i: nat, window: seq<T>, windows: seq<seq<T>>)
    requires Slid(xs, n, i, window, windows) && i < |xs|
    ensures var w := DropFirst(window) + [xs[i]]; Slid(xs, n, i + 1, w, windows + [w])
  {
    var w := DropFirst(window) + [xs[i]];
    assert w == xs[i + 1 - n..i + 1];
    var ws := windows + [w];
    forall j | 0 <= j < |ws| ensures ws[j] == xs[j..j + n] {
      if j < |windows| {
        assert ws[j] == windows[j];
      }
    }
  }

  lemma SinglesStep<T>(xs: seq<T>, i: nat, window: seq<T>, windows: seq<seq<T>>)
    requires Singles(xs, i, window, windows) && i < |xs|
    ensures var w := DropFirst(window) + [xs[i]]; Singles(xs, i + 1, w, windows + [w])
  {
    var w := DropFirst(window) + [xs[i]];
    assert w == [xs[i]];
    var ws := windows + [w];
    forall j | 0 <= j < i + 1 ensures ws[j + 1] == [xs[j]] {
      if j < i {
        assert ws[j + 1] == windows[j + 1];
      }
    }
  }

  /** `window(xs, n)`: the first `n` items form the first window, emitted only
    * when there were `n` of them; every further item shifts the window by one.
    * For `n == 0` the shift turns the empty window into one-item windows. */
  method Window<T>(xs: seq<T>, n: int) returns (r: Result<seq<seq<T>>, PyError>)
    ensures r.Failure? <==> n < 0
    ensures r.Failure? ==> r.error == ValueError
    ensures r.Success? && |xs| < n ==> r.value == []
    ensures r.Success? && 1 <= n <= |xs| ==>
      |r.value| == |xs| - n + 1 &&
      forall i :: 0 <= i < |r.value| ==> r.value[i] == xs[i..i + n]
    ensures r.Success? && n == 0 ==>
      |r.value| == |xs| + 1 && r.value[0] == [] &&
      forall i :: 0 <= i < |xs| ==> r.value[i + 1] == [xs[i]]
  {
    if n < 0 {
      return Failure(ValueError);
    }
    var first := if n <= |xs| then n else |xs|;
    var window := xs[..first];
    var windows: seq<seq<T>> := [];
    if |window| == n {
      windows := [window];
    }
    var i := first;
    while i < |xs|
      invariant first <= i <= |xs|
      invariant |xs| < n ==> windows == []
      invariant 1 <= n <= |xs| ==> Slid(xs, n, i, window, windows)
      invariant n == 0 ==> Singles(xs, i, window, windows)
    {
      if n == 0 {
        SinglesStep(xs, i, window, windows);
      } else {
        SlideStep(xs, n, i, window, windows);
      }
      window := DropFirst(window) + [xs[i]];
      windows := windows + [window];
      i := i + 1;
    }
    return Success(windows);
  }

  /** `prefixes(xs)`: every prefix, shortest first. */
  function Prefixes<T>(xs: seq<T>): (r: seq<seq<T>>)
    ensures |r| == |xs| + 1
    ensures forall i :: 0 <= i <= |xs| ==> r[i] == xs[..i]
  {
    if xs == [] then [[]] else Prefixes(xs[..|xs| - 1]) + [xs]
  }

  /** `suffixes(xs)`: every suffix, shortest first. */
  function Suffixes<T>(xs: seq<T>): (r: seq<seq<T>>)
    ensures |r| == |xs| + 1
    ensures forall i :: 0 <= i <= |xs| ==> r[i] == xs[|xs| - i..]
  {
    if xs == [] then [[]] else Suffixes(xs[1..]) + [xs]
  }

  // ---------------------------------------------------------------------
  // product

  /** `reduce(operator.mul, xs, 1)`: a left fold starting from 1. */
  function Product(xs: seq<int>): (r: int)
    ensures xs == [] ==> r == 1
    ensures |xs| == 1 ==> r == xs[0]
    ensures (forall i :: 0 <= i < |xs| ==> xs[i] >= 1) ==> r >= 1
  {
    if xs == [] then 1 else Product(xs[..|xs| - 1]) * xs[|xs| - 1]
  }

  /** The product of a concatenation is the product of the products. */
  lemma {:induction false} ProductConcat(a: seq<int>, b: seq<int>)
    ensures Product(a + b) == Product(a) * Product(b)
  {
    if b == [] {
      assert a + b == a;
    } else {
      var init, last := b[..|b| - 1], b[|b| - 1];
      assert a + b == (a + init) + [last];
      assert (a + b)[..|a + b| - 1] == a + init;
      ProductConcat(a, init);
      var p, q := Product(a), Product(init);
      assert Product(a + b) == (p * q) * last;
      assert (p * q) * last == p * (q * last);
      assert Product(b) == q * last;
    }
  }

  /** The product is zero exactly when some factor is zero. */
  lemma {:induction false} ProductZero(xs: seq<int>)
    ensures Product(xs) == 0 <==> 0 in xs
  {
    if xs != [] {
      var init, last := xs[..|xs| - 1], xs[|xs| - 1];
      assert xs == init + [last];
      ProductZero(init);
      assert Product(xs) == Product(init) * last;
      assert 0 in xs <==> 0 in init || last == 0;
    }
  }

  // ---------------------------------------------------------------------
  // pick, omit, invert, select

  /** `pick(mapping, keys)`: the items whose key is one of `keys`. */
  function Pick<K, V>(mapping: map<K, V>, keys: seq<K>): (r: map<K, V>)
    ensures r.Keys == mapping.Keys * (set k | k in keys)
    ensures forall k :: k in r ==> r[k] == mapping[k]
  {
    var keyset := set k | k in keys;
    map k | k in mapping && k in keyset :: mapping[k]
  }

  /** `omit(mapping, keys)`: the items whose key is none of `keys`. */
  function Omit<K, V>(mapping: map<K, V>, keys: seq<K>): (r: map<K, V>)
    ensures r.Keys == mapping.Keys - (set k | k in keys)
    ensures forall k :: k in r ==> r[k] == mapping[k]
  {
    var keyset := set k | k in keys;
    map k | k in mapping && k !in keyset :: mapping[k]
  }

  /** `pick` and `omit` with the same keys split a mapping in two. */
  lemma PickOmitSplit<K, V>(mapping: map<K, V>, keys: seq<K>)
    ensures Pick(mapping, keys).Keys !! Omit(mapping, keys).Keys
    ensures Pick(mapping, keys) + Omit(mapping, keys) == mapping
  {
    var p, o := Pick(mapping, keys), Omit(mapping, keys);
    assert (p + o).Keys == mapping.Keys;
  }

  /** `invert(mapping)`, over `mapping.items()` in iteration order: every
    * value becomes a key, and the last item carrying that value wins. */
  function Invert<K, V(==)>(items: seq<(K, V)>): (r: map<V, K>)
    ensures r.Keys == set j | 0 <= j < |items| :: items[j].1
    ensures forall j :: 0 <= j < |items| && IsLastWithValue(items, j) ==> r[items[j].1] == items[j].0
  {
    if items == [] then map[]
    else
      var init, last := items[..|items| - 1], items[|items| - 1];
      assert items == init + [last];
      InvertStep(init, last, Invert(init));
      Invert(init)[last.1 := last.0]
  }

  /** Adding one item at the end: its value now maps to its key, and every
    * other value keeps the key of its last earlier item. */
  lemma InvertStep<K, V>(init: seq<(K, V)>, last: (K, V), prev: map<V, K>)
    requires prev.Keys == set j | 0 <= j < |init| :: init[j].1
    requires forall j :: 0 <= j < |init| && IsLastWithValue(init, j) ==> prev[init[j].1] == init[j].0
    ensures var items, r := init + [last], prev[last.1 := last.0];
      && r.Keys == (set j | 0 <= j < |items| :: items[j].1)
      && forall j :: 0 <= j < |items| && IsLastWithValue(items, j) ==> r[items[j].1] == items[j].0
  {
    var items, r := init + [last], prev[last.1 := last.0];
    forall j | 0 <= j < |items| && IsLastWithValue(items, j) ensures r[items[j].1] == items[j].0 {
      if j < |init| {
        assert items[j] == init[j];
        assert items[|init|].1 != items[j].1;
        assert IsLastWithValue(init, j) by {
          forall j' | j < j' < |init| ensures init[j'].1 != init[j].1 {
            assert items[j'] == init[j'];
          }
        }
      }
    }
    assert r.Keys == (set j | 0 <= j < |items| :: items[j].1) by {
      forall v | v in r.Keys ensures v in (set j | 0 <= j < |items| :: items[j].1) {
        if v == last.1 {
          assert items[|init|].1 == v;
        } else {
          var j :| 0 <= j < |init| && init[j].1 == v;
          assert items[j] == init[j];
        }
      }
      forall j | 0 <= j < |items| ensures items[j].1 in r.Keys {
        if j < |init| {
          assert items[j] == init[j];
        }
      }
    }
  }

  /** No item after position `j` carries the value of item `j`. */
  predicate IsLastWithValue<K, V(==)>(items: seq<(K, V)>, j: int)
    requires 0 <= j < |items|
  {
    forall j' :: j < j' < |items| ==> items[j'].1 != items[j].1
  }

  /** Python's reading of an index: a negative one counts from the end. */
  function PyIndex(length: nat, index: int): (i: nat)
    requires 0 <= length + index && index < length
    ensures i < length
  {
    if index < 0 then length + index else index
  }

  /** `select(xs, indices)`: the items at the given (possibly negative)
    * indices, or IndexError when one is out of range. */
  function Select<T>(xs: seq<T>, indices: seq<int>): (r: Result<seq<T>, PyError>)
    ensures r.Success? <==> forall j :: 0 <= j < |indices| ==> 0 <= |xs| + indices[j] && indices[j] < |xs|
    ensures r.Success? ==> |r.value| == |indices|
    ensures r.Success? ==> forall j :: 0 <= j < |indices| ==> r.value[j] == xs[PyIndex(|xs|, indices[j])]
    ensures r.Failure? ==> r.error == IndexError
  {
    if indices == [] then Success([])
    else if !(0 <= |xs| + indices[0] && indices[0] < |xs|) then Failure(IndexError)
    else
      match Select(xs, indices[1..])
      case Success(rest) => Success([xs[PyIndex(|xs|, indices[0])]] + rest)
      case Failure(e) => Failure(e)
  }

  // ---------------------------------------------------------------------
  // itertools.groupby and sorted

  /** The items of all groups, in order. */
  function Flatten<K, T>(groups: seq<(K, seq<T>)>): seq<T>
  {
    if groups == [] then [] else groups[0].1 + Flatten(groups[1..])
  }

  /** `groups` cuts `xs` into maximal runs of items with one key. */
  ghost predicate IsRunGrouping<T, K>(xs: seq<T>, key: T -> K, groups: seq<(K, seq<T>)>)
  {
    && Flatten(groups) == xs
    && (forall i :: 0 <= i < |groups| ==> groups[i].1 != [])
    && (forall i, x :: 0 <= i < |groups| && x in groups[i].1 ==> key(x) == groups[i].0)
    && (forall i :: 0 <= i < |groups| - 1 ==> groups[i].0 != groups[i + 1].0)
  }

  /** `itertools.groupby(xs, key)` with every sub-iterator materialised. */
  function GroupBy<T, K(==)>(xs: seq<T>, key: T -> K): (groups: seq<(K, seq<T>)>)
    ensures IsRunGrouping(xs, key, groups)
    ensures xs != [] ==> groups != [] && groups[0].0 == key(xs[0])
    ensures |groups| <= |xs|
  {
    if xs == [] then []
    else
      var rest := GroupBy(xs[1..], key);
      if rest != [] && rest[0].0 == key(xs[0]) then
        var groups := [(rest[0].0, [xs[0]] + rest[0].1)] + rest[1..];
        assert groups[1..] == rest[1..];
        assert Flatten(rest) == rest[0].1 + Flatten(rest[1..]);
        assert [xs[0]] + xs[1..] == xs;
        groups
      else
        var groups := [(key(xs[0]), [xs[0]])] + rest;
        assert groups[1..] == rest;
        assert [xs[0]] + xs[1..] == xs;
        groups
  }

  /** A run grouping is unique: the runs are fixed by the items and the key. */
  lemma {:induction false} RunGroupingUnique<T, K>(xs: seq<T>, key: T -> K, g1: seq<(K, seq<T>)>, g2: seq<(K, seq<T>)>)
    requires IsRunGrouping(xs, key, g1) && IsRunGrouping(xs, key, g2)
    ensures g1 == g2
    decreases |xs|
  {
    if xs == [] {
      EmptyGrouping(key, g1);
      EmptyGrouping(key, g2);
    } else {
      FirstRunMaximal(xs, key, g1);
      FirstRunMaximal(xs, key, g2);
      var a, b := g1[0].1, g2[0].1;
      assert g1[0].0 == key(xs[0]) == g2[0].0;
      LeadingRunUnique(xs, key, g1[0].0, |a|);
      LeadingRunUnique(xs, key, g2[0].0, |b|);
      assert a == xs[..|a|] == b;
      var rest := xs[|a|..];
      RunGroupingTail(xs, key, g1);
      RunGroupingTail(xs, key, g2);
      RunGroupingUnique(rest, key, g1[1..], g2[1..]);
      assert g1 == [g1[0]] + g1[1..];
      assert g2 == [g2[0]] + g2[1..];
    }
  }

  /** The only run grouping of nothing is the empty one. */
  lemma EmptyGrouping<T, K>(key: T -> K, groups: seq<(K, seq<T>)>)
    requires IsRunGrouping([], key, groups)
    ensures groups == []
  {
    FlattenLength(groups);
  }

  /** Runs that are not empty hold at least one item each. */
  lemma {:induction false} FlattenLength<K, T>(groups: seq<(K, seq<T>)>)
    requires forall i :: 0 <= i < |groups| ==> groups[i].1 != []
    ensures |Flatten(groups)| >= |groups|
  {
    if groups != [] {
      FlattenLength(groups[1..]);
    }
  }

  /** The first run is a maximal prefix of items sharing its key. */
  lemma FirstRunMaximal<T, K>(xs: seq<T>, key: T -> K, groups: seq<(K, seq<T>)>)
    requires IsRunGrouping(xs, key, groups) && xs != []
    ensures groups != [] && |groups[0].1| <= |xs| && xs[..|groups[0].1|] == groups[0].1
    ensures groups[0].0 == key(xs[0])
    ensures forall i :: 0 <= i < |groups[0].1| ==> key(xs[i]) == groups[0].0
    ensures |groups[0].1| < |xs| ==> key(xs[|groups[0].1|]) != groups[0].0
  {
    var a := groups[0].1;
    assert xs == a + Flatten(groups[1..]);
    assert a[0] in a;
    forall i | 0 <= i < |a| ensures key(xs[i]) == groups[0].0 {
      assert xs[i] == a[i] && a[i] in a;
    }
    if |a| < |xs| {
      assert |Flatten(groups[1..])| > 0;
      assert Flatten(groups[1..]) == groups[1].1 + Flatten(groups[2..]);
      assert xs[|a|] == groups[1].1[0];
      assert groups[1].1[0] in groups[1].1;
    }
  }

  /** How many leading items have key `k`. */
  function LeadingRun<T, K(==)>(xs: seq<T>, key: T -> K, k: K): nat
  {
    if xs == [] || key(xs[0]) != k then 0 else 1 + LeadingRun(xs[1..], key, k)
  }

  lemma {:induction false} LeadingRunUnique<T, K>(xs: seq<T>, key: T -> K, k: K, n: nat)
    requires n <= |xs|
    requires forall i :: 0 <= i < n ==> key(xs[i]) == k
    requires n < |xs| ==> key(xs[n]) != k
    ensures n == LeadingRun(xs, key, k)
  {
    if n > 0 {
      LeadingRunUnique(xs[1..], key, k, n - 1);
    }
  }

  /** Dropping the first run of a run grouping leaves a run grouping of the rest. */
  lemma RunGroupingTail<T, K>(xs: seq<T>, key: T -> K, groups: seq<(K, seq<T>)>)
    requires IsRunGrouping(xs, key, groups) && groups != []
    ensures IsRunGrouping(xs[|groups[0].1|..], key, groups[1..])
  {
    assert xs == groups[0].1 + Flatten(groups[1..]);
    assert xs[|groups[0].1|..] == Flatten(groups[1..]);
    forall i, x | 0 <= i < |groups| - 1 && x in groups[1..][i].1
      ensures key(x) == groups[1..][i].0
    {
      assert groups[1..][i] == groups[i + 1];
    }
  }

  /** Every item of the input lies in some group, and only those. */
  lemma {:induction false} FlattenMember<K, T>(groups: seq<(K, seq<T>)>, x: T)
    ensures x in Flatten(groups) <==> exists i :: 0 <= i < |groups| && x in groups[i].1
  {
    if groups != [] {
      FlattenMember(groups[1..], x);
      if x in Flatten(groups[1..]) {
        var i :| 0 <= i < |groups[1..]| && x in groups[1..][i].1;
        assert x in groups[i + 1].1;
      }
      if exists i :: 0 <= i < |groups| && x in groups[i].1 {
        var i :| 0 <= i < |groups| && x in groups[i].1;
        if i > 0 {
          assert x in groups[1..][i - 1].1;
        }
      }
    }
  }

  /** Items `xs` are in ascending order of their integer key. */
  ghost predicate SortedBy<T>(xs: seq<T>, key: T -> int)
  {
    forall i, j :: 0 <= i < j < |xs| ==> key(xs[i]) <= key(xs[j])
  }

  /** The items of `xs` whose key is `k`, in order. */
  function WithKey<T>(xs: seq<T>, key: T -> int, k: int): seq<T>
  {
    if xs == [] then []
    else (if key(xs[0]) == k then [xs[0]] else []) + WithKey(xs[1..], key, k)
  }

  /** Puts `x` in front of the first item whose key is not smaller. */
  function InsertBy<T>(x: T, xs: seq<T>, key: T -> int): (r: seq<T>)
    ensures multiset(r) == multiset(xs) + multiset{x}
    ensures |r| == |xs| + 1
    ensures SortedBy(xs, key) ==> SortedBy(r, key)
  {
    if xs == [] || key(x) <= key(xs[0]) then [x] + xs
    else
      var rest := InsertBy(x, xs[1..], key);
      assert xs == [xs[0]] + xs[1..];
      InsertBehindSorted(x, xs, rest, key);
      [xs[0]] + rest
  }

  /** The step of `InsertBy` past a smaller first item keeps the order. */
  lemma InsertBehindSorted<T>(x: T, xs: seq<T>, rest: seq<T>, key: T -> int)
    requires xs != [] && key(xs[0]) < key(x)
    requires multiset(rest) == multiset(xs[1..]) + multiset{x}
    requires SortedBy(xs[1..], key) ==> SortedBy(rest, key)
    ensures SortedBy(xs, key) ==> SortedBy([xs[0]] + rest, key)
  {
    if SortedBy(xs, key) {
      var r := [xs[0]] + rest;
      forall j | 1 <= j < |r| ensures key(r[0]) <= key(r[j]) {
        assert r[j] == rest[j - 1];
        assert r[j] in multiset(xs[1..]) + multiset{x};
        if r[j] != x {
          var m :| 0 <= m < |xs[1..]| && xs[1..][m] == r[j];
          assert xs[m + 1] == r[j];
        }
      }
      assert SortedBy(xs[1..], key);
    }
  }

  /** `sorted(xs, key=key)`: a stable sort by an integer key. */
  function SortBy<T>(xs: seq<T>, key: T -> int): (r: seq<T>)
    ensures SortedBy(r, key)
    ensures multiset(r) == multiset(xs)
    ensures |r| == |xs|
  {
    if xs == [] then []
    else
      assert xs == [xs[0]] + xs[1..];
      InsertBy(xs[0], SortBy(xs[1..], key), key)
  }

  /** Inserting `x` adds it to the items of its own key only, in front. */
  lemma {:induction false} InsertByWithKey<T>(x: T, xs: seq<T>, key: T -> int, k: int)
    ensures WithKey(InsertBy(x, xs, key), key, k) ==
            (if key(x) == k then [x] else []) + WithKey(xs, key, k)
  {
    InsertByUnfold(x, xs, key);
    if xs == [] || key(x) <= key(xs[0]) {
      WithKeyCons(x, xs, key, k);
    } else {
      var rest := InsertBy(x, xs[1..], key);
      var mine: seq<T> := if key(x) == k then [x] else [];
      var first: seq<T> := if key(xs[0]) == k then [xs[0]] else [];
      var others := WithKey(xs[1..], key, k);
      InsertByWithKey(x, xs[1..], key, k);
      WithKeyCons(xs[0], rest, key, k);
      assert WithKey(InsertBy(x, xs, key), key, k) == first + (mine + others);
      WithKeyCons(xs[0], xs[1..], key, k);
      HeadTail(xs);
      assert WithKey(xs, key, k) == first + others;
      SwapFronts(mine, first, others);
    }
  }

  lemma InsertByUnfold<T>(x: T, xs: seq<T>, key: T -> int)
    ensures InsertBy(x, xs, key) ==
      if xs == [] || key(x) <= key(xs[0]) then [x] + xs else [xs[0]] + InsertBy(x, xs[1..], key)
  {
  }

  lemma WithKeyCons<T>(y: T, ys: seq<T>, key: T -> int, k: int)
    ensures WithKey([y] + ys, key, k) == (if key(y) == k then [y] else []) + WithKey(ys, key, k)
  {
    assert ([y] + ys)[1..] == ys;
  }

  /** The sort is stable: items with the same key keep their relative order. */
  lemma {:induction false} SortByStable<T>(xs: seq<T>, key: T -> int, k: int)
    ensures WithKey(SortBy(xs, key), key, k) == WithKey(xs, key, k)
  {
    if xs != [] {
      SortByStable(xs[1..], key, k);
      InsertByWithKey(xs[0], SortBy(xs[1..], key), key, k);
    }
  }

  // ---------------------------------------------------------------------
  // uniq, uniq_c, groupby_select, strict_groupby

  /** The keys of the runs. */
  function RunKeys<K, T>(groups: seq<(K, seq<T>)>): (r: seq<K>)
    ensures |r| == |groups|
    ensures forall i :: 0 <= i < |groups| ==> r[i] == groups[i].0
  {
    if groups == [] then [] else [groups[0].0] + RunKeys(groups[1..])
  }

  /** `uniq(xs, key)`: the key of each run of equal-keyed items. */
  function Uniq<T, K(==)>(xs: seq<T>, key: T -> K): (r: seq<K>)
    ensures forall i :: 0 <= i < |r| - 1 ==> r[i] != r[i + 1]
    ensures |r| <= |xs| && (r == [] <==> xs == [])
    ensures (set v | v in r) == (set x | x in xs :: key(x))
  {
    var groups := GroupBy(xs, key);
    var r := RunKeys(groups);
    assert (set v | v in r) == (set x | x in xs :: key(x)) by {
      forall v | v in r ensures v in (set x | x in xs :: key(x)) {
        var i :| 0 <= i < |r| && r[i] == v;
        var x := groups[i].1[0];
        FlattenMember(groups, x);
      }
      forall x | x in xs ensures key(x) in r {
        FlattenMember(groups, x);
        var i :| 0 <= i < |groups| && x in groups[i].1;
        assert r[i] == key(x);
      }
    }
    r
  }

  /** `uniq` gives the key of every run, in order: with the runs fixed by
    * the input, nothing else qualifies. */
  lemma UniqIsRunKeys<T, K>(xs: seq<T>, key: T -> K, groups: seq<(K, seq<T>)>)
    requires IsRunGrouping(xs, key, groups)
    ensures Uniq(xs, key) == RunKeys(groups)
  {
    RunGroupingUnique(xs, key, GroupBy(xs, key), groups);
  }

  /** Each run's key with the length of the run. */
  function RunCounts<K, T>(groups: seq<(K, seq<T>)>): (r: seq<(K, nat)>)
    ensures |r| == |groups|
    ensures forall i :: 0 <= i < |groups| ==> r[i] == (groups[i].0, |groups[i].1|)
  {
    if groups == [] then [] else [(groups[0].0, |groups[0].1|)] + RunCounts(groups[1..])
  }

  /** The sum of the counts. */
  function TotalCount<K>(counts: seq<(K, nat)>): nat
  {
    if counts == [] then 0 else counts[0].1 + TotalCount(counts[1..])
  }

  lemma {:induction false} RunCountsTotal<K, T>(groups: seq<(K, seq<T>)>)
    ensures TotalCount(RunCounts(groups)) == |Flatten(groups)|
  {
    if groups != [] {
      RunCountsTotal(groups[1..]);
      assert RunCounts(groups)[1..] == RunCounts(groups[1..]);
    }
  }

  /** `uniq_c(xs, key)`: each run's key and length; the lengths are
    * positive and add up to the length of the input. */
  function UniqC<T, K(==)>(xs: seq<T>, key: T -> K): (r: seq<(K, nat)>)
    ensures forall i :: 0 <= i < |r| ==> r[i].1 >= 1
    ensures forall i :: 0 <= i < |r| - 1 ==> r[i].0 != r[i + 1].0
    ensures TotalCount(r) == |xs|
  {
    var groups := GroupBy(xs, key);
    RunCountsTotal(groups);
    RunCounts(groups)
  }

  /** `uniq_c` gives every run's key and length, in order. */
  lemma UniqCIsRunCounts<T, K>(xs: seq<T>, key: T -> K, groups: seq<(K, seq<T>)>)
    requires IsRunGrouping(xs, key, groups)
    ensures UniqC(xs, key) == RunCounts(groups)
  {
    RunGroupingUnique(xs, key, GroupBy(xs, key), groups);
  }

  /** `[f(x) for x in xs]`. */
  function MapSeq<T, U>(f: T -> U, xs: seq<T>): (r: seq<U>)
    ensures |r| == |xs|
    ensures forall i :: 0 <= i < |xs| ==> r[i] == f(xs[i])
  {
    if xs == [] then [] else [f(xs[0])] + MapSeq(f, xs[1..])
  }

  /** Each run's key with its items mapped through `val`. */
  function SelectRuns<K, T, U>(groups: seq<(K, seq<T>)>, val: T -> U): (r: seq<(K, seq<U>)>)
    ensures |r| == |groups|
    ensures forall i :: 0 <= i < |groups| ==> r[i] == (groups[i].0, MapSeq(val, groups[i].1))
    ensures Flatten(r) == MapSeq(val, Flatten(groups))
  {
    if groups == [] then []
    else
      var r := [(groups[0].0, MapSeq(val, groups[0].1))] + SelectRuns(groups[1..], val);
      assert r[1..] == SelectRuns(groups[1..], val);
      MapSeqConcat(val, groups[0].1, Flatten(groups[1..]));
      r
  }

  lemma MapSeqConcat<T, U>(f: T -> U, a: seq<T>, b: seq<T>)
    ensures MapSeq(f, a + b) == MapSeq(f, a) + MapSeq(f, b)
  {
  }

  /** `groupby_select(xs, key, val)`: the runs of `groupby`, each with its
    * items mapped through `val`; together they are `val` mapped over `xs`. */
  function GroupbySelect<T, K(==), U>(xs: seq<T>, key: T -> K, val: T -> U): (r: seq<(K, seq<U>)>)
    ensures Flatten(r) == MapSeq(val, xs)
    ensures forall i :: 0 <= i < |r| ==> r[i].1 != []
    ensures forall i :: 0 <= i < |r| - 1 ==> r[i].0 != r[i + 1].0
  {
    SelectRuns(GroupBy(xs, key), val)
  }

  /** `groupby_select` gives every run's key with its mapped items, in order. */
  lemma GroupbySelectIsSelectRuns<T, K, U>(xs: seq<T>, key: T -> K, val: T -> U, groups: seq<(K, seq<T>)>)
    requires IsRunGrouping(xs, key, groups)
    ensures GroupbySelect(xs, key, val) == SelectRuns(groups, val)
  {
    RunGroupingUnique(xs, key, GroupBy(xs, key), groups);
  }

  /** `strict_groupby(xs, key)`: `groupby` over the stably sorted input. */
  function StrictGroupby<T>(xs: seq<T>, key: T -> int): (r: seq<(int, seq<T>)>)
    ensures Flatten(r) == SortBy(xs, key)
    ensures forall i :: 0 <= i < |r| ==> r[i].1 != []
    ensures forall i, j :: 0 <= i < j < |r| ==> r[i].0 < r[j].0
    ensures forall i, x :: 0 <= i < |r| && x in r[i].1 ==> key(x) == r[i].0
  {
    var sorted := SortBy(xs, key);
    SortedRunsAscend(sorted, key);
    GroupBy(sorted, key)
  }

  /** `strict_groupby` gives the runs of the sorted input and nothing else:
    * one group per key, holding every item of that key in input order. */
  lemma StrictGroupbyIsSortedRuns<T>(xs: seq<T>, key: T -> int, groups: seq<(int, seq<T>)>)
    requires IsRunGrouping(SortBy(xs, key), key, groups)
    ensures StrictGroupby(xs, key) == groups
  {
    RunGroupingUnique(SortBy(xs, key), key, GroupBy(SortBy(xs, key), key), groups);
  }

  /** The runs of a sorted sequence have strictly ascending keys. */
  lemma {:induction false} SortedRunsAscend<T>(xs: seq<T>, key: T -> int)
    requires SortedBy(xs, key)
    ensures forall i, j :: 0 <= i < j < |GroupBy(xs, key)| ==>
      GroupBy(xs, key)[i].0 < GroupBy(xs, key)[j].0
  {
    if xs != [] {
      var rest := GroupBy(xs[1..], key);
      assert SortedBy(xs[1..], key);
      SortedRunsAscend(xs[1..], key);
      if rest != [] {
        assert key(xs[0]) <= key(xs[1]);
      }
      var g := GroupBy(xs, key);
      forall i, j | 0 <= i < j < |g| ensures g[i].0 < g[j].0 {
        if rest != [] && rest[0].0 == key(xs[0]) {
          assert g[i].0 == rest[i].0 && g[j].0 == rest[j].0;
        } else {
          assert g[j].0 == rest[j - 1].0;
          if i > 0 {
            assert g[i].0 == rest[i - 1].0;
          } else if j > 1 {
            assert rest[0].0 < rest[j - 1].0;
          }
        }
      }
    }
  }
}
