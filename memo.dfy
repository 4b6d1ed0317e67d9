/** `memoized_property`: a property whose getter runs once per object; the
  * result is kept in the object's attribute `'__' + name` and returned from
  * there on every later access. */
module Memo {

  /** `propname`: the attribute that caches the property `name`. */
  function SlotName(name: string): (r: string)
    ensures |r| == |name| + 2 && r[..2] == "__" && r[2..] == name
  {
    "__" + name
  }

  /** Properties with different getter names use different attributes. */
  lemma SlotNameInjective(a: string, b: string)
    requires a != b
    ensures SlotName(a) != SlotName(b)
  {
  }

  /** The outcome of one `fget(self)`: the value returned, the object's
    * attributes afterwards, and whether the getter ran. */
  datatype Access<V> = Access(value: V, attributes: map<string, V>, called: bool)

  /** `fget(self)`, where `computed` is what `getter_function(self)` returns
    * if it is called: an attribute already under `propname` is returned as
    * it is; otherwise the getter runs and its result is stored there. */
  function Fget<V>(attributes: map<string, V>, name: string, computed: V): (r: Access<V>)
    ensures r.called <==> SlotName(name) !in attributes
    ensures r.called ==> r.value == computed
    ensures !r.called ==> r.value == attributes[SlotName(name)] && r.attributes == attributes
    ensures r.attributes.Keys == attributes.Keys + {SlotName(name)}
    ensures SlotName(name) in r.attributes && r.attributes[SlotName(name)] == r.value
    ensures forall k :: k in attributes && k != SlotName(name) ==> r.attributes[k] == attributes[k]
  {
    var slot := SlotName(name);
    if slot in attributes then Access(attributes[slot], attributes, false)
    else Access(computed, attributes[slot := computed], true)
  }

  /** A second access finds the cache filled: the getter does not run, and
    * the first value comes back whatever the getter would give now. */
  lemma FgetTwice<V>(attributes: map<string, V>, name: string, first: V, second: V)
    ensures var a := Fget(attributes, name, first);
      var b := Fget(a.attributes, name, second);
      !b.called && b.value == a.value && b.attributes == a.attributes
  {
  }

  /** Accessing one property leaves the cache of another untouched. */
  lemma FgetSeparate<V>(attributes: map<string, V>, name: string, other: string, computed: V)
    requires name != other
    ensures var r := Fget(attributes, name, computed);
      (SlotName(other) in r.attributes <==> SlotName(other) in attributes)
      && (SlotName(other) in attributes ==> r.attributes[SlotName(other)] == attributes[SlotName(other)])
  {
    SlotNameInjective(name, other);
  }

  /** The values returned by a run of accesses to one property, where the
    * getter would give `computed[i]` at the `i`-th access, together with how
    * many times it ran and the attributes at the end. */
  function Accesses<V>(attributes: map<string, V>, name: string, computed: seq<V>): (r: (seq<V>, nat, map<string, V>))
    ensures |r.0| == |computed|
    ensures r.1 <= |computed|
    decreases |computed|
  {
    if computed == [] then ([], 0, attributes)
    else
      var a := Fget(attributes, name, computed[0]);
      var (values, calls, end) := Accesses(a.attributes, name, computed[1..]);
      ([a.value] + values, calls + (if a.called then 1 else 0), end)
  }

  /** With the cache filled, no access calls the getter and each returns
    * the cached value. */
  lemma {:induction false} AccessesFilled<V>(attributes: map<string, V>, name: string, computed: seq<V>)
    requires SlotName(name) in attributes
    ensures var (values, calls, end) := Accesses(attributes, name, computed);
      calls == 0 && end == attributes
      && forall i :: 0 <= i < |values| ==> values[i] == attributes[SlotName(name)]
    decreases |computed|
  {
    if computed != [] {
      AccessesFilled(attributes, name, computed[1..]);
    }
  }

  /** From an empty cache, the getter runs exactly once, at the first
    * access, and every access returns what it produced then. */
  lemma AccessesFromEmpty<V>(attributes: map<string, V>, name: string, computed: seq<V>)
    requires SlotName(name) !in attributes && computed != []
    ensures var (values, calls, end) := Accesses(attributes, name, computed);
      calls == 1 && end == attributes[SlotName(name) := computed[0]]
      && forall i :: 0 <= i < |values| ==> values[i] == computed[0]
  {
    var a := Fget(attributes, name, computed[0]);
    AccessesFilled(a.attributes, name, computed[1..]);
  }

  /** An object with a memoised property: its attributes, and for each
    * getter name how many times the getter has run. */
  class Instance<V> {
    var attributes: map<string, V>
    var calls: map<string, nat>

    constructor (attributes: map<string, V>)
      ensures this.attributes == attributes && calls == map[]
    {
      this.attributes := attributes;
      calls := map[];
    }

    /** How many times the getter `name` has run on this object. */
    function Calls(name: string): nat
      reads this
    {
      if name in calls then calls[name] else 0
    }

    /** Reading the property `name`: `fget(self)`, counting the getter's
      * runs. */
    method Get(name: string, computed: V) returns (value: V)
      modifies this
      ensures var a := Fget(old(attributes), name, computed);
        value == a.value && attributes == a.attributes
        && calls == (if a.called then old(calls)[name := old(Calls(name)) + 1] else old(calls))
    {
      var slot := SlotName(name);
      if slot in attributes {
        value := attributes[slot];
      } else {
        value := computed;
        attributes := attributes[slot := value];
        calls := calls[name := Calls(name) + 1];
      }
    }
  }

  /** Reading a property twice gives the same value and runs the getter at
    * most once, even when the getter would now give something else. */
  method ReadTwice<V>(obj: Instance<V>, name: string, first: V, second: V) returns (a: V, b: V)
    modifies obj
    ensures a == b
    ensures obj.Calls(name) <= old(obj.Calls(name)) + 1
    ensures SlotName(name) !in old(obj.attributes) ==> a == first && obj.Calls(name) == old(obj.Calls(name)) + 1
    ensures SlotName(name) in old(obj.attributes) ==> a == old(obj.attributes)[SlotName(name)] && obj.calls == old(obj.calls)
  {
    a := obj.Get(name, first);
    b := obj.Get(name, second);
  }
}
