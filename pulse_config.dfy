/** The config-file attributes of a QDYN pulse: an ordered mutable mapping
    whose `type` key is fixed, whose `is_complex` key reflects the pulse's
    amplitude, and whose unit keys are forwarded to the pulse itself. */
module PulseConfig {
  import opened Outcomes

  /** The config values the model tracks: Python ints, strings and booleans. */
  datatype Value = Int(i: int) | Str(s: string) | Bool(b: bool)

  /** The number a non-string value stands for (`bool` is a subclass of `int`). */
  function Number(v: Value): int
    requires !v.Str?
  {
    match v
    case Int(i) => i
    case Bool(b) => if b then 1 else 0
  }

  /** Python's `==` between two values: `True == 1` and `False == 0`, and
      a string equals only the same string. */
  predicate PyEq(x: Value, y: Value)
  {
    if x.Str? || y.Str? then x == y else Number(x) == Number(y)
  }

  /** The exceptions the mapping raises. */
  datatype PyError = ValueError(message: string) | KeyError(key: string)

  const SynchronizedKeys: seq<string> := ["time_unit", "ampl_unit"]
  const ReadOnlyKeys: seq<string> := ["type", "is_complex"]
  const RequiredKeys: seq<string> := ["id", "type", "filename", "time_unit", "ampl_unit", "is_complex"]

  /** The keys whose value is read from the parent pulse, never stored. */
  const ParentKeys: seq<string> := ["time_unit", "ampl_unit", "is_complex"]

  /** No element of `s` occurs twice. */
  predicate NoDup(s: seq<string>)
  {
    forall i, j :: 0 <= i < j < |s| ==> s[i] != s[j]
  }

  /** `NoDup`, element by element from the front; the key-list invariant
      uses this form, which the verifier unfolds only a few levels deep. */
  predicate Distinct(s: seq<string>)
  {
    |s| == 0 || (s[0] !in s[1..] && Distinct(s[1..]))
  }

  lemma {:induction false} DistinctIsNoDup(s: seq<string>)
    ensures Distinct(s) <==> NoDup(s)
  {
    if |s| > 0 {
      DistinctIsNoDup(s[1..]);
      if NoDup(s) {
        assert NoDup(s[1..]) by {
          forall i, j | 0 <= i < j < |s| - 1
            ensures s[1..][i] != s[1..][j]
          {
            assert s[i + 1] != s[j + 1];
          }
        }
        assert s[0] !in s[1..] by {
          forall j | 0 <= j < |s| - 1
            ensures s[1..][j] != s[0]
          {
            assert s[0] != s[j + 1];
          }
        }
      }
      if Distinct(s) {
        forall i, j | 0 <= i < j < |s|
          ensures s[i] != s[j]
        {
          if i == 0 {
            assert s[j] == s[1..][j - 1];
          } else {
            assert s[i] == s[1..][i - 1] && s[j] == s[1..][j - 1];
          }
        }
      }
    }
  }

  /** The position of the first occurrence of `x`, as `list.index` finds it. */
  function IndexOf(s: seq<string>, x: string): (i: nat)
    requires x in s
    ensures i < |s| && s[i] == x && x !in s[..i]
  {
    if s[0] == x then 0
    else
      var j := IndexOf(s[1..], x);
      assert s[1..][..j] == s[1..j + 1];
      assert s[..j + 1] == [s[0]] + s[1..j + 1];
      1 + j
  }

  /** `list.remove`: the list without the first occurrence of `x`. */
  function Remove(s: seq<string>, x: string): seq<string>
    requires x in s
  {
    var i := IndexOf(s, x);
    s[..i] + s[i + 1..]
  }

  /** Removing a key from a list without duplicates drops exactly that key
      and keeps every other key, in the same order. */
  lemma RemoveDropsOnlyKey(s: seq<string>, x: string)
    requires x in s && NoDup(s)
    ensures var r := Remove(s, x);
      && |r| == |s| - 1 && NoDup(r) && x !in r
      && (forall y :: y in r <==> y in s && y != x)
      && (forall k :: 0 <= k < |s| && s[k] == x ==> r == s[..k] + s[k + 1..])
  {
    var i := IndexOf(s, x);
    var r := Remove(s, x);
    forall y | y in s && y != x
      ensures y in r
    {
      var k :| 0 <= k < |s| && s[k] == y;
      if k < i { assert r[k] == y; } else { assert r[k - 1] == y; }
    }
    forall a, b | 0 <= a < b < |r|
      ensures r[a] != r[b]
    {
      var a', b' := if a < i then a else a + 1, if b < i then b else b + 1;
      assert r[a] == s[a'] && r[b] == s[b'];
    }
  }

  /** The required keys come first, in their order, and are never lost;
      every key is listed once; exactly the listed keys that are not read
      from the parent are stored; `type` is stored as 'file'. */
  ghost predicate Consistent(keys: seq<string>, data: map<string, Value>)
  {
    && |keys| >= |RequiredKeys| && keys[..|RequiredKeys|] == RequiredKeys
    && Distinct(keys)
    && (forall k :: k in data <==> k in keys && k !in ParentKeys)
    && "type" in data && data["type"] == Str("file")
  }

  /** The values a new mapping stores: `id` and `filename` set to values
      the Fortran side rejects until they are overridden. */
  const InitialData: map<string, Value> := map["id" := Int(-1), "type" := Str("file"), "filename" := Str("")]

  /** What a new mapping answers for the keys it stores itself. */
  lemma InitialValues(p: Pulse)
    ensures Lookup(p, InitialData, "id") == Ok(Int(-1))
    ensures Lookup(p, InitialData, "type") == Ok(Str("file"))
    ensures Lookup(p, InitialData, "filename") == Ok(Str(""))
  {
  }

  /** A new mapping starts consistent. */
  lemma InitialConsistent()
    ensures Consistent(RequiredKeys, InitialData)
  {
    DistinctIsNoDup(RequiredKeys);
  }

  /** Deleting a stored key that is not required keeps the key list and the
      stored values consistent, and shortens the list by one. */
  lemma DeleteKeepsConsistent(keys: seq<string>, data: map<string, Value>, key: string)
    requires Consistent(keys, data) && key !in RequiredKeys && key in data
    ensures key in keys && |Remove(keys, key)| == |keys| - 1
    ensures Consistent(Remove(keys, key), data - {key})
  {
    var i := IndexOf(keys, key);
    assert key !in keys[..|RequiredKeys|];
    assert i >= |RequiredKeys|;
    DistinctIsNoDup(keys);
    RemoveDropsOnlyKey(keys, key);
    DistinctIsNoDup(Remove(keys, key));
    assert Remove(keys, key)[..|RequiredKeys|] == keys[..|RequiredKeys|];
  }

  /** Storing a value under a key that is neither read-only nor read from
      the parent keeps the key list and the stored values consistent. */
  lemma StoreKeepsConsistent(keys: seq<string>, data: map<string, Value>, key: string, value: Value)
    requires Consistent(keys, data) && key !in ParentKeys && key != "type"
    ensures var keys' := if key in data then keys else keys + [key];
      Consistent(keys', data[key := value])
  {
    var keys' := if key in data then keys else keys + [key];
    assert keys'[..|RequiredKeys|] == keys[..|RequiredKeys|];
    if key !in data {
      DistinctIsNoDup(keys);
      DistinctIsNoDup(keys');
      assert key !in keys;
      forall i, j | 0 <= i < j < |keys'|
        ensures keys'[i] != keys'[j]
      {
        if j == |keys| { assert keys'[i] == keys[i]; }
      }
    }
  }

  /** The value of `key` in a mapping that stores `data` on the pulse `p`:
      the pulse's attribute for `is_complex` and the unit keys, the stored
      value otherwise. */
  function Lookup(p: Pulse, data: map<string, Value>, key: string): Result<Value, PyError>
    reads p
  {
    if key == "is_complex" then Ok(Bool(p.isComplex))
    else if key == "time_unit" then Ok(p.timeUnit)
    else if key == "ampl_unit" then Ok(p.amplUnit)
    else if key in data then Ok(data[key])
    else Err(KeyError(key))
  }

  /** The parent pulse, reduced to the attributes the mapping is linked to. */
  class Pulse {
    var timeUnit: Value
    var amplUnit: Value
    /** Whether the amplitude array is complex (a property of the pulse). */
    var isComplex: bool

    constructor(timeUnit: Value, amplUnit: Value, isComplex: bool)
      ensures this.timeUnit == timeUnit && this.amplUnit == amplUnit
      ensures this.isComplex == isComplex
    {
      this.timeUnit := timeUnit;
      this.amplUnit := amplUnit;
      this.isComplex := isComplex;
    }
  }

  /** `_PulseConfigAttribs`: the key order in `keys`, the stored values in
      `data`, and the values of `ParentKeys` read from `parent`. */
  class ConfigAttribs {
    const parent: Pulse
    var keys: seq<string>
    var data: map<string, Value>

    /** The key list and the stored values agree (see `Consistent`). */
    ghost predicate Valid()
      reads this
    {
      Consistent(keys, data)
    }

    /** A fresh mapping: the six required keys, with `id` and `filename`
        set to values the Fortran side rejects until they are overridden. */
    constructor(parent: Pulse)
      ensures Valid() && this.parent == parent
      ensures keys == RequiredKeys
      ensures data == InitialData
      ensures Len() == 6
    {
      this.parent := parent;
      keys := RequiredKeys;
      data := InitialData;
      InitialConsistent();
    }

    /** `self[key]`: the parent's attribute for `is_complex` and the unit
        keys, the stored value otherwise. */
    function Get(key: string): (r: Result<Value, PyError>)
      reads this, parent
      ensures Valid() ==> (r.Ok? <==> key in keys)
      ensures r.Err? ==> r.error == KeyError(key)
      ensures key in ParentKeys ==> r.Ok?
    {
      assert Valid() ==> keys[3] == RequiredKeys[3] && keys[4] == RequiredKeys[4] && keys[5] == RequiredKeys[5];
      Lookup(parent, data, key)
    }

    /** `iter(self)`: the keys in insertion order, the required ones first. */
    function Iter(): (ks: seq<string>)
      reads this
      ensures Valid() ==> |ks| >= 6 && ks[..6] == RequiredKeys && NoDup(ks)
    {
      DistinctIsNoDup(keys);
      keys
    }

    /** `len(self)`: never below the six required keys. */
    function Len(): (n: nat)
      reads this
      ensures Valid() ==> n >= |RequiredKeys|
      ensures n == |Iter()|
    {
      |keys|
    }

    /** `self.items()` for the keys `ks`: each key paired with its value. */
    function ItemsOf(ks: seq<string>): (items: seq<(string, Value)>)
      reads this, parent
      requires Valid()
      requires forall k :: k in ks ==> k in keys
      ensures |items| == |ks|
      ensures forall i :: 0 <= i < |ks| ==> items[i].0 == ks[i] && Get(ks[i]) == Ok(items[i].1)
    {
      if ks == [] then []
      else [(ks[0], Get(ks[0]).value)] + ItemsOf(ks[1..])
    }

    /** `self[key] = value`. */
    method Set(key: string, value: Value) returns (r: Outcome<PyError>)
      requires Valid()
      modifies this, parent
      ensures Valid()
      ensures key in ReadOnlyKeys ==>
        && r == (if PyEq(value, old(Get(key)).value) then Pass
                 else Fail(ValueError("'" + key + "' setting is read-only")))
        && unchanged(this, parent)
      ensures key in SynchronizedKeys ==>
        && r == Pass && unchanged(this)
        && parent.isComplex == old(parent.isComplex)
        && parent.timeUnit ==
             (if key == "time_unit" && !PyEq(value, old(parent.timeUnit)) then value else old(parent.timeUnit))
        && parent.amplUnit ==
             (if key == "ampl_unit" && !PyEq(value, old(parent.amplUnit)) then value else old(parent.amplUnit))
      ensures key !in ReadOnlyKeys && key !in SynchronizedKeys ==>
        && r == Pass && unchanged(parent)
        && data == old(data)[key := value]
        && keys == (if key in old(keys) then old(keys) else old(keys) + [key])
      ensures r.Pass? ==> Get(key).Ok? && PyEq(Get(key).value, value)
      ensures forall k :: k != key ==> Get(k) == old(Get(k))
    {
      if key in ReadOnlyKeys {
        var current := Get(key);
        if !PyEq(value, current.value) {
          return Fail(ValueError("'" + key + "' setting is read-only"));
        }
        r := Pass;
      } else if key in SynchronizedKeys {
        var current := Get(key);
        if !PyEq(value, current.value) {
          if key == "time_unit" {
            parent.timeUnit := value;
          } else {
            parent.amplUnit := value;
          }
        }
        r := Pass;
      } else {
        StoreKeepsConsistent(keys, data, key, value);
        if key !in data {
          keys := keys + [key];
        }
        data := data[key := value];
        r := Pass;
      }
    }

    /** `del self[key]`. */
    method Delete(key: string) returns (r: Outcome<PyError>)
      requires Valid()
      modifies this
      ensures Valid()
      ensures key in RequiredKeys ==>
        r == Fail(ValueError("Cannot delete key " + key)) && unchanged(this)
      ensures key !in RequiredKeys && key !in old(data) ==>
        r == Fail(KeyError(key)) && unchanged(this)
      ensures key !in RequiredKeys && key in old(data) ==>
        && r == Pass
        && data == old(data) - {key}
        && key in old(keys) && keys == Remove(old(keys), key)
      ensures r.Pass? ==> |keys| == |old(keys)| - 1 && Get(key) == Err(KeyError(key))
      ensures forall k :: k != key ==> Get(k) == old(Get(k))
    {
      if key in RequiredKeys {
        return Fail(ValueError("Cannot delete key " + key));
      }
      if key !in data {
        return Fail(KeyError(key));
      }
      DeleteKeepsConsistent(keys, data, key);
      data := data - {key};
      keys := Remove(keys, key);
      forall k | k != key
        ensures Get(k) == old(Get(k))
      {
      }
      r := Pass;
    }

    /** `self.copy()`: a new mapping on the same parent, with its own copies
        of the key list and the stored values. */
    method Copy() returns (c: ConfigAttribs)
      ensures fresh(c) && c.parent == parent
      ensures c.keys == keys && c.data == data
      ensures Valid() ==> c.Valid()
      ensures forall k :: c.Get(k) == Get(k)
    {
      c := new ConfigAttribs(parent);
      c.data := data;
      c.keys := keys;
    }
  }

  /** Changing a copy never changes the original's key list or stored
      values; only a unit key reaches the original, through the parent the
      two share. */
  method EditCopy(c: ConfigAttribs, key: string, value: Value, gone: string)
    returns (d: ConfigAttribs)
    requires c.Valid()
    modifies c.parent
    ensures fresh(d) && d.parent == c.parent && d.Valid()
    ensures c.keys == old(c.keys) && c.data == old(c.data)
    ensures key !in SynchronizedKeys ==> forall k :: c.Get(k) == old(c.Get(k))
    ensures key in SynchronizedKeys ==> PyEq(c.Get(key).value, value)
  {
    d := c.Copy();
    var setOutcome := d.Set(key, value);
    var delOutcome := d.Delete(gone);
  }
}
