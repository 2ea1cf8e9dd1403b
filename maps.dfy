/** Go maps: a reference to a hash table, or nil. A nil map reads as empty;
    writing into it panics. A lookup yields the stored value and `true`, or
    the zero value of the element type and `false`. */
module Maps {

  class GoMap<K(==), V> {
    var entries: map<K, V>
    /** True for a map that was declared but never made. */
    var isNil: bool
    /** The zero value of the element type. */
    const zero: V

    /** A nil map holds no entries. */
    ghost predicate Valid()
      reads this
    {
      isNil ==> entries == map[]
    }

    /** `var m map[K]V`: the nil map. */
    constructor Nil(zero: V)
      ensures Valid() && isNil && entries == map[] && this.zero == zero
    {
      this.zero := zero;
      isNil := true;
      entries := map[];
    }

    /** `make(map[K]V)`: a fresh, empty table. */
    constructor Make(zero: V)
      ensures Valid() && !isNil && entries == map[] && this.zero == zero
    {
      this.zero := zero;
      isNil := false;
      entries := map[];
    }

    /** `v, ok := m[k]`: the presence flag tells a missing key from one
        whose stored value happens to be the zero value. */
    function Lookup(k: K): (r: (V, bool))
      reads this
      ensures r.1 ==> k in entries && r.0 == entries[k]
      ensures !r.1 ==> k !in entries && r.0 == zero
    {
      if k in entries then (entries[k], true) else (zero, false)
    }

    /** `m[k] = v`: inserts or overwrites. `ok` is false when `m` is nil,
        where Go panics ("assignment to entry in nil map"); nothing changes
        then. */
    method Put(k: K, v: V) returns (ok: bool)
      requires Valid()
      modifies this
      ensures Valid()
      ensures ok == !old(isNil) && isNil == old(isNil)
      ensures entries == if ok then old(entries)[k := v] else old(entries)
      ensures ok ==> Lookup(k) == (v, true)
      ensures forall j :: j != k ==> Lookup(j) == if j in old(entries) then (old(entries)[j], true) else (zero, false)
    {
      ok := !isNil;
      if ok {
        entries := entries[k := v];
      }
    }

    /** `delete(m, k)`: removes the key if present; a no-op on a nil map or
        a missing key. */
    method Delete(k: K)
      requires Valid()
      modifies this
      ensures Valid()
      ensures isNil == old(isNil)
      ensures entries == old(entries) - {k}
      ensures Lookup(k) == (zero, false)
      ensures forall j :: j != k ==> Lookup(j) == if j in old(entries) then (old(entries)[j], true) else (zero, false)
    {
      entries := entries - {k};
    }
  }

  /** The `m3` part of `map_demo`: insert 42, overwrite with 48, delete;
      the reads after each step give 42, 48, then the zero value, and the
      two-value lookup reports the key absent. */
  method MapDemo() returns (first: int, second: int, third: int, v: int, ok: bool)
    ensures first == 42 && second == 48 && third == 0
    ensures v == 0 && !ok
  {
    var m3 := new GoMap<string, int>.Make(0);
    var stored := m3.Put("Answer", 42);
    first := m3.Lookup("Answer").0;
    stored := m3.Put("Answer", 48);
    second := m3.Lookup("Answer").0;
    m3.Delete("Answer");
    third := m3.Lookup("Answer").0;
    v, ok := m3.Lookup("Answer").0, m3.Lookup("Answer").1;
  }

  /** A nil map reads as empty, refuses writes, and tolerates deletes. */
  method NilMapDemo() returns (v: int, present: bool, stored: bool)
    ensures v == 0 && !present && !stored
  {
    var m := new GoMap<string, int>.Nil(0);
    stored := m.Put("Answer", 42);
    m.Delete("Answer");
    v, present := m.Lookup("Answer").0, m.Lookup("Answer").1;
  }
}
