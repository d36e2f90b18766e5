/**
 * Stand-in for the inner `LinearProbeTable` of data_structures/hash_table.py,
 * which is not part of this model. The double-key table only relies on its
 * interface: lookup that fails with `KeyError`, insert that overwrites, delete,
 * `len`, and iteration over its occupied slots. The table is kept as its
 * entries in insertion order, which is not the inner table's slot order;
 * `tableSize` is the capacity `hash2` hashes against. Its own probing and
 * growth are not modelled.
 */
module InnerTables {

  import opened Options

  datatype InnerTable<V> = InnerTable(entries: seq<(string, V)>, tableSize: nat)
  {
    /** No inner key occurs twice. */
    ghost predicate Valid()
    {
      forall i, j :: 0 <= i < j < |entries| ==> entries[i].0 != entries[j].0
    }

    /** The position of `key` among the entries, if it is there. */
    function IndexOf(key: string): (r: Option<nat>)
      ensures r.Some? ==> r.value < |entries| && entries[r.value].0 == key
      ensures r.Some? ==> forall j :: 0 <= j < r.value ==> entries[j].0 != key
      ensures r.None? ==> forall i :: 0 <= i < |entries| ==> entries[i].0 != key
    {
      IndexFrom(key, 0)
    }

    function IndexFrom(key: string, i: nat): (r: Option<nat>)
      requires i <= |entries|
      ensures r.Some? ==> i <= r.value < |entries| && entries[r.value].0 == key
      ensures r.Some? ==> forall j :: i <= j < r.value ==> entries[j].0 != key
      ensures r.None? ==> forall j :: i <= j < |entries| ==> entries[j].0 != key
      decreases |entries| - i
    {
      if i == |entries| then None
      else if entries[i].0 == key then Some(i)
      else IndexFrom(key, i + 1)
    }

    /** `table[key]`: the value stored for `key`, `None` standing for `KeyError`. */
    function Get(key: string): (r: Option<V>)
      ensures r.None? <==> forall i :: 0 <= i < |entries| ==> entries[i].0 != key
      ensures Valid() ==> forall i :: 0 <= i < |entries| && entries[i].0 == key ==> r == Some(entries[i].1)
    {
      match IndexOf(key)
      case None => None
      case Some(i) => Some(entries[i].1)
    }

    /** `table[key] = value`: overwrites the entry for `key`, or adds one. */
    function Put(key: string, value: V): (r: InnerTable<V>)
      ensures Valid() ==> r.Valid()
      ensures r.Get(key) == Some(value)
      ensures Valid() ==> forall k :: k != key ==> r.Get(k) == Get(k)
      ensures |r.entries| == |entries| + (if Get(key).None? then 1 else 0)
      ensures r.tableSize == tableSize
    {
      match IndexOf(key)
      case None =>
        var r := InnerTable(entries + [(key, value)], tableSize);
        FirstIndex(r, key, |entries|);
        assert forall j :: 0 <= j < |entries| ==> r.entries[j] == entries[j];
        r
      case Some(i) =>
        var r := InnerTable(entries[i := (key, value)], tableSize);
        FirstIndex(r, key, i);
        assert forall j :: 0 <= j < |entries| && j != i ==> r.entries[j] == entries[j];
        assert Valid() ==> r.Valid();
        r
    }

    /** `del table[key]` for a present key; an absent key leaves the table as it is. */
    function Delete(key: string): (r: InnerTable<V>)
      ensures Valid() ==> r.Valid()
      ensures Valid() ==> r.Get(key).None?
      ensures Valid() ==> forall k :: k != key ==> r.Get(k) == Get(k)
      ensures |r.entries| == |entries| - (if Get(key).Some? then 1 else 0)
      ensures r.tableSize == tableSize
    {
      match IndexOf(key)
      case None => this
      case Some(i) =>
        DeleteAt(this, key, i);
        InnerTable(Without(entries, i), tableSize)
    }

    /** `len(table)`. */
    function Len(): (r: nat)
      ensures r == 0 <==> forall k :: Get(k).None?
    {
      if |entries| > 0 then assert Get(entries[0].0).Some?; |entries| else |entries|
    }

    /** The entries' keys, in insertion order (`item[0]` for each occupied `item`). */
    function Keys(): (r: seq<string>)
      ensures |r| == |entries|
      ensures forall k :: k in r <==> Get(k).Some?
    {
      KeysOf(entries)
    }

    /** The entries' values, in insertion order (`item[1]` for each occupied `item`). */
    function Values(): (r: seq<V>)
      ensures |r| == |entries|
      ensures forall i :: 0 <= i < |r| ==> r[i] == entries[i].1
    {
      ValuesOf(entries)
    }
  }

  /** The first entry with `key` is the one `IndexOf` finds. */
  lemma FirstIndex<V>(t: InnerTable<V>, key: string, i: nat)
    requires i < |t.entries| && t.entries[i].0 == key
    requires forall j :: 0 <= j < i ==> t.entries[j].0 != key
    ensures t.IndexOf(key) == Some(i)
  {
  }

  /** The entries with the `i`-th one taken out. */
  function Without<V>(e: seq<(string, V)>, i: nat): (r: seq<(string, V)>)
    requires i < |e|
    ensures |r| == |e| - 1
    ensures forall j :: 0 <= j < |r| ==> r[j] == if j < i then e[j] else e[j + 1]
  {
    e[..i] + e[i + 1..]
  }

  /** Taking out the entry for `key` removes that key and keeps every other one. */
  lemma DeleteAt<V>(t: InnerTable<V>, key: string, i: nat)
    requires i < |t.entries| && t.entries[i].0 == key
    ensures var r := InnerTable(Without(t.entries, i), t.tableSize);
            t.Valid() ==> r.Valid() && r.Get(key).None? && forall k :: k != key ==> r.Get(k) == t.Get(k)
  {
    var e := t.entries;
    var r := InnerTable(Without(e, i), t.tableSize);
    if t.Valid() {
      assert r.Valid();
      forall k | k != key
        ensures r.Get(k) == t.Get(k)
      {
        if t.Get(k).Some? {
          var j :| 0 <= j < |e| && e[j].0 == k;
          assert r.entries[if j < i then j else j - 1] == e[j];
        }
      }
    }
  }

  function KeysOf<V>(e: seq<(string, V)>): (r: seq<string>)
    ensures |r| == |e|
    ensures forall i :: 0 <= i < |e| ==> r[i] == e[i].0
  {
    if e == [] then [] else KeysOf(e[..|e| - 1]) + [e[|e| - 1].0]
  }

  function ValuesOf<V>(e: seq<(string, V)>): (r: seq<V>)
    ensures |r| == |e|
    ensures forall i :: 0 <= i < |e| ==> r[i] == e[i].1
  {
    if e == [] then [] else ValuesOf(e[..|e| - 1]) + [e[|e| - 1].1]
  }

  /** A freshly created inner table, `LinearProbeTable(sizes)`, with capacity `sizes[0]`. */
  function Empty<V>(size: nat): (r: InnerTable<V>)
    ensures r.Valid() && r.Len() == 0 && r.tableSize == size
    ensures forall k :: r.Get(k).None?
  {
    InnerTable([], size)
  }
}
