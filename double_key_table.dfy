/**
 * The double-key hash table of double_key_table.py: an outer open-addressing
 * array, probed linearly from `hash1(key1)`, whose occupied slots hold a
 * first-level key and an inner table of (second-level key, value) pairs.
 * The table maps each pair `(key1, key2)` to a value; `Get` is that map.
 */
module DoubleKeyTables {

  import opened Options
  import opened InnerTables

  /** The default capacity schedule of the outer and the inner tables. */
  const TABLE_SIZES: seq<nat> := [5, 13, 29, 53, 97, 193, 389, 769, 1543, 3079, 6151, 12289,
                                  24593, 49157, 98317, 196613, 393241, 786433, 1572869]
  const HASH_BASE: nat := 31
  /** The initial multiplier `a` of both rolling hashes. */
  const HASH_SEED: nat := 31415

  /** An occupied outer slot, `[key1, internal_array]`. */
  datatype Slot<V> = Slot(key: string, inner: InnerTable<V>)

  /** The outer array's contents; `None` is an empty slot. */
  type Table<V> = seq<Option<Slot<V>>>

  /** How a probe ends: at `key1`'s slot, at the empty slot where it would go, or with `KeyError` / `FullError`. */
  datatype Probed = Located(pos: nat) | Vacant(pos: nat) | Missing | Full

  /** How an update ends: normally, or with the exception it raises. */
  datatype Status = Ok | KeyError | FullError | IndexError

  // ---------------------------------------------------------------------------
  // The rolling hash
  // ---------------------------------------------------------------------------

  /** The pair `(value, a)` after the hash loop has consumed `key` against capacity `size`. */
  function HashState(key: string, size: nat): (r: (nat, nat))
    requires size >= 2
    ensures r.0 < size
    decreases |key|
  {
    if key == [] then (0, HASH_SEED)
    else
      var (value, a) := HashState(key[..|key| - 1], size);
      (((key[|key| - 1] as int) + a * value) % size, a * HASH_BASE % (size - 1))
  }

  /** The slot `hash1`/`hash2` assign to `key` in a table of capacity `size`. */
  function RollingHash(key: string, size: nat): (h: nat)
    requires size >= 2
    ensures h < size
  {
    HashState(key, size).0
  }

  /** `(ord(c) + a * 0) % size` for the first character: a one-letter key hashes to its code modulo the capacity. */
  lemma SingleCharacterHash(c: char, size: nat)
    requires size >= 2
    ensures RollingHash([c], size) == (c as int) % size
  {
    assert [c][..0] == [];
    assert HashState([], size) == (0, HASH_SEED);
  }

  // ---------------------------------------------------------------------------
  // Probe geometry: positions reached from a home slot by wrapping around
  // ---------------------------------------------------------------------------

  /** The slot `d` steps of `(pos + 1) % n` after `h`. */
  function Step(h: nat, d: nat, n: nat): nat
    requires h < n && d < n
  {
    if h + d < n then h + d else h + d - n
  }

  /** How many steps a linear probe from `h` takes to reach `i`. */
  function Dist(h: nat, i: nat, n: nat): nat
    requires h < n && i < n
  {
    if h <= i then i - h else i + n - h
  }

  /** `(x + 1) % n` is the next slot, wrapping to 0 after the last. */
  lemma NextSlot(x: nat, n: nat)
    requires x < n
    ensures (x + 1) % n == if x + 1 < n then x + 1 else 0
  {
    if x + 1 == n {
      assert (x + 1) % n == n % n == 0;
    }
  }

  lemma DistStep(h: nat, d: nat, n: nat)
    requires h < n && d < n
    ensures Step(h, d, n) < n && Dist(h, Step(h, d, n), n) == d
  {
  }

  lemma StepDist(h: nat, i: nat, n: nat)
    requires h < n && i < n
    ensures Dist(h, i, n) < n && Step(h, Dist(h, i, n), n) == i
  {
  }

  ghost predicate KeyAt<V>(s: Table<V>, k: string, i: int)
  {
    0 <= i < |s| && s[i].Some? && s[i].value.key == k
  }

  ghost predicate KeyAbsent<V>(s: Table<V>, k: string)
  {
    forall i :: !KeyAt(s, k, i)
  }

  ghost predicate NoVacancy<V>(s: Table<V>)
  {
    forall i :: 0 <= i < |s| ==> s[i].Some?
  }

  /** Every slot a probe from `h` passes before reaching `i` is occupied. */
  ghost predicate ProbeClear<V>(s: Table<V>, h: nat, i: nat)
    requires h < |s| && i < |s|
  {
    forall d :: 0 <= d < Dist(h, i, |s|) ==> s[Step(h, d, |s|)].Some?
  }

  /** Every stored first-level key is found by probing from its hash. */
  ghost predicate Reachable<V>(s: Table<V>)
    requires |s| >= 2
  {
    forall i :: 0 <= i < |s| && s[i].Some? ==> ProbeClear(s, RollingHash(s[i].value.key, |s|), i)
  }

  ghost predicate DistinctKeys<V>(s: Table<V>)
  {
    forall i, j :: 0 <= i < |s| && 0 <= j < |s| && s[i].Some? && s[j].Some? && s[i].value.key == s[j].value.key ==> i == j
  }

  ghost predicate InnersValid<V>(s: Table<V>)
  {
    forall i :: 0 <= i < |s| && s[i].Some? ==> s[i].value.inner.Valid()
  }

  ghost predicate WellFormed<V>(s: Table<V>)
  {
    |s| >= 2 && DistinctKeys(s) && InnersValid(s) && Reachable(s)
  }

  // ---------------------------------------------------------------------------
  // The abstraction: the pair map a table stands for
  // ---------------------------------------------------------------------------

  ghost function SlotIndex<V>(s: Table<V>, k: string): (r: Option<nat>)
    ensures r.Some? ==> KeyAt(s, k, r.value)
    ensures r.None? ==> KeyAbsent(s, k)
  {
    if exists i :: KeyAt(s, k, i) then var i :| KeyAt(s, k, i); Some(i) else None
  }

  /** The inner table stored under `k`, if any. */
  ghost function Find<V>(s: Table<V>, k: string): Option<InnerTable<V>>
  {
    match SlotIndex(s, k)
    case None => None
    case Some(i) => Some(s[i].value.inner)
  }

  /** The value of the pair `(k1, k2)`; `None` stands for `KeyError`. */
  ghost function GetIn<V>(s: Table<V>, k1: string, k2: string): Option<V>
  {
    match Find(s, k1)
    case None => None
    case Some(t) => t.Get(k2)
  }

  lemma FindAt<V>(s: Table<V>, k: string, i: nat)
    requires DistinctKeys(s) && KeyAt(s, k, i)
    ensures SlotIndex(s, k) == Some(i) && Find(s, k) == Some(s[i].value.inner)
  {
  }

  /** The number of occupied outer slots. */
  function Occupied<V>(s: Table<V>): nat
  {
    if s == [] then 0 else Occupied(s[..|s| - 1]) + (if s[|s| - 1].Some? then 1 else 0)
  }

  function SlotSize<V>(x: Option<Slot<V>>): nat
  {
    if x.Some? then |x.value.inner.entries| else 0
  }

  /** The number of stored pairs, summed over the inner tables. */
  function TotalEntries<V>(s: Table<V>): nat
  {
    if s == [] then 0 else TotalEntries(s[..|s| - 1]) + SlotSize(s[|s| - 1])
  }

  // ---------------------------------------------------------------------------
  // Probing
  // ---------------------------------------------------------------------------

  /** The first `step` slots of a probe from `h` are occupied by keys other than `k`. */
  ghost predicate PassedOver<V>(s: Table<V>, k: string, h: nat, step: nat)
    requires h < |s| && step <= |s|
  {
    forall d :: 0 <= d < step ==> s[Step(h, d, |s|)].Some? && s[Step(h, d, |s|)].value.key != k
  }

  /** A probe for `k` that passed over `step` slots and then met an empty one (or passed over every slot) proves `k` absent. */
  lemma AbsentAfterProbe<V>(s: Table<V>, k: string, step: nat)
    requires |s| >= 2 && Reachable(s) && step <= |s|
    requires PassedOver(s, k, RollingHash(k, |s|), step)
    requires step < |s| ==> s[Step(RollingHash(k, |s|), step, |s|)].None?
    ensures KeyAbsent(s, k)
  {
    var n := |s|;
    var h := RollingHash(k, n);
    forall i | 0 <= i < n
      ensures !KeyAt(s, k, i)
    {
      StepDist(h, i, n);
      if KeyAt(s, k, i) {
        assert false;
      }
    }
  }

  /** A probe that passed over every slot shows that the table has no vacancy and no slot for `k`. */
  lemma FullAfterProbe<V>(s: Table<V>, k: string)
    requires |s| >= 2
    requires PassedOver(s, k, RollingHash(k, |s|), |s|)
    ensures NoVacancy(s) && KeyAbsent(s, k)
  {
    var n := |s|;
    var h := RollingHash(k, n);
    forall i | 0 <= i < n
      ensures s[i].Some? && s[i].value.key != k
    {
      StepDist(h, i, n);
      assert s[Step(h, Dist(h, i, n), n)].Some?;
    }
  }

  // ---------------------------------------------------------------------------
  // Single-slot updates
  // ---------------------------------------------------------------------------

  lemma {:induction false} UpdateCounts<V>(s: Table<V>, i: nat, x: Option<Slot<V>>)
    requires i < |s|
    ensures Occupied(s[i := x]) == Occupied(s) - (if s[i].Some? then 1 else 0) + (if x.Some? then 1 else 0)
    ensures TotalEntries(s[i := x]) == TotalEntries(s) - SlotSize(s[i]) + SlotSize(x)
    decreases |s|
  {
    var m := |s| - 1;
    if i == m {
      assert s[i := x][..m] == s[..m];
    } else {
      assert s[i := x][..m] == s[..m][i := x];
      UpdateCounts(s[..m], i, x);
    }
  }

  /** Occupied slots of `s` stay occupied in `t`. */
  ghost predicate StaysOccupied<V>(s: Table<V>, t: Table<V>)
  {
    |s| == |t| && forall x :: 0 <= x < |s| && s[x].Some? ==> t[x].Some?
  }

  lemma ProbeClearMono<V>(s: Table<V>, t: Table<V>, h: nat, i: nat)
    requires StaysOccupied(s, t) && h < |s| && i < |s|
    requires ProbeClear(s, h, i)
    ensures ProbeClear(t, h, i)
  {
  }

  /** Two tables that store the same inner table under `k` (or neither stores `k`) agree on `Find(_, k)`. */
  lemma FindSame<V>(s: Table<V>, t: Table<V>, k: string)
    requires DistinctKeys(s) && DistinctKeys(t) && |s| == |t|
    requires forall i :: KeyAt(s, k, i) ==> KeyAt(t, k, i) && s[i].value.inner == t[i].value.inner
    requires forall i :: KeyAt(t, k, i) ==> KeyAt(s, k, i)
    ensures Find(s, k) == Find(t, k)
  {
    match SlotIndex(s, k)
    case None =>
    case Some(i) => FindAt(t, k, i);
  }

  /** Storing a new first-level key in the empty slot where its probe stops. */
  lemma StoreNew<V>(s: Table<V>, p: nat, slot: Slot<V>)
    requires WellFormed(s) && p < |s| && s[p].None?
    requires KeyAbsent(s, slot.key) && slot.inner.Valid()
    requires ProbeClear(s, RollingHash(slot.key, |s|), p)
    ensures WellFormed(s[p := Some(slot)])
    ensures forall k :: Find(s[p := Some(slot)], k) == if k == slot.key then Some(slot.inner) else Find(s, k)
    ensures Occupied(s[p := Some(slot)]) == Occupied(s) + 1
    ensures TotalEntries(s[p := Some(slot)]) == TotalEntries(s) + |slot.inner.entries|
  {
    var t := s[p := Some(slot)];
    assert StaysOccupied(s, t);
    forall j | 0 <= j < |s| && s[j].Some?
      ensures s[j].value.key != slot.key
    {
      assert !KeyAt(s, slot.key, j);
    }
    assert DistinctKeys(t);
    forall i | 0 <= i < |t| && t[i].Some?
      ensures ProbeClear(t, RollingHash(t[i].value.key, |t|), i)
    {
      if i != p {
        ProbeClearMono(s, t, RollingHash(s[i].value.key, |s|), i);
      }
    }
    forall k
      ensures Find(t, k) == if k == slot.key then Some(slot.inner) else Find(s, k)
    {
      if k == slot.key {
        FindAt(t, k, p);
      } else {
        FindSame(s, t, k);
      }
    }
    UpdateCounts(s, p, Some(slot));
  }

  /** A new first-level key with an empty inner table adds no pair. */
  lemma StoreNewKey<V>(s: Table<V>, p: nat, key: string, size: nat)
    requires WellFormed(s) && p < |s| && s[p].None? && KeyAbsent(s, key)
    requires ProbeClear(s, RollingHash(key, |s|), p)
    ensures var t := s[p := Some(Slot(key, Empty<V>(size)))];
            WellFormed(t) && TotalEntries(t) == TotalEntries(s) && KeyAt(t, key, p)
            && forall k1, k2 :: GetIn(t, k1, k2) == GetIn(s, k1, k2)
  {
    StoreNew(s, p, Slot(key, Empty<V>(size)));
  }

  /** Putting `(k2, v)` into the inner table of slot `p` updates the pair map at one pair. */
  lemma PutPair<V>(s: Table<V>, p: nat, k2: string, v: V)
    requires WellFormed(s) && p < |s| && s[p].Some?
    ensures var key := s[p].value.key;
            var inner := s[p].value.inner;
            var t := s[p := Some(Slot(key, inner.Put(k2, v)))];
            WellFormed(t)
            && inner.Get(k2) == GetIn(s, key, k2)
            && TotalEntries(t) == TotalEntries(s) + (if inner.Get(k2).None? then 1 else 0)
            && forall a, b :: GetIn(t, a, b) == if a == key && b == k2 then Some(v) else GetIn(s, a, b)
  {
    var key := s[p].value.key;
    FindAt(s, key, p);
    ReplaceInner(s, p, s[p].value.inner.Put(k2, v));
  }

  /** Replacing the inner table stored under an existing first-level key. */
  lemma ReplaceInner<V>(s: Table<V>, p: nat, inner: InnerTable<V>)
    requires WellFormed(s) && p < |s| && s[p].Some? && inner.Valid()
    ensures WellFormed(s[p := Some(Slot(s[p].value.key, inner))])
    ensures forall k :: Find(s[p := Some(Slot(s[p].value.key, inner))], k) ==
                        if k == s[p].value.key then Some(inner) else Find(s, k)
    ensures Occupied(s[p := Some(Slot(s[p].value.key, inner))]) == Occupied(s)
    ensures TotalEntries(s[p := Some(Slot(s[p].value.key, inner))]) ==
            TotalEntries(s) - |s[p].value.inner.entries| + |inner.entries|
  {
    var key := s[p].value.key;
    var t := s[p := Some(Slot(key, inner))];
    assert StaysOccupied(s, t);
    forall i | 0 <= i < |t| && t[i].Some?
      ensures ProbeClear(t, RollingHash(t[i].value.key, |t|), i)
    {
      ProbeClearMono(s, t, RollingHash(s[i].value.key, |s|), i);
    }
    forall k
      ensures Find(t, k) == if k == key then Some(inner) else Find(s, k)
    {
      if k == key {
        FindAt(t, k, p);
      } else {
        FindSame(s, t, k);
      }
    }
    UpdateCounts(s, p, Some(Slot(key, inner)));
  }

  /** Emptying an occupied slot removes exactly its key (reachability is dealt with separately). */
  lemma ClearSlot<V>(s: Table<V>, p: nat)
    requires DistinctKeys(s) && InnersValid(s) && p < |s| && s[p].Some?
    ensures DistinctKeys(s[p := None]) && InnersValid(s[p := None])
    ensures forall k :: Find(s[p := None], k) == if k == s[p].value.key then None else Find(s, k)
    ensures Occupied(s[p := None]) == Occupied(s) - 1
    ensures TotalEntries(s[p := None]) == TotalEntries(s) - |s[p].value.inner.entries|
    ensures KeyAbsent(s[p := None], s[p].value.key)
  {
    var t := s[p := None];
    forall k
      ensures Find(t, k) == if k == s[p].value.key then None else Find(s, k)
    {
      if k != s[p].value.key {
        FindSame(s, t, k);
      }
    }
    UpdateCounts(s, p, None);
  }

  // ---------------------------------------------------------------------------
  // Listings
  // ---------------------------------------------------------------------------

  /** `keys()`: the first-level keys of the occupied slots, in slot order. */
  function OuterKeys<V>(s: Table<V>): seq<string>
  {
    if s == [] then [] else OuterKeys(s[..|s| - 1]) + (if s[|s| - 1].Some? then [s[|s| - 1].value.key] else [])
  }

  /** `values()`: every inner table's values, slot after slot. */
  function AllValues<V>(s: Table<V>): seq<V>
  {
    if s == [] then [] else AllValues(s[..|s| - 1]) + (if s[|s| - 1].Some? then s[|s| - 1].value.inner.Values() else [])
  }

  /** `keys()` lists each stored first-level key exactly once, and nothing else. */
  lemma {:induction false} OuterKeysAreTheKeys<V>(s: Table<V>)
    requires DistinctKeys(s)
    ensures forall k :: k in OuterKeys(s) <==> Find(s, k).Some?
    ensures |OuterKeys(s)| == Occupied(s)
    decreases |s|
  {
    if s != [] {
      var m := |s| - 1;
      var s' := s[..m];
      assert DistinctKeys(s');
      OuterKeysAreTheKeys(s');
      forall k
        ensures k in OuterKeys(s) <==> Find(s, k).Some?
      {
        if s[m].Some? && s[m].value.key == k {
          FindAt(s, k, m);
        } else {
          assert forall i :: KeyAt(s, k, i) <==> KeyAt(s', k, i);
          match SlotIndex(s', k)
          case None =>
          case Some(i) => FindAt(s, k, i);
        }
      }
    }
  }

  /** `values()` holds as many values as there are pairs, and exactly the values of stored pairs. */
  lemma {:induction false} AllValuesAreTheValues<V>(s: Table<V>)
    requires DistinctKeys(s) && InnersValid(s)
    ensures |AllValues(s)| == TotalEntries(s)
    ensures forall v :: v in AllValues(s) ==> exists k1, k2 :: GetIn(s, k1, k2) == Some(v)
    ensures forall k1, k2 :: GetIn(s, k1, k2).Some? ==> GetIn(s, k1, k2).value in AllValues(s)
    decreases |s|
  {
    if s != [] {
      var m := |s| - 1;
      var s' := s[..m];
      assert DistinctKeys(s') && InnersValid(s');
      AllValuesAreTheValues(s');
      var tail := if s[m].Some? then s[m].value.inner.Values() else [];
      assert AllValues(s) == AllValues(s') + tail;
      forall k1 | s[m].None? || s[m].value.key != k1
        ensures Find(s, k1) == Find(s', k1)
      {
        assert forall i :: KeyAt(s, k1, i) <==> KeyAt(s', k1, i);
        match SlotIndex(s', k1)
        case None =>
        case Some(i) => FindAt(s, k1, i);
      }
      forall v | v in AllValues(s)
        ensures exists k1, k2 :: GetIn(s, k1, k2) == Some(v)
      {
        if v in tail {
          var j :| 0 <= j < |tail| && tail[j] == v;
          FindAt(s, s[m].value.key, m);
          assert GetIn(s, s[m].value.key, s[m].value.inner.entries[j].0) == Some(v);
        } else {
          assert v in AllValues(s');
          var k1, k2 :| GetIn(s', k1, k2) == Some(v);
          assert KeyAt(s, k1, SlotIndex(s', k1).value);
          assert GetIn(s, k1, k2) == Some(v);
        }
      }
      forall k1, k2 | GetIn(s, k1, k2).Some?
        ensures GetIn(s, k1, k2).value in AllValues(s)
      {
        if s[m].Some? && s[m].value.key == k1 {
          FindAt(s, k1, m);
          var j := s[m].value.inner.IndexOf(k2).value;
          assert tail[j] == GetIn(s, k1, k2).value;
        } else {
          assert GetIn(s', k1, k2) == GetIn(s, k1, k2);
        }
      }
    }
  }

  /** The second-level keys stored under `k1`, as `keys(k1)` lists them. */
  ghost function InnerKeys<V>(s: Table<V>, k1: string): seq<string>
  {
    match Find(s, k1)
    case None => []
    case Some(t) => t.Keys()
  }

  /** The values of the stored pairs `(k1, k2)` for `k2` in `ks`, in the order of `ks`. */
  ghost function ValuesUnder<V>(s: Table<V>, k1: string, ks: seq<string>): seq<V>
  {
    if ks == [] then []
    else ValuesUnder(s, k1, ks[..|ks| - 1]) + (match GetIn(s, k1, ks[|ks| - 1]) case Some(v) => [v] case None => [])
  }

  /** For each first-level key of `ks` in turn, the values of its pairs in `keys(k1)` order. */
  ghost function PairValues<V>(s: Table<V>, ks: seq<string>): seq<V>
  {
    if ks == [] then [] else PairValues(s, ks[..|ks| - 1]) + ValuesUnder(s, ks[|ks| - 1], InnerKeys(s, ks[|ks| - 1]))
  }

  /** Tables that store the same inner tables under the keys of `ks` list the same pair values. */
  lemma {:induction false} PairValuesAgree<V>(s: Table<V>, s': Table<V>, ks: seq<string>)
    requires forall k :: k in ks ==> Find(s, k) == Find(s', k)
    ensures PairValues(s, ks) == PairValues(s', ks)
    decreases |ks|
  {
    if ks != [] {
      var k := ks[|ks| - 1];
      assert forall j :: j in ks[..|ks| - 1] ==> j in ks;
      PairValuesAgree(s, s', ks[..|ks| - 1]);
      UnderAgree(s, s', k, InnerKeys(s, k));
    }
  }

  lemma {:induction false} UnderAgree<V>(s: Table<V>, s': Table<V>, k1: string, ks: seq<string>)
    requires Find(s, k1) == Find(s', k1)
    ensures ValuesUnder(s, k1, ks) == ValuesUnder(s', k1, ks)
    decreases |ks|
  {
    if ks != [] {
      UnderAgree(s, s', k1, ks[..|ks| - 1]);
    }
  }

  /** Under a key whose inner table is `t`, the pair values in `keys(k1)` order are `t`'s values. */
  lemma {:induction false} UnderIsValues<V>(s: Table<V>, k1: string, t: InnerTable<V>, n: nat)
    requires Find(s, k1) == Some(t) && t.Valid() && n <= |t.entries|
    ensures ValuesUnder(s, k1, t.Keys()[..n]) == t.Values()[..n]
    decreases n
  {
    if n > 0 {
      assert t.Keys()[..n][..n - 1] == t.Keys()[..n - 1];
      UnderIsValues(s, k1, t, n - 1);
      assert GetIn(s, k1, t.Keys()[n - 1]) == Some(t.entries[n - 1].1);
      assert t.Values()[..n] == t.Values()[..n - 1] + [t.Values()[n - 1]];
    }
  }

  /** The keys listed before the last slot keep their inner tables when that slot is added. */
  lemma PrefixFind<V>(s: Table<V>)
    requires DistinctKeys(s) && s != []
    ensures forall k :: k in OuterKeys(s[..|s| - 1]) ==> Find(s, k) == Find(s[..|s| - 1], k)
  {
    var s' := s[..|s| - 1];
    assert DistinctKeys(s');
    OuterKeysAreTheKeys(s');
    forall k | k in OuterKeys(s')
      ensures Find(s, k) == Find(s', k)
    {
      var i := SlotIndex(s', k).value;
      assert KeyAt(s, k, i);
      FindAt(s, k, i);
    }
  }

  /** The pair values under the last slot's key are that slot's inner values. */
  lemma LastSlotValues<V>(s: Table<V>)
    requires DistinctKeys(s) && InnersValid(s) && s != [] && s[|s| - 1].Some?
    ensures ValuesUnder(s, s[|s| - 1].value.key, InnerKeys(s, s[|s| - 1].value.key)) == s[|s| - 1].value.inner.Values()
  {
    var m := |s| - 1;
    var t := s[m].value.inner;
    FindAt(s, s[m].value.key, m);
    UnderIsValues(s, s[m].value.key, t, |t.entries|);
    assert t.Keys()[..|t.entries|] == t.Keys() && t.Values()[..|t.entries|] == t.Values();
  }

  /**
   * `values()` is, key by key in `keys()` order, the value of each stored pair in
   * `keys(k1)` order: one listed value per pair, with its multiplicity.
   */
  lemma {:induction false} AllValuesArePairValues<V>(s: Table<V>)
    requires DistinctKeys(s) && InnersValid(s)
    ensures AllValues(s) == PairValues(s, OuterKeys(s))
    decreases |s|
  {
    if s != [] {
      var m := |s| - 1;
      var s' := s[..m];
      assert DistinctKeys(s') && InnersValid(s');
      AllValuesArePairValues(s');
      PrefixFind(s);
      PairValuesAgree(s, s', OuterKeys(s'));
      assert PairValues(s, OuterKeys(s')) == AllValues(s');
      if s[m].Some? {
        var k := s[m].value.key;
        var ks := OuterKeys(s') + [k];
        assert OuterKeys(s) == ks && ks[..|ks| - 1] == OuterKeys(s') && ks[|ks| - 1] == k;
        LastSlotValues(s);
        assert PairValues(s, ks) == PairValues(s, OuterKeys(s')) + ValuesUnder(s, k, InnerKeys(s, k));
      } else {
        assert OuterKeys(s) == OuterKeys(s');
      }
    }
  }

  /** `_linear_probe` raises `KeyError` (lookup mode): `k1` is not stored, or is stored without `k2`. */
  ghost predicate MissingPair<V>(s: Table<V>, k1: string, k2: Option<string>)
  {
    Find(s, k1).None? || (k2.Some? && Find(s, k1).value.Get(k2.value).None?)
  }

  // ---------------------------------------------------------------------------
  // The table
  // ---------------------------------------------------------------------------

  ghost predicate SizesOk(sizes: seq<nat>)
  {
    |sizes| >= 1 && forall i :: 0 <= i < |sizes| ==> sizes[i] >= 2
  }

  class DoubleKeyTable<V> {
    /** The capacity schedule of the outer slots (`top_size`). */
    const topSizes: seq<nat>
    /** The capacity schedule handed to every inner table (`bottom_size`). */
    const bottomSizes: seq<nat>
    var topSizeIndex: nat
    /** The outer array (`self.array`). */
    var slots: array<Option<Slot<V>>>
    var count: int

    ghost predicate Valid()
      reads this, slots
    {
      SizesOk(topSizes) && SizesOk(bottomSizes)
      && WellFormed(slots[..])
      && count == TotalEntries(slots[..])
      && (topSizeIndex < |topSizes| ==> slots.Length == topSizes[topSizeIndex])
    }

    /** The pair map the table stands for. */
    ghost function Get(key1: string, key2: string): Option<V>
      reads this, slots
    {
      GetIn(slots[..], key1, key2)
    }

    /** At most half of the outer slots are occupied, unless the schedule is used up. */
    ghost predicate LoadOk()
      reads this, slots
    {
      2 * Occupied(slots[..]) <= slots.Length || topSizeIndex >= |topSizes|
    }

    /** How many more times the outer slots can grow. */
    ghost function Budget(): nat
      reads this
    {
      if topSizeIndex < |topSizes| then |topSizes| - topSizeIndex else 0
    }

    /** `DoubleKeyTable(sizes, internal_sizes)`; omitted schedules default to `TABLE_SIZES`. */
    constructor(sizes: Option<seq<nat>>, internalSizes: Option<seq<nat>>)
      requires SizesOk(if sizes.Some? then sizes.value else TABLE_SIZES)
      requires SizesOk(if internalSizes.Some? then internalSizes.value else TABLE_SIZES)
      ensures Valid() && LoadOk()
      ensures topSizes == (if sizes.Some? then sizes.value else TABLE_SIZES)
      ensures bottomSizes == (if internalSizes.Some? then internalSizes.value else TABLE_SIZES)
      ensures topSizeIndex == 0 && slots.Length == topSizes[0] && count == 0
      ensures forall k1, k2 :: Get(k1, k2).None?
    {
      topSizes := if sizes.Some? then sizes.value else TABLE_SIZES;
      bottomSizes := if internalSizes.Some? then internalSizes.value else TABLE_SIZES;
      topSizeIndex := 0;
      var sizes0 := if sizes.Some? then sizes.value else TABLE_SIZES;
      slots := new Option<Slot<V>>[sizes0[0]](_ => None);
      count := 0;
      new;
      EmptyTable(slots[..]);
    }

    /** `table_size`: the outer capacity, the current entry of the schedule while it lasts. */
    function TableSize(): (r: nat)
      reads this, slots
      requires Valid()
      ensures r >= 2
      ensures topSizeIndex < |topSizes| ==> r == topSizes[topSizeIndex]
    {
      slots.Length
    }

    /** `len(table)`: the number of stored pairs. */
    function Len(): (r: int)
      reads this, slots
      requires Valid()
      ensures r == TotalEntries(slots[..])
      ensures r == 0 <==> forall k1, k2 :: Get(k1, k2).None?
    {
      NoPairsIffNoEntries();
      count
    }

    lemma NoPairsIffNoEntries()
      requires Valid()
      ensures TotalEntries(slots[..]) == 0 <==> forall k1, k2 :: Get(k1, k2).None?
    {
      EmptyIffNoPairs(slots[..]);
      if TotalEntries(slots[..]) != 0 {
        var k1, k2 :| GetIn(slots[..], k1, k2).Some?;
        assert Get(k1, k2).Some?;
      }
    }

    /** `hash1`: the rolling hash of `key1` over the outer capacity. */
    method Hash1(key: string) returns (value: nat)
      requires slots.Length >= 2
      ensures value == RollingHash(key, slots.Length)
    {
      var n := slots.Length;
      value := 0;
      var a: nat := HASH_SEED;
      for i := 0 to |key|
        invariant (value, a) == HashState(key[..i], n)
      {
        assert key[..i + 1][..i] == key[..i];
        value := ((key[i] as int) + a * value) % n;
        a := a * HASH_BASE % (n - 1);
      }
      assert key[..|key|] == key;
    }

    /** `hash2`: the rolling hash of `key2` over the capacity of the inner table it goes into. */
    method Hash2(key: string, subTable: InnerTable<V>) returns (value: nat)
      requires subTable.tableSize >= 2
      ensures value == RollingHash(key, subTable.tableSize)
    {
      var n := subTable.tableSize;
      value := 0;
      var a: nat := HASH_SEED;
      for i := 0 to |key|
        invariant (value, a) == HashState(key[..i], n)
      {
        assert key[..i + 1][..i] == key[..i];
        value := ((key[i] as int) + a * value) % n;
        a := a * HASH_BASE % (n - 1);
      }
      assert key[..|key|] == key;
    }

    /**
     * `_linear_probe(key1, key2, is_insert)`: walks from `hash1(key1)` for at most one
     * lap. The inner probe for `key2` is the inner table's own lookup; in insert mode it
     * always succeeds.
     */
    method Probe(key1: string, key2: Option<string>, isInsert: bool) returns (r: Probed)
      requires slots.Length >= 2
      ensures r.Located? ==> r.pos < slots.Length && KeyAt(slots[..], key1, r.pos)
      ensures r.Located? && !isInsert && key2.Some? ==> slots[r.pos].value.inner.Get(key2.value).Some?
      ensures r.Vacant? ==> isInsert && r.pos < slots.Length && slots[r.pos].None?
                            && ProbeClear(slots[..], RollingHash(key1, slots.Length), r.pos)
      ensures r.Full? ==> isInsert && NoVacancy(slots[..]) && KeyAbsent(slots[..], key1)
      ensures r.Missing? ==> !isInsert
      ensures Reachable(slots[..]) && r.Vacant? ==> KeyAbsent(slots[..], key1)
      ensures WellFormed(slots[..]) ==> (r.Missing? <==> !isInsert && MissingPair(slots[..], key1, key2))
      ensures WellFormed(slots[..]) && r.Located? ==> Find(slots[..], key1) == Some(slots[r.pos].value.inner)
    {
      var n := slots.Length;
      var pos1 := Hash1(key1);
      ghost var h := pos1;
      for step := 0 to n
        invariant pos1 < n && (step < n ==> pos1 == Step(h, step, n))
        invariant PassedOver(slots[..], key1, h, step)
      {
        DistStep(h, step, n);
        if slots[pos1].None? {
          if Reachable(slots[..]) {
            AbsentAfterProbe(slots[..], key1, step);
          }
          if isInsert {
            return Vacant(pos1);
          }
          return Missing;
        } else if slots[pos1].value.key == key1 {
          if DistinctKeys(slots[..]) {
            FindAt(slots[..], key1, pos1);
          }
          if !isInsert && key2.Some? && slots[pos1].value.inner.Get(key2.value).None? {
            return Missing;
          }
          return Located(pos1);
        }
        NextSlot(pos1, n);
        pos1 := (pos1 + 1) % n;
      }
      FullAfterProbe(slots[..], key1);
      if isInsert {
        return Full;
      }
      return Missing;
    }

    /**
     * The storing half of `__setitem__`: probe in insert mode, give a new first-level key
     * a fresh inner table (`LinearProbeTable(bottom_size)`), count the pair if it is new,
     * and put it into the inner table. `false` stands for the probe's `FullError`.
     */
    method StorePair(key1: string, key2: string, data: V) returns (stored: bool)
      requires Valid()
      modifies this`count, slots
      ensures Valid()
      ensures stored ==>
                (forall k1, k2 :: Get(k1, k2) == if k1 == key1 && k2 == key2 then Some(data) else old(Get(k1, k2)))
                && count == old(count) + (if old(Get(key1, key2)).None? then 1 else 0)
      ensures !stored ==>
                slots[..] == old(slots[..]) && count == old(count)
                && NoVacancy(slots[..]) && KeyAbsent(slots[..], key1)
    {
      var p := Probe(key1, Some(key2), true);
      if p.Full? {
        return false;
      }
      var pos1 := p.pos;
      if p.Vacant? {
        StoreNewKey(slots[..], pos1, key1, bottomSizes[0]);
        slots[pos1] := Some(Slot(key1, Empty(bottomSizes[0])));
      }
      var inner := slots[pos1].value.inner;
      PutPair(slots[..], pos1, key2, data);
      if inner.Get(key2).None? {
        count := count + 1;
      }
      slots[pos1] := Some(Slot(key1, inner.Put(key2, data)));
      stored := true;
    }

    /**
     * `table[key1, key2] = data`. The pair is stored first; then, if more than half of
     * the outer slots are occupied, the table is rehashed, and an exception raised there
     * (`FullError`, or `IndexError` once the schedule is overrun) propagates.
     */
    method SetItem(key1: string, key2: string, data: V) returns (st: Status)
      requires Valid()
      modifies this, slots
      ensures Valid()
      ensures slots == old(slots) || fresh(slots)
      ensures topSizeIndex >= old(topSizeIndex)
      ensures st.Ok? || st.FullError? || st.IndexError?
      ensures st.Ok? || (st.IndexError? && slots == old(slots)) ==>
                (forall k1, k2 :: Get(k1, k2) == if k1 == key1 && k2 == key2 then Some(data) else old(Get(k1, k2)))
                && count == old(count) + (if old(Get(key1, key2)).None? then 1 else 0)
      ensures st.Ok? ==> LoadOk()
      ensures st.FullError? && slots == old(slots) ==>
                slots[..] == old(slots[..]) && count == old(count)
                && NoVacancy(slots[..]) && KeyAbsent(slots[..], key1)
      decreases Budget(), 1
    {
      var stored := StorePair(key1, key2, data);
      if !stored {
        return FullError;
      }
      var key1Counter := 0;
      for i := 0 to slots.Length
        invariant key1Counter == Occupied(slots[..i])
      {
        assert slots[..i + 1][..i] == slots[..i];
        if slots[i].Some? {
          key1Counter := key1Counter + 1;
        }
      }
      assert slots[..slots.Length] == slots[..];
      if key1Counter as real > slots.Length as real / 2.0 {
        st := Rehash();
      } else {
        st := Ok;
      }
    }

    /**
     * `_rehash`: moves to the next capacity of the schedule and reinserts every pair,
     * slot by slot and inner entry by inner entry. Once the schedule is used up the
     * table is left as it is; the call after that overruns the schedule (`IndexError`).
     */
    method Rehash() returns (st: Status)
      requires Valid()
      modifies this, slots
      ensures Valid()
      ensures slots == old(slots) || fresh(slots)
      ensures topSizeIndex > old(topSizeIndex)
      ensures st.Ok? || st.FullError? || st.IndexError?
      ensures st.Ok? ==> (forall k1, k2 :: Get(k1, k2) == old(Get(k1, k2))) && count == old(count) && LoadOk()
      ensures old(topSizeIndex) + 1 >= |topSizes| ==>
                slots == old(slots) && slots[..] == old(slots[..]) && count == old(count)
      ensures old(topSizeIndex) + 1 == |topSizes| ==> st.Ok?
      ensures old(topSizeIndex) + 1 > |topSizes| ==> st.IndexError?
      ensures old(topSizeIndex) + 1 < |topSizes| ==> fresh(slots)
      decreases Budget(), 0
    {
      topSizeIndex := topSizeIndex + 1;
      if topSizeIndex == |topSizes| {
        return Ok;
      }
      if topSizeIndex > |topSizes| {
        // `self.top_size[self.top_size_index]` is past the end of the schedule.
        return IndexError;
      }
      st := Rebuild();
    }

    /**
     * The reinsertion part of `_rehash`, once `topSizeIndex` names the new capacity: a fresh
     * outer array of that capacity, into which every pair of the current one is set again.
     */
    method Rebuild() returns (st: Status)
      requires SizesOk(topSizes) && SizesOk(bottomSizes) && topSizeIndex < |topSizes|
      requires DistinctKeys(slots[..]) && InnersValid(slots[..]) && count == TotalEntries(slots[..])
      modifies this
      ensures Valid() && fresh(slots) && topSizeIndex >= old(topSizeIndex)
      ensures st.Ok? || st.FullError? || st.IndexError?
      ensures st.Ok? ==> (forall k1, k2 :: Get(k1, k2) == old(Get(k1, k2))) && count == old(count) && LoadOk()
      decreases Budget(), 3
    {
      var oldArray := slots;
      ghost var olds := slots[..];
      slots := new Option<Slot<V>>[topSizes[topSizeIndex]](_ => None);
      count := 0;
      EmptyTable(slots[..]);
      MovedNone(olds);
      for i := 0 to oldArray.Length
        invariant fresh(slots) && topSizeIndex >= old(topSizeIndex)
        invariant oldArray[..] == olds
        invariant Rebuilt(olds, i, 0)
      {
        assert olds[..i + 1][..i] == olds[..i];
        if oldArray[i].Some? {
          st := ReinsertEntries(oldArray[i].value.key, oldArray[i].value.inner.entries, olds, i);
          if !st.Ok? {
            return;
          }
        } else {
          MovedNextSlot(olds, i);
        }
      }
      MovedAll(olds);
      assert olds[..oldArray.Length] == olds;
      st := Ok;
    }

    /** A rebuild of `olds` has reinserted the slots before `i` and the first `j` entries of slot `i`. */
    ghost predicate Rebuilt(olds: Table<V>, i: nat, j: nat)
      reads this, slots
    {
      Valid() && LoadOk()
      && (forall k1, k2 :: Get(k1, k2) == Moved(olds, i, j, k1, k2))
      && i <= |olds| && count == TotalEntries(olds[..i]) + j
    }

    /** The inner loop of `_rehash`: reinserts the entries of old slot `i`, whose first-level key is `key1`. */
    method ReinsertEntries(key1: string, entries: seq<(string, V)>, ghost olds: Table<V>, ghost i: nat) returns (st: Status)
      requires DistinctKeys(olds) && InnersValid(olds)
      requires i < |olds| && olds[i].Some? && olds[i].value.key == key1 && olds[i].value.inner.entries == entries
      requires Rebuilt(olds, i, 0)
      modifies this, slots
      ensures Valid() && (slots == old(slots) || fresh(slots)) && topSizeIndex >= old(topSizeIndex)
      ensures st.Ok? || st.FullError? || st.IndexError?
      ensures st.Ok? ==> Rebuilt(olds, i + 1, 0)
      decreases Budget(), 2
    {
      st := Ok;
      for j := 0 to |entries|
        invariant (slots == old(slots) || fresh(slots)) && topSizeIndex >= old(topSizeIndex)
        invariant st.Ok? && Rebuilt(olds, i, j)
      {
        MovedStep(olds, i, j);
        st := SetItem(key1, entries[j].0, entries[j].1);
        if !st.Ok? {
          return;
        }
      }
      MovedNextSlot(olds, i);
      assert olds[..i + 1][..i] == olds[..i];
    }

    /** `table[key1, key2]`; `None` stands for `KeyError`. */
    method GetItem(key1: string, key2: string) returns (r: Option<V>)
      requires Valid()
      ensures r == Get(key1, key2)
    {
      var p := Probe(key1, Some(key2), false);
      if !p.Located? {
        return None;
      }
      r := slots[p.pos].value.inner.Get(key2);
    }

    /** `(key1, key2) in table`: whether `table[key1, key2]` succeeds. */
    method Contains(key1: string, key2: string) returns (b: bool)
      requires Valid()
      ensures b <==> Get(key1, key2).Some?
    {
      var r := GetItem(key1, key2);
      b := r.Some?;
    }

    /**
     * `del table[key1, key2]`. When the inner table holds other pairs only the pair goes;
     * otherwise the outer slot is emptied and the rest of its cluster is re-inserted.
     */
    method DelItem(key1: string, key2: string) returns (st: Status)
      requires Valid()
      modifies this`count, slots
      ensures Valid()
      ensures st.Ok? || st.KeyError?
      ensures st.KeyError? <==> old(Get(key1, key2)).None?
      ensures st.KeyError? ==> slots[..] == old(slots[..]) && count == old(count)
      ensures st.Ok? ==> count == old(count) - 1
      ensures st.Ok? ==> forall k1, k2 :: Get(k1, k2) == if k1 == key1 && k2 == key2 then None else old(Get(k1, k2))
    {
      var p := Probe(key1, Some(key2), false);
      if !p.Located? {
        return KeyError;
      }
      if slots[p.pos].value.inner.Len() > 1 {
        DeleteInner(p.pos, key2);
      } else {
        DeleteSlot(p.pos, key2);
      }
      st := Ok;
    }

    /** `del internal_array[key2]` when the inner table at `pos1` keeps other pairs. */
    method DeleteInner(pos1: nat, key2: string)
      requires Valid() && pos1 < slots.Length && slots[pos1].Some? && slots[pos1].value.inner.Get(key2).Some?
      modifies this`count, slots
      ensures Valid() && count == old(count) - 1
      ensures forall k1, k2 :: Get(k1, k2) == if k1 == old(slots[pos1].value.key) && k2 == key2 then None else old(Get(k1, k2))
    {
      var key1 := slots[pos1].value.key;
      var inner := slots[pos1].value.inner;
      ghost var s := slots[..];
      DeletePair(s, pos1, key2);
      slots[pos1] := Some(Slot(key1, inner.Delete(key2)));
      assert slots[..] == s[pos1 := Some(Slot(key1, inner.Delete(key2)))];
      count := count - 1;
    }

    /** The other branch: the pair at `pos1` is its inner table's last, so the outer slot is emptied. */
    method DeleteSlot(pos1: nat, key2: string)
      requires Valid() && pos1 < slots.Length && slots[pos1].Some? && slots[pos1].value.inner.Get(key2).Some?
      requires slots[pos1].value.inner.Len() <= 1
      modifies this`count, slots
      ensures Valid() && count == old(count) - 1
      ensures forall k1, k2 :: Get(k1, k2) == if k1 == old(slots[pos1].value.key) && k2 == key2 then None else old(Get(k1, k2))
    {
      ghost var s := slots[..];
      ClearLastPair(s, pos1, key2);
      slots[pos1] := None;
      assert slots[..] == s[pos1 := None];
      count := count - 1;
      NextSlot(pos1, slots.Length);
      ReinsertCluster((pos1 + 1) % slots.Length, pos1);
    }

    /**
     * The cluster loop of `__delitem__`: from `start` on, each occupied slot is emptied
     * and its entry put back where a fresh probe for its key stops, until an empty slot is
     * reached. Every key is reachable again afterwards and keeps its inner table.
     */
    method ReinsertCluster(start: nat, ghost empty: nat)
      requires slots.Length >= 2 && start < slots.Length && empty < slots.Length && slots[empty].None?
      requires DistinctKeys(slots[..]) && InnersValid(slots[..]) && ReachableExceptRun(slots[..], start)
      requires count == TotalEntries(slots[..])
      modifies slots
      ensures WellFormed(slots[..]) && count == TotalEntries(slots[..])
      ensures forall k :: Find(slots[..], k) == old(Find(slots[..], k))
    {
      ghost var c0 := slots[..];
      var n := slots.Length;
      var position: nat := start;
      ghost var hole: nat := empty;
      while slots[position].Some?
        invariant position < n && hole < n && slots[hole].None?
        invariant DistinctKeys(slots[..]) && InnersValid(slots[..]) && ReachableExceptRun(slots[..], position)
        invariant count == TotalEntries(slots[..])
        invariant forall k :: Find(slots[..], k) == Find(c0, k)
        decreases DispSum(slots[..], n), Scan(slots[..], position, 0)
      {
        ghost var s := slots[..];
        var key := slots[position].value.key;
        var table := slots[position].value.inner;
        ClearSlot(s, position);
        slots[position] := None;
        assert slots[..] == s[position := None];
        var q := Probe(key, None, true);
        assert q.Vacant?;
        ReinsertStep(s, position, q.pos, hole);
        slots[q.pos] := Some(Slot(key, table));
        assert slots[..] == s[position := None][q.pos := s[position]];
        if q.pos != position {
          hole := position;
        }
        NextSlot(position, n);
        position := (position + 1) % n;
      }
      ExitRun(slots[..], position);
    }

    /** `keys(key)`: all first-level keys, or the second-level keys under `key`; `None` stands for `KeyError`. */
    method Keys(key: Option<string>) returns (r: Option<seq<string>>)
      requires Valid()
      ensures key.None? ==> r == Some(OuterKeys(slots[..]))
      ensures key.Some? ==> (r.None? <==> Find(slots[..], key.value).None?)
      ensures key.Some? && r.Some? ==> r.value == Find(slots[..], key.value).value.Keys()
    {
      if key.None? {
        var keysList := [];
        for i := 0 to slots.Length
          invariant keysList == OuterKeys(slots[..i])
        {
          assert slots[..i + 1][..i] == slots[..i];
          if slots[i].Some? {
            keysList := keysList + [slots[i].value.key];
          }
        }
        assert slots[..slots.Length] == slots[..];
        return Some(keysList);
      }
      var p := Probe(key.value, None, false);
      if !p.Located? {
        return None;
      }
      var entries := slots[p.pos].value.inner.entries;
      var keysList := [];
      for j := 0 to |entries|
        invariant keysList == KeysOf(entries[..j])
      {
        assert entries[..j + 1][..j] == entries[..j];
        keysList := keysList + [entries[j].0];
      }
      assert entries[..|entries|] == entries;
      return Some(keysList);
    }

    /** `values(key)`: all values, or the values under `key`; `None` stands for `KeyError`. */
    method Values(key: Option<string>) returns (r: Option<seq<V>>)
      requires Valid()
      ensures key.None? ==> r == Some(AllValues(slots[..]))
      ensures key.Some? ==> (r.None? <==> Find(slots[..], key.value).None?)
      ensures key.Some? && r.Some? ==> r.value == Find(slots[..], key.value).value.Values()
    {
      if key.None? {
        var valuesList := [];
        for i := 0 to slots.Length
          invariant valuesList == AllValues(slots[..i])
        {
          assert slots[..i + 1][..i] == slots[..i];
          if slots[i].Some? {
            var entries := slots[i].value.inner.entries;
            ghost var before := valuesList;
            for j := 0 to |entries|
              invariant valuesList == before + ValuesOf(entries[..j])
            {
              assert entries[..j + 1][..j] == entries[..j];
              valuesList := valuesList + [entries[j].1];
            }
            assert entries[..|entries|] == entries;
          }
        }
        assert slots[..slots.Length] == slots[..];
        return Some(valuesList);
      }
      var p := Probe(key.value, None, false);
      if !p.Located? {
        return None;
      }
      var entries := slots[p.pos].value.inner.entries;
      var valuesList := [];
      for j := 0 to |entries|
        invariant valuesList == ValuesOf(entries[..j])
      {
        assert entries[..j + 1][..j] == entries[..j];
        valuesList := valuesList + [entries[j].1];
      }
      assert entries[..|entries|] == entries;
      return Some(valuesList);
    }
  }

  lemma EmptyTable<V>(s: Table<V>)
    requires |s| >= 2 && forall i :: 0 <= i < |s| ==> s[i].None?
    ensures WellFormed(s) && TotalEntries(s) == 0 && Occupied(s) == 0
    ensures forall k1, k2 :: GetIn(s, k1, k2).None?
  {
    EmptyCounts(s);
  }

  lemma {:induction false} EmptyCounts<V>(s: Table<V>)
    requires forall i :: 0 <= i < |s| ==> s[i].None?
    ensures TotalEntries(s) == 0 && Occupied(s) == 0
    decreases |s|
  {
    if s != [] {
      EmptyCounts(s[..|s| - 1]);
    }
  }

  /** A table holds no pair exactly when its inner tables hold no entries. */
  lemma {:induction false} EmptyIffNoPairs<V>(s: Table<V>)
    requires DistinctKeys(s) && InnersValid(s)
    ensures TotalEntries(s) == 0 <==> forall k1, k2 :: GetIn(s, k1, k2).None?
    decreases |s|
  {
    AllValuesAreTheValues(s);
    if TotalEntries(s) != 0 {
      var v := AllValues(s)[0];
      assert v in AllValues(s);
      assert exists k1, k2 :: GetIn(s, k1, k2) == Some(v);
      var k1, k2 :| GetIn(s, k1, k2) == Some(v);
      assert GetIn(s, k1, k2).Some?;
    } else {
      assert AllValues(s) == [];
    }
  }

  // ---------------------------------------------------------------------------
  // Rebuilding: the pairs reinserted so far
  // ---------------------------------------------------------------------------

  /** Among the first `j` entries there is one with key `k`. */
  ghost predicate InPrefix<V>(e: seq<(string, V)>, j: nat, k: string)
  {
    exists j' :: 0 <= j' < j && j' < |e| && e[j'].0 == k
  }

  /**
   * The pair map of a rebuild of `olds` that has reinserted every slot before `i`
   * and the first `j` entries of slot `i`.
   */
  ghost function Moved<V>(olds: Table<V>, i: nat, j: nat, k1: string, k2: string): Option<V>
  {
    match SlotIndex(olds, k1)
    case None => None
    case Some(i') =>
      if i' < i || (i' == i && InPrefix(olds[i'].value.inner.entries, j, k2)) then GetIn(olds, k1, k2) else None
  }

  lemma MovedNone<V>(olds: Table<V>)
    ensures forall k1, k2 :: Moved(olds, 0, 0, k1, k2).None?
  {
  }

  /** Reinserting entry `j` of slot `i` adds exactly that pair, which was not there yet. */
  lemma MovedStep<V>(olds: Table<V>, i: nat, j: nat)
    requires DistinctKeys(olds) && InnersValid(olds)
    requires i < |olds| && olds[i].Some? && j < |olds[i].value.inner.entries|
    ensures forall k1, k2 :: Moved(olds, i, j + 1, k1, k2) ==
              if k1 == olds[i].value.key && k2 == olds[i].value.inner.entries[j].0
              then Some(olds[i].value.inner.entries[j].1) else Moved(olds, i, j, k1, k2)
    ensures Moved(olds, i, j, olds[i].value.key, olds[i].value.inner.entries[j].0).None?
  {
    var key1 := olds[i].value.key;
    var e := olds[i].value.inner.entries;
    FindAt(olds, key1, i);
    assert !InPrefix(e, j, e[j].0);
    assert InPrefix(e, j + 1, e[j].0);
    assert olds[i].value.inner.Get(e[j].0) == Some(e[j].1);
    forall k1, k2
      ensures Moved(olds, i, j + 1, k1, k2) == if k1 == key1 && k2 == e[j].0 then Some(e[j].1) else Moved(olds, i, j, k1, k2)
    {
      if k1 == key1 && k2 != e[j].0 {
        assert InPrefix(e, j + 1, k2) == InPrefix(e, j, k2);
      }
    }
    assert Moved(olds, i, j, key1, e[j].0).None?;
  }

  /** Finishing slot `i` (or skipping it when it is empty) moves on to slot `i + 1`. */
  lemma MovedNextSlot<V>(olds: Table<V>, i: nat)
    requires DistinctKeys(olds) && InnersValid(olds) && i < |olds|
    ensures olds[i].None? ==> forall k1, k2 :: Moved(olds, i + 1, 0, k1, k2) == Moved(olds, i, 0, k1, k2)
    ensures olds[i].Some? ==> forall k1, k2 :: Moved(olds, i + 1, 0, k1, k2) == Moved(olds, i, |olds[i].value.inner.entries|, k1, k2)
  {
    forall k1, k2
      ensures olds[i].None? ==> Moved(olds, i + 1, 0, k1, k2) == Moved(olds, i, 0, k1, k2)
      ensures olds[i].Some? ==> Moved(olds, i + 1, 0, k1, k2) == Moved(olds, i, |olds[i].value.inner.entries|, k1, k2)
    {
      if olds[i].Some? && olds[i].value.key == k1 {
        FindAt(olds, k1, i);
        var e := olds[i].value.inner.entries;
        if !InPrefix(e, |e|, k2) {
          assert olds[i].value.inner.Get(k2).None?;
        }
      }
    }
  }

  lemma MovedAll<V>(olds: Table<V>)
    ensures forall k1, k2 :: Moved(olds, |olds|, 0, k1, k2) == GetIn(olds, k1, k2)
  {
  }

  // ---------------------------------------------------------------------------
  // Deleting: re-inserting the rest of a probe cluster
  // ---------------------------------------------------------------------------

  lemma StepCompose(h: nat, a: nat, b: nat, n: nat)
    requires h < n && a + b < n
    ensures Step(Step(h, a, n), b, n) == Step(h, a + b, n)
  {
  }

  lemma DistCompose(h: nat, a: nat, i: nat, n: nat)
    requires h < n && i < n && a <= Dist(h, i, n)
    ensures Dist(Step(h, a, n), i, n) == Dist(h, i, n) - a
  {
  }

  /** Every slot from `p` up to and including `i`, wrapping around, is occupied. */
  ghost predicate RunFrom<V>(s: Table<V>, p: nat, i: nat)
    requires p < |s| && i < |s|
  {
    forall d :: 0 <= d <= Dist(p, i, |s|) ==> s[Step(p, d, |s|)].Some?
  }

  /** Every stored key is reachable, except possibly keys in the occupied run that starts at `p`. */
  ghost predicate ReachableExceptRun<V>(s: Table<V>, p: nat)
    requires |s| >= 2 && p < |s|
  {
    forall i :: 0 <= i < |s| && s[i].Some? && !ProbeClear(s, RollingHash(s[i].value.key, |s|), i) ==> RunFrom(s, p, i)
  }

  lemma RunMono<V>(s: Table<V>, t: Table<V>, p: nat, i: nat)
    requires StaysOccupied(s, t) && p < |s| && i < |s| && RunFrom(s, p, i)
    ensures RunFrom(t, p, i)
  {
  }

  /** The part of a clear probe path from its `d0`-th slot on is an occupied run. */
  lemma PathTail<V>(s: Table<V>, h: nat, i: nat, d0: nat)
    requires h < |s| && i < |s| && s[i].Some? && ProbeClear(s, h, i) && d0 < Dist(h, i, |s|)
    ensures RunFrom(s, Step(h, d0, |s|), i)
  {
    var n := |s|;
    var p := Step(h, d0, n);
    DistCompose(h, d0, i, n);
    forall e | 0 <= e <= Dist(p, i, n)
      ensures s[Step(p, e, n)].Some?
    {
      StepCompose(h, d0, e, n);
      StepDist(h, i, n);
    }
  }

  /** Emptying the first slot of a run leaves the rest of it a run starting one slot later. */
  lemma RunShift<V>(s: Table<V>, p: nat, i: nat)
    requires p < |s| && i < |s| && i != p && RunFrom(s, p, i)
    ensures RunFrom(s[p := None], Step(p, 1, |s|), i)
  {
    var n := |s|;
    var p' := Step(p, 1, n);
    DistCompose(p, 1, i, n);
    forall e | 0 <= e <= Dist(p', i, n)
      ensures s[p := None][Step(p', e, n)].Some?
    {
      StepCompose(p, 1, e, n);
      DistStep(p, 1 + e, n);
    }
  }

  /** Emptying the slot at the cursor: the keys whose probe path crossed it lie further along the run. */
  lemma ClearStep<V>(s: Table<V>, p: nat)
    requires |s| >= 2 && p < |s| && s[p].Some? && ReachableExceptRun(s, p)
    ensures ReachableExceptRun(s[p := None], Step(p, 1, |s|))
  {
    var n := |s|;
    var c := s[p := None];
    forall i | 0 <= i < n && c[i].Some? && !ProbeClear(c, RollingHash(c[i].value.key, n), i)
      ensures RunFrom(c, Step(p, 1, n), i)
    {
      var h := RollingHash(s[i].value.key, n);
      if ProbeClear(s, h, i) {
        var d0 :| 0 <= d0 < Dist(h, i, n) && c[Step(h, d0, n)].None?;
        PathTail(s, h, i, d0);
      }
      RunShift(s, p, i);
    }
  }

  /** Filling an empty slot where a probe for the new key stops breaks no one's reachability. */
  lemma FillStep<V>(c: Table<V>, q: nat, slot: Slot<V>, p: nat)
    requires |c| >= 2 && q < |c| && p < |c| && c[q].None?
    requires ProbeClear(c, RollingHash(slot.key, |c|), q)
    requires ReachableExceptRun(c, p)
    ensures ReachableExceptRun(c[q := Some(slot)], p)
  {
    var n := |c|;
    var t := c[q := Some(slot)];
    assert StaysOccupied(c, t);
    ProbeClearMono(c, t, RollingHash(slot.key, n), q);
    forall i | 0 <= i < n && c[i].Some? && ProbeClear(c, RollingHash(c[i].value.key, n), i)
      ensures ProbeClear(t, RollingHash(c[i].value.key, n), i)
    {
      ProbeClearMono(c, t, RollingHash(c[i].value.key, n), i);
    }
    forall i | 0 <= i < n && t[i].Some? && !ProbeClear(t, RollingHash(t[i].value.key, n), i)
      ensures RunFrom(t, p, i)
    {
      RunMono(c, t, p, i);
    }
  }

  /** Once the cursor reaches an empty slot the run is empty, so every key is reachable again. */
  lemma ExitRun<V>(s: Table<V>, p: nat)
    requires |s| >= 2 && p < |s| && s[p].None? && ReachableExceptRun(s, p)
    ensures Reachable(s)
  {
    assert Step(p, 0, |s|) == p;
    forall i | 0 <= i < |s| && s[i].Some?
      ensures ProbeClear(s, RollingHash(s[i].value.key, |s|), i)
    {
      assert !RunFrom(s, p, i);
    }
  }

  /** Moving an entry from slot `p` to the empty slot `q` keeps every key's inner table. */
  lemma MoveSlot<V>(s: Table<V>, p: nat, q: nat)
    requires DistinctKeys(s) && InnersValid(s) && p < |s| && q < |s| && s[p].Some?
    requires s[p := None][q].None?
    ensures var t := s[p := None][q := s[p]];
            DistinctKeys(t) && InnersValid(t) && TotalEntries(t) == TotalEntries(s)
            && forall k :: Find(t, k) == Find(s, k)
  {
    var c := s[p := None];
    var t := c[q := s[p]];
    var key := s[p].value.key;
    ClearSlot(s, p);
    forall j | 0 <= j < |c| && c[j].Some?
      ensures c[j].value.key != key
    {
      assert j != p;
    }
    assert DistinctKeys(t);
    forall k
      ensures Find(t, k) == Find(s, k)
    {
      if k == key {
        FindAt(t, k, q);
        FindAt(s, k, p);
      } else {
        FindSame(c, t, k);
      }
    }
    UpdateCounts(c, q, s[p]);
  }

  /** The total distance of the stored keys from their hash slots, over the first `m` slots. */
  ghost function Disp<V>(s: Table<V>, i: nat): nat
    requires |s| >= 2 && i < |s|
  {
    if s[i].Some? then Dist(RollingHash(s[i].value.key, |s|), i, |s|) else 0
  }

  ghost function DispSum<V>(s: Table<V>, m: nat): nat
    requires |s| >= 2 && m <= |s|
  {
    if m == 0 then 0 else DispSum(s, m - 1) + Disp(s, m - 1)
  }

  lemma {:induction false} DispSumUpdate<V>(s: Table<V>, j: nat, x: Option<Slot<V>>, m: nat)
    requires |s| >= 2 && j < |s| && m <= |s|
    ensures DispSum(s[j := x], m) == DispSum(s, m) + (if j < m then Disp(s[j := x], j) - Disp(s, j) else 0)
    decreases m
  {
    if m > 0 {
      DispSumUpdate(s, j, x, m - 1);
    }
  }

  /** How far past `p` the first empty slot is, counted from step `d` (`|s|` when there is none). */
  ghost function Scan<V>(s: Table<V>, p: nat, d: nat): nat
    requires |s| >= 2 && p < |s| && d <= |s|
    decreases |s| - d
  {
    if d == |s| then |s| else if s[Step(p, d, |s|)].None? then d else Scan(s, p, d + 1)
  }

  lemma {:induction false} ScanBound<V>(s: Table<V>, p: nat, d: nat, z: nat)
    requires |s| >= 2 && p < |s| && z < |s| && s[z].None? && d <= Dist(p, z, |s|)
    ensures Scan(s, p, d) <= Dist(p, z, |s|)
    decreases |s| - d
  {
    StepDist(p, z, |s|);
    if d < Dist(p, z, |s|) && s[Step(p, d, |s|)].Some? {
      ScanBound(s, p, d + 1, z);
    }
  }

  lemma {:induction false} ScanShift<V>(s: Table<V>, p: nat, d: nat)
    requires |s| >= 2 && p < |s| && s[p].Some? && d < |s|
    ensures var r := Scan(s, Step(p, 1, |s|), d);
            Scan(s, p, d + 1) == if r == |s| then |s| else r + 1
    decreases |s| - d
  {
    var n := |s|;
    var p' := Step(p, 1, n);
    if d + 1 == n {
      assert Step(p', d, n) == p;
    } else {
      StepCompose(p, 1, d, n);
      if s[Step(p, d + 1, n)].Some? {
        ScanShift(s, p, d + 1);
      }
    }
  }

  /** Stepping past an occupied slot brings the next empty slot one step closer. */
  lemma ScanAdvance<V>(s: Table<V>, p: nat, z: nat)
    requires |s| >= 2 && p < |s| && z < |s| && s[p].Some? && s[z].None?
    ensures Scan(s, Step(p, 1, |s|), 0) < Scan(s, p, 0)
  {
    ScanBound(s, Step(p, 1, |s|), 0, z);
    ScanShift(s, p, 0);
    assert Step(p, 0, |s|) == p;
  }

  /**
   * One round of the cluster loop: the entry at the cursor `p` is taken out and put back
   * at `q`, the empty slot where a probe for its key now stops. The pair map is kept,
   * the possibly unreachable keys stay within the run ahead of the cursor, and either the
   * entry moved closer to its hash slot or nothing changed and the cursor came closer to
   * the next empty slot.
   */
  lemma ReinsertStep<V>(s: Table<V>, p: nat, q: nat, z: nat)
    requires |s| >= 2 && p < |s| && q < |s| && z < |s|
    requires DistinctKeys(s) && InnersValid(s) && s[p].Some? && s[z].None?
    requires ReachableExceptRun(s, p)
    requires s[p := None][q].None?
    requires ProbeClear(s[p := None], RollingHash(s[p].value.key, |s|), q)
    ensures var t := s[p := None][q := s[p]];
            DistinctKeys(t) && InnersValid(t) && ReachableExceptRun(t, Step(p, 1, |s|))
            && TotalEntries(t) == TotalEntries(s) && (forall k :: Find(t, k) == Find(s, k))
            && (q != p ==> t[p].None? && DispSum(t, |t|) < DispSum(s, |s|))
            && (q == p ==> t == s && Scan(t, Step(p, 1, |s|), 0) < Scan(s, p, 0))
  {
    var n := |s|;
    var c := s[p := None];
    var t := c[q := s[p]];
    MoveSlot(s, p, q);
    ClearStep(s, p);
    FillStep(c, q, s[p].value, Step(p, 1, n));
    if q == p {
      assert t == s;
      ScanAdvance(s, p, z);
    } else {
      var h := RollingHash(s[p].value.key, n);
      DispSumUpdate(s, p, None, n);
      DispSumUpdate(c, q, s[p], n);
      StepDist(h, p, n);
      StepDist(h, q, n);
    }
  }

  /** Deleting `k2` from an inner table that holds other pairs too. */
  lemma DeletePair<V>(s: Table<V>, p: nat, k2: string)
    requires WellFormed(s) && p < |s| && s[p].Some? && s[p].value.inner.Get(k2).Some?
    ensures var key := s[p].value.key;
            var t := s[p := Some(Slot(key, s[p].value.inner.Delete(k2)))];
            WellFormed(t) && TotalEntries(t) == TotalEntries(s) - 1
            && forall a, b :: GetIn(t, a, b) == if a == key && b == k2 then None else GetIn(s, a, b)
  {
    FindAt(s, s[p].value.key, p);
    ReplaceInner(s, p, s[p].value.inner.Delete(k2));
  }

  /** Deleting the only pair of an inner table empties its outer slot. */
  lemma ClearLastPair<V>(s: Table<V>, p: nat, k2: string)
    requires WellFormed(s) && p < |s| && s[p].Some?
    requires s[p].value.inner.Get(k2).Some? && s[p].value.inner.Len() <= 1
    ensures var key := s[p].value.key;
            var c := s[p := None];
            DistinctKeys(c) && InnersValid(c) && ReachableExceptRun(c, Step(p, 1, |s|))
            && TotalEntries(c) == TotalEntries(s) - 1
            && forall a, b :: GetIn(c, a, b) == if a == key && b == k2 then None else GetIn(s, a, b)
  {
    var key := s[p].value.key;
    var e := s[p].value.inner.entries;
    FindAt(s, key, p);
    ClearSlot(s, p);
    ClearStep(s, p);
    assert |e| == 1 && e[0].0 == k2;
  }
}
