/**
 * Model of infinite_hash_table.py: a prefix trie of 27-slot tables. A slot is
 * empty, a `(key, value)` leaf, or a `[prefix, table]` internal node. The slot
 * at level `l` for a key is its `l`-th character code modulo 26, or the terminal
 * slot 26 once the key is used up.
 *
 * No table is ever shared between two nodes, and once the cursor `self.table`
 * moves down nothing refers to the tables above it any more. So the tables are
 * kept as one trie value under the cursor, and writing a slot of a table deep
 * in the trie becomes rebuilding the trie along the path to that table.
 */
module InfiniteHashTables {

  import opened Options

  /** `TABLE_SIZE`: 26 character slots and one terminal slot. */
  const TABLE_SIZE: nat := 27

  datatype Entry<V> = Empty | Leaf(key: string, value: V) | Node(prefix: string, child: Trie<V>)

  datatype Trie<V> = Table(slots: seq<Entry<V>>)

  /** What `self.table` points at: a table, or (after a descent into a leaf) that leaf's value. */
  datatype Cursor<V> = AtTable(trie: Trie<V>) | AtValue(value: V)

  /**
   * How `get_location` ends: the index path to the leaf for the key, `KeyError`, or
   * falling off the end of its loop (it then returns `None` and leaves the cursor behind).
   */
  datatype Location<V> = Found(path: seq<nat>, value: V) | Missing | FellOff(cursor: Cursor<V>)

  /** `hash(key)` at descent level `level`. */
  function Hash(key: string, level: nat): (r: nat)
    ensures r < TABLE_SIZE
    ensures r == TABLE_SIZE - 1 <==> level >= |key|
  {
    if level < |key| then key[level] as int % (TABLE_SIZE - 1) else TABLE_SIZE - 1
  }

  /** `ArrayR(TABLE_SIZE)`. */
  function EmptySlots<V>(): (r: seq<Entry<V>>)
    ensures |r| == TABLE_SIZE && forall i :: 0 <= i < |r| ==> r[i].Empty?
  {
    seq(TABLE_SIZE, _ => Empty)
  }

  /** Every table has 27 slots, and internal nodes sit only in character slots. */
  ghost predicate Wf<V>(t: Trie<V>)
  {
    |t.slots| == TABLE_SIZE && !t.slots[TABLE_SIZE - 1].Node?
    && forall i :: 0 <= i < |t.slots| && t.slots[i].Node? ==> Wf(t.slots[i].child)
  }

  /** An entry that may be written into slot `pos` of a well-formed table. */
  ghost predicate FitsAt<V>(x: Entry<V>, pos: nat)
  {
    pos < TABLE_SIZE && (x.Node? ==> pos < TABLE_SIZE - 1 && Wf(x.child))
  }

  function Extend<V>(pos: nat, r: Location<V>): Location<V>
  {
    if r.Found? then Found([pos] + r.path, r.value) else r
  }

  function ExtendAll<V>(p: seq<nat>, r: Location<V>): Location<V>
  {
    if r.Found? then Found(p + r.path, r.value) else r
  }

  /**
   * The descent of `get_location` from cursor `c` at level `level`: stop at an empty
   * slot or when the cursor is not a table (`KeyError`), succeed at a leaf holding the
   * key, and otherwise move into the slot's table or leaf value one level down.
   */
  function Walk<V>(c: Cursor<V>, key: string, level: nat): Location<V>
    requires c.AtTable? ==> Wf(c.trie)
    decreases |key| + 1 - level
  {
    if level > |key| then FellOff(c)
    else match c
      case AtValue(_) => Missing
      case AtTable(t) =>
        var pos := Hash(key, level);
        match t.slots[pos]
        case Empty => Missing
        case Leaf(k, v) => if k == key then Found([pos], v) else Extend(pos, Walk(AtValue(v), key, level + 1))
        case Node(_, child) => Extend(pos, Walk(AtTable(child), key, level + 1))
  }

  /** The value the descent finds for `key`, if any. */
  function Lookup<V>(c: Cursor<V>, key: string): Option<V>
    requires c.AtTable? ==> Wf(c.trie)
  {
    Value(Walk(c, key, 0))
  }

  function Value<V>(r: Location<V>): Option<V>
  {
    if r.Found? then Some(r.value) else None
  }

  /** `p` indexes internal nodes all the way down from `t`. */
  ghost predicate Route<V>(t: Trie<V>, p: seq<nat>)
    decreases p
  {
    p == [] || (p[0] < |t.slots| && t.slots[p[0]].Node? && Route(t.slots[p[0]].child, p[1..]))
  }

  /** The table reached from `t` along route `p`. */
  function Sub<V>(t: Trie<V>, p: seq<nat>): Trie<V>
    requires Route(t, p)
    decreases p
  {
    if p == [] then t else Sub(t.slots[p[0]].child, p[1..])
  }

  /** `t` with slot `pos` of the table at the end of route `p` set to `x`. */
  function Put<V>(t: Trie<V>, p: seq<nat>, pos: nat, x: Entry<V>): Trie<V>
    requires Route(t, p) && pos < |Sub(t, p).slots|
    decreases p
  {
    if p == [] then Table(t.slots[pos := x])
    else
      var e := t.slots[p[0]];
      Table(t.slots[p[0] := Node(e.prefix, Put(e.child, p[1..], pos, x))])
  }

  /** The positions of `p` are the key's slots from level `l` on. */
  ghost predicate OnPath(key: string, l: nat, p: seq<nat>)
  {
    forall i :: 0 <= i < |p| ==> p[i] == Hash(key, l + i)
  }

  lemma {:induction false} SubWf<V>(t: Trie<V>, p: seq<nat>)
    requires Wf(t) && Route(t, p)
    ensures Wf(Sub(t, p))
    decreases p
  {
    if p != [] {
      SubWf(t.slots[p[0]].child, p[1..]);
    }
  }

  /** After `Put`, the route is still there and ends in the table with the slot replaced. */
  lemma {:induction false} PutShape<V>(t: Trie<V>, p: seq<nat>, pos: nat, x: Entry<V>)
    requires Route(t, p) && pos < |Sub(t, p).slots|
    ensures Route(Put(t, p, pos, x), p)
    ensures Sub(Put(t, p, pos, x), p) == Table(Sub(t, p).slots[pos := x])
    decreases p
  {
    if p != [] {
      PutShape(t.slots[p[0]].child, p[1..], pos, x);
    }
  }

  lemma {:induction false} PutWf<V>(t: Trie<V>, p: seq<nat>, pos: nat, x: Entry<V>)
    requires Wf(t) && Route(t, p) && FitsAt(x, pos)
    requires pos < |Sub(t, p).slots|
    ensures Wf(Put(t, p, pos, x))
    decreases p
  {
    if p != [] {
      PutWf(t.slots[p[0]].child, p[1..], pos, x);
    }
  }

  /** A route extended by a node slot of the table it reaches. */
  lemma {:induction false} RouteSnoc<V>(t: Trie<V>, p: seq<nat>, i: nat)
    requires Route(t, p) && i < |Sub(t, p).slots| && Sub(t, p).slots[i].Node?
    ensures Route(t, p + [i]) && Sub(t, p + [i]) == Sub(t, p).slots[i].child
    decreases p
  {
    if p != [] {
      assert (p + [i])[1..] == p[1..] + [i];
      RouteSnoc(t.slots[p[0]].child, p[1..], i);
    }
  }

  /** Every prefix of a route is a route, and each step goes through a node. */
  lemma {:induction false} RoutePrefix<V>(t: Trie<V>, p: seq<nat>, j: nat)
    requires Route(t, p) && j < |p|
    ensures Route(t, p[..j]) && p[j] < |Sub(t, p[..j]).slots| && Sub(t, p[..j]).slots[p[j]].Node?
    ensures Route(t, p[..j + 1]) && Sub(t, p[..j + 1]) == Sub(t, p[..j]).slots[p[j]].child
    decreases p
  {
    if j > 0 {
      assert p[..j][1..] == p[1..][..j - 1];
      assert p[..j + 1][1..] == p[1..][..j];
      RoutePrefix(t.slots[p[0]].child, p[1..], j - 1);
    } else {
      assert p[..1][1..] == [];
    }
  }

  /** A descent along a route passes its nodes and carries on in the table the route reaches. */
  lemma {:induction false} WalkThrough<V>(t: Trie<V>, p: seq<nat>, k: string, l: nat)
    requires Wf(t) && Route(t, p) && OnPath(k, l, p) && l <= |k|
    ensures Wf(Sub(t, p)) && l + |p| <= |k|
    ensures Walk(AtTable(t), k, l) == ExtendAll(p, Walk(AtTable(Sub(t, p)), k, l + |p|))
    decreases p
  {
    SubWf(t, p);
    if p == [] {
      var r := Walk(AtTable(t), k, l);
      if r.Found? {
        assert [] + r.path == r.path;
      }
    } else {
      var child := t.slots[p[0]].child;
      assert OnPath(k, l + 1, p[1..]) by {
        forall i | 0 <= i < |p[1..]|
          ensures p[1..][i] == Hash(k, l + 1 + i)
        {
          assert p[1..][i] == p[i + 1];
        }
      }
      WalkThrough(child, p[1..], k, l + 1);
      var w := Walk(AtTable(Sub(t, p)), k, l + |p|);
      if w.Found? {
        assert [p[0]] + (p[1..] + w.path) == p + w.path;
      }
    }
  }

  /** Writing a slot the key's descent never reaches leaves the descent as it was. */
  lemma {:induction false} WalkPut<V>(t: Trie<V>, p: seq<nat>, pos: nat, x: Entry<V>, k: string, l: nat)
    requires Wf(t) && Route(t, p) && pos < |Sub(t, p).slots| && FitsAt(x, pos) && l <= |k|
    requires !OnPath(k, l, p + [pos])
    ensures Wf(Put(t, p, pos, x))
    ensures Walk(AtTable(Put(t, p, pos, x)), k, l) == Walk(AtTable(t), k, l)
    decreases p
  {
    PutWf(t, p, pos, x);
    if p == [] {
      var i :| 0 <= i < |p| + 1 && (p + [pos])[i] != Hash(k, l + i);
      assert i == 0 && (p + [pos])[i] == pos;
    } else if Hash(k, l) == p[0] {
      var i :| 0 <= i < |p| + 1 && (p + [pos])[i] != Hash(k, l + i);
      assert i > 0;
      assert (p[1..] + [pos])[i - 1] == (p + [pos])[i];
      WalkPut(t.slots[p[0]].child, p[1..], pos, x, k, l + 1);
    }
  }

  /** What `get_location` returns is a route to a leaf holding the key, along the key's slots. */
  lemma {:induction false} LocationSound<V>(t: Trie<V>, k: string, l: nat)
    requires Wf(t) && Walk(AtTable(t), k, l).Found?
    ensures var r := Walk(AtTable(t), k, l);
            |r.path| >= 1 && OnPath(k, l, r.path) && l + |r.path| <= |k| + 1
            && Route(t, r.path[..|r.path| - 1])
            && Wf(Sub(t, r.path[..|r.path| - 1]))
            && Sub(t, r.path[..|r.path| - 1]).slots[r.path[|r.path| - 1]] == Leaf(k, r.value)
    decreases |k| + 1 - l
  {
    var r := Walk(AtTable(t), k, l);
    var pos := Hash(k, l);
    if t.slots[pos].Leaf? {
      assert r.path == [pos];
      assert r.path[..0] == [];
    } else {
      var child := t.slots[pos].child;
      LocationSound(child, k, l + 1);
      var r' := Walk(AtTable(child), k, l + 1);
      var q := r.path[..|r.path| - 1];
      assert r.path == [pos] + r'.path;
      assert q == [pos] + r'.path[..|r'.path| - 1];
      assert q[0] == pos && q[1..] == r'.path[..|r'.path| - 1];
      assert Route(t, q) && Sub(t, q) == Sub(child, r'.path[..|r'.path| - 1]);
      assert OnPath(k, l, r.path) by {
        forall i | 0 <= i < |r.path|
          ensures r.path[i] == Hash(k, l + i)
        {
          if i > 0 {
            assert r.path[i] == r'.path[i - 1];
          }
        }
      }
    }
  }

  /** A leaf holding the key at the end of a route along the key's slots is what `get_location` finds. */
  lemma LocationComplete<V>(t: Trie<V>, q: seq<nat>, pos: nat, k: string, l: nat, v: V)
    requires Wf(t) && Route(t, q) && l <= |k| && OnPath(k, l, q + [pos])
    requires pos < |Sub(t, q).slots| && Sub(t, q).slots[pos] == Leaf(k, v)
    ensures Walk(AtTable(t), k, l) == Found(q + [pos], v)
  {
    assert OnPath(k, l, q) by {
      forall i | 0 <= i < |q|
        ensures q[i] == Hash(k, l + i)
      {
        assert q[i] == (q + [pos])[i];
      }
    }
    assert (q + [pos])[|q|] == pos;
    WalkThrough(t, q, k, l);
  }

  /** Every leaf lies on the slots its key hashes to, counting from the top table. */
  ghost predicate Placed<V>(t: Trie<V>, b: seq<nat>)
    decreases t
  {
    forall j :: 0 <= j < |t.slots| ==> EntryPlaced(t.slots[j], b + [j])
  }

  ghost predicate EntryPlaced<V>(x: Entry<V>, q: seq<nat>)
    decreases x
  {
    match x
    case Empty => true
    case Leaf(k, _) => OnPath(k, 0, q)
    case Node(_, c) => Placed(c, q)
  }

  lemma {:induction false} SubPlaced<V>(t: Trie<V>, b: seq<nat>, p: seq<nat>)
    requires Route(t, p) && Placed(t, b)
    ensures Placed(Sub(t, p), b + p)
    decreases p
  {
    if p == [] {
      assert b + p == b;
    } else {
      assert EntryPlaced(t.slots[p[0]], b + [p[0]]);
      assert (b + [p[0]]) + p[1..] == b + p;
      SubPlaced(t.slots[p[0]].child, b + [p[0]], p[1..]);
    }
  }

  lemma {:induction false} PutPlaced<V>(t: Trie<V>, b: seq<nat>, p: seq<nat>, pos: nat, x: Entry<V>)
    requires Route(t, p) && pos < |Sub(t, p).slots| && Placed(t, b) && EntryPlaced(x, b + p + [pos])
    ensures Placed(Put(t, p, pos, x), b)
    decreases p
  {
    var r := Put(t, p, pos, x);
    if p == [] {
      assert b + p + [pos] == b + [pos];
      forall j | 0 <= j < |r.slots|
        ensures EntryPlaced(r.slots[j], b + [j])
      {
        if j != pos {
          assert EntryPlaced(t.slots[j], b + [j]);
        }
      }
    } else {
      assert EntryPlaced(t.slots[p[0]], b + [p[0]]);
      assert (b + [p[0]]) + p[1..] + [pos] == b + p + [pos];
      PutPlaced(t.slots[p[0]].child, b + [p[0]], p[1..], pos, x);
      forall j | 0 <= j < |r.slots|
        ensures EntryPlaced(r.slots[j], b + [j])
      {
        if j != p[0] {
          assert EntryPlaced(t.slots[j], b + [j]);
        }
      }
    }
  }

  /**
   * Writing slot `pos` of the table at the end of route `p`: keys whose slots avoid it
   * keep their lookups, and for keys along `p` both lookups are decided in that table.
   */
  lemma PutLookup<V>(t: Trie<V>, p: seq<nat>, pos: nat, x: Entry<V>, k: string)
    requires Wf(t) && Route(t, p) && pos < |Sub(t, p).slots| && FitsAt(x, pos)
    ensures Wf(Put(t, p, pos, x)) && Wf(Sub(t, p)) && Wf(Table(Sub(t, p).slots[pos := x]))
    ensures !OnPath(k, 0, p + [pos]) ==> Lookup(AtTable(Put(t, p, pos, x)), k) == Lookup(AtTable(t), k)
    ensures OnPath(k, 0, p) ==>
              |p| <= |k|
              && Lookup(AtTable(t), k) == Value(Walk(AtTable(Sub(t, p)), k, |p|))
              && Lookup(AtTable(Put(t, p, pos, x)), k) == Value(Walk(AtTable(Table(Sub(t, p).slots[pos := x])), k, |p|))
  {
    PutWf(t, p, pos, x);
    PutShape(t, p, pos, x);
    SubWf(t, p);
    SubWf(Put(t, p, pos, x), p);
    if !OnPath(k, 0, p + [pos]) {
      WalkPut(t, p, pos, x, k, 0);
    }
    if OnPath(k, 0, p) {
      WalkThrough(t, p, k, 0);
      WalkThrough(Put(t, p, pos, x), p, k, 0);
    }
  }

  lemma OnPathSnoc(k: string, l: nat, p: seq<nat>, pos: nat)
    ensures OnPath(k, l, p + [pos]) <==> OnPath(k, l, p) && Hash(k, l + |p|) == pos
  {
    if OnPath(k, l, p + [pos]) {
      forall i | 0 <= i < |p|
        ensures p[i] == Hash(k, l + i)
      {
        assert p[i] == (p + [pos])[i];
      }
      assert (p + [pos])[|p|] == pos;
    }
  }

  /** What the descent finds from the slot it reaches at level `l`. */
  function EntryValue<V>(x: Entry<V>, k: string, l: nat): Option<V>
    requires x.Node? ==> Wf(x.child)
  {
    match x
    case Empty => None
    case Leaf(k2, v) => if k2 == k then Some(v) else None
    case Node(_, c) => Value(Walk(AtTable(c), k, l + 1))
  }

  lemma SlotValue<V>(t: Trie<V>, k: string, l: nat)
    requires Wf(t) && l <= |k|
    ensures Value(Walk(AtTable(t), k, l)) == EntryValue(t.slots[Hash(k, l)], k, l)
  {
    var x := t.slots[Hash(k, l)];
    if x.Leaf? && x.key != k {
      assert Value(Walk(AtValue(x.value), k, l + 1)).None?;
    }
  }

  /**
   * `self.table[pos] = (key, value)` in the table the key's descent has reached: the key
   * now finds `value`; a key that can only have been found under the overwritten slot
   * may be lost, and no other lookup changes.
   */
  lemma PlaceLeaf<V>(t: Trie<V>, p: seq<nat>, key: string, value: V)
    requires Wf(t) && Route(t, p) && OnPath(key, 0, p) && |p| < |key|
    ensures Wf(Sub(t, p))
    ensures var pos := Hash(key, |p|);
            var t' := Put(t, p, pos, Leaf(key, value));
            Wf(t') && Route(t', p) && Lookup(AtTable(t'), key) == Some(value)
            && (forall k :: k != key ==> Lookup(AtTable(t'), k) == Lookup(AtTable(t), k) || Lookup(AtTable(t'), k).None?)
            && (forall k :: Lookup(AtTable(t'), k) != Lookup(AtTable(t), k) ==> OnPath(k, 0, p + [pos]))
            && (Placed(t, []) ==> Placed(t', []))
    ensures var pos := Hash(key, |p|);
            var x := Sub(t, p).slots[pos];
            var t' := Put(t, p, pos, Leaf(key, value));
            (x.Empty? ==> Lookup(AtTable(t), key).None?)
            && (x.Leaf? && x.key == key ==> Lookup(AtTable(t), key).Some?)
            && (x.Empty? || (x.Leaf? && x.key == key) ==> forall k :: k != key ==> Lookup(AtTable(t'), k) == Lookup(AtTable(t), k))
  {
    SubWf(t, p);
    var pos := Hash(key, |p|);
    var t' := Put(t, p, pos, Leaf(key, value));
    PutShape(t, p, pos, Leaf(key, value));
    var x := Sub(t, p).slots[pos];
    var s' := Table(Sub(t, p).slots[pos := Leaf(key, value)]);
    OnPathSnoc(key, 0, p, pos);
    PutLookup(t, p, pos, Leaf(key, value), key);
    SlotValue(s', key, |p|);
    SlotValue(Sub(t, p), key, |p|);
    forall k
      ensures Lookup(AtTable(t'), k) != Lookup(AtTable(t), k) ==> OnPath(k, 0, p + [pos])
    {
      PutLookup(t, p, pos, Leaf(key, value), k);
    }
    forall k | k != key
      ensures Lookup(AtTable(t'), k).None? || Lookup(AtTable(t'), k) == Lookup(AtTable(t), k)
      ensures x.Empty? || (x.Leaf? && x.key == key) ==> Lookup(AtTable(t'), k) == Lookup(AtTable(t), k)
    {
      PutLookup(t, p, pos, Leaf(key, value), k);
      OnPathSnoc(k, 0, p, pos);
      if OnPath(k, 0, p + [pos]) {
        SlotValue(s', k, |p|);
        SlotValue(Sub(t, p), k, |p|);
      }
    }
    if Placed(t, []) {
      assert [] + p + [pos] == p + [pos];
      PutPlaced(t, [], p, pos, Leaf(key, value));
    }
  }

  /**
   * Splitting a leaf for another key into a node whose fresh table holds that leaf one
   * level down: every lookup stays as it was, and the route now reaches the fresh table.
   */
  lemma SplitLeaf<V>(t: Trie<V>, p: seq<nat>, key: string, pos: nat, e: Entry<V>, c: Trie<V>, t': Trie<V>)
    requires Wf(t) && Route(t, p) && OnPath(key, 0, p) && |p| < |key|
    requires Wf(Sub(t, p)) && pos == Hash(key, |p|) && e == Sub(t, p).slots[pos] && e.Leaf? && e.key != key
    requires c == Table(EmptySlots()[Hash(e.key, |p| + 1) := e])
    requires t' == Put(t, p, pos, Node(key[..|p| + 1], c))
    ensures Wf(t') && Route(t', p + [pos]) && Sub(t', p + [pos]) == c && OnPath(key, 0, p + [pos])
    ensures forall k :: Lookup(AtTable(t'), k) == Lookup(AtTable(t), k)
    ensures Placed(t, []) ==> Placed(t', [])
  {
    var x := Node(key[..|p| + 1], c);
    OnPathSnoc(key, 0, p, pos);
    assert Wf(c);
    PutShape(t, p, pos, x);
    PutWf(t, p, pos, x);
    RouteSnoc(t', p, pos);
    assert forall k :: Lookup(AtTable(t'), k) == Lookup(AtTable(t), k) by {
      forall k
        ensures Lookup(AtTable(t'), k) == Lookup(AtTable(t), k)
      {
        SplitKey(t, p, key, k);
      }
    }
    assert Placed(t, []) ==> Placed(t', []) by {
      if Placed(t, []) {
        SplitPlaced(t, p, key);
      }
    }
  }

  lemma SplitKey<V>(t: Trie<V>, p: seq<nat>, key: string, k: string)
    requires Wf(t) && Route(t, p) && OnPath(key, 0, p) && |p| < |key|
    requires Wf(Sub(t, p)) && Sub(t, p).slots[Hash(key, |p|)].Leaf? && Sub(t, p).slots[Hash(key, |p|)].key != key
    ensures var pos := Hash(key, |p|);
            var e := Sub(t, p).slots[pos];
            var c := Table(EmptySlots()[Hash(e.key, |p| + 1) := e]);
            var t' := Put(t, p, pos, Node(key[..|p| + 1], c));
            Wf(t') && Lookup(AtTable(t'), k) == Lookup(AtTable(t), k)
  {
    var pos := Hash(key, |p|);
    var e := Sub(t, p).slots[pos];
    var pe := Hash(e.key, |p| + 1);
    var c := Table(EmptySlots()[pe := e]);
    var x := Node(key[..|p| + 1], c);
    assert Wf(c);
    PutLookup(t, p, pos, x, k);
    OnPathSnoc(k, 0, p, pos);
    if OnPath(k, 0, p + [pos]) {
      SlotValue(Table(Sub(t, p).slots[pos := x]), k, |p|);
      SlotValue(Sub(t, p), k, |p|);
      if |p| + 1 <= |k| {
        SlotValue(c, k, |p| + 1);
      }
    }
  }

  lemma SplitPlaced<V>(t: Trie<V>, p: seq<nat>, key: string)
    requires Wf(t) && Route(t, p) && OnPath(key, 0, p) && |p| < |key| && Placed(t, [])
    requires Wf(Sub(t, p)) && Sub(t, p).slots[Hash(key, |p|)].Leaf? && Sub(t, p).slots[Hash(key, |p|)].key != key
    ensures var pos := Hash(key, |p|);
            var e := Sub(t, p).slots[pos];
            var c := Table(EmptySlots()[Hash(e.key, |p| + 1) := e]);
            Placed(Put(t, p, pos, Node(key[..|p| + 1], c)), [])
  {
    var pos := Hash(key, |p|);
    var e := Sub(t, p).slots[pos];
    var pe := Hash(e.key, |p| + 1);
    var c := Table(EmptySlots()[pe := e]);
    var x := Node(key[..|p| + 1], c);
    SubPlaced(t, [], p);
    assert [] + p == p;
    assert EntryPlaced(e, p + [pos]);
    OnPathSnoc(e.key, 0, p + [pos], pe);
    assert forall j :: 0 <= j < |c.slots| ==> EntryPlaced(c.slots[j], p + [pos] + [j]);
    assert [] + p + [pos] == p + [pos];
    PutPlaced(t, [], p, pos, x);
  }

  /** `self.table[location_list[level]] = None` on the leaf of the key: only that key goes. */
  lemma ClearLeaf<V>(t: Trie<V>, q: seq<nat>, pos: nat, key: string, v: V)
    requires Wf(t) && Route(t, q) && OnPath(key, 0, q + [pos])
    requires pos < |Sub(t, q).slots| && Sub(t, q).slots[pos] == Leaf(key, v)
    ensures var t' := Put(t, q, pos, Empty);
            Wf(t') && Route(t', q) && Lookup(AtTable(t'), key).None?
            && (forall k :: k != key ==> Lookup(AtTable(t'), k) == Lookup(AtTable(t), k))
            && (Placed(t, []) ==> Placed(t', []))
  {
    var t' := Put(t, q, pos, Empty);
    PutShape(t, q, pos, Empty);
    OnPathSnoc(key, 0, q, pos);
    PutLookup(t, q, pos, Empty, key);
    forall k | k != key
      ensures Lookup(AtTable(t'), k) == Lookup(AtTable(t), k)
    {
      PutLookup(t, q, pos, Empty, k);
      OnPathSnoc(k, 0, q, pos);
    }
    if Placed(t, []) {
      PutPlaced(t, [], q, pos, Empty);
    }
  }

  /** Under `Wf`, falling off the end of the descent always leaves the cursor on a leaf's value. */
  lemma {:induction false} FellOffAtValue<V>(c: Cursor<V>, key: string, l: nat)
    requires (c.AtTable? ==> Wf(c.trie)) && l <= |key|
    ensures Walk(c, key, l).FellOff? ==> Walk(c, key, l).cursor.AtValue?
    decreases |key| + 1 - l
  {
    if c.AtTable? && c.trie.slots[Hash(key, l)].Node? {
      FellOffAtValue(AtTable(c.trie.slots[Hash(key, l)].child), key, l + 1);
    }
  }

  lemma ExtendAllSnoc<V>(p: seq<nat>, pos: nat, w: Location<V>)
    ensures ExtendAll(p, Extend(pos, w)) == ExtendAll(p + [pos], w)
  {
    if w.Found? {
      assert p + ([pos] + w.path) == (p + [pos]) + w.path;
    }
  }

  /**
   * The loop of `get_location` run from cursor `c`: it records the slot of every level
   * it passes and ends as `Walk` says.
   */
  method Descend<V>(c: Cursor<V>, key: string) returns (r: Location<V>)
    requires c.AtTable? ==> Wf(c.trie)
    ensures r == Walk(c, key, 0)
  {
    var cur := c;
    var level: nat := 0;
    var path: seq<nat> := [];
    while level <= |key|
      invariant level <= |key| + 1
      invariant cur.AtTable? ==> Wf(cur.trie)
      invariant Walk(c, key, 0) == ExtendAll(path, Walk(cur, key, level))
      decreases |key| + 1 - level
    {
      var pos := Hash(key, level);
      if cur.AtValue? || cur.trie.slots[pos].Empty? {
        return Missing;
      }
      var x := cur.trie.slots[pos];
      if x.Leaf? && x.key == key {
        return Found(path + [pos], x.value);
      }
      var next := if x.Leaf? then AtValue(x.value) else AtTable(x.child);
      ExtendAllSnoc(path, pos, Walk(next, key, level + 1));
      path := path + [pos];
      cur := next;
      level := level + 1;
    }
    r := FellOff(cur);
  }

  /** How many leaves (`tuple`s) a table's slots hold. */
  function LeafCount<V>(s: seq<Entry<V>>): nat
  {
    if s == [] then 0 else LeafCount(s[..|s| - 1]) + (if s[|s| - 1].Leaf? then 1 else 0)
  }

  /** How many internal nodes (`[prefix, table]` lists) a table's slots hold. */
  function NodeCount<V>(s: seq<Entry<V>>): nat
  {
    if s == [] then 0 else NodeCount(s[..|s| - 1]) + (if s[|s| - 1].Node? then 1 else 0)
  }

  /** The last leaf among the slots, the one `remaining_tuple` ends up holding. */
  function LastLeaf<V>(s: seq<Entry<V>>): (r: Option<(string, V)>)
    ensures r.None? <==> LeafCount(s) == 0
    ensures r.Some? ==> exists j :: 0 <= j < |s| && s[j] == Leaf(r.value.0, r.value.1)
  {
    if s == [] then None
    else if s[|s| - 1].Leaf? then Some((s[|s| - 1].key, s[|s| - 1].value))
    else LastLeaf(s[..|s| - 1])
  }

  /** A slot holding a leaf or a node is counted, and a table's only leaf is its last one. */
  lemma {:induction false} CountAt<V>(s: seq<Entry<V>>, j: nat)
    requires j < |s|
    ensures s[j].Leaf? ==> LeafCount(s) >= 1
    ensures s[j].Node? ==> NodeCount(s) >= 1
    ensures LeafCount(s) == 1 && s[j].Leaf? ==> LastLeaf(s) == Some((s[j].key, s[j].value))
    decreases |s|
  {
    if j < |s| - 1 {
      assert s[..|s| - 1][j] == s[j];
      CountAt(s[..|s| - 1], j);
    }
  }

  /** Two node slots make a node count of at least two. */
  lemma {:induction false} OneNode<V>(s: seq<Entry<V>>, i: nat, j: nat)
    requires i < |s| && j < |s|
    ensures NodeCount(s) <= 1 && s[i].Node? && s[j].Node? ==> i == j
    decreases |s|
  {
    if i < |s| - 1 && j < |s| - 1 {
      assert s[..|s| - 1][i] == s[i] && s[..|s| - 1][j] == s[j];
      OneNode(s[..|s| - 1], i, j);
    } else if i < |s| - 1 {
      assert s[..|s| - 1][i] == s[i];
      CountAt(s[..|s| - 1], i);
    } else if j < |s| - 1 {
      assert s[..|s| - 1][j] == s[j];
      CountAt(s[..|s| - 1], j);
    }
  }

  /**
   * The tables along route `p` hold nothing but the next node of the route, and the table
   * at its end holds nothing but the leaf `e`: what the collapse checks before folding
   * the whole chain into `e`.
   */
  ghost predicate Chain<V>(t: Trie<V>, p: seq<nat>, e: (string, V))
    decreases p
  {
    if p == [] then LeafCount(t.slots) == 1 && NodeCount(t.slots) == 0 && LastLeaf(t.slots) == Some(e)
    else
      p[0] < |t.slots| && t.slots[p[0]].Node? && LeafCount(t.slots) == 0 && NodeCount(t.slots) == 1
      && Chain(t.slots[p[0]].child, p[1..], e)
  }

  /** The only key a chain lets a descent find is the key of its leaf. */
  lemma {:induction false} ChainFind<V>(t: Trie<V>, p: seq<nat>, e: (string, V), k: string, l: nat)
    requires Wf(t) && Chain(t, p, e) && Walk(AtTable(t), k, l).Found?
    ensures k == e.0 && Walk(AtTable(t), k, l).value == e.1
    decreases p
  {
    var pos := Hash(k, l);
    CountAt(t.slots, pos);
    if p != [] {
      OneNode(t.slots, pos, p[0]);
      if t.slots[pos].Node? {
        ChainFind(t.slots[pos].child, p[1..], e, k, l + 1);
      }
    }
  }

  /** A chain is a route to a table holding its leaf. */
  lemma {:induction false} ChainLeaf<V>(t: Trie<V>, p: seq<nat>, e: (string, V))
    requires Chain(t, p, e)
    ensures Route(t, p) && exists j :: 0 <= j < |Sub(t, p).slots| && Sub(t, p).slots[j] == Leaf(e.0, e.1)
    decreases p
  {
    if p == [] {
      var j :| 0 <= j < |t.slots| && t.slots[j] == Leaf(e.0, e.1);
      assert Sub(t, p).slots[j] == Leaf(e.0, e.1);
    } else {
      var c := t.slots[p[0]].child;
      ChainLeaf(c, p[1..], e);
      var j :| 0 <= j < |Sub(c, p[1..]).slots| && Sub(c, p[1..]).slots[j] == Leaf(e.0, e.1);
      assert Sub(t, p).slots[j] == Leaf(e.0, e.1);
    }
  }

  /**
   * Folding a chain under top slot `i` into its leaf: keys that were found are found
   * with the same value, and when leaves are placed no lookup changes at all.
   */
  lemma CollapseRoot<V>(t: Trie<V>, i: nat, q: seq<nat>, e: (string, V))
    requires Wf(t) && i < |t.slots| && t.slots[i].Node? && Chain(t.slots[i].child, q, e)
    ensures var r := Table(t.slots[i := Leaf(e.0, e.1)]);
            Wf(r) && (forall k :: Lookup(AtTable(t), k).Some? ==> Lookup(AtTable(r), k) == Lookup(AtTable(t), k))
            && (Placed(t, []) ==> Placed(r, []) && forall k :: Lookup(AtTable(r), k) == Lookup(AtTable(t), k))
  {
    var r := Table(t.slots[i := Leaf(e.0, e.1)]);
    forall k
      ensures k != e.0 || Lookup(AtTable(t), k).Some? ==> Lookup(AtTable(r), k) == Lookup(AtTable(t), k)
    {
      CollapseKey(t, i, q, e, k);
    }
    if Placed(t, []) {
      CollapseReach(t, i, q, e);
    }
  }

  /** Folding changes no lookup except possibly making the chain's own key findable. */
  lemma CollapseKey<V>(t: Trie<V>, i: nat, q: seq<nat>, e: (string, V), k: string)
    requires Wf(t) && i < |t.slots| && t.slots[i].Node? && Chain(t.slots[i].child, q, e)
    ensures var r := Table(t.slots[i := Leaf(e.0, e.1)]);
            Wf(r) && (k != e.0 || Lookup(AtTable(t), k).Some? ==> Lookup(AtTable(r), k) == Lookup(AtTable(t), k))
  {
    var x := Leaf(e.0, e.1);
    var r := Table(t.slots[i := x]);
    assert r == Put(t, [], i, x);
    PutLookup(t, [], i, x, k);
    OnPathSnoc(k, 0, [], i);
    if Hash(k, 0) == i {
      SlotValue(t, k, 0);
      SlotValue(r, k, 0);
      if Walk(AtTable(t.slots[i].child), k, 1).Found? {
        ChainFind(t.slots[i].child, q, e, k, 1);
      }
    }
  }

  /** With placed leaves, the chain's leaf is found from the top and stays placed after folding. */
  lemma CollapseReach<V>(t: Trie<V>, i: nat, q: seq<nat>, e: (string, V))
    requires Wf(t) && i < |t.slots| && t.slots[i].Node? && Chain(t.slots[i].child, q, e) && Placed(t, [])
    ensures Lookup(AtTable(t), e.0) == Some(e.1) && Placed(Table(t.slots[i := Leaf(e.0, e.1)]), [])
  {
    var x := Leaf(e.0, e.1);
    var c := t.slots[i].child;
    ChainLeaf(c, q, e);
    var j :| 0 <= j < |Sub(c, q).slots| && Sub(c, q).slots[j] == x;
    assert EntryPlaced(t.slots[i], [] + [i]);
    assert [] + [i] == [i];
    SubPlaced(c, [i], q);
    assert EntryPlaced(x, [i] + q + [j]);
    assert ([i] + q + [j])[0] == i;
    assert ([i] + q)[1..] == q;
    assert [i] + q + [j] == ([i] + q) + [j];
    LocationComplete(t, [i] + q, j, e.0, 0, e.1);
    PutPlaced(t, [], [], i, x);
  }

  lemma RouteUpTo<V>(t: Trie<V>, path: seq<nat>, d: nat, j: nat)
    requires j <= d <= |path| && Route(t, path[..d])
    ensures Route(t, path[..j])
  {
    if j < d {
      RoutePrefix(t, path[..d], j);
      assert path[..d][..j] == path[..j];
    }
  }

  /** `for i in location_list[:level]: self.table = self.table[i][1]`. */
  method FollowPath<V>(t: Trie<V>, p: seq<nat>) returns (r: Trie<V>)
    requires Route(t, p)
    ensures r == Sub(t, p)
  {
    r := t;
    var i := 0;
    assert p[0..] == p;
    while i < |p|
      invariant 0 <= i <= |p| && Route(r, p[i..]) && Sub(r, p[i..]) == Sub(t, p)
    {
      assert p[i..][1..] == p[i + 1..];
      r := r.slots[p[i]].child;
      i := i + 1;
    }
  }

  /**
   * The `for element in self.table` scan of the collapse: nodes are counted in
   * `key_count`, leaves added to `tuple_count`, and the last leaf kept.
   */
  method Scan<V>(slots: seq<Entry<V>>, tupleCount0: nat, remaining0: Option<(string, V)>)
    returns (keyCount: nat, tupleCount: nat, remaining: Option<(string, V)>)
    ensures keyCount == NodeCount(slots) && tupleCount == tupleCount0 + LeafCount(slots)
    ensures remaining == if LeafCount(slots) == 0 then remaining0 else LastLeaf(slots)
  {
    keyCount, tupleCount, remaining := 0, tupleCount0, remaining0;
    var i := 0;
    while i < |slots|
      invariant 0 <= i <= |slots|
      invariant keyCount == NodeCount(slots[..i]) && tupleCount == tupleCount0 + LeafCount(slots[..i])
      invariant remaining == if LeafCount(slots[..i]) == 0 then remaining0 else LastLeaf(slots[..i])
    {
      assert slots[..i + 1][..i] == slots[..i];
      var element := slots[i];
      if element.Leaf? {
        remaining := Some((element.key, element.value));
        tupleCount := tupleCount + 1;
      } else if element.Node? {
        keyCount := keyCount + 1;
      }
      i := i + 1;
    }
    assert slots[..i] == slots;
  }

  /**
   * A chain that starts below top slot `path[0]` and runs to level `d` is, from each level
   * `j` on, a chain from the table at `path[..j]`; so that table holds one node and no
   * leaf, or, at level `d`, one leaf and no node.
   */
  lemma {:induction false} ChainAt<V>(t: Trie<V>, path: seq<nat>, d: nat, j: nat, e: (string, V))
    requires 1 <= j <= d <= |path| && Route(t, path[..1]) && Chain(Sub(t, path[..1]), path[1..d], e)
    ensures Route(t, path[..j]) && Chain(Sub(t, path[..j]), path[j..d], e)
    ensures NodeCount(Sub(t, path[..j]).slots) == (if j == d then 0 else 1)
    ensures LeafCount(Sub(t, path[..j]).slots) == (if j == d then 1 else 0)
    ensures j == d ==> LastLeaf(Sub(t, path[..j]).slots) == Some(e)
    decreases j
  {
    if j > 1 {
      ChainAt(t, path, d, j - 1, e);
      assert path[j - 1..d][0] == path[j - 1] && path[j - 1..d][1..] == path[j..d];
      RouteSnoc(t, path[..j - 1], path[j - 1]);
      assert path[..j - 1] + [path[j - 1]] == path[..j];
    }
    if j == d {
      assert path[j..d] == [];
    } else {
      assert path[j..d] != [];
    }
  }

  /**
   * What the collapse after a deletion at the end of `path` makes of `t`: when the tables
   * from the one under top slot `path[0]` down to the one the deletion was made in form a
   * chain (each holds only the path's next node, the last only one leaf), slot `path[0]`
   * becomes that leaf; otherwise nothing is rewritten.
   */
  ghost function Folded<V>(t: Trie<V>, path: seq<nat>): Trie<V>
    requires |path| >= 1 && Route(t, path[..|path| - 1])
  {
    var d := |path| - 1;
    var last := LastLeaf(Sub(t, path[..d]).slots);
    if d >= 1 && last.Some? && (RouteUpTo(t, path, d, 1); Chain(Sub(t, path[..1]), path[1..d], last.value)) then
      assert path[..1][0] == path[0];
      Table(t.slots[path[0] := Leaf(last.value.0, last.value.1)])
    else t
  }

  /** A fold rewrites the top only when the table at each level holds what a chain does. */
  lemma FoldNeedsCounts<V>(t: Trie<V>, path: seq<nat>, j: nat)
    requires |path| >= 1 && Route(t, path[..|path| - 1]) && 1 <= j <= |path| - 1
    ensures Route(t, path[..j])
    ensures Folded(t, path) != t ==>
              NodeCount(Sub(t, path[..j]).slots) == (if j == |path| - 1 then 0 else 1) &&
              LeafCount(Sub(t, path[..j]).slots) == (if j == |path| - 1 then 1 else 0)
  {
    var d := |path| - 1;
    RouteUpTo(t, path, d, j);
    RouteUpTo(t, path, d, 1);
    var last := LastLeaf(Sub(t, path[..d]).slots);
    if last.Some? && Chain(Sub(t, path[..1]), path[1..d], last.value) {
      ChainAt(t, path, d, j, last.value);
    }
  }

  /**
   * The corrected collapse after a deletion at the end of `path`. It scans the same tables
   * from the deepest up, but with its own test: it gives up unless the deepest table holds
   * exactly one leaf and no node, and every table above it holds only the path's node.
   * When no table gives up, top slot `path[0]` becomes that leaf (`Folded`).
   */
  method Collapse<V>(t: Trie<V>, path: seq<nat>) returns (r: Trie<V>)
    requires Wf(t) && |path| >= 1 && Route(t, path[..|path| - 1])
    ensures Wf(r)
    ensures forall k :: Lookup(AtTable(t), k).Some? ==> Lookup(AtTable(r), k) == Lookup(AtTable(t), k)
    ensures Placed(t, []) ==> Placed(r, []) && forall k :: Lookup(AtTable(r), k) == Lookup(AtTable(t), k)
    ensures r == Folded(t, path)
  {
    var d := |path| - 1;
    var level := d;
    var tupleCount: nat := 0;
    var remaining: Option<(string, V)> := None;
    while level >= 1
      invariant 0 <= level <= d
      invariant level == d ==> tupleCount == 0
      invariant level < d ==> tupleCount == 1 && remaining.Some? && Route(t, path[..level + 1])
                              && Chain(Sub(t, path[..level + 1]), path[level + 1..d], remaining.value)
      decreases level
    {
      RouteUpTo(t, path, d, level);
      var table := FollowPath(t, path[..level]);
      var keyCount, tc, rem := Scan(table.slots, tupleCount, remaining);
      if keyCount != (if level == d then 0 else 1) || tc != 1 {
        FoldNeedsCounts(t, path, level);
        return t;
      }
      if level < d {
        RoutePrefix(t, path[..d], level);
        assert path[..d][..level] == path[..level] && path[..d][..level + 1] == path[..level + 1];
        assert path[level..d][1..] == path[level + 1..d];
      }
      assert Chain(table, path[level..d], rem.value);
      tupleCount, remaining := tc, rem;
      level := level - 1;
    }
    if tupleCount == 0 {
      return t;
    }
    assert path[..1][0] == path[0] && path[..1][1..] == [];
    assert Sub(t, path[..1]) == t.slots[path[0]].child;
    CollapseRoot(t, path[0], path[1..d], remaining.value);
    ChainAt(t, path, d, d, remaining.value);
    r := Table(t.slots[path[0] := Leaf(remaining.value.0, remaining.value.1)]);
  }

  /**
   * The scan of infinite_hash_table.py as written: the give-up test sits inside the
   * `for` loop and is made after every slot. `None` is the early `return`; otherwise the
   * running `tuple_count` and `remaining_tuple`.
   */
  function ScanAsWritten<V>(s: seq<Entry<V>>, i: nat, keyCount: nat, tupleCount: nat, remaining: Option<(string, V)>)
    : (r: Option<(nat, Option<(string, V)>)>)
    requires i <= |s| && (tupleCount == 0 <==> remaining.None?)
    ensures r.Some? ==> (r.value.0 == 0 <==> r.value.1.None?) && r.value.0 >= tupleCount
    decreases |s| - i
  {
    if i == |s| then Some((tupleCount, remaining))
    else
      var x := s[i];
      var kc := if x.Node? then keyCount + 1 else keyCount;
      var tc := if x.Leaf? then tupleCount + 1 else tupleCount;
      var rem := if x.Leaf? then Some((x.key, x.value)) else remaining;
      if (kc == 1 && tc == 0) || tc > 1 then None
      else ScanAsWritten(s, i + 1, kc, tc, rem)
  }

  /**
   * The collapse loop of `__delitem__` as written, from table level `level` up: a scan
   * that runs to the end carries its counts to the level above, and at the top a single
   * counted leaf replaces slot `path[0]`.
   */
  function CollapseAsWritten<V>(t: Trie<V>, path: seq<nat>, level: nat, tupleCount: nat, remaining: Option<(string, V)>)
    : (r: Trie<V>)
    requires Wf(t) && 1 <= |path| && level <= |path| - 1 && Route(t, path[..|path| - 1])
    requires tupleCount == 0 <==> remaining.None?
    requires path[0] < |t.slots|
    ensures |r.slots| == |t.slots|
    ensures r == t || (r == Table(t.slots[path[0] := r.slots[path[0]]]) && r.slots[path[0]].Leaf?)
    decreases level
  {
    if level >= 1 then
      RouteUpTo(t, path, |path| - 1, level);
      match ScanAsWritten(Sub(t, path[..level]).slots, 0, 0, tupleCount, remaining)
      case None => t
      case Some((tc, rem)) => CollapseAsWritten(t, path, level - 1, tc, rem)
    else if tupleCount == 0 then t
    else
      Table(t.slots[path[0] := Leaf(remaining.value.0, remaining.value.1)])
  }

  /**
   * The loop of `__setitem__` from top table `t0`, one level per round. The pair goes
   * into the first empty slot on the key's path, or over a leaf or node carrying the key
   * itself; a leaf for another key on the way is split into a node one level down. If the
   * key runs out first (`Dropped`) nothing is stored and the descent ends in table `cur`
   * at the end of `route`; `t` is the top table with everything the loop wrote.
   */
  method Store<V>(t0: Trie<V>, key: string, value: V) returns (r: SetOutcome, t: Trie<V>, route: seq<nat>, cur: Trie<V>)
    requires Wf(t0) && |key| > 0
    ensures r.Inserted? || r.Updated? || r.ReplacedNode? || r.Dropped?
    ensures Wf(t) && Route(t, route) && cur == Sub(t, route) && Wf(cur)
    ensures !r.Dropped? ==> Lookup(AtTable(t), key) == Some(value)
    ensures r.Inserted? ==> Lookup(AtTable(t0), key).None?
    ensures r.Updated? ==> Lookup(AtTable(t0), key).Some?
    ensures r.Inserted? || r.Updated? ==> forall k :: k != key ==> Lookup(AtTable(t), k) == Lookup(AtTable(t0), k)
    ensures r.ReplacedNode? ==>
              forall k :: k != key ==> Lookup(AtTable(t), k) == Lookup(AtTable(t0), k) || Lookup(AtTable(t), k).None?
    ensures r.ReplacedNode? ==>
              |route| < |key| && (forall k :: Lookup(AtTable(t), k) != Lookup(AtTable(t0), k) ==> OnPath(k, 0, route + [Hash(key, |route|)]))
    ensures r.Dropped? ==> |route| == |key| && forall k :: Lookup(AtTable(t), k) == Lookup(AtTable(t0), k)
    ensures Placed(t0, []) ==> Placed(t, [])
  {
    t := t0;
    cur := t;
    route := [];
    var level: nat := 0;
    while level < |key|
      invariant level <= |key| && |route| == level
      invariant Wf(t) && Route(t, route) && OnPath(key, 0, route) && cur == Sub(t, route)
      invariant forall k :: Lookup(AtTable(t), k) == Lookup(AtTable(t0), k)
      invariant Placed(t0, []) ==> Placed(t, [])
      decreases |key| - level
    {
      var pos := Hash(key, level);
      SubWf(t, route);
      var x := cur.slots[pos];
      if x.Empty? || (x.Leaf? && x.key == key) || (x.Node? && x.prefix == key) {
        PlaceLeaf(t, route, key, value);
        PutShape(t, route, pos, Leaf(key, value));
        t := Put(t, route, pos, Leaf(key, value));
        cur := Sub(t, route);
        SubWf(t, route);
        r := if x.Empty? then Inserted else if x.Leaf? then Updated else ReplacedNode;
        return;
      } else if x.Leaf? {
        var c := Table(EmptySlots()[Hash(x.key, level + 1) := x]);
        var t1 := Put(t, route, pos, Node(key[..level + 1], c));
        SplitLeaf(t, route, key, pos, x, c, t1);
        t := t1;
        route := route + [pos];
        cur := c;
      } else {
        assert Route(t, route + [pos]) && Sub(t, route + [pos]) == x.child by {
          RouteSnoc(t, route, pos);
        }
        assert OnPath(key, 0, route + [pos]) by {
          OnPathSnoc(key, 0, route, pos);
        }
        route := route + [pos];
        cur := x.child;
      }
      level := level + 1;
    }
    SubWf(t, route);
    r := Dropped;
  }

  /**
   * What a slot of the top table can hold once `__getitem__` as written has run: an
   * entry, or what it copied in from one level down (a leaf's value or a node's table).
   */
  datatype Held<V> = Plain(entry: Entry<V>) | BareValue(v: V) | BareTable(t: Trie<V>)

  /** How `__getitem__` as written ends. */
  datatype Answer<V> = Returned(obj: Held<V>) | ReturnedNone | RaisedKeyError | RaisedTypeError

  ghost predicate HeldWf<V>(x: Held<V>)
  {
    match x
    case Plain(e) => e.Node? ==> Wf(e.child)
    case BareValue(_) => true
    case BareTable(t) => Wf(t)
  }

  function Wrap<V>(s: seq<Entry<V>>): (r: seq<Held<V>>)
    ensures |r| == |s| && forall i :: 0 <= i < |s| ==> r[i] == Plain(s[i])
  {
    seq(|s|, i requires 0 <= i < |s| => Plain(s[i]))
  }

  /**
   * The loop of `__getitem__` as written, on the slots `top` of the table the cursor is on.
   * The cursor never moves: every level indexes the top table, and instead of descending
   * the loop writes the slot's second component into that top slot. A slot whose first
   * component equals the key answers with its second component, so a node whose prefix
   * is the key answers with its table; a copied-in value cannot be indexed (`TypeError`,
   * for `int` values); a loop that runs out of levels returns `None`.
   */
  function GetItemAsWritten<V>(top: seq<Held<V>>, key: string, level: nat): (r: (Answer<V>, seq<Held<V>>))
    requires |top| == TABLE_SIZE && forall i :: 0 <= i < |top| ==> HeldWf(top[i])
    ensures |r.1| == TABLE_SIZE
    decreases |key| - level
  {
    if level >= |key| then (ReturnedNone, top)
    else
      var pos := Hash(key, level);
      assert HeldWf(top[pos]);
      match top[pos]
      case Plain(Empty) => (RaisedKeyError, top)
      case Plain(Leaf(k, v)) =>
        if k == key then (Returned(BareValue(v)), top)
        else GetItemAsWritten(top[pos := BareValue(v)], key, level + 1)
      case Plain(Node(prefix, c)) =>
        if prefix == key then (Returned(BareTable(c)), top)
        else GetItemAsWritten(top[pos := BareTable(c)], key, level + 1)
      case BareValue(_) => (RaisedTypeError, top)
      case BareTable(t) =>
        assert HeldWf(Plain(t.slots[1]));
        GetItemAsWritten(top[pos := Plain(t.slots[1])], key, level + 1)
  }

  /** The table after `t["aa"] = 1` and `t["ab"] = 2`: both keys under the node for "a". */
  function TwoKeys(): (t: Trie<int>)
    ensures Wf(t)
  {
    Table(EmptySlots()[19 := Node("a", Table(EmptySlots()[19 := Leaf("aa", 1)][20 := Leaf("ab", 2)]))])
  }

  /** `t["ab"]` as written raises `KeyError` on that table, although the descent finds 2. */
  lemma GetItemAsWrittenMissesDeepKey()
    ensures Lookup(AtTable(TwoKeys()), "ab") == Some(2)
    ensures GetItemAsWritten(Wrap(TwoKeys().slots), "ab", 0).0 == RaisedKeyError
  {
    var t := TwoKeys();
    assert Hash("ab", 0) == 19 && Hash("ab", 1) == 20;
    var top := Wrap(t.slots);
    var top1 := top[19 := BareTable(t.slots[19].child)];
    assert GetItemAsWritten(top, "ab", 0) == GetItemAsWritten(top1, "ab", 1);
    assert top1[20] == Plain(Empty);
  }

  /** The table under the node for `"ab"`: the leaves of `"aba"` and `"abb"`. */
  function AbTable(): (t: Trie<int>)
    ensures Wf(t) && t.slots[19] == Leaf("aba", 2)
  {
    Table(EmptySlots()[19 := Leaf("aba", 2)][20 := Leaf("abb", 3)])
  }

  /** The table under the node for `"a"` once `"ac"` is gone: the leaf of `"aa"` and the node for `"ab"`. */
  function ATable(): (t: Trie<int>)
    ensures Wf(t) && t.slots[19] == Leaf("aa", 1) && t.slots[20] == Node("ab", AbTable())
    ensures forall i :: 0 <= i < |t.slots| && i != 19 && i != 20 ==> t.slots[i].Empty?
  {
    Table(EmptySlots()[19 := Leaf("aa", 1)][20 := Node("ab", AbTable())])
  }

  /**
   * The top table of `"aa"`, `"aba"`, `"abb"` and `"ac"` after the leaf of `"ac"` (route
   * `[19, 21]`) has been cleared.
   */
  function AfterDeletion(): (t: Trie<int>)
    ensures Wf(t) && t.slots[19] == Node("a", ATable()) && Route(t, [19])
  {
    Table(EmptySlots()[19 := Node("a", ATable())])
  }

  lemma ScanSkipsEmpty<V>(s: seq<Entry<V>>, i: nat, j: nat, keyCount: nat, tupleCount: nat, remaining: Option<(string, V)>)
    requires i <= j <= |s| && (tupleCount == 0 <==> remaining.None?)
    requires forall m :: i <= m < j ==> s[m].Empty?
    requires !((keyCount == 1 && tupleCount == 0) || tupleCount > 1)
    ensures ScanAsWritten(s, i, keyCount, tupleCount, remaining) == ScanAsWritten(s, j, keyCount, tupleCount, remaining)
    decreases j - i
  {
    if i < j {
      ScanSkipsEmpty(s, i + 1, j, keyCount, tupleCount, remaining);
    }
  }

  /** The scan of the level-1 table counts one leaf and one node and never gives up. */
  lemma ExampleScan()
    ensures ScanAsWritten(ATable().slots, 0, 0, 0, None) == Some((1, Some(("aa", 1))))
  {
    var s := ATable().slots;
    ScanSkipsEmpty(s, 0, 19, 0, 0, None);
    assert ScanAsWritten(s, 19, 0, 0, None) == ScanAsWritten(s, 20, 0, 1, Some(("aa", 1)));
    assert ScanAsWritten(s, 20, 0, 1, Some(("aa", 1))) == ScanAsWritten(s, 21, 1, 1, Some(("aa", 1)));
    ScanSkipsEmpty(s, 21, 27, 1, 1, Some(("aa", 1)));
  }

  /** Before the collapse, the descent finds `"aba"` two levels down. */
  lemma ExampleFindsAba()
    ensures Lookup(AtTable(AfterDeletion()), "aba") == Some(2)
  {
    assert Hash("aba", 0) == 19 && Hash("aba", 1) == 20 && Hash("aba", 2) == 19;
    SlotValue(AfterDeletion(), "aba", 0);
    SlotValue(ATable(), "aba", 1);
    SlotValue(AbTable(), "aba", 2);
  }

  /** The collapse as written folds top slot 19 into the leaf of `"aa"`. */
  lemma ExampleCollapse()
    ensures CollapseAsWritten(AfterDeletion(), [19, 21], 1, 0, None) == Table(AfterDeletion().slots[19 := Leaf("aa", 1)])
  {
    var path: seq<nat> := [19, 21];
    assert path[..1] == [19] && Sub(AfterDeletion(), path[..1]) == ATable();
    ExampleScan();
  }

  /**
   * The collapse as written scans the level-1 table, counts the leaf of `"aa"` before it
   * meets the node, and folds the top slot into that leaf: `"aba"` is lost.
   */
  lemma CollapseAsWrittenLosesKeys()
    ensures Lookup(AtTable(AfterDeletion()), "aba") == Some(2)
    ensures Lookup(AtTable(CollapseAsWritten(AfterDeletion(), [19, 21], 1, 0, None)), "aba").None?
  {
    ExampleFindsAba();
    ExampleCollapse();
    ExampleFoldedMissesAba();
  }

  /** Once top slot 19 holds the leaf of `"aa"`, the descent for `"aba"` stops there. */
  lemma ExampleFoldedMissesAba()
    ensures Lookup(AtTable(Table(AfterDeletion().slots[19 := Leaf("aa", 1)])), "aba").None?
  {
    var r := Table(AfterDeletion().slots[19 := Leaf("aa", 1)]);
    assert Hash("aba", 0) == 19 && r.slots[19] == Leaf("aa", 1);
    SlotValue(r, "aba", 0);
  }

  /** How `__setitem__` ends. */
  datatype SetOutcome =
    | Ignored       // an empty key: the loop never runs
    | NotATable     // the cursor is a leaf's value, so indexing it fails (`TypeError`)
    | Inserted      // an empty slot took the pair
    | Updated       // the leaf for the key was overwritten
    | ReplacedNode  // a node whose prefix equals the key was overwritten by the pair
    | Dropped       // the key ran out after a split or a descent: nothing stored, cursor left below

  /** How `__delitem__` ends: deleted, `KeyError`, or `TypeError` from `len(None)`. */
  datatype Status = Ok | KeyError | TypeError

  class InfiniteHashTable<V> {
    /** The cursor `self.table`: the top table, or wherever an operation that failed left it. */
    var table: Cursor<V>
    var count: int

    ghost predicate Valid()
      reads this
    {
      table.AtTable? ==> Wf(table.trie)
    }

    /** The cursor is on a top table whose leaves all sit on their keys' slots. */
    ghost predicate Sound()
      reads this
    {
      table.AtTable? && Wf(table.trie) && Placed(table.trie, [])
    }

    /** The map the table stands for: what a descent from the cursor finds for each key. */
    ghost function Get(key: string): Option<V>
      reads this
      requires Valid()
    {
      Lookup(table, key)
    }

    constructor()
      ensures Sound() && count == 0 && table == AtTable(Table(EmptySlots()))
      ensures forall k :: Get(k).None?
    {
      table := AtTable(Table(EmptySlots()));
      count := 0;
    }

    /** `len(table)`: the counter, which the operations below adjust. */
    function Len(): (r: int)
      reads this
      ensures r == count
    {
      count
    }

    /** `get_location`: on falling off the end it leaves the cursor on the value it reached. */
    method GetLocation(key: string) returns (r: Location<V>)
      requires Valid()
      modifies this`table
      ensures r == old(Walk(table, key, 0))
      ensures table == if r.FellOff? then r.cursor else old(table)
      ensures Valid() && (r.FellOff? ==> table.AtValue?)
    {
      r := Descend(table, key);
      if r.FellOff? {
        FellOffAtValue(table, key, 0);
        table := r.cursor;
      }
    }

    /** `table[key]`, with `None` for `KeyError`: the value the descent finds. */
    method GetItem(key: string) returns (r: Option<V>)
      requires Valid()
      ensures r == Get(key)
    {
      var location := Descend(table, key);
      r := if location.Found? then Some(location.value) else None;
    }

    /** `key in table`. */
    method Contains(key: string) returns (b: bool)
      requires Valid()
      ensures b <==> Get(key).Some?
    {
      var r := GetItem(key);
      b := r.Some?;
    }

    /**
     * `table[key] = value`: an empty key or a cursor on a leaf's value stores nothing;
     * otherwise the descent of `Store` is run from the cursor. `root` is the top table as
     * the operation leaves it and `path` the route to the table the cursor ends on.
     */
    method SetItem(key: string, value: V) returns (r: SetOutcome, ghost root: Trie<V>, ghost path: seq<nat>)
      requires Valid()
      modifies this
      ensures Valid()
      ensures r.Ignored? <==> |key| == 0
      ensures r.NotATable? <==> |key| > 0 && old(table).AtValue?
      ensures r.Ignored? || r.NotATable? ==> table == old(table) && count == old(count)
      ensures r.Inserted? || r.Updated? || r.ReplacedNode? ==> table == AtTable(root) && Get(key) == Some(value)
      ensures r.Inserted? ==> old(Get(key)).None? && count == old(count) + 1
      ensures r.Updated? ==> old(Get(key)).Some? && count == old(count)
      ensures r.ReplacedNode? || r.Dropped? ==> count == old(count)
      ensures r.Inserted? || r.Updated? ==> forall k :: k != key ==> Get(k) == old(Get(k))
      ensures r.ReplacedNode? ==> forall k :: k != key ==> Get(k) == old(Get(k)) || Get(k).None?
      ensures r.ReplacedNode? ==>
                |path| < |key| && (forall k :: Get(k) != old(Get(k)) ==> OnPath(k, 0, path + [Hash(key, |path|)]))
      ensures r.Dropped? ==> Wf(root) && Route(root, path) && |path| == |key| && table == AtTable(Sub(root, path))
      ensures r.Dropped? ==> forall k :: Lookup(AtTable(root), k) == old(Get(k))
      ensures old(Sound()) && (r.Inserted? || r.Updated? || r.ReplacedNode?) ==> Sound()
    {
      root, path := Table([]), [];
      if |key| == 0 {
        return Ignored, root, path;
      }
      if table.AtValue? {
        return NotATable, root, path;
      }
      var t, route, cur;
      r, t, route, cur := Store(table.trie, key, value);
      if r.Inserted? {
        count := count + 1;
      }
      table := if r.Dropped? then AtTable(cur) else AtTable(t);
      root, path := t, route;
    }

    /**
     * `del table[key]`: clear the key's leaf, then fold the top slot of its path into the
     * one leaf left below it when the collapse check allows.
     */
    method DelItem(key: string) returns (st: Status, ghost cleared: Trie<V>, ghost path: seq<nat>)
      requires Valid()
      modifies this
      ensures Valid()
      ensures st.Ok? <==> old(Get(key)).Some?
      ensures st.TypeError? <==> old(Walk(table, key, 0)).FellOff?
      ensures st.KeyError? ==> table == old(table) && count == old(count)
      ensures st.TypeError? ==> table == old(Walk(table, key, 0)).cursor && table.AtValue? && count == old(count)
      ensures st.Ok? ==> table.AtTable? && count == old(count) - 1
      ensures st.Ok? ==> forall k :: k != key && old(Get(k)).Some? ==> Get(k) == old(Get(k))
      ensures st.Ok? && old(Sound()) ==> Sound() && forall k :: Get(k) == if k == key then None else old(Get(k))
      ensures st.Ok? ==> old(table).AtTable? && old(Walk(table, key, 0)).Found? && path == old(Walk(table, key, 0)).path
                         && |path| >= 1 && Route(old(table).trie, path[..|path| - 1])
                         && path[|path| - 1] < |Sub(old(table).trie, path[..|path| - 1]).slots|
                         && cleared == Put(old(table).trie, path[..|path| - 1], path[|path| - 1], Empty)
                         && Route(cleared, path[..|path| - 1]) && table == AtTable(Folded(cleared, path))
    {
      cleared, path := Table([]), [];
      var location := GetLocation(key);
      if location.Missing? {
        return KeyError, cleared, path;
      }
      if location.FellOff? {
        return TypeError, cleared, path;
      }
      var t := table.trie;
      LocationSound(t, key, 0);
      var level := |location.path| - 1;
      var q := location.path[..level];
      var pos := location.path[level];
      assert location.path == q + [pos];
      ClearLeaf(t, q, pos, key, location.value);
      t := Put(t, q, pos, Empty);
      PutShape(table.trie, q, pos, Empty);
      cleared, path := t, location.path;
      count := count - 1;
      t := Collapse(t, location.path);
      table := AtTable(t);
      st := Ok;
    }
  }
}
