/** The linked hash table of src/linked-hash-table.c: INIT_HASH slots
    addressed by double hashing, every live entry also threaded into an
    insertion-ordered doubly linked list. */
module LinkedHashTable {
  import opened Wrappers
  import opened Hashing
  import opened Probing
  import opened Arena

  /** The cursor setting of lht_iter: KEEP goes on from the cursor, any
      other setting starts again from the first entry. */
  datatype IterSetting = Begin | Keep

  class Table<V> {
    /** The slot array: an arena index per slot, NULL for an empty slot. */
    const raw: array<int>
    /** Every entry record ever allocated; freed records stay, unreachable. */
    var arena: seq<Entry<V>>
    var first: int
    var last: int
    var size: nat
    var capacity: nat
    /** lht_iterator_current, the cursor of lht_iter. */
    var current: int
    /** The live entries, first to last. */
    ghost var order: seq<int>

    ghost predicate Valid()
      reads this, raw
    {
      && raw.Length == INIT_HASH
      && capacity == INIT_HASH
      && -1 <= current < |arena|
      && size == |order|
      && Consistent(raw[..], arena, order, first, last)
    }

    /** Every slot is NULL or an index into the arena. */
    ghost predicate SlotsInArena()
      reads this, raw
    {
      raw.Length == INIT_HASH && InArena(raw[..], |arena|)
    }

    /** The tail's next link is NULL (lht_pop_entry does not keep this). */
    ghost predicate Tidy()
      reads this, raw
      requires Valid()
    {
      Arena.Tidy(arena, order, last)
    }

    /** The key held by each slot, as the probe loops compare them. */
    ghost function SlotKeys(): (keys: seq<Option<string>>)
      reads this, raw
      requires SlotsInArena()
      ensures |keys| == INIT_HASH
    {
      KeysOf(raw[..], arena)
    }

    /** The entry lht_leak_entry would remove for key may be unlinked
        without breaking the list: it is not the tail while the tail's next
        link still points at an entry lht_pop_entry freed and other entries
        remain. The last remaining entry may always be removed: the write
        through its stale link lands in a freed record, and the table ends
        empty. */
    ghost predicate LeakSafe(key: string)
      reads this, raw
      requires Valid() && FirstHit(SlotKeys(), key, 0) < INIT_HASH
    {
      var s := Lookup(SlotKeys(), key);
      s == NULL || raw[s] != last || arena[last].next == NULL || |order| == 1
    }

    /** On a tidy table, such as every operation but lht_pop_entry leaves,
        every entry lht_leak_entry can find may be removed. */
    lemma TidyLeakSafe(key: string)
      requires Valid() && Tidy() && FirstHit(SlotKeys(), key, 0) < INIT_HASH
      ensures LeakSafe(key)
    {
    }

    /** lht_init, on the path where both allocations succeed. */
    constructor ()
      ensures Valid() && Tidy()
      ensures fresh(raw)
      ensures forall s | 0 <= s < INIT_HASH :: raw[s] == NULL
      ensures size == 0 && capacity == INIT_HASH && first == NULL && last == NULL
      ensures order == [] && arena == []
    {
      var slots := new int[INIT_HASH];
      for s := 0 to INIT_HASH
        invariant forall k | 0 <= k < s :: slots[k] == NULL
      {
        slots[s] := NULL;
      }
      raw := slots;
      size := 0;
      capacity := INIT_HASH;
      first := NULL;
      last := NULL;
      current := NULL;
      arena := [];
      order := [];
    }

    /** lht_init: NULL when an allocation fails, otherwise an empty table. */
    static method Init(allocOk: bool) returns (t: Table?<V>)
      ensures !allocOk ==> t == null
      ensures allocOk ==> t != null && fresh(t) && fresh(t.raw) && t.Valid() && t.Tidy()
      ensures allocOk ==> t.size == 0 && t.capacity == INIT_HASH && t.first == NULL && t.last == NULL
      ensures allocOk ==> forall s | 0 <= s < INIT_HASH :: t.raw[s] == NULL
    {
      if !allocOk {
        return null;
      }
      t := new Table();
    }

    /** lht_get_index: walk the probe sequence of key until an empty slot or
        a slot holding key. The loop ends only when such a slot lies on the
        sequence (see LookupNeverStops). */
    method GetIndex(key: string) returns (idx: int)
      requires SlotsInArena()
      requires FirstHit(SlotKeys(), key, 0) < INIT_HASH
      ensures idx == Lookup(SlotKeys(), key)
      ensures idx >= 0 ==> idx < INIT_HASH && raw[idx] != NULL && arena[raw[idx]].key == key
    {
      ghost var keys := SlotKeys();
      ghost var stop := FirstHit(keys, key, 0);
      var init := CalculateHash1(key);
      var i := init;
      var round := 1;
      while raw[i] != NULL
        invariant 1 <= round <= stop + 1
        invariant 0 <= i < INIT_HASH && i == Probe(key, round - 1)
        decreases stop + 1 - round
      {
        assert keys[i] == Some(arena[raw[i]].key);
        if arena[raw[i]].key == key {
          assert !Passed(keys, key, round - 1);
          assert stop == round - 1;
          return i;
        }
        assert !Hit(keys, key, round - 1);
        assert round - 1 != stop;
        i := Rehash(key, init, round);
        round := round + 1;
      }
      assert keys[i] == None;
      assert !Passed(keys, key, round - 1);
      assert stop == round - 1;
      return NULL;
    }

    /** lht_get_entry: the value of the entry lht_get_index finds, or NULL. */
    method GetEntry(key: string) returns (v: Option<V>)
      requires Valid()
      requires FirstHit(SlotKeys(), key, 0) < INIT_HASH
      ensures Lookup(SlotKeys(), key) == NULL ==> v == None
      ensures Lookup(SlotKeys(), key) != NULL ==>
                var e := raw[Lookup(SlotKeys(), key)];
                e in order && arena[e].key == key && v == Some(arena[e].value)
    {
      var i := GetIndex(key);
      v := if i >= 0 then Some(arena[raw[i]].value) else None;
    }

    /** The collision loop of lht_insert_entry: walk the probe sequence of
        key until an empty slot. It ends only when an empty slot lies on the
        sequence (see InsertNeverStops). */
    method ProbeEmpty(key: string) returns (i: int)
      requires SlotsInArena()
      requires FirstFree(SlotKeys(), key, 0) < INIT_HASH
      ensures i == Probe(key, FirstFree(SlotKeys(), key, 0))
      ensures 0 <= i < INIT_HASH && raw[i] == NULL
    {
      ghost var keys := SlotKeys();
      ghost var stop := FirstFree(keys, key, 0);
      var firstHash := CalculateHash1(key);
      i := firstHash;
      var round := 1;
      while raw[i] != NULL
        invariant 1 <= round <= stop + 1
        invariant 0 <= i < INIT_HASH && i == Probe(key, round - 1)
        decreases stop + 1 - round
      {
        assert keys[i] == Some(arena[raw[i]].key);
        assert !Free(keys, key, round - 1);
        assert round - 1 != stop;
        i := Rehash(key, firstHash, round);
        round := round + 1;
      }
      assert keys[i] == None;
      assert !Occupied(keys, key, round - 1);
      assert stop == round - 1;
    }

    /** lht_insert_entry: put a new entry in the first empty slot of the
        probe sequence of key and append it to the order list. No check for
        an entry with the same key is made. Returns -1 when the allocation
        of the entry fails, before anything is touched; the probe loop ends
        only when an empty slot lies on the sequence (see InsertNeverStops). */
    method Insert(key: string, value: V, allocOk: bool) returns (rc: int)
      requires Valid()
      requires allocOk ==> FirstFree(SlotKeys(), key, 0) < INIT_HASH
      modifies this, raw
      ensures Valid()
      ensures rc == if allocOk then 0 else -1
      ensures !allocOk ==> unchanged(this) && unchanged(raw)
      ensures allocOk ==>
                var s := Probe(key, FirstFree(old(SlotKeys()), key, 0));
                var n := |old(arena)|;
                && raw[..] == old(raw[..])[s := n]
                && SlotKeys() == old(SlotKeys())[s := Some(key)]
                && arena == Append(old(arena), old(last), key, value, s)
                && arena[n] == Entry(key, value, NULL, old(last), s)
                && order == old(order) + [n]
                && size == old(size) + 1
                && first == (if old(first) == NULL then n else old(first))
                && last == n
                && current == old(current) && capacity == old(capacity)
                && Tidy()
    {
      if !allocOk {
        return -1;
      }
      var i := ProbeEmpty(key);
      Place(i, key, value);
      return 0;
    }

    /** The storing half of lht_insert_entry, once the empty slot i is
        known: a new entry for key goes into slot i and is linked behind the
        tail, or becomes the only entry of an empty list. */
    method Place(i: int, key: string, value: V)
      requires Valid()
      requires 0 <= i < INIT_HASH && raw[i] == NULL
      modifies this, raw
      ensures Valid() && Tidy()
      ensures var n := |old(arena)|;
              && raw[..] == old(raw[..])[i := n]
              && SlotKeys() == old(SlotKeys())[i := Some(key)]
              && arena == Append(old(arena), old(last), key, value, i)
              && arena[n] == Entry(key, value, NULL, old(last), i)
              && order == old(order) + [n]
              && size == old(size) + 1
              && first == (if old(first) == NULL then n else old(first))
              && last == n
              && current == old(current) && capacity == old(capacity)
    {
      Link(i, key, value);
      InsertStep(old(raw[..]), old(arena), old(order), old(first), old(last), key, value, i,
                 raw[..], arena, order, first, last);
    }

    /** The writes of lht_insert_entry: the new record goes at the end of
        the arena, into slot i, and behind the tail (or becomes both ends). */
    method Link(i: int, key: string, value: V)
      requires raw.Length == INIT_HASH && 0 <= i < INIT_HASH
      requires LinksInArena(arena) && -1 <= last < |arena|
      requires first == NULL <==> last == NULL
      modifies this, raw
      ensures var n := |old(arena)|;
              && raw[..] == old(raw[..])[i := n]
              && arena == Append(old(arena), old(last), key, value, i)
              && order == old(order) + [n]
              && size == old(size) + 1
              && first == (if old(first) == NULL then n else old(first))
              && last == n
              && current == old(current) && capacity == old(capacity)
    {
      var n := |arena|;
      raw[i] := n;
      size := size + 1;
      if first == NULL {
        arena := arena + [Entry(key, value, NULL, NULL, i)];
        first, last := n, n;
      } else {
        arena := arena[last := arena[last].(next := n)] + [Entry(key, value, NULL, last, i)];
        last := n;
      }
      order := order + [n];
    }

    /** lht_leak_entry: remove the entry lht_get_index finds for key and
        return its value; NULL, with nothing changed, when there is none. The
        slot is simply emptied: no tombstone is left behind. */
    method Leak(key: string) returns (v: Option<V>)
      requires Valid()
      requires FirstHit(SlotKeys(), key, 0) < INIT_HASH
      requires LeakSafe(key)
      modifies this, raw
      ensures Valid()
      ensures old(Lookup(SlotKeys(), key)) == NULL ==> v == None && unchanged(this) && unchanged(raw)
      ensures old(Lookup(SlotKeys(), key)) != NULL ==>
                var s := old(Lookup(SlotKeys(), key));
                var e := old(raw[s]);
                var p := IndexOf(old(order), e);
                && v == Some(old(arena[e].value))
                && old(arena[e].key) == key
                && raw[..] == old(raw[..])[s := NULL]
                && SlotKeys() == old(SlotKeys())[s := None]
                && arena == Unlink(old(arena), e)
                && order == old(order)[..p] + old(order)[p + 1..]
                && size == old(size) - 1
                && first == (if order == [] then NULL else if old(arena[e].prev) == NULL then old(arena[e].next) else old(first))
                && last == (if order == [] then NULL else if old(arena[e].next) == NULL then old(arena[e].prev) else old(last))
                && current == old(current) && capacity == old(capacity)
                && (old(Tidy()) ==> Tidy())
    {
      var i := GetIndex(key);
      if i < 0 {
        return None;
      }
      var value := Remove(i);
      v := Some(value);
    }

    /** lht_leak_entry once the slot i of the entry is known. */
    method Remove(i: int) returns (v: V)
      requires Valid()
      requires 0 <= i < INIT_HASH && raw[i] != NULL
      requires raw[i] != last || arena[last].next == NULL || |order| == 1
      modifies this, raw
      ensures Valid()
      ensures var e := old(raw[i]);
              var p := IndexOf(old(order), e);
              && e in old(order)
              && v == old(arena[e].value)
              && raw[..] == old(raw[..])[i := NULL]
              && SlotKeys() == old(SlotKeys())[i := None]
              && arena == Unlink(old(arena), e)
              && order == old(order)[..p] + old(order)[p + 1..]
              && size == old(size) - 1
              && first == (if order == [] then NULL else if old(arena[e].prev) == NULL then old(arena[e].next) else old(first))
              && last == (if order == [] then NULL else if old(arena[e].next) == NULL then old(arena[e].prev) else old(last))
              && current == old(current) && capacity == old(capacity)
              && (old(Tidy()) ==> Tidy())
    {
      var e := raw[i];
      assert e in order;
      ghost var p := IndexOf(order, e);
      v := Vacate(i, p);
      LeakStep(old(raw[..]), old(arena), old(order), old(first), old(last), p, raw[..], arena, order, first, last);
    }

    /** The removal half of lht_leak_entry, once the slot i of the entry is
        known: unlink the entry, empty its slot and count it out; the list
        ends are reset to NULL when the table becomes empty. The entry is at
        position p of the order list. */
    method Vacate(i: int, ghost p: nat) returns (v: V)
      requires raw.Length == INIT_HASH && LinksInArena(arena)
      requires 0 <= i < INIT_HASH && 0 <= raw[i] < |arena|
      requires p < |order| == size
      modifies this, raw
      ensures var e := old(raw[i]);
              var order' := old(order)[..p] + old(order)[p + 1..];
              && v == old(arena[e].value)
              && raw[..] == old(raw[..])[i := NULL]
              && arena == Unlink(old(arena), e)
              && order == order'
              && size == old(size) - 1
              && first == (if order' == [] then NULL else if old(arena[e].prev) == NULL then old(arena[e].next) else old(first))
              && last == (if order' == [] then NULL else if old(arena[e].next) == NULL then old(arena[e].prev) else old(last))
              && current == old(current) && capacity == old(capacity)
    {
      var e := raw[i];
      v := arena[e].value;
      Bypass(e);
      raw[i] := NULL;
      size := size - 1;
      if size == 0 {
        first, last := NULL, NULL;
      }
      order := order[..p] + order[p + 1..];
    }

    /** The relinking step of lht_leak_entry: e's successor and predecessor
        (or the list ends) are made to bypass e. */
    method Bypass(e: int)
      requires LinksInArena(arena) && 0 <= e < |arena|
      modifies this`arena, this`first, this`last
      ensures arena == Unlink(old(arena), e)
      ensures first == if old(arena[e].prev) == NULL then old(arena[e].next) else old(first)
      ensures last == if old(arena[e].next) == NULL then old(arena[e].prev) else old(last)
    {
      var nx, pv := arena[e].next, arena[e].prev;
      if nx != NULL {
        arena := arena[nx := arena[nx].(prev := pv)];
      } else {
        last := pv;
      }
      if pv != NULL {
        arena := arena[pv := arena[pv].(next := nx)];
      } else {
        first := nx;
      }
    }

    /** lht_get_size. */
    method GetSize() returns (n: nat)
      requires Valid()
      ensures n == |order|
    {
      n := size;
    }

    /** lht_iter: move the cursor to the first entry, or with KEEP to the
        cursor's successor (the cursor must not be NULL), and return the
        value under it, NULL when it became NULL. */
    method Iter(setting: IterSetting) returns (v: Option<V>)
      requires Valid()
      requires setting == Keep ==> current != NULL
      modifies this`current
      ensures Valid()
      ensures setting == Begin ==> current == (if order == [] then NULL else order[0])
      ensures setting == Keep ==> current == arena[old(current)].next
      ensures setting == Keep ==>
                forall k | 0 <= k < |order| - 1 :: old(current) == order[k] ==> current == order[k + 1]
      ensures setting == Keep && Tidy() && old(current) == last ==> current == NULL
      ensures v == if current == NULL then None else Some(arena[current].value)
    {
      var next;
      if setting == Keep {
        forall k | 0 <= k < |order| - 1
          ensures arena[order[k]].next == order[k + 1]
        {
          assert NextAt(arena, order, k);
        }
        next := arena[current].next;
      } else {
        next := first;
      }
      current := next;
      v := if next != NULL then Some(arena[next].value) else None;
    }

    /** lht_pop_entry: remove the last entry of the order list and return its
        value; NULL on an empty table. The new tail's next link is left
        pointing at the removed entry. */
    method Pop() returns (v: Option<V>)
      requires Valid()
      modifies this, raw
      ensures Valid()
      ensures old(last) == NULL ==> v == None && unchanged(this) && unchanged(raw)
      ensures old(last) != NULL ==>
                && v == Some(old(arena[last].value))
                && raw[..] == old(raw[..])[old(arena[last].i) := NULL]
                && order == old(order)[..|old(order)| - 1]
                && size == old(size) - 1
                && last == (if size == 0 then NULL else old(arena[last].prev))
                && first == (if size == 0 then NULL else old(first))
                && arena == old(arena)
                && current == old(current) && capacity == old(capacity)
    {
      if last == NULL {
        return None;
      }
      var value := Drop();
      PopStep(old(raw[..]), arena, old(order), old(first), old(last), raw[..], order, first, last);
      v := Some(value);
    }

    /** lht_pop_entry as evidently intended: as Pop, and the new tail's
        next link is set to NULL, so the table stays tidy. */
    method PopUnlinked() returns (v: Option<V>)
      requires Valid()
      modifies this, raw
      ensures Valid() && Tidy()
      ensures old(last) == NULL ==> v == None && unchanged(this) && unchanged(raw)
      ensures old(last) != NULL ==>
                && v == Some(old(arena[last].value))
                && raw[..] == old(raw[..])[old(arena[last].i) := NULL]
                && SlotKeys() == old(SlotKeys())[old(arena[last].i) := None]
                && order == old(order)[..|old(order)| - 1]
                && size == old(size) - 1
                && last == (if size == 0 then NULL else old(arena[last].prev))
                && first == (if size == 0 then NULL else old(first))
                && arena == (if last == NULL then old(arena) else old(arena)[last := old(arena)[last].(next := NULL)])
                && current == old(current) && capacity == old(capacity)
    {
      if last == NULL {
        return None;
      }
      var value := Drop();
      if last != NULL {
        arena := arena[last := arena[last].(next := NULL)];
      }
      PopTidyStep(old(raw[..]), old(arena), old(order), old(first), old(last), raw[..], arena, order, first, last);
      v := Some(value);
    }

    /** The writes of lht_pop_entry: empty the tail's slot, step the tail
        back along its prev link and count the entry out; both ends become
        NULL once the table is empty. */
    method Drop() returns (v: V)
      requires raw.Length == INIT_HASH && 0 <= last < |arena| && 0 <= arena[last].i < INIT_HASH
      requires |order| == size > 0
      modifies this, raw
      ensures v == old(arena[last].value)
      ensures raw[..] == old(raw[..])[old(arena[last].i) := NULL]
      ensures order == old(order)[..|old(order)| - 1] && size == old(size) - 1
      ensures last == (if size == 0 then NULL else old(arena[last].prev))
      ensures first == (if size == 0 then NULL else old(first))
      ensures arena == old(arena) && current == old(current) && capacity == old(capacity)
    {
      raw[arena[last].i] := NULL;
      v := arena[last].value;
      var tmp := arena[last].prev;
      last := tmp;
      size := size - 1;
      if size == 0 {
        first, last := NULL, NULL;
      }
      order := order[..|order| - 1];
    }
  }
}
