/** The entries of a table (lht_entry_t records) as an arena indexed by
    small integers, with NULL as -1; the order list threaded through their
    next/prev links; and the slot array that points at them. */
module Arena {
  import opened Wrappers
  import opened Hashing

  /** The NULL pointer, as an arena index. */
  const NULL: int := -1

  /** An lht_entry_t: key, value, the order-list links and the index i of
      the slot that holds it. */
  datatype Entry<V> = Entry(key: string, value: V, next: int, prev: int, i: int)

  /** Every link of every record points into the arena or is NULL, and every
      slot index is a slot. Records of freed entries stay in the arena. */
  ghost predicate LinksInArena<V>(arena: seq<Entry<V>>)
  {
    forall e | 0 <= e < |arena| ::
      -1 <= arena[e].next < |arena| && -1 <= arena[e].prev < |arena| && 0 <= arena[e].i < INIT_HASH
  }

  /** Positions a and b of s hold different entries. Distinct and the link
      facts below are stated through such named predicates, so that a proof
      draws on them only for the positions it names. */
  ghost predicate Apart(s: seq<int>, a: int, b: int)
    requires 0 <= a < |s| && 0 <= b < |s|
  {
    s[a] != s[b]
  }

  ghost predicate Distinct(s: seq<int>)
  {
    forall a, b | 0 <= a < b < |s| :: Apart(s, a, b)
  }

  /** The entry at position k links forward to the entry at position k + 1. */
  ghost predicate NextAt<V>(arena: seq<Entry<V>>, order: seq<int>, k: int)
    requires 0 <= k < |order| - 1 && 0 <= order[k] < |arena|
  {
    arena[order[k]].next == order[k + 1]
  }

  /** The entry at position k links back to the entry at position k - 1. */
  ghost predicate PrevAt<V>(arena: seq<Entry<V>>, order: seq<int>, k: int)
    requires 0 < k < |order| && 0 <= order[k] < |arena|
  {
    arena[order[k]].prev == order[k - 1]
  }

  /** The list invariant. The order list `order` (the live entries, first to last) is threaded
      through the next/prev links from `first` to `last`, and is empty exactly
      when both ends are NULL. The tail's next link is NULL or still points at
      an entry that is no longer live: lht_pop_entry leaves it so. */
  ghost predicate Threaded<V>(arena: seq<Entry<V>>, order: seq<int>, first: int, last: int)
  {
    && Distinct(order)
    && (forall k | 0 <= k < |order| :: 0 <= order[k] < |arena|)
    && (order == [] ==> first == NULL && last == NULL)
    && (order != [] ==>
          && first == order[0] && last == order[|order| - 1]
          && arena[first].prev == NULL
          && arena[last].next !in order)
    && (forall k | 0 <= k < |order| - 1 :: NextAt(arena, order, k))
    && (forall k | 0 < k < |order| :: PrevAt(arena, order, k))
  }

  /** The tail's next link is NULL, as every operation but lht_pop_entry leaves it. */
  ghost predicate Tidy<V>(arena: seq<Entry<V>>, order: seq<int>, last: int)
    requires 0 <= last < |arena| || order == []
  {
    order != [] ==> arena[last].next == NULL
  }

  /** Every non-NULL slot holds a live entry whose i is that slot, and every
      live entry sits in the slot its i names: the slot invariant. */
  ghost predicate Slotted<V>(raw: seq<int>, arena: seq<Entry<V>>, order: seq<int>)
  {
    && |raw| == INIT_HASH
    && (forall s | 0 <= s < |raw| ::
          raw[s] == NULL || (raw[s] in order && 0 <= raw[s] < |arena| && arena[raw[s]].i == s))
    && (forall e | e in order :: 0 <= e < |arena| && 0 <= arena[e].i < |raw| && raw[arena[e].i] == e)
  }

  /** Every slot is NULL or an index into an arena of n records. */
  ghost predicate InArena(raw: seq<int>, n: int)
  {
    forall s | 0 <= s < |raw| :: -1 <= raw[s] < n
  }

  /** The invariant of a table's slots, records and order list: the slot
      invariant and the list invariant (Threaded). */
  ghost predicate Consistent<V>(raw: seq<int>, arena: seq<Entry<V>>, order: seq<int>, first: int, last: int)
  {
    && |raw| == INIT_HASH
    && InArena(raw, |arena|)
    && LinksInArena(arena)
    && Threaded(arena, order, first, last)
    && Slotted(raw, arena, order)
  }

  /** The key stored in each slot, as the probe loops compare them. */
  function KeysOf<V>(raw: seq<int>, arena: seq<Entry<V>>): (keys: seq<Option<string>>)
    requires InArena(raw, |arena|)
    ensures |keys| == |raw|
    ensures forall s | 0 <= s < |raw| :: keys[s] == if raw[s] == NULL then None else Some(arena[raw[s]].key)
  {
    seq(|raw|, s requires 0 <= s < |raw| => if raw[s] == NULL then None else Some(arena[raw[s]].key))
  }

  /** Position of x in s. */
  function IndexOf(s: seq<int>, x: int): (p: nat)
    requires x in s
    ensures p < |s| && s[p] == x
    ensures forall k | 0 <= k < p :: s[k] != x
  {
    if s[0] == x then 0 else 1 + IndexOf(s[1..], x)
  }

  /** The arena after a new record for (key, value) in slot `slot` is
      appended behind `last`, as lht_insert_entry links it. */
  function Append<V>(arena: seq<Entry<V>>, last: int, key: string, value: V, slot: int): (r: seq<Entry<V>>)
    requires LinksInArena(arena) && -1 <= last < |arena| && 0 <= slot < INIT_HASH
    ensures |r| == |arena| + 1 && LinksInArena(r)
    ensures r[|arena|] == Entry(key, value, NULL, last, slot)
    ensures forall x | 0 <= x < |arena| :: r[x] == if x == last then arena[x].(next := |arena|) else arena[x]
  {
    var linked := if last == NULL then arena else arena[last := arena[last].(next := |arena|)];
    linked + [Entry(key, value, NULL, last, slot)]
  }

  /** The arena after entry e is unlinked as lht_leak_entry does it: its
      successor's prev and its predecessor's next bypass it. */
  function Unlink<V>(arena: seq<Entry<V>>, e: int): (r: seq<Entry<V>>)
    requires LinksInArena(arena) && 0 <= e < |arena|
    ensures |r| == |arena| && LinksInArena(r)
    ensures forall x | 0 <= x < |arena| ::
              r[x].key == arena[x].key && r[x].value == arena[x].value && r[x].i == arena[x].i
  {
    var nx, pv := arena[e].next, arena[e].prev;
    var bypassed := if nx != NULL then arena[nx := arena[nx].(prev := pv)] else arena;
    if pv != NULL then bypassed[pv := bypassed[pv].(next := nx)] else bypassed
  }

  /** The entries met by following next links from `from`, at most `fuel` of them. */
  ghost function Walk<V>(arena: seq<Entry<V>>, from: int, fuel: nat): seq<int>
    requires LinksInArena(arena) && -1 <= from < |arena|
    decreases fuel
  {
    if from == NULL || fuel == 0 then [] else [from] + Walk(arena, arena[from].next, fuel - 1)
  }

  lemma {:induction false} WalkFrom<V>(arena: seq<Entry<V>>, order: seq<int>, first: int, last: int, k: nat, fuel: nat)
    requires LinksInArena(arena) && Threaded(arena, order, first, last) && Tidy(arena, order, last)
    requires k < |order| && fuel >= |order| - k
    ensures Walk(arena, order[k], fuel) == order[k..]
    decreases |order| - k
  {
    if k == |order| - 1 {
      assert arena[order[k]].next == NULL;
      assert Walk(arena, NULL, fuel - 1) == [];
    } else {
      assert NextAt(arena, order, k);
      WalkFrom(arena, order, first, last, k + 1, fuel - 1);
      assert order[k..] == [order[k]] + order[k + 1..];
    }
  }

  /** Following next links from first meets exactly the live entries in
      order and then NULL, whenever the tail link is NULL: the list
      invariant read as a walk. */
  lemma WalkIsOrder<V>(arena: seq<Entry<V>>, order: seq<int>, first: int, last: int, fuel: nat)
    requires LinksInArena(arena) && Threaded(arena, order, first, last) && Tidy(arena, order, last)
    requires fuel >= |order|
    ensures Walk(arena, first, fuel) == order
  {
    if order != [] {
      WalkFrom(arena, order, first, last, 0, fuel);
    }
  }

  /** Appending keeps the order list threaded, with the new entry at its tail
      and the tail link NULL. */
  lemma AppendKeepsThreaded<V>(arena: seq<Entry<V>>, order: seq<int>, first: int, last: int,
                               key: string, value: V, slot: int)
    requires LinksInArena(arena) && Threaded(arena, order, first, last) && 0 <= slot < INIT_HASH
    ensures var n := |arena|;
            var arena' := Append(arena, last, key, value, slot);
            && Threaded(arena', order + [n], if first == NULL then n else first, n)
            && Tidy(arena', order + [n], n)
  {
    var n := |arena|;
    var arena' := Append(arena, last, key, value, slot);
    var order' := order + [n];
    assert n !in order;
    forall a, b | 0 <= a < b < |order'| ensures Apart(order', a, b) {
      if b < |order| {
        assert Apart(order, a, b);
      }
    }
    forall k | 0 <= k < |order'| - 1 ensures NextAt(arena', order', k) {
      if k < |order| - 1 {
        assert NextAt(arena, order, k) && Apart(order, k, |order| - 1);
      }
    }
    forall k | 0 < k < |order'| ensures PrevAt(arena', order', k) {
      if k < |order| {
        assert PrevAt(arena, order, k);
      }
    }
  }

  /** Appending into an empty slot keeps the slot array consistent. */
  lemma AppendKeepsSlotted<V>(raw: seq<int>, arena: seq<Entry<V>>, order: seq<int>, last: int,
                              key: string, value: V, slot: int)
    requires LinksInArena(arena) && -1 <= last < |arena| && 0 <= slot < INIT_HASH
    requires Slotted(raw, arena, order) && raw[slot] == NULL
    requires forall k | 0 <= k < |order| :: 0 <= order[k] < |arena|
    ensures Slotted(raw[slot := |arena|], Append(arena, last, key, value, slot), order + [|arena|])
  {
    var n := |arena|;
    var arena' := Append(arena, last, key, value, slot);
    var raw' := raw[slot := n];
    var order' := order + [n];
    forall e | e in order' ensures 0 <= e < |arena'| && 0 <= arena'[e].i < |raw'| && raw'[arena'[e].i] == e {
      if e != n {
        assert e in order;
      }
    }
  }

  /** Removing position p from a sequence of distinct entries. */
  lemma RemoveAt(order: seq<int>, p: nat, order': seq<int>)
    requires Distinct(order) && p < |order| && order' == order[..p] + order[p + 1..]
    ensures |order'| == |order| - 1
    ensures forall k | 0 <= k < p :: order'[k] == order[k]
    ensures forall k | p <= k < |order'| :: order'[k] == order[k + 1]
    ensures Distinct(order')
    ensures forall x :: x in order' <==> x in order && x != order[p]
  {
    forall a, b | 0 <= a < b < |order'| ensures Apart(order', a, b) {
      var a0 := if a < p then a else a + 1;
      var b0 := if b < p then b else b + 1;
      assert order'[a] == order[a0] && order'[b] == order[b0] && Apart(order, a0, b0);
    }
    forall x ensures x in order' <==> x in order && x != order[p] {
      if x in order' {
        var k :| 0 <= k < |order'| && order'[k] == x;
        var k0 := if k < p then k else k + 1;
        assert order[k0] == x && k0 != p;
        assert if k0 < p then Apart(order, k0, p) else Apart(order, p, k0);
      }
      if x in order && x != order[p] {
        var k :| 0 <= k < |order| && order[k] == x;
        assert k != p;
        assert order'[if k < p then k else k - 1] == x;
      }
    }
  }

  /** What Unlink changes: the successor's prev and the predecessor's next. */
  lemma UnlinkEffect<V>(arena: seq<Entry<V>>, e: int)
    requires LinksInArena(arena) && 0 <= e < |arena|
    requires arena[e].next == NULL || arena[e].next != arena[e].prev
    ensures var nx, pv, arena' := arena[e].next, arena[e].prev, Unlink(arena, e);
            && (forall x | 0 <= x < |arena| && x != nx && x != pv :: arena'[x] == arena[x])
            && (nx != NULL ==> arena'[nx] == arena[nx].(prev := pv))
            && (pv != NULL ==> arena'[pv] == arena[pv].(next := nx))
  {
  }

  /** Unlinking the entry at position p of the order list, as lht_leak_entry
      does, keeps the list threaded, with the ends repaired. The tail may be
      unlinked only when its next link is NULL: otherwise lht_leak_entry
      writes through the stale link into a freed entry. */
  lemma UnlinkKeepsThreaded<V>(arena: seq<Entry<V>>, order: seq<int>, first: int, last: int, p: nat)
    requires LinksInArena(arena) && Threaded(arena, order, first, last)
    requires p < |order|
    requires p == |order| - 1 > 0 ==> arena[last].next == NULL
    ensures var order' := order[..p] + order[p + 1..];
            var nx, pv := arena[order[p]].next, arena[order[p]].prev;
            var first' := if order' == [] then NULL else if pv == NULL then nx else first;
            var last' := if order' == [] then NULL else if nx == NULL then pv else last;
            var arena' := Unlink(arena, order[p]);
            && Threaded(arena', order', first', last')
            && (Tidy(arena, order, last) ==> Tidy(arena', order', last'))
  {
    var n := |order|;
    var e := order[p];
    var nx, pv := arena[e].next, arena[e].prev;
    var order' := order[..p] + order[p + 1..];
    var first' := if order' == [] then NULL else if pv == NULL then nx else first;
    var last' := if order' == [] then NULL else if nx == NULL then pv else last;
    var arena' := Unlink(arena, e);
    RemoveAt(order, p, order');
    if n == 1 {
      // The only entry leaves: both ends become NULL, whatever its stale
      // next link made Unlink write into a freed record.
      return;
    }
    NeighboursOf(arena, order, first, last, p);
    if 0 < p < n - 1 {
      assert Apart(order, p - 1, p + 1);
    }
    UnlinkEffect(arena, e);
    UnlinkNextLinks(arena, order, p, order', arena');
    UnlinkPrevLinks(arena, order, p, order', arena');
    if order' != [] {
      if p == 0 {
        assert first' == nx == order'[0];
        assert arena'[nx].prev == NULL;
      } else {
        assert first' == first == order'[0];
        if p < n - 1 {
          assert Apart(order, 0, p + 1);
        }
        assert arena'[first].prev == NULL;
      }
      if p == n - 1 {
        assert last' == pv == order'[|order'| - 1];
        assert arena'[pv].next == NULL;
      } else {
        assert last' == last == order'[|order'| - 1];
        if p > 0 {
          assert Apart(order, p - 1, n - 1);
        }
        assert arena'[last].next == arena[last].next;
        assert arena[last].next !in order;
      }
    }
  }

  /** The neighbours of the entry at position p of a threaded list are the
      entries at positions p - 1 and p + 1, or NULL at the ends. */
  lemma NeighboursOf<V>(arena: seq<Entry<V>>, order: seq<int>, first: int, last: int, p: nat)
    requires LinksInArena(arena) && Threaded(arena, order, first, last)
    requires p < |order|
    requires p == |order| - 1 ==> arena[last].next == NULL
    ensures 0 <= order[p] < |arena|
    ensures arena[order[p]].prev == if p == 0 then NULL else order[p - 1]
    ensures arena[order[p]].next == if p == |order| - 1 then NULL else order[p + 1]
  {
    if p > 0 {
      assert PrevAt(arena, order, p);
    }
    if p < |order| - 1 {
      assert NextAt(arena, order, p);
    }
  }

  lemma UnlinkNextLinks<V>(arena: seq<Entry<V>>, order: seq<int>, p: nat, order': seq<int>, arena': seq<Entry<V>>)
    requires LinksInArena(arena) && Distinct(order) && p < |order|
    requires forall k | 0 <= k < |order| :: 0 <= order[k] < |arena|
    requires forall k | 0 <= k < |order| - 1 :: NextAt(arena, order, k)
    requires arena[order[p]].prev == if p == 0 then NULL else order[p - 1]
    requires arena[order[p]].next == if p == |order| - 1 then NULL else order[p + 1]
    requires order' == order[..p] + order[p + 1..]
    requires arena' == Unlink(arena, order[p])
    ensures forall k | 0 <= k < |order'| - 1 :: NextAt(arena', order', k)
  {
    var e := order[p];
    var nx, pv := arena[e].next, arena[e].prev;
    RemoveAt(order, p, order');
    if 0 < p < |order| - 1 {
      assert Apart(order, p - 1, p + 1);
    }
    UnlinkEffect(arena, e);
    forall k | 0 <= k < |order'| - 1 ensures NextAt(arena', order', k) {
      if k < p - 1 {
        assert NextAt(arena, order, k) && Apart(order, k, p - 1);
      } else if k == p - 1 {
        assert order'[k] == pv && order'[k + 1] == nx;
      } else {
        assert NextAt(arena, order, k + 1);
        if p > 0 {
          assert Apart(order, p - 1, k + 1);
        }
      }
    }
  }

  lemma UnlinkPrevLinks<V>(arena: seq<Entry<V>>, order: seq<int>, p: nat, order': seq<int>, arena': seq<Entry<V>>)
    requires LinksInArena(arena) && Distinct(order) && p < |order|
    requires forall k | 0 <= k < |order| :: 0 <= order[k] < |arena|
    requires forall k | 0 < k < |order| :: PrevAt(arena, order, k)
    requires arena[order[p]].prev == if p == 0 then NULL else order[p - 1]
    requires arena[order[p]].next == if p == |order| - 1 then NULL else order[p + 1]
    requires order' == order[..p] + order[p + 1..]
    requires arena' == Unlink(arena, order[p])
    ensures forall k | 0 < k < |order'| :: PrevAt(arena', order', k)
  {
    var e := order[p];
    var nx, pv := arena[e].next, arena[e].prev;
    RemoveAt(order, p, order');
    if 0 < p < |order| - 1 {
      assert Apart(order, p - 1, p + 1);
    }
    UnlinkEffect(arena, e);
    forall k | 0 < k < |order'| ensures PrevAt(arena', order', k) {
      if k < p {
        assert PrevAt(arena, order, k);
        if p < |order| - 1 {
          assert Apart(order, k, p + 1);
        }
      } else if k == p {
        assert order'[k] == nx && order'[k - 1] == pv;
      } else {
        assert PrevAt(arena, order, k + 1) && Apart(order, p + 1, k + 1);
      }
    }
  }

  /** Dropping the tail from the order list, as lht_pop_entry does, keeps it
      threaded: the new tail's next link is left pointing at the old tail. */
  lemma DropLastKeepsThreaded<V>(arena: seq<Entry<V>>, order: seq<int>, first: int, last: int)
    requires LinksInArena(arena) && Threaded(arena, order, first, last) && order != []
    ensures var order' := order[..|order| - 1];
            Threaded(arena, order', if order' == [] then NULL else first,
                                    if order' == [] then NULL else arena[last].prev)
  {
    var n := |order|;
    var order' := order[..n - 1];
    forall a, b | 0 <= a < b < |order'| ensures Apart(order', a, b) {
      assert Apart(order, a, b);
    }
    forall k | 0 <= k < |order'| - 1 ensures NextAt(arena, order', k) {
      assert NextAt(arena, order, k);
    }
    forall k | 0 < k < |order'| ensures PrevAt(arena, order', k) {
      assert PrevAt(arena, order, k);
    }
    if n > 1 {
      assert PrevAt(arena, order, n - 1) && NextAt(arena, order, n - 2);
      forall k | 0 <= k < n - 1 ensures order'[k] != last {
        assert Apart(order, k, n - 1);
      }
    }
  }

  /** Setting the tail's next link to NULL keeps the list threaded and makes it tidy. */
  lemma ClearTailLink<V>(arena: seq<Entry<V>>, order: seq<int>, first: int, last: int)
    requires LinksInArena(arena) && Threaded(arena, order, first, last) && order != []
    ensures var arena' := arena[last := arena[last].(next := NULL)];
            LinksInArena(arena') && Threaded(arena', order, first, last) && Tidy(arena', order, last)
  {
    var arena' := arena[last := arena[last].(next := NULL)];
    var n := |order|;
    forall k | 0 <= k < n - 1 ensures NextAt(arena', order, k) {
      assert NextAt(arena, order, k) && Apart(order, k, n - 1);
    }
    forall k | 0 < k < n ensures PrevAt(arena', order, k) {
      assert PrevAt(arena, order, k);
    }
  }

  /** Emptying the slot of a live entry and dropping that entry from the
      order list keeps the slot array consistent, for any relinking of the
      arena that keeps every record's slot index. */
  lemma RemoveKeepsSlotted<V>(raw: seq<int>, arena: seq<Entry<V>>, arena': seq<Entry<V>>, order: seq<int>, p: nat)
    requires Slotted(raw, arena, order) && Distinct(order) && p < |order|
    requires |arena'| == |arena| && forall x | 0 <= x < |arena| :: arena'[x].i == arena[x].i
    ensures 0 <= order[p] < |arena| && 0 <= arena[order[p]].i < |raw|
    ensures Slotted(raw[arena[order[p]].i := NULL], arena', order[..p] + order[p + 1..])
  {
    var e := order[p];
    assert e in order;
    var raw' := raw[arena[e].i := NULL];
    var order' := order[..p] + order[p + 1..];
    RemoveAt(order, p, order');
  }

  /** lht_insert_entry on the slots, records and order list: a new record
      for key in the empty slot `slot`, appended behind the tail, keeps the
      invariant and leaves the tail link NULL; the slot now shows key. The
      state after the step is given as raw', arena', order', first', last'. */
  lemma InsertStep<V>(raw: seq<int>, arena: seq<Entry<V>>, order: seq<int>, first: int, last: int,
                      key: string, value: V, slot: int,
                      raw': seq<int>, arena': seq<Entry<V>>, order': seq<int>, first': int, last': int)
    requires Consistent(raw, arena, order, first, last)
    requires 0 <= slot < INIT_HASH && raw[slot] == NULL
    requires -1 <= last < |arena|
    requires raw' == raw[slot := |arena|]
    requires arena' == Append(arena, last, key, value, slot)
    requires order' == order + [|arena|]
    requires first' == (if first == NULL then |arena| else first) && last' == |arena|
    ensures Consistent(raw', arena', order', first', last')
    ensures Tidy(arena', order', last')
    ensures KeysOf(raw', arena') == KeysOf(raw, arena)[slot := Some(key)]
  {
    AppendKeepsThreaded(arena, order, first, last, key, value, slot);
    AppendKeepsSlotted(raw, arena, order, last, key, value, slot);
    assert InArena(raw', |arena'|);
    assert KeysOf(raw', arena') == KeysOf(raw, arena)[slot := Some(key)];
  }

  /** lht_leak_entry on the slots, records and order list: emptying the slot
      of the entry at position p and unlinking it keeps the invariant, with
      the list ends repaired as the relinking code repairs them, and keeps
      the tail link NULL if it was; the slot now shows nothing. The tail may
      be removed this way only when its next link is NULL. */
  lemma LeakStep<V>(raw: seq<int>, arena: seq<Entry<V>>, order: seq<int>, first: int, last: int, p: nat,
                    raw': seq<int>, arena': seq<Entry<V>>, order': seq<int>, first': int, last': int)
    requires Consistent(raw, arena, order, first, last) && p < |order|
    requires p == |order| - 1 > 0 ==> arena[last].next == NULL
    requires 0 <= order[p] < |arena| && 0 <= arena[order[p]].i < |raw|
    requires raw' == raw[arena[order[p]].i := NULL]
    requires arena' == Unlink(arena, order[p])
    requires order' == order[..p] + order[p + 1..]
    requires first' == if order' == [] then NULL else if arena[order[p]].prev == NULL then arena[order[p]].next else first
    requires last' == if order' == [] then NULL else if arena[order[p]].next == NULL then arena[order[p]].prev else last
    ensures Consistent(raw', arena', order', first', last')
    ensures Tidy(arena, order, last) ==> Tidy(arena', order', last')
    ensures KeysOf(raw', arena') == KeysOf(raw, arena)[arena[order[p]].i := None]
  {
    UnlinkKeepsThreaded(arena, order, first, last, p);
    RemoveKeepsSlotted(raw, arena, arena', order, p);
    assert InArena(raw', |arena'|);
    assert KeysOf(raw', arena') == KeysOf(raw, arena)[arena[order[p]].i := None];
  }

  /** lht_pop_entry on the slots, records and order list: emptying the slot
      of the tail and dropping it from the list keeps the invariant, with
      the prev link of the old tail as the new tail; no record changes. */
  lemma PopStep<V>(raw: seq<int>, arena: seq<Entry<V>>, order: seq<int>, first: int, last: int,
                   raw': seq<int>, order': seq<int>, first': int, last': int)
    requires Consistent(raw, arena, order, first, last) && order != []
    requires 0 <= last < |arena| && 0 <= arena[last].i < |raw|
    requires raw' == raw[arena[last].i := NULL]
    requires order' == order[..|order| - 1]
    requires first' == (if order' == [] then NULL else first)
    requires last' == (if order' == [] then NULL else arena[last].prev)
    ensures Consistent(raw', arena, order', first', last')
    ensures KeysOf(raw', arena) == KeysOf(raw, arena)[arena[last].i := None]
  {
    var n := |order|;
    DropLastKeepsThreaded(arena, order, first, last);
    RemoveKeepsSlotted(raw, arena, arena, order, n - 1);
    assert order[..n - 1] + order[n..] == order[..n - 1];
    assert InArena(raw', |arena|);
    assert KeysOf(raw', arena) == KeysOf(raw, arena)[arena[last].i := None];
  }

  /** The corrected lht_pop_entry: as PopStep, and the new tail's next link
      is then set to NULL, so the list stays tidy. */
  lemma PopTidyStep<V>(raw: seq<int>, arena: seq<Entry<V>>, order: seq<int>, first: int, last: int,
                       raw': seq<int>, arena': seq<Entry<V>>, order': seq<int>, first': int, last': int)
    requires Consistent(raw, arena, order, first, last) && order != []
    requires 0 <= last < |arena| && 0 <= arena[last].i < |raw|
    requires raw' == raw[arena[last].i := NULL]
    requires order' == order[..|order| - 1]
    requires first' == (if order' == [] then NULL else first)
    requires last' == (if order' == [] then NULL else arena[last].prev)
    requires 0 <= last' < |arena| ==> arena' == arena[last' := arena[last'].(next := NULL)]
    requires last' == NULL ==> arena' == arena
    ensures Consistent(raw', arena', order', first', last')
    ensures Tidy(arena', order', last')
    ensures KeysOf(raw', arena') == KeysOf(raw, arena)[arena[last].i := None]
  {
    PopStep(raw, arena, order, first, last, raw', order', first', last');
    if order' != [] {
      ClearTailLink(arena, order', first', last');
      assert Slotted(raw', arena', order');
      assert KeysOf(raw', arena') == KeysOf(raw', arena);
    }
  }

  /** lht_pop_entry leaves the new tail's next link pointing at the entry it
      freed: with two or more live entries, a tidy list is no longer tidy
      after the pop, and following that link reaches an entry that is not
      live. */
  lemma PopLeavesStaleLink<V>(raw: seq<int>, arena: seq<Entry<V>>, order: seq<int>, first: int, last: int)
    requires Consistent(raw, arena, order, first, last) && Tidy(arena, order, last)
    requires |order| >= 2
    ensures var order' := order[..|order| - 1];
            var last' := arena[last].prev;
            && order' != [] && last' == order'[|order'| - 1]
            && arena[last'].next == last && last !in order'
            && !Tidy(arena, order', last')
  {
    var n := |order|;
    assert PrevAt(arena, order, n - 1) && NextAt(arena, order, n - 2);
    DropLastKeepsThreaded(arena, order, first, last);
  }

  /** lht_leak_entry applied to a tail whose next link is stale, as
      lht_pop_entry leaves it: the stale link is taken for a successor, so
      the freed entry it points at gets the tail's prev written into it,
      `last` is not moved and stays on the removed entry, and the new tail
      links forward to the freed entry. The list is no longer threaded. */
  lemma LeakStaleTail<V>(arena: seq<Entry<V>>, order: seq<int>, first: int, last: int)
    requires LinksInArena(arena) && Threaded(arena, order, first, last)
    requires |order| >= 2 && arena[last].next != NULL
    ensures var order' := order[..|order| - 1];
            var nx, pv := arena[last].next, arena[last].prev;
            var arena' := Unlink(arena, last);
            var first' := if pv == NULL then nx else first;
            var last' := if nx == NULL then pv else last;
            && last' == last && last !in order'
            && nx !in order
            && arena'[nx].prev == pv
            && order'[|order'| - 1] == pv && arena'[pv].next == nx
            && !Threaded(arena', order', first', last')
  {
    var n := |order|;
    assert PrevAt(arena, order, n - 1) && Apart(order, n - 2, n - 1);
    var order' := order[..n - 1];
    forall k | 0 <= k < n - 1 ensures order'[k] != last {
      assert Apart(order, k, n - 1);
    }
  }

  /** The whole sequence on a tidy list of three or more entries: pop, then
      leak the new tail. `last` ends on the leaked entry, which is no longer
      live, and the entry before it links forward to the popped one, so a
      later insertion links behind a freed entry where no walk from `first`
      reaches it. */
  lemma LeakAfterPop<V>(raw: seq<int>, arena: seq<Entry<V>>, order: seq<int>, first: int, last: int)
    requires Consistent(raw, arena, order, first, last) && Tidy(arena, order, last)
    requires |order| >= 3
    ensures var n := |order|;
            var tail := order[n - 2];
            var order' := order[..n - 2];
            var arena' := Unlink(arena, tail);
            && arena[last].prev == tail
            && tail !in order'
            && arena'[order[n - 3]].next == last
            && !Threaded(arena', order', first, tail)
  {
    var n := |order|;
    PopLeavesStaleLink(raw, arena, order, first, last);
    DropLastKeepsThreaded(arena, order, first, last);
    var popped := order[..n - 1];
    var tail := arena[last].prev;
    LeakStaleTail(arena, popped, first, tail);
    assert popped[..n - 2] == order[..n - 2];
    assert PrevAt(arena, order, n - 2);
  }
}
