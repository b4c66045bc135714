/** The table as evidently intended, on the slot array alone: removal
    leaves a tombstone that lookup steps over, the probe stride is odd so
    that it reaches every one of the INIT_HASH slots, and inserting a key
    already present replaces its value. Lookup is proved to agree with a
    linear scan of the slots. */
module Tombstones {
  import opened Wrappers
  import opened Hashing

  /** A slot: never used, emptied by a removal (a tombstone), or holding an entry. */
  datatype Cell<V> = Empty | Tomb | Full(key: string, value: V)

  /** hash2 forced odd, hence coprime with INIT_HASH. */
  function Stride(key: string): (s: nat)
    ensures s % 2 == 1 && s < INIT_HASH
  {
    if Hash2(key) % 2 == 0 then Hash2(key) + 1 else Hash2(key)
  }

  /** Slot probed in round `round` for key. */
  function Slot(key: string, round: nat): (s: nat)
    ensures s < INIT_HASH
  {
    Step(Hash1(key), Stride(key), round)
  }

  /** The inverse of an odd stride modulo INIT_HASH. */
  function Inverse(s: nat): (t: nat)
    requires s % 2 == 1 && s < INIT_HASH
    ensures (s * t) % INIT_HASH == 1
  {
    if s == 1 then 1 else if s == 3 then 11 else if s == 5 then 13 else if s == 7 then 7
    else if s == 9 then 9 else if s == 11 then 3 else if s == 13 then 5 else 15
  }

  /** The round in which the probe sequence of key reaches slot t: with an
      odd stride every slot is reached within INIT_HASH rounds. */
  function RoundOf(key: string, t: nat): (r: nat)
    requires t < INIT_HASH
    ensures r < INIT_HASH && Slot(key, r) == t
  {
    var h1, st := Hash1(key), Stride(key);
    var d := (t + INIT_HASH - h1) % INIT_HASH;
    var a := d * Inverse(st);
    var r := a % INIT_HASH;
    StepClosedForm(h1, st, r);
    ReachesSlot(h1, st, Inverse(st), d, t);
    r
  }

  /** Round ((t - h1) * inverse mod 16) of the probe from h1 reaches t. */
  lemma ReachesSlot(h1: nat, st: nat, inv: nat, d: nat, t: nat)
    requires h1 < INIT_HASH && t < INIT_HASH && (st * inv) % INIT_HASH == 1
    requires d == (t + INIT_HASH - h1) % INIT_HASH
    ensures (h1 + ((d * inv) % INIT_HASH) * st) % INIT_HASH == t
  {
    var a := d * inv;
    MulModSixteen(a, st, h1);
    var q := (st * inv) / INIT_HASH;
    InverseCancels(d, st, inv, q);
    MultipleOfSixteen(a * st + h1, d * q, d + h1);
    DistanceBack(h1, t, d);
  }

  /** d, the distance from h1 forward to t around the slots, leads from h1 back to t. */
  lemma DistanceBack(h1: nat, t: nat, d: nat)
    requires h1 < INIT_HASH && t < INIT_HASH
    requires d == (t + INIT_HASH - h1) % INIT_HASH
    ensures (d + h1) % INIT_HASH == t
  {
    if t >= h1 {
      assert d + h1 == t;
    } else {
      assert d + h1 == t + INIT_HASH;
    }
  }

  /** Multiplying by a stride and by its inverse gives back d, up to
      multiples of INIT_HASH. */
  lemma InverseCancels(d: nat, st: nat, inv: nat, q: nat)
    requires st * inv == INIT_HASH * q + 1
    ensures (d * inv) * st == INIT_HASH * (d * q) + d
  {
    calc {
      (d * inv) * st;
      d * (st * inv);
      d * (INIT_HASH * q + 1);
      INIT_HASH * (d * q) + d;
    }
  }

  /** Slot s holds key. */
  predicate Holds<V>(cells: seq<Cell<V>>, key: string, s: int)
  {
    0 <= s < |cells| && cells[s].Full? && cells[s].key == key
  }

  /** The reference lookup: the value in the first slot, from slot i on,
      that holds key. */
  function ScanFrom<V>(cells: seq<Cell<V>>, key: string, i: nat): (v: Option<V>)
    requires i <= |cells|
    ensures v == None <==> forall s | i <= s < |cells| :: !Holds(cells, key, s)
    ensures v != None ==> exists s | i <= s < |cells| :: Holds(cells, key, s) && cells[s].value == v.value
    decreases |cells| - i
  {
    if i == |cells| then None
    else if Holds(cells, key, i) then Some(cells[i].value)
    else ScanFrom(cells, key, i + 1)
  }

  /** The reference lookup over the whole table. */
  function Scan<V>(cells: seq<Cell<V>>, key: string): Option<V>
  {
    ScanFrom(cells, key, 0)
  }

  /** Slots a and b hold the same key. */
  predicate Same<V>(cells: seq<Cell<V>>, a: int, b: int)
  {
    && 0 <= a < |cells| && 0 <= b < |cells|
    && cells[a].Full? && cells[b].Full? && cells[a].key == cells[b].key
  }

  /** No key is held by two slots. */
  ghost predicate Unique<V>(cells: seq<Cell<V>>)
  {
    forall a, b | 0 <= a < |cells| && 0 <= b < |cells| && Same(cells, a, b) :: a == b
  }

  /** Key k stored in slot s is reached by its probe sequence before any
      empty slot (tombstones do not stop it). */
  ghost predicate ReachableAt<V>(cells: seq<Cell<V>>, k: string, s: int)
    requires |cells| == INIT_HASH
  {
    exists r | 0 <= r < INIT_HASH :: Slot(k, r) == s && forall j | 0 <= j < r :: !cells[Slot(k, j)].Empty?
  }

  /** The invariant of the corrected table: every key is held at most once
      and is reachable. */
  ghost predicate Valid<V>(cells: seq<Cell<V>>)
  {
    && |cells| == INIT_HASH
    && Unique(cells)
    && forall s | 0 <= s < INIT_HASH && cells[s].Full? :: ReachableAt(cells, cells[s].key, s)
  }

  /** Lookup stops in round `round`: an empty slot or one holding key. */
  predicate Stops<V>(cells: seq<Cell<V>>, key: string, round: nat)
    requires |cells| == INIT_HASH
  {
    cells[Slot(key, round)].Empty? || Holds(cells, key, Slot(key, round))
  }

  /** Lookup goes on past round `round`. */
  predicate Skips<V>(cells: seq<Cell<V>>, key: string, round: nat)
    requires |cells| == INIT_HASH
  {
    !Stops(cells, key, round)
  }

  /** Insertion may use the slot of round `round`: it is empty or a tombstone. */
  predicate Open<V>(cells: seq<Cell<V>>, key: string, round: nat)
    requires |cells| == INIT_HASH
  {
    !cells[Slot(key, round)].Full?
  }

  /** Insertion goes on past round `round`. */
  predicate Taken<V>(cells: seq<Cell<V>>, key: string, round: nat)
    requires |cells| == INIT_HASH
  {
    !Open(cells, key, round)
  }

  /** The first round from `round` on, below INIT_HASH, in which lookup
      stops; INIT_HASH when there is none. */
  function FindRound<V>(cells: seq<Cell<V>>, key: string, round: nat): (r: nat)
    requires |cells| == INIT_HASH && round <= INIT_HASH
    ensures round <= r <= INIT_HASH
    ensures r < INIT_HASH ==> Stops(cells, key, r)
    ensures forall k | round <= k < r :: Skips(cells, key, k)
    decreases INIT_HASH - round
  {
    if round == INIT_HASH then INIT_HASH
    else if Stops(cells, key, round) then round
    else FindRound(cells, key, round + 1)
  }

  /** The first round from `round` on, below INIT_HASH, whose slot insertion
      may use; INIT_HASH when there is none. */
  function OpenRound<V>(cells: seq<Cell<V>>, key: string, round: nat): (r: nat)
    requires |cells| == INIT_HASH && round <= INIT_HASH
    ensures round <= r <= INIT_HASH
    ensures r < INIT_HASH ==> Open(cells, key, r)
    ensures forall k | round <= k < r :: Taken(cells, key, k)
    decreases INIT_HASH - round
  {
    if round == INIT_HASH then INIT_HASH
    else if Open(cells, key, round) then round
    else OpenRound(cells, key, round + 1)
  }

  /** The slot lookup finds key in, if any. */
  function Find<V>(cells: seq<Cell<V>>, key: string): (s: Option<nat>)
    requires |cells| == INIT_HASH
    ensures s != None ==> s.value < INIT_HASH && Holds(cells, key, s.value)
  {
    var r := FindRound(cells, key, 0);
    if r < INIT_HASH && cells[Slot(key, r)].Full? then Some(Slot(key, r)) else None
  }

  /** Corrected lht_get_entry. */
  function Get<V>(cells: seq<Cell<V>>, key: string): (v: Option<V>)
    requires |cells| == INIT_HASH
    ensures v != None ==> exists s | 0 <= s < INIT_HASH :: Holds(cells, key, s) && cells[s].value == v.value
  {
    match Find(cells, key)
    case Some(s) => Some(cells[s].value)
    case None => None
  }

  /** Corrected lht_insert_entry: replace the value of key where lookup
      finds it, otherwise use the first empty slot or tombstone of its probe
      sequence; None when every slot holds another key. */
  function Put<V>(cells: seq<Cell<V>>, key: string, value: V): (r: Option<seq<Cell<V>>>)
    requires |cells| == INIT_HASH
    ensures r != None ==> |r.value| == INIT_HASH
  {
    match Find(cells, key)
    case Some(s) => Some(cells[s := Full(key, value)])
    case None =>
      var g := OpenRound(cells, key, 0);
      if g < INIT_HASH then Some(cells[Slot(key, g) := Full(key, value)]) else None
  }

  /** Corrected lht_leak_entry: the slot of key becomes a tombstone, and its
      value is returned. */
  function Remove<V>(cells: seq<Cell<V>>, key: string): (r: (seq<Cell<V>>, Option<V>))
    requires |cells| == INIT_HASH
    ensures |r.0| == INIT_HASH
  {
    match Find(cells, key)
    case Some(s) => (cells[s := Tomb], Some(cells[s].value))
    case None => (cells, None)
  }

  /** With no key held twice, the scan returns the value of the one slot
      holding key. */
  lemma ScanIs<V>(cells: seq<Cell<V>>, key: string, s: int)
    requires Unique(cells) && 0 <= s < |cells| && Holds(cells, key, s)
    ensures Scan(cells, key) == Some(cells[s].value)
  {
    var v := Scan(cells, key);
    var t :| 0 <= t < |cells| && Holds(cells, key, t) && cells[t].value == v.value;
    assert Same(cells, s, t);
  }

  /** Lookup finds a key in the slot that holds it when no other slot holds
      it and its probe sequence meets no empty slot before. */
  lemma FindsReachable<V>(cells: seq<Cell<V>>, key: string, s: int)
    requires |cells| == INIT_HASH && Unique(cells) && Holds(cells, key, s)
    requires ReachableAt(cells, key, s)
    ensures Find(cells, key) == Some(s)
  {
    var r :| 0 <= r < INIT_HASH && Slot(key, r) == s
             && forall j | 0 <= j < r :: !cells[Slot(key, j)].Empty?;
    var f := FindRound(cells, key, 0);
    assert r < f ==> Skips(cells, key, r);
    assert f < r ==> !cells[Slot(key, f)].Empty?;
    assert Same(cells, Slot(key, f), s);
  }

  /** On a table that keeps the invariant, lookup finds a key in the slot
      that holds it. */
  lemma FindsHeld<V>(cells: seq<Cell<V>>, key: string, s: int)
    requires Valid(cells) && Holds(cells, key, s)
    ensures Find(cells, key) == Some(s)
  {
    FindsReachable(cells, key, s);
  }

  /** Lookup agrees with the scan on every table that keeps the invariant:
      a stored key is found, and a key that is not stored is not. */
  lemma GetIsScan<V>(cells: seq<Cell<V>>, key: string)
    requires Valid(cells)
    ensures Get(cells, key) == Scan(cells, key)
  {
    if s :| 0 <= s < INIT_HASH && Holds(cells, key, s) {
      ScanIs(cells, key, s);
      FindsHeld(cells, key, s);
    }
  }

  /** A table whose slots are empty no more often than before keeps every
      key reachable that was. */
  lemma ReachableKept<V>(cells: seq<Cell<V>>, cells': seq<Cell<V>>, k: string, s: int)
    requires |cells| == |cells'| == INIT_HASH
    requires forall x | 0 <= x < INIT_HASH && cells'[x].Empty? :: cells[x].Empty?
    requires ReachableAt(cells, k, s)
    ensures ReachableAt(cells', k, s)
  {
    var r :| 0 <= r < INIT_HASH && Slot(k, r) == s
             && forall j | 0 <= j < r :: !cells[Slot(k, j)].Empty?;
    assert forall j | 0 <= j < r :: !cells'[Slot(k, j)].Empty?;
  }

  /** Two tables that hold key in the same slots with the same values give
      the same scan for key. */
  lemma ScanAgrees<V>(cells: seq<Cell<V>>, cells': seq<Cell<V>>, key: string)
    requires Unique(cells) && Unique(cells') && |cells| == |cells'|
    requires forall x | 0 <= x < |cells| :: Holds(cells', key, x) <==> Holds(cells, key, x)
    requires forall x | 0 <= x < |cells| && Holds(cells, key, x) :: cells'[x] == cells[x]
    ensures Scan(cells', key) == Scan(cells, key)
  {
    if s :| 0 <= s < |cells| && Holds(cells, key, s) {
      ScanIs(cells, key, s);
      ScanIs(cells', key, s);
    }
  }

  /** Changing only slot t, which holds key or no key before and after,
      changes no lookup but that of key. */
  lemma OthersUnchanged<V>(cells: seq<Cell<V>>, cells': seq<Cell<V>>, key: string, t: int)
    requires Valid(cells) && Valid(cells') && 0 <= t < INIT_HASH
    requires cells' == cells[t := cells'[t]]
    requires !cells[t].Full? || cells[t].key == key
    requires !cells'[t].Full? || cells'[t].key == key
    ensures forall k | k != key :: Get(cells', k) == Get(cells, k)
  {
    forall k | k != key ensures Get(cells', k) == Get(cells, k) {
      GetIsScan(cells', k);
      GetIsScan(cells, k);
      ScanAgrees(cells, cells', k);
    }
  }

  /** Storing key in slot t keeps every key held at most once when no other
      slot holds key. */
  lemma StoreKeepsUnique<V>(cells: seq<Cell<V>>, key: string, value: V, t: int)
    requires Unique(cells) && 0 <= t < |cells|
    requires forall x | 0 <= x < |cells| && x != t :: !Holds(cells, key, x)
    ensures Unique(cells[t := Full(key, value)])
  {
    var c := cells[t := Full(key, value)];
    forall a, b | 0 <= a < |c| && 0 <= b < |c| && Same(c, a, b) ensures a == b {
      assert c[a] == (if a == t then Full(key, value) else cells[a]);
      assert c[b] == (if b == t then Full(key, value) else cells[b]);
      assert c[a].key != key ==> Same(cells, a, b);
      assert a != t ==> !Holds(cells, key, a);
      assert b != t ==> !Holds(cells, key, b);
    }
  }

  /** Storing key in slot t keeps reachable every other key that was: the
      store empties no slot. */
  lemma StoreKeepsReachable<V>(cells: seq<Cell<V>>, key: string, value: V, t: int)
    requires Valid(cells) && 0 <= t < INIT_HASH
    ensures forall s | 0 <= s < INIT_HASH && s != t && cells[s].Full? ::
              ReachableAt(cells[t := Full(key, value)], cells[s].key, s)
  {
    var c := cells[t := Full(key, value)];
    forall s | 0 <= s < INIT_HASH && s != t && cells[s].Full? ensures ReachableAt(c, cells[s].key, s) {
      ReachableKept(cells, c, cells[s].key, s);
    }
  }

  /** Storing (key, value) in slot t, which holds key or, when key is held
      nowhere, no key, keeps the invariant once key is reachable there. */
  lemma StoreKeepsValid<V>(cells: seq<Cell<V>>, key: string, value: V, t: int)
    requires Valid(cells) && 0 <= t < INIT_HASH
    requires Holds(cells, key, t) || (!cells[t].Full? && forall x | 0 <= x < INIT_HASH :: !Holds(cells, key, x))
    requires ReachableAt(cells[t := Full(key, value)], key, t)
    ensures Valid(cells[t := Full(key, value)])
  {
    var c := cells[t := Full(key, value)];
    forall x | 0 <= x < INIT_HASH && x != t ensures !Holds(cells, key, x) {
      assert Holds(cells, key, t) && Holds(cells, key, x) ==> Same(cells, t, x);
    }
    StoreKeepsUnique(cells, key, value, t);
    StoreKeepsReachable(cells, key, value, t);
    assert forall s | 0 <= s < INIT_HASH && s != t :: c[s] == cells[s];
  }

  /** Put keeps the invariant, makes key map to value, leaves every other
      key as it was, and fails exactly when every slot holds another key. */
  lemma PutSpec<V>(cells: seq<Cell<V>>, key: string, value: V)
    requires Valid(cells)
    ensures Put(cells, key, value) == None <==>
              (forall s | 0 <= s < INIT_HASH :: cells[s].Full?) && Get(cells, key) == None
    ensures Put(cells, key, value) != None ==>
              var c := Put(cells, key, value).value;
              && Valid(c)
              && Get(c, key) == Some(value)
              && forall k | k != key :: Get(c, k) == Get(cells, k)
  {
    match Find(cells, key)
    case Some(s) =>
      ReachableKept(cells, cells[s := Full(key, value)], key, s);
      Store(cells, key, value, s);
    case None =>
      GetIsScan(cells, key);
      var g := OpenRound(cells, key, 0);
      if g < INIT_HASH {
        OpenSlotReachable(cells, key, value);
        Store(cells, key, value, Slot(key, g));
      } else {
        NoOpenSlotFull(cells, key);
      }
  }

  /** The slot insertion picks for a key is reached by its probe sequence
      once the key is stored there. */
  lemma OpenSlotReachable<V>(cells: seq<Cell<V>>, key: string, value: V)
    requires |cells| == INIT_HASH && OpenRound(cells, key, 0) < INIT_HASH
    ensures var t := Slot(key, OpenRound(cells, key, 0));
            ReachableAt(cells[t := Full(key, value)], key, t)
  {
    var g := OpenRound(cells, key, 0);
    var c := cells[Slot(key, g) := Full(key, value)];
    forall j | 0 <= j < g ensures !c[Slot(key, j)].Empty? {
      assert Taken(cells, key, j);
    }
  }

  /** When no round below INIT_HASH offers a slot, every slot is full. */
  lemma NoOpenSlotFull<V>(cells: seq<Cell<V>>, key: string)
    requires |cells| == INIT_HASH && OpenRound(cells, key, 0) == INIT_HASH
    ensures forall s | 0 <= s < INIT_HASH :: cells[s].Full?
  {
    forall s | 0 <= s < INIT_HASH ensures cells[s].Full? {
      assert Taken(cells, key, RoundOf(key, s));
    }
  }

  /** Storing (key, value) where lookup found key, or in a free slot reached
      by its probe sequence when key is held nowhere, keeps the invariant,
      makes key map to value and changes no other key. */
  lemma Store<V>(cells: seq<Cell<V>>, key: string, value: V, t: int)
    requires Valid(cells) && 0 <= t < INIT_HASH
    requires Holds(cells, key, t) || (!cells[t].Full? && forall x | 0 <= x < INIT_HASH :: !Holds(cells, key, x))
    requires ReachableAt(cells[t := Full(key, value)], key, t)
    ensures Valid(cells[t := Full(key, value)])
    ensures Get(cells[t := Full(key, value)], key) == Some(value)
    ensures forall k | k != key :: Get(cells[t := Full(key, value)], k) == Get(cells, k)
  {
    StoreKeepsValid(cells, key, value, t);
    StoreLookups(cells, key, value, t);
  }

  /** After (key, value) is stored in slot t of a table that keeps the
      invariant, key maps to value and no other key changes. */
  lemma StoreLookups<V>(cells: seq<Cell<V>>, key: string, value: V, t: int)
    requires Valid(cells) && 0 <= t < INIT_HASH && (!cells[t].Full? || cells[t].key == key)
    requires Valid(cells[t := Full(key, value)])
    ensures Get(cells[t := Full(key, value)], key) == Some(value)
    ensures forall k | k != key :: Get(cells[t := Full(key, value)], k) == Get(cells, k)
  {
    var c := cells[t := Full(key, value)];
    GetIsScan(c, key);
    ScanIs(c, key, t);
    OthersUnchanged(cells, c, key, t);
  }

  /** Remove keeps the invariant, returns what lookup found for key, leaves
      key absent and every other key as it was. */
  lemma RemoveSpec<V>(cells: seq<Cell<V>>, key: string)
    requires Valid(cells)
    ensures var (c, v) := Remove(cells, key);
            && Valid(c)
            && v == Get(cells, key)
            && Get(c, key) == None
            && forall k | k != key :: Get(c, k) == Get(cells, k)
  {
    match Find(cells, key)
    case Some(s) =>
      var c := cells[s := Tomb];
      forall a, b | 0 <= a < INIT_HASH && 0 <= b < INIT_HASH && Same(c, a, b) ensures a == b {
        assert Same(cells, a, b);
      }
      forall x | 0 <= x < INIT_HASH && c[x].Full? ensures ReachableAt(c, c[x].key, x) {
        ReachableKept(cells, c, c[x].key, x);
      }
      forall x | 0 <= x < INIT_HASH ensures !Holds(c, key, x) {
        assert x != s && Holds(c, key, x) ==> Same(cells, s, x);
      }
      OthersUnchanged(cells, c, key, s);
    case None =>
  }
}
