/** The slot array as the probe loops of lht_get_index and lht_insert_entry
    see it: for each of the INIT_HASH slots, nothing (NULL) or the key of the
    entry stored there. */
module Probing {
  import opened Wrappers
  import opened Hashing

  /** Lookup stops in round `round`: the probed slot is empty or holds key. */
  predicate Hit(keys: seq<Option<string>>, key: string, round: nat)
    requires |keys| == INIT_HASH
  {
    keys[Probe(key, round)] == None || keys[Probe(key, round)] == Some(key)
  }

  /** Insertion stops in round `round`: the probed slot is empty. */
  predicate Free(keys: seq<Option<string>>, key: string, round: nat)
    requires |keys| == INIT_HASH
  {
    keys[Probe(key, round)] == None
  }

  /** Lookup goes on past round `round`. */
  predicate Passed(keys: seq<Option<string>>, key: string, round: nat)
    requires |keys| == INIT_HASH
  {
    !Hit(keys, key, round)
  }

  /** Insertion goes on past round `round`. */
  predicate Occupied(keys: seq<Option<string>>, key: string, round: nat)
    requires |keys| == INIT_HASH
  {
    !Free(keys, key, round)
  }

  /** The first round from `round` on, below INIT_HASH, in which lookup
      stops; INIT_HASH when there is none. */
  function FirstHit(keys: seq<Option<string>>, key: string, round: nat): (r: nat)
    requires |keys| == INIT_HASH && round <= INIT_HASH
    ensures round <= r <= INIT_HASH
    ensures r < INIT_HASH ==> Hit(keys, key, r)
    ensures forall k | round <= k < r :: Passed(keys, key, k)
    decreases INIT_HASH - round
  {
    if round == INIT_HASH then INIT_HASH
    else if Hit(keys, key, round) then round
    else FirstHit(keys, key, round + 1)
  }

  /** The first round from `round` on, below INIT_HASH, whose slot is empty;
      INIT_HASH when there is none. */
  function FirstFree(keys: seq<Option<string>>, key: string, round: nat): (r: nat)
    requires |keys| == INIT_HASH && round <= INIT_HASH
    ensures round <= r <= INIT_HASH
    ensures r < INIT_HASH ==> Free(keys, key, r)
    ensures forall k | round <= k < r :: Occupied(keys, key, k)
    decreases INIT_HASH - round
  {
    if round == INIT_HASH then INIT_HASH
    else if Free(keys, key, round) then round
    else FirstFree(keys, key, round + 1)
  }

  /** What lht_get_index returns once its loop ends: the slot of the first
      match on the probe sequence, or -1 when an empty slot comes first. */
  function Lookup(keys: seq<Option<string>>, key: string): (i: int)
    requires |keys| == INIT_HASH
    requires FirstHit(keys, key, 0) < INIT_HASH
    ensures -1 <= i < INIT_HASH
    ensures i >= 0 ==> keys[i] == Some(key)
  {
    var r := FirstHit(keys, key, 0);
    if keys[Probe(key, r)] == None then -1 else Probe(key, r)
  }

  /** What a Lookup result means: a slot holding key that the probe
      sequence reaches before any empty slot, or -1 when an empty slot comes
      before any slot holding key. */
  lemma LookupMeaning(keys: seq<Option<string>>, key: string)
    requires |keys| == INIT_HASH
    requires FirstHit(keys, key, 0) < INIT_HASH
    ensures var i := Lookup(keys, key);
            i >= 0 ==> exists r :: 0 <= r < INIT_HASH && i == Probe(key, r)
                                 && forall k | 0 <= k < r :: keys[Probe(key, k)] != None
    ensures var i := Lookup(keys, key);
            i == -1 ==> exists r :: 0 <= r < INIT_HASH && keys[Probe(key, r)] == None
                                  && forall k | 0 <= k < r :: keys[Probe(key, k)] != Some(key)
  {
    var r := FirstHit(keys, key, 0);
    forall k | 0 <= k < r ensures keys[Probe(key, k)] != None && keys[Probe(key, k)] != Some(key) {
      assert Passed(keys, key, k);
    }
  }

  /** When no round below INIT_HASH stops the lookup, no round ever does: the
      loop of lht_get_index then never ends. So "FirstHit < INIT_HASH" is
      exactly the condition under which it terminates. */
  lemma LookupNeverStops(keys: seq<Option<string>>, key: string, round: nat)
    requires |keys| == INIT_HASH
    requires FirstHit(keys, key, 0) == INIT_HASH
    ensures !Hit(keys, key, round)
  {
    ProbePeriodic(key, round);
    assert Passed(keys, key, round % INIT_HASH);
  }

  /** The same for the loop of lht_insert_entry and empty slots. */
  lemma InsertNeverStops(keys: seq<Option<string>>, key: string, round: nat)
    requires |keys| == INIT_HASH
    requires FirstFree(keys, key, 0) == INIT_HASH
    ensures !Free(keys, key, round)
  {
    ProbePeriodic(key, round);
    assert Occupied(keys, key, round % INIT_HASH);
  }

  /** Key k stored in slot s can be found: s lies on k's probe sequence and
      no slot before it on that sequence is empty: reachability. */
  ghost predicate ReachableAt(keys: seq<Option<string>>, k: string, s: int)
    requires |keys| == INIT_HASH
  {
    exists r :: 0 <= r < INIT_HASH && Probe(k, r) == s
              && forall j | 0 <= j < r :: keys[Probe(k, j)] != None
  }

  /** Every stored key is reachable from its first probe. */
  ghost predicate Reachable(keys: seq<Option<string>>)
    requires |keys| == INIT_HASH
  {
    forall s | 0 <= s < INIT_HASH && keys[s].Some? :: ReachableAt(keys, keys[s].value, s)
  }

  /** A stored key that is reachable is found by lookup. */
  lemma LookupFindsReachable(keys: seq<Option<string>>, key: string, s: int)
    requires |keys| == INIT_HASH
    requires 0 <= s < INIT_HASH && keys[s] == Some(key) && ReachableAt(keys, key, s)
    ensures FirstHit(keys, key, 0) < INIT_HASH
    ensures Lookup(keys, key) >= 0
  {
    var r :| 0 <= r < INIT_HASH && Probe(key, r) == s
              && forall j | 0 <= j < r :: keys[Probe(key, j)] != None;
    assert Hit(keys, key, r);
    var stop := FirstHit(keys, key, 0);
    assert r < stop ==> Passed(keys, key, r);
    assert keys[Probe(key, stop)] != None;
  }

  /** Storing a key in the first empty slot of its probe sequence, as
      lht_insert_entry does, keeps every stored key reachable. */
  lemma InsertKeepsReachable(keys: seq<Option<string>>, key: string)
    requires |keys| == INIT_HASH
    requires Reachable(keys)
    requires FirstFree(keys, key, 0) < INIT_HASH
    ensures var r := FirstFree(keys, key, 0);
            Reachable(keys[Probe(key, r) := Some(key)])
  {
    var r := FirstFree(keys, key, 0);
    var c := Probe(key, r);
    var keys' := keys[c := Some(key)];
    forall s | 0 <= s < INIT_HASH && keys'[s].Some?
      ensures ReachableAt(keys', keys'[s].value, s)
    {
      if s == c {
        assert forall j | 0 <= j < r :: keys'[Probe(key, j)] != None by {
          forall j | 0 <= j < r ensures keys'[Probe(key, j)] != None {
            assert Occupied(keys, key, j);
          }
        }
      } else {
        var k := keys[s].value;
        assert ReachableAt(keys, k, s);
        var q :| 0 <= q < INIT_HASH && Probe(k, q) == s
                 && forall j | 0 <= j < q :: keys[Probe(k, j)] != None;
        assert forall j | 0 <= j < q :: keys'[Probe(k, j)] != None;
      }
    }
  }
}
