/** Concrete runs of the model that show where src/linked-hash-table.c
    departs from what a hash table promises. */
module Scenarios {
  import opened Wrappers
  import opened Hashing
  import opened Probing
  import opened Arena
  import opened LinkedHashTable

  /** The slots of a table fresh from lht_init. */
  const NoKeys: seq<Option<string>> := seq(INIT_HASH, _ => None)

  /** The hashes of the one-character keys used below: a character's code
      mod 16 for hash1, and (5381 * 33 + code) mod 16 for hash2. */
  lemma HashesOfA()
    ensures Hash1("a") == 1 && Hash2("a") == 6
  {
    assert "a"[..0] == "";
  }

  lemma HashesOfQ()
    ensures Hash1("q") == 1 && Hash2("q") == 6
  {
    assert "q"[..0] == "";
  }

  lemma HashesOfK()
    ensures Hash1("k") == 11 && Hash2("k") == 0
  {
    assert "k"[..0] == "";
  }

  lemma HashesOfBracket()
    ensures Hash1("[") == 11
  {
    assert "["[..0] == "";
  }

  /** "a" and "q" share both hashes. Insert "a", then "q", which steps over
      "a" into slot 7; leak "a". Slot 7 still holds "q", but lookup of "q"
      stops at the slot "a" left empty and reports it absent: the removal
      broke the reachability invariant that LookupFindsReachable needs. */
  lemma OrphanedKey()
    ensures var keys1 := NoKeys[1 := Some("a")];
            var keys2 := keys1[7 := Some("q")];
            var keys3 := keys2[1 := None];
            && Probe("a", FirstFree(NoKeys, "a", 0)) == 1
            && Probe("q", FirstFree(keys1, "q", 0)) == 7
            && FirstHit(keys2, "q", 0) == 1 && Lookup(keys2, "q") == 7
            && FirstHit(keys2, "a", 0) == 0 && Lookup(keys2, "a") == 1
            && Reachable(keys2)
            && FirstHit(keys3, "q", 0) == 0 && Lookup(keys3, "q") == -1 && keys3[7] == Some("q")
            && !Reachable(keys3)
  {
    HashesOfA();
    HashesOfQ();
    var keys1 := NoKeys[1 := Some("a")];
    var keys2 := keys1[7 := Some("q")];
    var keys3 := keys2[1 := None];
    assert Probe("q", 1) == 7 by { ProbeClosedForm("q", 1); }
    assert FirstFree(NoKeys, "a", 0) == 0;
    assert FirstFree(keys1, "q", 0) == 1 by {
      assert !Free(keys1, "q", 0);
    }
    assert FirstHit(keys2, "q", 0) == 1 by {
      assert !Hit(keys2, "q", 0);
    }
    assert ReachableAt(keys2, "q", 7) by {
      assert Probe("q", 1) == 7 && forall j | 0 <= j < 1 :: keys2[Probe("q", j)] != None;
    }
    assert ReachableAt(keys2, "a", 1) by {
      assert Probe("a", 0) == 1;
    }
    assert FirstHit(keys3, "q", 0) == 0;
    assert !ReachableAt(keys3, "q", 7) by {
      forall r | 0 <= r < INIT_HASH && Probe("q", r) == 7
        ensures exists j | 0 <= j < r :: keys3[Probe("q", j)] == None
      {
        assert keys3[Probe("q", 0)] == None;
      }
    }
  }

  /** "k" has hash2 0, so every round of its probe sequence lands on slot
      11. Once "[" occupies slot 11, inserting "k" never finds an empty slot
      although the other fifteen slots are empty: the loop of
      lht_insert_entry runs forever (InsertNeverStops). */
  lemma StuckProbe()
    ensures Probe("[", FirstFree(NoKeys, "[", 0)) == 11
    ensures forall round: nat :: Probe("k", round) == 11
    ensures var keys := NoKeys[11 := Some("[")];
            && FirstFree(keys, "k", 0) == INIT_HASH
            && forall s | 0 <= s < INIT_HASH && s != 11 :: keys[s] == None
  {
    HashesOfK();
    HashesOfBracket();
    assert FirstFree(NoKeys, "[", 0) == 0;
    forall round: nat ensures Probe("k", round) == 11 {
      ProbeClosedForm("k", round);
    }
    var keys := NoKeys[11 := Some("[")];
    var r := FirstFree(keys, "k", 0);
    assert r < INIT_HASH ==> Free(keys, "k", r);
  }

  lemma HashesOfB()
    ensures Hash1("b") == 2
  {
    assert "b"[..0] == "";
  }

  /** A fresh table after inserting "a" with value 1. */
  method OneEntry() returns (t: Table<int>)
    ensures fresh(t) && fresh(t.raw) && t.Valid() && t.Tidy()
    ensures t.order == [0] && t.first == 0 && t.last == 0
    ensures t.arena == [Entry("a", 1, NULL, NULL, 1)]
    ensures t.SlotKeys() == NoKeys[1 := Some("a")]
  {
    HashesOfA();
    t := new Table<int>();
    assert t.SlotKeys() == NoKeys;
    assert FirstFree(t.SlotKeys(), "a", 0) == 0;
    var rc := t.Insert("a", 1, true);
  }

  /** The table of OneEntry after inserting "b" with value 2. */
  method TwoEntries() returns (t: Table<int>)
    ensures fresh(t) && fresh(t.raw) && t.Valid() && t.Tidy()
    ensures t.order == [0, 1] && t.first == 0 && t.last == 1
    ensures t.arena == [Entry("a", 1, 1, NULL, 1), Entry("b", 2, NULL, 0, 2)]
  {
    HashesOfB();
    t := OneEntry();
    assert FirstFree(t.SlotKeys(), "b", 0) == 0;
    var rc := t.Insert("b", 2, true);
  }

  /** Insert "a" then "b", pop "b", and iterate: KEEP from "a" follows the
      link lht_pop_entry left behind and yields the value of the popped
      entry. */
  method StaleIteration() returns (v0: Option<int>, v1: Option<int>)
    ensures v0 == Some(1) && v1 == Some(2)
  {
    var t := TwoEntries();
    var popped := t.Pop();
    assert t.order == [0] && t.arena[0].next == 1;
    v0 := t.Iter(Begin);
    v1 := t.Iter(Keep);
  }

  /** The table of OneEntry after inserting "a" again, with value 2: no
      duplicate check is made, so both entries are stored. */
  method TwinEntries() returns (t: Table<int>)
    ensures fresh(t) && fresh(t.raw) && t.Valid() && t.Tidy()
    ensures t.order == [0, 1] && t.first == 0 && t.last == 1
    ensures t.arena == [Entry("a", 1, 1, NULL, 1), Entry("a", 2, NULL, 0, 7)]
    ensures t.SlotKeys() == NoKeys[1 := Some("a")][7 := Some("a")]
  {
    HashesOfA();
    t := OneEntry();
    assert Probe("a", 1) == 7 by { ProbeClosedForm("a", 1); }
    assert FirstFree(t.SlotKeys(), "a", 0) == 1 by {
      assert !Free(t.SlotKeys(), "a", 0);
    }
    var rc := t.Insert("a", 2, true);
  }

  /** Insert "a" twice, then leak "a": the first entry goes, but lookup of
      "a" now stops at the slot it left empty, so the second entry, still
      counted and still in the order list, can no longer be found. */
  method DuplicateKey() returns (leaked: Option<int>, found: Option<int>, n: nat)
    ensures leaked == Some(1) && found == None && n == 1
  {
    HashesOfA();
    var t := TwinEntries();
    assert FirstHit(t.SlotKeys(), "a", 0) == 0;
    leaked := t.Leak("a");
    assert t.SlotKeys() == NoKeys[7 := Some("a")];
    assert FirstHit(t.SlotKeys(), "a", 0) == 0;
    found := t.GetEntry("a");
    n := t.GetSize();
  }

  /** Insert "a" then "b", pop "b", then leak "a": "a" is the tail and its
      next link still points at the popped entry, yet as the last entry it
      is removed cleanly and the table ends empty. */
  method EmptyAfterPop() returns (leaked: Option<int>, n: nat)
    ensures leaked == Some(1) && n == 0
  {
    HashesOfA();
    var t := TwoEntries();
    var popped := t.Pop();
    assert t.order == [0] && t.arena[0].next == 1;
    assert t.SlotKeys() == NoKeys[1 := Some("a")];
    assert FirstHit(t.SlotKeys(), "a", 0) == 0;
    leaked := t.Leak("a");
    n := t.GetSize();
  }
}
