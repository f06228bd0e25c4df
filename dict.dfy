/** A JavaScript object used as a dictionary and filled by a loop of
    assignments `obj[key] = value`: a later assignment to the same key
    overwrites an earlier one. */
module Dict {

  /** The dictionary left by performing the assignments in `entries` in order,
      starting from `{}`. */
  function Assigned<K, V>(entries: seq<(K, V)>): map<K, V>
  {
    if entries == [] then map[]
    else
      var last := entries[|entries| - 1];
      Assigned(entries[..|entries| - 1])[last.0 := last.1]
  }

  /** The keys of the dictionary are exactly the keys assigned to. */
  lemma {:induction false} AssignedKeys<K, V>(entries: seq<(K, V)>, k: K)
    ensures k in Assigned(entries) <==> exists i :: 0 <= i < |entries| && entries[i].0 == k
    decreases |entries|
  {
    if entries != [] {
      var init := entries[..|entries| - 1];
      AssignedKeys(init, k);
      if exists i :: 0 <= i < |entries| && entries[i].0 == k {
        var i :| 0 <= i < |entries| && entries[i].0 == k;
        if i < |init| {
          assert init[i].0 == k;
        }
      }
    }
  }

  /** Last write wins: the value stored under a key is the value of the last
      assignment to that key. */
  lemma {:induction false} AssignedLastWins<K, V>(entries: seq<(K, V)>, j: nat)
    requires j < |entries|
    requires forall l :: j < l < |entries| ==> entries[l].0 != entries[j].0
    ensures entries[j].0 in Assigned(entries)
    ensures Assigned(entries)[entries[j].0] == entries[j].1
    decreases |entries|
  {
    var init := entries[..|entries| - 1];
    if j < |entries| - 1 {
      AssignedLastWins(init, j);
    }
  }

  /** One more iteration of the loop performs one more assignment. */
  lemma AssignedStep<K, V>(entries: seq<(K, V)>, i: nat)
    requires i < |entries|
    ensures Assigned(entries[..i + 1]) == Assigned(entries[..i])[entries[i].0 := entries[i].1]
  {
    assert entries[..i + 1][..i] == entries[..i];
  }
}
