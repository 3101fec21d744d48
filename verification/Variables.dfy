/** Objects held in numbered variables, and what the variables show. */
module Variables {
  /** Variables hold distinct objects, and these are all the objects there are. */
  ghost predicate Holds<K>(keys: set<K>, vars: map<nat, K>) {
    && (forall i :: i in vars ==> vars[i] in keys)
    && (forall i, j :: i in vars && j in vars && i != j ==> vars[i] != vars[j])
    && (forall k :: k in keys ==> exists i :: i in vars && vars[i] == k)
  }

  ghost function Read<K, V>(shows: map<K, V>, vars: map<nat, K>): (v: map<nat, V>)
    requires forall i :: i in vars ==> vars[i] in shows
    ensures v.Keys == vars.Keys
  {
    map i | i in vars :: shows[vars[i]]
  }

  lemma ReadPut<K, V>(shows: map<K, V>, vars: map<nat, K>, keys: set<K>, i: nat, s: V)
    requires Holds(keys, vars) && keys == shows.Keys && i in vars
    ensures Read(shows[vars[i] := s], vars) == Read(shows, vars)[i := s]
  {
  }

  lemma ReadNew<K, V>(shows: map<K, V>, vars: map<nat, K>, keys: set<K>, i: nat, k: K, s: V)
    requires Holds(keys, vars) && keys == shows.Keys && i !in vars && k !in keys
    ensures Holds(keys + {k}, vars[i := k])
    ensures Read(shows[k := s], vars[i := k]) == Read(shows, vars)[i := s]
  {
    var vars' := vars[i := k];
    forall x | x in keys + {k} ensures exists j :: j in vars' && vars'[j] == x {
      if x != k {
        var j :| j in vars && vars[j] == x;
        assert vars'[j] == x;
      } else {
        assert vars'[i] == k;
      }
    }
  }

  lemma ReadDrop<K, V>(shows: map<K, V>, vars: map<nat, K>, keys: set<K>, i: nat)
    requires Holds(keys, vars) && keys == shows.Keys && i in vars
    ensures Holds(keys - {vars[i]}, vars - {i})
    ensures Read(shows - {vars[i]}, vars - {i}) == Read(shows, vars) - {i}
  {
    var vars' := vars - {i};
    forall x | x in keys - {vars[i]} ensures exists j :: j in vars' && vars'[j] == x {
      var j :| j in vars && vars[j] == x;
      assert vars'[j] == x;
    }
  }

  lemma HoldsKeys<K>(keys: set<K>, vars: map<nat, K>)
    requires Holds(keys, vars)
    ensures forall i :: i in vars ==> vars[i] in keys
  {
  }

  lemma NothingHeld<K>(keys: set<K>, vars: map<nat, K>)
    requires Holds(keys, vars)
    ensures vars == map[] <==> keys == {}
  {
  }

  lemma NoneHeld<K>()
    ensures Holds<K>({}, map[])
  {
  }
}
