/** Assigning key/value pairs into a Go map one after another, the way the
    link map is filled: a later pair overwrites an earlier one. */
module Maps {
  /** `m` after `m[k] = v` for every pair of `kvs`, in order. */
  function Assign<K, V>(m: map<K, V>, kvs: seq<(K, V)>): map<K, V>
    decreases |kvs|
  {
    if kvs == [] then m
    else
      var last := kvs[|kvs| - 1];
      Assign(m, kvs[..|kvs| - 1])[last.0 := last.1]
  }

  /** The keys a sequence of pairs assigns. */
  function KeysOf<K, V>(kvs: seq<(K, V)>): set<K>
  {
    set i | 0 <= i < |kvs| :: kvs[i].0
  }

  /** One more pair overwrites one entry. */
  lemma AssignSnoc<K, V>(m: map<K, V>, kvs: seq<(K, V)>, k: K, v: V)
    ensures Assign(m, kvs + [(k, v)]) == Assign(m, kvs)[k := v]
  {
    assert (kvs + [(k, v)])[..|kvs|] == kvs;
  }

  /** Assigning two runs of pairs is assigning their concatenation. */
  lemma {:induction false} AssignAppend<K, V>(m: map<K, V>, a: seq<(K, V)>, b: seq<(K, V)>)
    ensures Assign(m, a + b) == Assign(Assign(m, a), b)
    decreases |b|
  {
    if b == [] {
      assert a + b == a;
    } else {
      assert (a + b)[..|a + b| - 1] == a + b[..|b| - 1];
      AssignAppend(m, a, b[..|b| - 1]);
    }
  }

  /** The keys afterwards are the old keys and the assigned ones. */
  lemma {:induction false} AssignKeys<K, V>(m: map<K, V>, kvs: seq<(K, V)>)
    ensures Assign(m, kvs).Keys == m.Keys + KeysOf(kvs)
    decreases |kvs|
  {
    if kvs != [] {
      var init := kvs[..|kvs| - 1];
      AssignKeys(m, init);
      assert KeysOf(kvs) == KeysOf(init) + {kvs[|kvs| - 1].0} by {
        forall k | k in KeysOf(kvs) ensures k in KeysOf(init) + {kvs[|kvs| - 1].0} {
          var i :| 0 <= i < |kvs| && kvs[i].0 == k;
          if i < |kvs| - 1 {
            assert init[i] == kvs[i];
          }
        }
        forall k | k in KeysOf(init) ensures k in KeysOf(kvs) {
          var i :| 0 <= i < |init| && init[i].0 == k;
          assert kvs[i] == init[i];
        }
      }
    }
  }

  /** The pair assigned last for a key decides its value. */
  lemma {:induction false} AssignLastWins<K, V>(m: map<K, V>, kvs: seq<(K, V)>, i: nat)
    requires i < |kvs|
    requires forall j :: i < j < |kvs| ==> kvs[j].0 != kvs[i].0
    ensures kvs[i].0 in Assign(m, kvs) && Assign(m, kvs)[kvs[i].0] == kvs[i].1
    decreases |kvs|
  {
    if i < |kvs| - 1 {
      var init := kvs[..|kvs| - 1];
      assert init[i] == kvs[i];
      forall j | i < j < |init| ensures init[j].0 != init[i].0 {
        assert init[j] == kvs[j];
      }
      AssignLastWins(m, init, i);
    }
  }

  /** A key no pair assigns keeps its old entry, or its absence. */
  lemma {:induction false} AssignUntouched<K, V>(m: map<K, V>, kvs: seq<(K, V)>, k: K)
    requires k !in KeysOf(kvs)
    ensures k in Assign(m, kvs) <==> k in m
    ensures k in m ==> Assign(m, kvs)[k] == m[k]
    decreases |kvs|
  {
    if kvs != [] {
      var init := kvs[..|kvs| - 1];
      assert k != kvs[|kvs| - 1].0;
      forall i | 0 <= i < |init| ensures init[i].0 != k {
        assert init[i] == kvs[i];
      }
      AssignUntouched(m, init, k);
    }
  }
}
