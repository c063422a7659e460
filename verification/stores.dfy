/** A run of `result[key] = value` assignments into one Go map. Both the struct
    flattener and the map converter build their result this way, so the
    last-write-wins rule is stated and proved once, here. */
module Stores {

  /** The map after assigning each pair of `ws` into `m`, first to last. */
  function Store<K, V>(m: map<K, V>, ws: seq<(K, V)>): map<K, V>
    decreases |ws|
  {
    if ws == [] then m else Store(m[ws[0].0 := ws[0].1], ws[1..])
  }

  /** Some assignment of `ws` targets `k`. */
  predicate Written<K(==), V>(ws: seq<(K, V)>, k: K)
  {
    exists i :: 0 <= i < |ws| && ws[i].0 == k
  }

  /** The keys `ws` assigns. */
  function KeysOf<K, V>(ws: seq<(K, V)>): set<K>
  {
    set i | 0 <= i < |ws| :: ws[i].0
  }

  /** The position of the last assignment to `k`. */
  function LastWrite<K(==), V>(ws: seq<(K, V)>, k: K): (i: nat)
    requires Written(ws, k)
    ensures i < |ws| && ws[i].0 == k
    ensures forall j :: i < j < |ws| ==> ws[j].0 != k
  {
    if ws[|ws| - 1].0 == k then |ws| - 1
    else
      var i :| 0 <= i < |ws| && ws[i].0 == k;
      assert ws[..|ws| - 1][i].0 == k;
      LastWrite(ws[..|ws| - 1], k)
  }

  /** One more assignment at the end is one more map update. */
  lemma {:induction false} StoreSnoc<K, V>(m: map<K, V>, ws: seq<(K, V)>, w: (K, V))
    ensures Store(m, ws + [w]) == Store(m, ws)[w.0 := w.1]
    decreases |ws|
  {
    if ws == [] {
      assert [] + [w] == [w];
    } else {
      assert (ws + [w])[1..] == ws[1..] + [w];
      StoreSnoc(m[ws[0].0 := ws[0].1], ws[1..], w);
    }
  }

  /** Two runs of assignments in a row are one run. */
  lemma {:induction false} StoreAppend<K, V>(m: map<K, V>, a: seq<(K, V)>, b: seq<(K, V)>)
    ensures Store(m, a + b) == Store(Store(m, a), b)
    decreases |a|
  {
    if a == [] {
      assert [] + b == b;
    } else {
      assert (a + b)[1..] == a[1..] + b;
      StoreAppend(m[a[0].0 := a[0].1], a[1..], b);
    }
  }

  /** The result holds the old keys and every assigned key; an assigned key
      holds its last assigned value, and every other key is untouched. */
  lemma {:induction false} StoreContents<K, V>(m: map<K, V>, ws: seq<(K, V)>)
    ensures Store(m, ws).Keys == m.Keys + KeysOf(ws)
    ensures forall k :: k in m && !Written(ws, k) ==> Store(m, ws)[k] == m[k]
    ensures forall k :: Written(ws, k) ==> Store(m, ws)[k] == ws[LastWrite(ws, k)].1
    decreases |ws|
  {
    if ws != [] {
      var n := |ws| - 1;
      var p := ws[..n];
      assert p + [ws[n]] == ws;
      StoreSnoc(m, p, ws[n]);
      StoreContents(m, p);
      assert KeysOf(ws) == KeysOf(p) + {ws[n].0} by {
        forall k | k in KeysOf(ws) ensures k in KeysOf(p) + {ws[n].0} {
          var i :| 0 <= i < |ws| && ws[i].0 == k;
          if i < n {
            assert p[i].0 == k;
          }
        }
        forall k | k in KeysOf(p) ensures k in KeysOf(ws) {
          var i :| 0 <= i < |p| && p[i].0 == k;
          assert ws[i].0 == k;
        }
      }
      forall k | Written(ws, k) && k != ws[n].0
        ensures Written(p, k) && LastWrite(ws, k) == LastWrite(p, k)
      {
        var i :| 0 <= i < |ws| && ws[i].0 == k;
        assert p[i].0 == k;
      }
    }
  }

  /** The result has at most one key more than `m` per assignment. */
  lemma {:induction false} StoreSize<K, V>(m: map<K, V>, ws: seq<(K, V)>)
    ensures |Store(m, ws)| <= |m| + |ws|
    decreases |ws|
  {
    if ws != [] {
      var m' := m[ws[0].0 := ws[0].1];
      assert m'.Keys == m.Keys + {ws[0].0};
      assert |m'.Keys| <= |m.Keys| + 1;
      StoreSize(m', ws[1..]);
    }
  }
}
