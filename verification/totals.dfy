/** The sum of the values of a counter map, `sum(d.values())` in Python. */
module Totals {

  /** Some key of a non-empty map: the key `Total` peels off first. */
  ghost function Pick<K>(m: map<K, nat>): (k: K)
    requires |m| > 0
    ensures k in m
  {
    assert exists k :: k in m by {
      var k :| k in m.Keys;
    }
    var k :| k in m;
    k
  }

  ghost function Total<K>(m: map<K, nat>): nat
    decreases |m|
  {
    if |m| == 0 then 0
    else
      var k := Pick(m);
      assert (m - {k}).Keys == m.Keys - {k};
      m[k] + Total(m - {k})
  }

  /** The value of a key in a counter map, 0 when the key is absent. */
  function Get<K>(m: map<K, nat>, k: K): nat
  {
    if k in m then m[k] else 0
  }

  lemma {:induction false} TotalRemove<K>(m: map<K, nat>, k: K)
    requires k in m
    ensures Total(m) == m[k] + Total(m - {k})
    decreases |m|
  {
    assert |m| != 0 by {
      assert k in m.Keys;
    }
    var j := Pick(m);
    assert Total(m) == m[j] + Total(m - {j});
    if j != k {
      var mj := m - {j};
      var mk := m - {k};
      assert |mj| < |m| && |mk| < |m| by {
        assert mj.Keys == m.Keys - {j};
        assert mk.Keys == m.Keys - {k};
      }
      TotalRemove(mj, k);
      TotalRemove(mk, j);
      assert mj - {k} == mk - {j};
    }
  }

  /** Three counters at zero total zero. */
  lemma TotalOfZeros<K>(a: K, b: K, c: K)
    requires a != b && b != c && a != c
    ensures Total(map[a := 0, b := 0, c := 0]) == 0
  {
    var m: map<K, nat> := map[a := 0, b := 0, c := 0];
    TotalRemove(m, a);
    var m1 := m - {a};
    assert m1 == map[b := 0, c := 0];
    TotalRemove(m1, b);
    var m2 := m1 - {b};
    assert m2 == map[c := 0];
    TotalRemove(m2, c);
    assert m2 - {c} == map[];
  }

  /** Setting one key changes the total by the difference of its old and new value. */
  lemma TotalUpdate<K>(m: map<K, nat>, k: K, v: nat)
    ensures Total(m[k := v]) + Get(m, k) == Total(m) + v
  {
    if k in m {
      TotalReplace(m, k, v);
    } else {
      TotalInsert(m, k, v);
    }
  }

  lemma TotalReplace<K>(m: map<K, nat>, k: K, v: nat)
    requires k in m
    ensures Total(m[k := v]) + m[k] == Total(m) + v
  {
    var m' := m[k := v];
    assert k in m';
    TotalRemove(m', k);
    TotalRemove(m, k);
    assert m' - {k} == m - {k};
  }

  lemma TotalInsert<K>(m: map<K, nat>, k: K, v: nat)
    requires k !in m
    ensures Total(m[k := v]) == Total(m) + v
  {
    var m' := m[k := v];
    assert k in m';
    TotalRemove(m', k);
    assert m' - {k} == m;
  }

  /** The increment `d[k] += 1` (or `d[k] = 1` for a new key) adds exactly one to the total. */
  function Bump<K>(m: map<K, nat>, k: K): (r: map<K, nat>)
    ensures r.Keys == m.Keys + {k}
    ensures r[k] == Get(m, k) + 1
    ensures forall j :: j in m && j != k ==> r[j] == m[j]
  {
    m[k := Get(m, k) + 1]
  }

  lemma BumpTotal<K>(m: map<K, nat>, k: K)
    ensures Total(Bump(m, k)) == Total(m) + 1
  {
    TotalUpdate(m, k, Get(m, k) + 1);
  }
}
