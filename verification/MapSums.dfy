/** Sums over the values of a finite map. */
module MapSums {
  function Get(m: map<int, real>, k: int): real {
    if k in m then m[k] else 0.0
  }

  ghost function Sum(m: map<int, real>): real
    decreases |m|
  {
    if k :| k in m then m[k] + Sum(m - {k}) else 0.0
  }

  /** Any key may be taken out first. */
  lemma {:induction false} SumWithout(m: map<int, real>, k: int)
    requires k in m
    ensures Sum(m) == m[k] + Sum(m - {k})
    decreases |m|
  {
    var first :| first in m && Sum(m) == m[first] + Sum(m - {first});
    if first != k {
      var both := m - {first} - {k};
      assert both == m - {k} - {first};
      SumWithout(m - {first}, k);
      SumWithout(m - {k}, first);
    }
  }

  lemma SumUpdated(m: map<int, real>, k: int, v: real)
    ensures Sum(m[k := v]) == Sum(m) - Get(m, k) + v
  {
    var updated := m[k := v];
    SumWithout(updated, k);
    assert updated - {k} == m - {k};
    if k in m {
      SumWithout(m, k);
    } else {
      assert m - {k} == m;
    }
  }

  /** Keys that are looked up as zero add nothing. */
  lemma {:induction false} SumPadded(m: map<int, real>, keys: set<int>)
    requires m.Keys <= keys
    ensures Sum(map k | k in keys :: Get(m, k)) == Sum(m)
    decreases keys - m.Keys
  {
    var padded := map k | k in keys :: Get(m, k);
    if k :| k in keys && k !in m {
      var wider := m[k := 0.0];
      assert k in keys - m.Keys && k !in keys - wider.Keys;
      SumPadded(wider, keys);
      assert padded == map i | i in keys :: Get(wider, i);
      SumUpdated(m, k, 0.0);
    } else {
      assert padded == m;
    }
  }
}
