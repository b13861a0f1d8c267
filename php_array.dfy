/** PHP's ordered array with string keys, as used for the placeholder store,
    the two registries and the mappings handed to them: a lookup table that
    also remembers the order in which keys were first inserted. */
module PhpArray {

  datatype Arr<V> = Arr(keys: seq<string>, entries: map<string, V>)

  ghost predicate Distinct(s: seq<string>)
  {
    forall i, j :: 0 <= i < j < |s| ==> s[i] != s[j]
  }

  /** Every key is listed once, and the listed keys are the table's keys. */
  ghost predicate WellFormed<V>(a: Arr<V>)
  {
    && Distinct(a.keys)
    && forall k :: k in a.entries <==> k in a.keys
  }

  type PArray<V> = a: Arr<V> | WellFormed(a) witness Arr([], map[])

  function Empty<V>(): (r: PArray<V>)
    ensures r.keys == [] && r.entries == map[]
  {
    Arr([], map[])
  }

  /** `$a[$k] = $v`: a new key goes to the end, an existing key keeps its
      place and gets the new value. */
  function Put<V>(a: PArray<V>, k: string, v: V): (r: PArray<V>)
    ensures k in r.entries && r.entries[k] == v
    ensures forall j :: j != k ==> (j in r.entries <==> j in a.entries)
    ensures forall j :: j != k && j in a.entries ==> r.entries[j] == a.entries[j]
    ensures k in a.entries ==> r.keys == a.keys
    ensures k !in a.entries ==> r.keys == a.keys + [k]
  {
    if k in a.entries then Arr(a.keys, a.entries[k := v])
    else Arr(a.keys + [k], a.entries[k := v])
  }

  /** Writing a key twice keeps only the second value, and the key keeps
      the place it got first. */
  lemma PutOverwrites<V>(a: PArray<V>, k: string, v1: V, v2: V)
    ensures Put(Put(a, k, v1), k, v2) == Put(a, k, v2)
  {
    assert a.entries[k := v1][k := v2] == a.entries[k := v2];
  }

  /** The keys `s` with every occurrence of `k` dropped: the rest in order. */
  function Without(s: seq<string>, k: string): (r: seq<string>)
    ensures forall j :: j in r <==> j in s && j != k
    decreases |s|
  {
    if s == [] then []
    else if s[0] == k then Without(s[1..], k)
    else [s[0]] + Without(s[1..], k)
  }

  /** `unset($a[$k])`: the key and its value go, the others keep their order. */
  function Remove<V>(a: PArray<V>, k: string): (r: PArray<V>)
    ensures k !in r.entries
    ensures forall j :: j != k ==> (j in r.entries <==> j in a.entries)
    ensures forall j :: j != k && j in a.entries ==> r.entries[j] == a.entries[j]
    ensures k !in a.entries ==> r.keys == a.keys
    ensures r.keys == Without(a.keys, k)
  {
    WithoutDistinct(a.keys, k);
    assert k !in a.keys ==> Without(a.keys, k) == a.keys by {
      if k !in a.keys { WithoutAbsent(a.keys, k); }
    }
    Arr(Without(a.keys, k), a.entries - {k})
  }

  /** Removing the key at position `i` leaves the keys before it and the
      keys after it, in their order. */
  lemma RemoveKeepsOrder<V>(a: PArray<V>, k: string, i: nat)
    requires i < |a.keys| && a.keys[i] == k
    ensures Remove(a, k).keys == a.keys[..i] + a.keys[i + 1..]
  {
    var p, q := a.keys[..i], a.keys[i + 1..];
    assert a.keys == p + [k] + q;
    assert k !in p by {
      forall j | 0 <= j < |p| ensures p[j] != k {
        assert p[j] == a.keys[j];
      }
    }
    assert k !in q by {
      forall j | 0 <= j < |q| ensures q[j] != k {
        assert q[j] == a.keys[i + 1 + j];
      }
    }
    WithoutSplit(p, k, q);
  }

  lemma {:induction false} WithoutSplit(p: seq<string>, k: string, q: seq<string>)
    requires k !in p && k !in q
    ensures Without(p + [k] + q, k) == p + q
    decreases |p|
  {
    var s := p + [k] + q;
    if p == [] {
      assert s[0] == k && s[1..] == q;
      WithoutAbsent(q, k);
    } else {
      assert s[0] == p[0] && s[1..] == p[1..] + [k] + q;
      WithoutSplit(p[1..], k, q);
      assert p + q == [p[0]] + (p[1..] + q);
    }
  }

  /** Dropping the last key keeps the keys distinct. */
  lemma DistinctFront(s: seq<string>)
    requires Distinct(s) && s != []
    ensures Distinct(s[..|s| - 1])
  {
    var f := s[..|s| - 1];
    forall i, j | 0 <= i < j < |f| ensures f[i] != f[j] {
      assert f[i] == s[i] && f[j] == s[j];
    }
  }

  lemma {:induction false} WithoutAbsent(s: seq<string>, k: string)
    requires k !in s
    ensures Without(s, k) == s
    decreases |s|
  {
    if s != [] {
      WithoutAbsent(s[1..], k);
      assert s == [s[0]] + s[1..];
    }
  }

  lemma {:induction false} WithoutDistinct(s: seq<string>, k: string)
    requires Distinct(s)
    ensures Distinct(Without(s, k))
    decreases |s|
  {
    if s != [] {
      assert Distinct(s[1..]) by {
        forall i, j | 0 <= i < j < |s[1..]| ensures s[1..][i] != s[1..][j] {
          assert s[1..][i] == s[i + 1] && s[1..][j] == s[j + 1];
        }
      }
      WithoutDistinct(s[1..], k);
      assert s[0] !in s[1..] by {
        forall j | 0 <= j < |s[1..]| ensures s[1..][j] != s[0] {
          assert s[1..][j] == s[j + 1];
        }
      }
    }
  }
}
