/** The ordered maps from names that RamFS and DevFS directories keep
    (`BTreeMap<String, _>`): a sequence of key/value pairs whose keys are
    strictly increasing, so iteration visits the names in sorted order and
    every name at most once. */
module SortedMap {
  import opened Common

  /** Strict lexicographic order on strings, as `String`'s `Ord` compares
      them (character by character; a proper prefix comes first). */
  predicate Less(a: string, b: string)
    decreases |a|
  {
    if |a| == 0 then |b| > 0
    else if |b| == 0 then false
    else a[0] < b[0] || (a[0] == b[0] && Less(a[1..], b[1..]))
  }

  lemma {:induction false} LessIrreflexive(a: string)
    ensures !Less(a, a)
    decreases |a|
  {
    if |a| > 0 {
      LessIrreflexive(a[1..]);
    }
  }

  lemma {:induction false} LessTransitive(a: string, b: string, c: string)
    requires Less(a, b) && Less(b, c)
    ensures Less(a, c)
    decreases |a|
  {
    if |a| > 0 && a[0] == b[0] && b[0] == c[0] {
      LessTransitive(a[1..], b[1..], c[1..]);
    }
  }

  /** Any two different strings are ordered one way or the other. */
  lemma {:induction false} LessTotal(a: string, b: string)
    ensures a == b || Less(a, b) || Less(b, a)
    decreases |a|
  {
    if |a| > 0 && |b| > 0 && a[0] == b[0] {
      LessTotal(a[1..], b[1..]);
      if a[1..] == b[1..] {
        assert a == [a[0]] + a[1..] && b == [b[0]] + b[1..];
      }
    }
  }

  lemma {:induction false} LessAsymmetric(a: string, b: string)
    requires Less(a, b)
    ensures !Less(b, a)
  {
    if Less(b, a) {
      LessTransitive(a, b, a);
      LessIrreflexive(a);
    }
  }

  /** Every key of `m` comes after `lo`. */
  predicate AllAbove<V>(lo: string, m: seq<(string, V)>)
  {
    forall i :: 0 <= i < |m| ==> Less(lo, m[i].0)
  }

  /** Keys strictly increasing: each key is below every later one. */
  predicate Sorted<V>(m: seq<(string, V)>)
  {
    m == [] || (AllAbove(m[0].0, m[1..]) && Sorted(m[1..]))
  }

  function Keys<V>(m: seq<(string, V)>): (ks: seq<string>)
    ensures |ks| == |m| && forall i :: 0 <= i < |m| ==> ks[i] == m[i].0
  {
    if m == [] then [] else [m[0].0] + Keys(m[1..])
  }

  /** `get`: the value stored under `k`, if any. */
  function Get<V>(m: seq<(string, V)>, k: string): (r: Option<V>)
    ensures r.None? <==> forall i :: 0 <= i < |m| ==> m[i].0 != k
    ensures r.Some? ==> exists i :: 0 <= i < |m| && m[i] == (k, r.value)
  {
    if m == [] then None
    else if m[0].0 == k then Some(m[0].1)
    else
      var r := Get(m[1..], k);
      assert r.Some? ==> exists i :: 0 <= i < |m| && m[i] == (k, r.value) by {
        if r.Some? {
          var i :| 0 <= i < |m[1..]| && m[1..][i] == (k, r.value);
          assert m[i + 1] == (k, r.value);
        }
      }
      r
  }

  /** `insert`: `k` now maps to `v`, replacing any earlier value, at its
      place in key order. */
  function Insert<V>(m: seq<(string, V)>, k: string, v: V): (r: seq<(string, V)>)
    ensures forall i :: 0 <= i < |r| ==> r[i] == (k, v) || r[i] in m
  {
    if m == [] then [(k, v)]
    else if m[0].0 == k then [(k, v)] + m[1..]
    else if Less(k, m[0].0) then [(k, v)] + m
    else [m[0]] + Insert(m[1..], k, v)
  }

  /** `remove`: no entry for `k` is left; the others keep their order. */
  function Remove<V>(m: seq<(string, V)>, k: string): (r: seq<(string, V)>)
    ensures |r| <= |m|
    ensures forall i :: 0 <= i < |r| ==> r[i] in m && r[i].0 != k
  {
    if m == [] then []
    else if m[0].0 == k then Remove(m[1..], k)
    else [m[0]] + Remove(m[1..], k)
  }

  /** A key below the first key goes in front. */
  lemma InsertFront<V>(m: seq<(string, V)>, k: string, v: V)
    requires m != [] && Less(k, m[0].0)
    ensures Insert(m, k, v) == [(k, v)] + m
  {
    LessIrreflexive(k);
  }

  /** A key above the first key is inserted into the rest. */
  lemma InsertPast<V>(m: seq<(string, V)>, k: string, v: V)
    requires m != [] && Less(m[0].0, k)
    ensures Insert(m, k, v) == [m[0]] + Insert(m[1..], k, v)
  {
    LessIrreflexive(k);
    LessAsymmetric(m[0].0, k);
  }

  // ---------------------------------------------------------------------
  // Lookups after updates

  /** After an insert, `k` maps to the new value and every other key to
      what it mapped to before. */
  lemma {:induction false} GetInsert<V>(m: seq<(string, V)>, k: string, v: V, k': string)
    ensures Get(Insert(m, k, v), k') == if k' == k then Some(v) else Get(m, k')
  {
    if m != [] && m[0].0 != k && !Less(k, m[0].0) {
      GetInsert(m[1..], k, v, k');
      assert Insert(m, k, v)[1..] == Insert(m[1..], k, v);
    } else if m != [] && m[0].0 == k {
      assert Insert(m, k, v)[1..] == m[1..];
    } else if m != [] {
      assert Insert(m, k, v)[1..] == m;
    }
  }

  /** After a remove, `k` is absent and every other key is untouched. */
  lemma {:induction false} GetRemove<V>(m: seq<(string, V)>, k: string, k': string)
    ensures Get(Remove(m, k), k') == if k' == k then None else Get(m, k')
  {
    if m != [] {
      GetRemove(m[1..], k, k');
      if m[0].0 != k {
        assert Remove(m, k)[1..] == Remove(m[1..], k);
      }
    }
  }

  /** Removing an absent key changes nothing. */
  lemma {:induction false} RemoveAbsent<V>(m: seq<(string, V)>, k: string)
    requires Get(m, k).None?
    ensures Remove(m, k) == m
  {
    if m != [] {
      RemoveAbsent(m[1..], k);
    }
  }

  // ---------------------------------------------------------------------
  // Order is kept

  lemma {:induction false} InsertAbove<V>(lo: string, m: seq<(string, V)>, k: string, v: V)
    requires AllAbove(lo, m) && Less(lo, k)
    ensures AllAbove(lo, Insert(m, k, v))
  {
    if m != [] && m[0].0 != k && !Less(k, m[0].0) {
      InsertAbove(lo, m[1..], k, v);
    }
  }

  lemma {:induction false} AllAboveChain<V>(lo: string, mid: string, m: seq<(string, V)>)
    requires Less(lo, mid) && AllAbove(mid, m)
    ensures AllAbove(lo, m)
  {
    forall i | 0 <= i < |m| ensures Less(lo, m[i].0) {
      LessTransitive(lo, mid, m[i].0);
    }
  }

  /** Inserting keeps the keys strictly increasing. */
  lemma {:induction false} InsertSorted<V>(m: seq<(string, V)>, k: string, v: V)
    requires Sorted(m)
    ensures Sorted(Insert(m, k, v))
  {
    if m == [] {
    } else if m[0].0 == k {
      assert Insert(m, k, v) == [(k, v)] + m[1..];
    } else if Less(k, m[0].0) {
      AllAboveChain(k, m[0].0, m[1..]);
      assert Insert(m, k, v)[1..] == m;
    } else {
      LessTotal(k, m[0].0);
      InsertSorted(m[1..], k, v);
      InsertAbove(m[0].0, m[1..], k, v);
      assert Insert(m, k, v)[1..] == Insert(m[1..], k, v);
    }
  }

  lemma {:induction false} RemoveAbove<V>(lo: string, m: seq<(string, V)>, k: string)
    requires AllAbove(lo, m)
    ensures AllAbove(lo, Remove(m, k))
  {
    if m != [] {
      RemoveAbove(lo, m[1..], k);
    }
  }

  /** Removing keeps the keys strictly increasing. */
  lemma {:induction false} RemoveSorted<V>(m: seq<(string, V)>, k: string)
    requires Sorted(m)
    ensures Sorted(Remove(m, k))
  {
    if m != [] {
      RemoveSorted(m[1..], k);
      if m[0].0 != k {
        RemoveAbove(m[0].0, m[1..], k);
        assert Remove(m, k)[1..] == Remove(m[1..], k);
      }
    }
  }

  /** In a sorted map keys are pairwise ordered, hence pairwise distinct. */
  lemma {:induction false} SortedPairs<V>(m: seq<(string, V)>, i: nat, j: nat)
    requires Sorted(m) && i < j < |m|
    ensures Less(m[i].0, m[j].0) && m[i].0 != m[j].0
  {
    if i == 0 {
      assert m[j].0 == m[1..][j - 1].0;
    } else {
      SortedPairs(m[1..], i - 1, j - 1);
    }
    LessIrreflexive(m[i].0);
  }

  /** In a sorted map every entry is the one `get` finds for its key. */
  lemma {:induction false} GetSorted<V>(m: seq<(string, V)>, k: nat)
    requires Sorted(m) && k < |m|
    ensures Get(m, m[k].0) == Some(m[k].1)
  {
    if k > 0 {
      SortedPairs(m, 0, k);
      assert m[k] == m[1..][k - 1];
      GetSorted(m[1..], k - 1);
    }
  }

  /** The keys of an insert are the old keys and `k`: a key is present
      afterwards exactly when it was before or is `k`. */
  lemma InsertKeys<V>(m: seq<(string, V)>, k: string, v: V, k': string)
    ensures Get(Insert(m, k, v), k').Some? <==> k' == k || Get(m, k').Some?
  {
    GetInsert(m, k, v, k');
  }
}
