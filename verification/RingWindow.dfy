/** A bounded store as both light clients keep it: a map of entries beside a ring buffer of their keys. Inserting
    writes the new entry first and then removes the entry whose key the ring overwrites. This module shows when that
    is a sliding window over everything ever inserted.
  */
module RingWindow {

  datatype Ring<K, V> = Ring(slots: map<nat, K>, entries: map<K, V>, next: nat)

  function EmptyRing<K(==), V>(): Ring<K, V> {
    Ring(map[], map[], 0)
  }

  function Insert<K(==), V>(size: nat, r: Ring<K, V>, k: K, v: V): Ring<K, V>
    requires size > 0
  {
    var entries := r.entries[k := v];
    Ring(r.slots[r.next := k],
         if r.next in r.slots then entries - {r.slots[r.next]} else entries,
         (r.next + 1) % size)
  }

  /** Index `i` of a history of `n` insertions is among the last `size`. */
  predicate Recent(size: nat, n: nat, i: int) {
    0 <= i < n && n - size <= i
  }

  ghost predicate DistinctKeys<K, V>(h: seq<(K, V)>) {
    forall i, j :: 0 <= i < j < |h| ==> h[i].0 != h[j].0
  }

  /** The ring holds exactly the last `size` insertions of the history `h`. */
  ghost predicate IsWindow<K, V>(size: nat, h: seq<(K, V)>, r: Ring<K, V>)
    requires size > 0
  {
    && r.next == |h| % size
    && (forall s: nat :: s in r.slots <==> s < size && s < |h|)
    && (forall i :: Recent(size, |h|, i) ==> i % size in r.slots && r.slots[i % size] == h[i].0)
    && (forall i :: Recent(size, |h|, i) ==> h[i].0 in r.entries && r.entries[h[i].0] == h[i].1)
    && (forall k :: k in r.entries ==> exists i :: Recent(size, |h|, i) && h[i].0 == k)
  }

  lemma EmptyIsWindow<K, V>(size: nat)
    requires size > 0
    ensures IsWindow<K, V>(size, [], EmptyRing())
  {
  }

  /** Shifting by the modulus, in either direction, and by one. */
  lemma ModuloFacts(x: nat, size: nat)
    requires size > 0
    ensures (x % size + 1) % size == (x + 1) % size
    ensures x >= size ==> (x - size) % size == x % size
    ensures x < size ==> x % size == x
  {
    var q, r := x / size, x % size;
    assert x == size * q + r;
    if x >= size {
      assert x - size == size * (q - 1) + r;
      RemainderUnique(x - size, size, q - 1, r);
    }
    if x < size { RemainderUnique(x, size, 0, x); }
    if r + 1 < size {
      RemainderUnique(x + 1, size, q, r + 1);
      RemainderUnique(r + 1, size, 0, r + 1);
    } else {
      assert x + 1 == size * (q + 1);
      RemainderUnique(x + 1, size, q + 1, 0);
      RemainderUnique(size, size, 1, 0);
    }
  }

  /** Counting on from a wrapped count. */
  lemma NextModulo(count: nat, wrapped: nat, size: nat)
    requires size > 0 && wrapped == count % size
    ensures (wrapped + 1) % size == (count + 1) % size
  {
    ModuloFacts(count, size);
  }

  lemma RemainderUnique(x: int, size: nat, q: int, r: int)
    requires size > 0 && 0 <= r < size
    requires x == size * q + r
    ensures x % size == r
  {
    SameRemainder(size, q, r, x / size, x % size);
  }

  lemma SameRemainder(size: nat, q: int, r: int, q': int, r': int)
    requires 0 <= r < size && 0 <= r' < size
    requires size * q + r == size * q' + r'
    ensures q == q' && r == r'
  {
    if q < q' { MultipleAtLeast(size, q' - q); }
    if q' < q { MultipleAtLeast(size, q - q'); }
  }

  lemma MultipleAtLeast(size: nat, k: int)
    requires k >= 1
    ensures size * k >= size
  {
    assert size * k == size + size * (k - 1);
  }

  /** Indices less than `size` apart have different remainders. */
  lemma ModuloInjective(i: nat, j: nat, size: nat)
    requires size > 0 && i < j < i + size
    ensures i % size != j % size
  {
    var q, q' := i / size, j / size;
    if i % size == j % size {
      assert j - i == size * (q' - q);
      if q' > q { MultipleAtLeast(size, q' - q); } else if q' < q { MultipleAtLeast(size, q - q'); }
    }
  }

  /** The key that an insertion prunes is that of the oldest entry of a full window. */
  lemma PrunedKey<K, V>(size: nat, h: seq<(K, V)>, r: Ring<K, V>)
    requires size > 0
    requires IsWindow(size, h, r)
    ensures r.next in r.slots <==> |h| >= size
    ensures |h| >= size ==> r.slots[r.next] == h[|h| - size].0
  {
    ModuloFacts(|h|, size);
    if |h| >= size { assert Recent(size, |h|, |h| - size); }
  }

  /** The ring of keys slides. */
  lemma SlotsSlide<K, V>(size: nat, h: seq<(K, V)>, r: Ring<K, V>, k: K, v: V)
    requires size > 0
    requires IsWindow(size, h, r)
    ensures var h', r' := h + [(k, v)], Insert(size, r, k, v);
            && r'.next == |h'| % size
            && (forall s: nat :: s in r'.slots <==> s < size && s < |h'|)
            && (forall i :: Recent(size, |h'|, i) ==> i % size in r'.slots && r'.slots[i % size] == h'[i].0)
  {
    ModuloFacts(|h|, size);
    forall i | Recent(size, |h| + 1, i) && i < |h| ensures i % size != |h| % size && Recent(size, |h|, i) {
      ModuloInjective(i, |h|, size);
    }
  }

  /** The recent entries survive the insertion. */
  lemma EntriesSlide<K, V>(size: nat, h: seq<(K, V)>, r: Ring<K, V>, k: K, v: V, i: nat)
    requires size > 0
    requires IsWindow(size, h, r)
    requires DistinctKeys(h + [(k, v)])
    requires Recent(size, |h| + 1, i)
    ensures var h', r' := h + [(k, v)], Insert(size, r, k, v);
            h'[i].0 in r'.entries && r'.entries[h'[i].0] == h'[i].1
  {
    var h', n := h + [(k, v)], |h|;
    PrunedKey(size, h, r);
    if n >= size { assert h'[n - size].0 != h'[i].0; }
    if i < n { assert Recent(size, n, i) && h'[i].0 != h'[n].0; }
  }

  /** Nothing else does. */
  lemma OnlyRecentEntries<K, V>(size: nat, h: seq<(K, V)>, r: Ring<K, V>, k: K, v: V, q: K)
    requires size > 0
    requires IsWindow(size, h, r)
    requires q in Insert(size, r, k, v).entries
    ensures exists i :: Recent(size, |h| + 1, i) && (h + [(k, v)])[i].0 == q
  {
    var h', n := h + [(k, v)], |h|;
    PrunedKey(size, h, r);
    if q == k {
      assert Recent(size, n + 1, n) && h'[n].0 == q;
    } else {
      var i :| Recent(size, n, i) && h[i].0 == q;
      assert Recent(size, n + 1, i) && h'[i].0 == q;
    }
  }

  /** With all keys different, inserting slides the window by one. */
  lemma InsertSlides<K, V>(size: nat, h: seq<(K, V)>, r: Ring<K, V>, k: K, v: V)
    requires size > 0
    requires IsWindow(size, h, r)
    requires DistinctKeys(h + [(k, v)])
    ensures IsWindow(size, h + [(k, v)], Insert(size, r, k, v))
    ensures k in Insert(size, r, k, v).entries
  {
    var h', r' := h + [(k, v)], Insert(size, r, k, v);
    SlotsSlide(size, h, r, k, v);
    forall i | Recent(size, |h'|, i) ensures h'[i].0 in r'.entries && r'.entries[h'[i].0] == h'[i].1 {
      EntriesSlide(size, h, r, k, v, i);
    }
    forall q | q in r'.entries ensures exists i :: Recent(size, |h'|, i) && h'[i].0 == q {
      OnlyRecentEntries(size, h, r, k, v, q);
    }
    EntriesSlide(size, h, r, k, v, |h|);
  }

  /** The order of the two writes matters when keys repeat: the new entry survives exactly when its key is not the
      one being pruned. */
  lemma NewEntrySurvives<K, V>(size: nat, r: Ring<K, V>, k: K, v: V)
    requires size > 0
    ensures k in Insert(size, r, k, v).entries <==> !(r.next in r.slots && r.slots[r.next] == k)
  {
  }

  /** At most `size` entries are ever kept. */
  lemma WindowBound<K, V>(size: nat, h: seq<(K, V)>, r: Ring<K, V>)
    requires size > 0
    requires IsWindow(size, h, r)
    requires DistinctKeys(h)
    ensures |r.entries| == if |h| < size then |h| else size
  {
    var lo := if |h| < size then 0 else |h| - size;
    assert r.entries.Keys == set i | lo <= i < |h| :: h[i].0 by {
      forall k | k in r.entries ensures exists i :: lo <= i < |h| && h[i].0 == k {
        var i :| Recent(size, |h|, i) && h[i].0 == k;
      }
      forall i | lo <= i < |h| ensures h[i].0 in r.entries { assert Recent(size, |h|, i); }
    }
    KeyCount(h, lo, |h|);
  }

  lemma {:induction false} KeyCount<K, V>(h: seq<(K, V)>, lo: nat, hi: nat)
    requires lo <= hi <= |h| && DistinctKeys(h)
    ensures |set i | lo <= i < hi :: h[i].0| == hi - lo
    decreases hi - lo
  {
    if lo < hi {
      KeyCount(h, lo, hi - 1);
      assert (set i | lo <= i < hi :: h[i].0) == (set i | lo <= i < hi - 1 :: h[i].0) + {h[hi - 1].0};
    }
  }

  /** The ring lists exactly the keys of the entries, each once. */
  ghost predicate ListsKeys<K, V>(r: Ring<K, V>) {
    && (forall s, s' :: s in r.slots && s' in r.slots && s != s' ==> r.slots[s] != r.slots[s'])
    && (forall k :: k in r.entries ==> exists s :: s in r.slots && r.slots[s] == k)
    && (forall s <- r.slots :: r.slots[s] in r.entries)
  }

  /** Every used slot holds the key of a recent insertion. */
  lemma SlotHolds<K, V>(size: nat, h: seq<(K, V)>, r: Ring<K, V>, s: nat) returns (i: nat)
    requires size > 0
    requires IsWindow(size, h, r)
    requires s in r.slots
    ensures Recent(size, |h|, i) && i % size == s && r.slots[s] == h[i].0 && h[i].0 in r.entries
  {
    i := SlotIndex(size, |h|, s);
  }

  lemma WindowListsKeys<K, V>(size: nat, h: seq<(K, V)>, r: Ring<K, V>)
    requires size > 0
    requires IsWindow(size, h, r)
    requires DistinctKeys(h)
    ensures ListsKeys(r)
  {
    forall s, s' | s in r.slots && s' in r.slots && s != s' ensures r.slots[s] != r.slots[s'] {
      var i := SlotHolds(size, h, r, s);
      var i' := SlotHolds(size, h, r, s');
      assert i < i' || i' < i;
    }
    forall k | k in r.entries ensures exists s :: s in r.slots && r.slots[s] == k {
      var i :| Recent(size, |h|, i) && h[i].0 == k;
      assert i % size in r.slots;
    }
    forall s | s in r.slots ensures r.slots[s] in r.entries {
      var i := SlotHolds(size, h, r, s);
    }
  }

  /** Every used slot holds one of the recent insertions. */
  lemma {:induction false} SlotIndex(size: nat, n: nat, s: nat) returns (i: nat)
    requires size > 0 && s < size && s < n
    ensures Recent(size, n, i) && i % size == s
  {
    ModuloFacts(n - 1, size);
    if (n - 1) % size == s {
      i := n - 1;
    } else {
      i := SlotIndex(size, n - 1, s);
      if i < n - size {
        ModuloFacts(i + size, size);
        i := i + size;
      }
    }
  }
}
