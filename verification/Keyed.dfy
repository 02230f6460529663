/**
 Tables whose rows have a natural key and, as identifier, their position: an upsert by key keeps the
 identifier of a row that is there and gives a new one the next position.
 */
module Keyed {
  import opened Wrappers

  datatype Entry<+K, +V> = Entry(key: K, value: V)

  predicate Distinct<K(==), V>(t: seq<Entry<K, V>>) {
    forall i, j | 0 <= i < j < |t| :: t[i].key != t[j].key
  }

  function Find<K(==), V>(t: seq<Entry<K, V>>, k: K): (r: Option<nat>)
    ensures r.Some? ==> r.value < |t| && t[r.value].key == k
    ensures r.None? ==> forall i | 0 <= i < |t| :: t[i].key != k
  {
    if |t| == 0 then None
    else
      var n := |t| - 1;
      var before := Find(t[..n], k);
      if before.Some? then before else if t[n].key == k then Some(n) else None
  }

  function Get<K(==), V>(t: seq<Entry<K, V>>, k: K): Option<V> {
    var i := Find(t, k);
    if i.Some? then Some(t[i.value].value) else None
  }

  function Put<K(==), V>(t: seq<Entry<K, V>>, k: K, v: V): seq<Entry<K, V>> {
    var i := Find(t, k);
    if i.Some? then t[i.value := Entry(k, v)] else t + [Entry(k, v)]
  }

  /** Upserts in turn, each merged with the row that is there. */
  function PutAll<K(==), V, D>(t: seq<Entry<K, V>>, ds: seq<Entry<K, D>>, merge: (Option<V>, D) -> V): seq<Entry<K, V>> {
    if |ds| == 0 then t
    else
      var n := |ds| - 1;
      var before := PutAll(t, ds[..n], merge);
      Put(before, ds[n].key, merge(Get(before, ds[n].key), ds[n].value))
  }

  lemma PutAllStep<K, V, D>(t: seq<Entry<K, V>>, ds: seq<Entry<K, D>>, d: Entry<K, D>, merge: (Option<V>, D) -> V)
    ensures var before := PutAll(t, ds, merge);
      PutAll(t, ds + [d], merge) == Put(before, d.key, merge(Get(before, d.key), d.value))
  {
    assert (ds + [d])[..|ds|] == ds;
  }

  /** With distinct keys there is only one place to find a key. */
  lemma FoundOnlyThere<K, V>(t: seq<Entry<K, V>>, i: nat)
    requires Distinct(t) && i < |t|
    ensures Find(t, t[i].key) == Some(i) && Get(t, t[i].key) == Some(t[i].value)
  {
    assert Find(t, t[i].key).Some?;
  }

  /** Keys stay where they are. */
  ghost predicate Extends<K, V>(t: seq<Entry<K, V>>, next: seq<Entry<K, V>>) {
    |t| <= |next| && forall i | 0 <= i < |t| :: next[i].key == t[i].key
  }

  lemma PutMeans<K, V>(t: seq<Entry<K, V>>, k: K, v: V, other: K)
    requires Distinct(t)
    ensures var next := Put(t, k, v);
      && Distinct(next) && Extends(t, next)
      && Get(next, other) == (if other == k then Some(v) else Get(t, other))
  {
    var next := Put(t, k, v);
    var i := Find(next, other);
    if i.Some? && i.value < |t| { FoundOnlyThere(t, i.value); }
    var j := Find(t, other);
    if j.Some? { assert next[j.value].key == other; FoundOnlyThere(next, j.value); FoundOnlyThere(t, j.value); }
    if other == k {
      var at := if Find(t, k).Some? then Find(t, k).value else |t|;
      FoundOnlyThere(next, at);
    }
  }

  /** What a list of upserts with distinct keys leaves under each key, and where. */
  lemma {:induction false} PutAllMeans<K, V, D>(t: seq<Entry<K, V>>, ds: seq<Entry<K, D>>, merge: (Option<V>, D) -> V, k: K)
    requires Distinct(t) && Distinct(ds)
    ensures var next := PutAll(t, ds, merge);
      && Distinct(next) && Extends(t, next)
      && Get(next, k) == (var d := Get(ds, k); if d.Some? then Some(merge(Get(t, k), d.value)) else Get(t, k))
  {
    hide Find, Get;
    if |ds| > 0 {
      var n := |ds| - 1;
      var init, last := ds[..n], ds[n];
      PutAllMeans(t, init, merge, k);
      PutAllMeans(t, init, merge, last.key);
      var before := PutAll(t, init, merge);
      PutMeans(before, last.key, merge(Get(before, last.key), last.value), k);
      LastIsGot(ds, k);
      LastIsGot(ds, last.key);
    } else {
      NothingIsGot(ds, k);
    }
  }

  lemma NothingIsGot<K, D>(ds: seq<Entry<K, D>>, k: K)
    requires |ds| == 0
    ensures Get(ds, k) == None
  {
  }

  lemma LastIsGot<K, D>(ds: seq<Entry<K, D>>, k: K)
    requires |ds| > 0 && Distinct(ds)
    ensures var n := |ds| - 1;
      && Get(ds, k) == (if k == ds[n].key then Some(ds[n].value) else Get(ds[..n], k))
      && Get(ds[..n], ds[n].key) == None
  {
    var n := |ds| - 1;
    var i := Find(ds[..n], k);
    if i.Some? { assert ds[i.value].key == k; }
    var j := Find(ds[..n], ds[n].key);
    assert j.None?;
  }

  /** A position found by key is found by it in every extension. */
  lemma FoundStays<K, V>(t: seq<Entry<K, V>>, next: seq<Entry<K, V>>, k: K)
    requires Distinct(next) && Extends(t, next)
    ensures Find(t, k).Some? ==> Find(next, k) == Find(t, k)
    ensures Find(t, k).None? && Find(next, k).Some? ==> Find(next, k).value >= |t|
  {
    var i := Find(t, k);
    if i.Some? { FoundOnlyThere(next, i.value); }
  }

  // ---------------------------------------------------------------------------------------------
  // Lists that upsert a key more than once
  // ---------------------------------------------------------------------------------------------

  /** What a list of upserts makes of the row of one key. */
  function Fold<K(==), V, D>(v: Option<V>, ds: seq<Entry<K, D>>, merge: (Option<V>, D) -> V, k: K): Option<V> {
    if |ds| == 0 then v
    else
      var n := |ds| - 1;
      var before := Fold(v, ds[..n], merge, k);
      if ds[n].key == k then Some(merge(before, ds[n].value)) else before
  }

  /** The last declaration made under a key. */
  function Last<K(==), D>(ds: seq<Entry<K, D>>, k: K): Option<D> {
    if |ds| == 0 then None
    else
      var n := |ds| - 1;
      if ds[n].key == k then Some(ds[n].value) else Last(ds[..n], k)
  }

  lemma {:induction false} LastIsDeclared<K, D>(ds: seq<Entry<K, D>>, k: K)
    ensures Last(ds, k).Some? <==> exists d | d in ds :: d.key == k
    ensures Last(ds, k).Some? ==> Entry(k, Last(ds, k).value) in ds
  {
    if |ds| > 0 {
      var n := |ds| - 1;
      LastIsDeclared(ds[..n], k);
      assert ds == ds[..n] + [ds[n]];
    }
  }

  /** Whatever keys a list repeats, each key's row ends as its own upserts fold it. */
  lemma {:induction false} PutAllFolds<K, V, D>(t: seq<Entry<K, V>>, ds: seq<Entry<K, D>>, merge: (Option<V>, D) -> V, k: K)
    requires Distinct(t)
    ensures var next := PutAll(t, ds, merge);
      && Distinct(next) && Extends(t, next) && Get(next, k) == Fold(Get(t, k), ds, merge, k)
  {
    hide Find, Get;
    if |ds| > 0 {
      var n := |ds| - 1;
      var last := ds[n];
      PutAllFolds(t, ds[..n], merge, k);
      PutAllFolds(t, ds[..n], merge, last.key);
      var before := PutAll(t, ds[..n], merge);
      PutMeans(before, last.key, merge(Get(before, last.key), last.value), k);
    }
  }

  lemma {:induction false} FoldedIsThere<K, V, D>(v: Option<V>, ds: seq<Entry<K, D>>, merge: (Option<V>, D) -> V, k: K)
    ensures Fold(v, ds, merge, k).Some? <==> v.Some? || Last(ds, k).Some?
    ensures Last(ds, k).None? ==> Fold(v, ds, merge, k) == v
  {
    if |ds| > 0 { FoldedIsThere(v, ds[..|ds| - 1], merge, k); }
  }

  /** A merge that forgets all but the row it started from and the last declaration. */
  ghost predicate Absorbs<V(!new), D(!new)>(merge: (Option<V>, D) -> V) {
    forall v: Option<V>, a: D, b: D :: merge(Some(merge(v, a)), b) == merge(v, b)
  }

  /** Under such a merge the last declaration wins. */
  lemma {:induction false} LastWins<K, V(!new), D(!new)>(v: Option<V>, ds: seq<Entry<K, D>>, merge: (Option<V>, D) -> V, k: K)
    requires Absorbs(merge)
    ensures Fold(v, ds, merge, k) == if Last(ds, k).None? then v else Some(merge(v, Last(ds, k).value))
  {
    if |ds| > 0 {
      var n := |ds| - 1;
      LastWins(v, ds[..n], merge, k);
      if ds[n].key == k && Last(ds[..n], k).Some? {
        assert merge(Some(merge(v, Last(ds[..n], k).value)), ds[n].value) == merge(v, ds[n].value);
      }
    }
  }

  /** A property of rows that every upsert establishes or keeps holds of every row in the end. */
  lemma {:induction false} PutAllKeeps<K(!new), V(!new), D>(t: seq<Entry<K, V>>, ds: seq<Entry<K, D>>, merge: (Option<V>, D) -> V, ok: (K, V) -> bool)
    requires forall e | e in t :: ok(e.key, e.value)
    requires forall d, v: Option<V> | d in ds && (v.Some? ==> ok(d.key, v.value)) :: ok(d.key, merge(v, d.value))
    ensures forall e | e in PutAll(t, ds, merge) :: ok(e.key, e.value)
  {
    if |ds| > 0 {
      var n := |ds| - 1;
      assert forall d | d in ds[..n] :: d in ds;
      PutAllKeeps(t, ds[..n], merge, ok);
      var before := PutAll(t, ds[..n], merge);
      var v := Get(before, ds[n].key);
      if v.Some? { assert before[Find(before, ds[n].key).value] in before; }
      assert ds[n] in ds && ok(ds[n].key, merge(v, ds[n].value));
    }
  }

  // ---------------------------------------------------------------------------------------------
  // Declarations gathered from documents
  // ---------------------------------------------------------------------------------------------

  datatype Reading<+E> = Skip | Bad | Good(entry: E)

  /** The declarations of a list, in order, or nothing when one of them is bad. */
  function Gather<A, E>(xs: seq<A>, read: A -> Reading<E>): Option<seq<E>> {
    if |xs| == 0 then Some([])
    else
      var n := |xs| - 1;
      var before := Gather(xs[..n], read);
      if before.None? then None
      else match read(xs[n])
        case Skip => before
        case Bad => None
        case Good(e) => Some(before.value + [e])
  }

  /** Gathering succeeds exactly when nothing read is bad, and yields exactly what was read as good. */
  lemma {:induction false} GatherMeans<A, E>(xs: seq<A>, read: A -> Reading<E>)
    ensures Gather(xs, read).Some? <==> forall x | x in xs :: !read(x).Bad?
    ensures Gather(xs, read).Some? ==> forall e :: e in Gather(xs, read).value <==> exists x | x in xs :: read(x) == Good(e)
  {
    if |xs| > 0 {
      var n := |xs| - 1;
      GatherMeans(xs[..n], read);
      assert xs == xs[..n] + [xs[n]];
    }
  }

  lemma ReadFrom<A, E>(xs: seq<A>, read: A -> Reading<E>, e: E) returns (j: nat)
    requires Gather(xs, read).Some? && e in Gather(xs, read).value
    ensures j < |xs| && read(xs[j]) == Good(e)
  {
    GatherMeans(xs, read);
    var x :| x in xs && read(x) == Good(e);
    j :| 0 <= j < |xs| && xs[j] == x;
  }

  /** Whatever a list reads as one key is read from one place. */
  ghost predicate ReadOnce<A, K, D>(xs: seq<A>, read: A -> Reading<Entry<K, D>>) {
    forall i, j | 0 <= i < j < |xs| && read(xs[i]).Good? && read(xs[j]).Good? :: read(xs[i]).entry.key != read(xs[j]).entry.key
  }

  lemma {:induction false} GatheredOnce<A, K, D>(xs: seq<A>, read: A -> Reading<Entry<K, D>>)
    requires ReadOnce(xs, read) && Gather(xs, read).Some?
    ensures Distinct(Gather(xs, read).value)
  {
    if |xs| > 0 {
      var n := |xs| - 1;
      GatheredOnce(xs[..n], read);
      GatherMeans(xs[..n], read);
      var before := Gather(xs[..n], read).value;
      if read(xs[n]).Good? {
        forall i | 0 <= i < |before| ensures before[i].key != read(xs[n]).entry.key {
          var j := ReadFrom(xs[..n], read, before[i]);
          assert xs[..n][j] == xs[j];
        }
      }
    }
  }

  /** What is gathered under a key: the one declaration read with it, if any. */
  lemma GatheredUnder<A, K, D>(xs: seq<A>, read: A -> Reading<Entry<K, D>>, k: K)
    requires ReadOnce(xs, read) && Gather(xs, read).Some?
    ensures var ds := Gather(xs, read).value;
      && Distinct(ds)
      && (forall x, d | x in xs && read(x) == Good(Entry(k, d)) :: Get(ds, k) == Some(d))
      && (Get(ds, k).Some? ==> exists x | x in xs :: read(x) == Good(Entry(k, Get(ds, k).value)))
  {
    var ds := Gather(xs, read).value;
    GatheredOnce(xs, read);
    GatherMeans(xs, read);
    forall x, d | x in xs && read(x) == Good(Entry(k, d)) ensures Get(ds, k) == Some(d) {
      assert Entry(k, d) in ds;
      var i :| 0 <= i < |ds| && ds[i] == Entry(k, d);
      FoundOnlyThere(ds, i);
    }
    if Get(ds, k).Some? {
      assert ds[Find(ds, k).value] in ds;
    }
  }
}
