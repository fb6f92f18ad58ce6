/**
 Open addressing on values: which bucket positions hold which entries of a map, and
 which probe paths lead to them. The class `KHash` updates arrays; everything it keeps
 invariant is stated here on sequences.
 */
module Buckets {
  import opened Collections
  import opened Bits
  import opened Flags
  import opened Probe

  const MAX_BUCKETS: nat := 0x8000_0000

  /** `n_buckets * 0.77 + 0.5` truncated, as a rational: the whole number nearest to 0.77 n. */
  function Upper(n: nat): (u: nat)
    ensures 77 * n - 50 < 100 * u <= 77 * n + 50
  {
    (77 * n + 50) / 100
  }

  lemma UpperBounds(n: nat)
    requires n >= 4
    ensures n / 2 < Upper(n) < n < Upper(2 * n)
  {
  }

  ghost function LiveSet(st: seq<Flag>): (s: set<nat>) {
    set i: nat | i < |st| && st[i].Live?
  }

  /** Positions that are not empty: live entries and tombstones. */
  ghost function UsedSet(st: seq<Flag>): (s: set<nat>) {
    set i: nat | i < |st| && !st[i].Empty?
  }

  lemma LiveWithinUsed(st: seq<Flag>)
    ensures |LiveSet(st)| <= |UsedSet(st)| <= |st|
    ensures |UsedSet(st)| < |st| <==> Empty in st
    ensures |LiveSet(st)| < |st| <==> exists i: nat :: i < |st| && !st[i].Live?
  {
    SubsetSize(LiveSet(st), UsedSet(st));
    SubsetOfRange(UsedSet(st), |st|);
    SubsetOfRange(LiveSet(st), |st|);
    if Empty in st {
      var i: nat :| i < |st| && st[i] == Empty;
      assert i !in UsedSet(st);
    }
    if i: nat :| i < |st| && !st[i].Live? {
      assert i !in LiveSet(st);
    }
  }

  lemma SetFlag(st: seq<Flag>, i: nat, f: Flag)
    requires i < |st|
    ensures LiveSet(st[i := f]) == if f.Live? then LiveSet(st) + {i} else LiveSet(st) - {i}
    ensures UsedSet(st[i := f]) == if f.Empty? then UsedSet(st) - {i} else UsedSet(st) + {i}
  {
  }

  // ---------------------------------------------------------------- contents

  /** The positions `at` hold the entries of `m`: each entry at exactly one position. */
  ghost predicate Stores<K, V>(at: set<nat>, keys: seq<K>, vals: seq<V>, m: map<K, V>) {
    && (forall i :: i in at ==> i < |keys| && i < |vals|)
    && (forall i :: i in at ==> keys[i] in m && m[keys[i]] == vals[i])
    && (forall i, j :: i in at && j in at && keys[i] == keys[j] ==> i == j)
    && (forall k {:trigger Held(at, keys, k)} :: k in m ==> Held(at, keys, k))
  }

  /** Some position among `at` holds the key. */
  ghost predicate Held<K>(at: set<nat>, keys: seq<K>, k: K) {
    exists i :: i in at && i < |keys| && keys[i] == k
  }

  lemma TakeOut<K, V>(at: set<nat>, keys: seq<K>, vals: seq<V>, m: map<K, V>, i: nat)
    requires Stores(at, keys, vals, m) && i in at
    ensures Stores(at - {i}, keys, vals, m - {keys[i]})
  {
    var m' := m - {keys[i]};
    forall k | k in m' ensures Held(at - {i}, keys, k) {
      assert Held(at, keys, k);
      var j :| j in at && keys[j] == k;
      assert j in at - {i};
    }
  }

  lemma PutIn<K, V>(at: set<nat>, keys: seq<K>, vals: seq<V>, m: map<K, V>, i: nat, k: K, v: V)
    requires Stores(at, keys, vals, m) && i !in at && i < |keys| && i < |vals| && k !in m
    ensures Stores(at + {i}, keys[i := k], vals[i := v], m[k := v])
  {
    var keys', m' := keys[i := k], m[k := v];
    forall k' | k' in m' ensures Held(at + {i}, keys', k') {
      if k' == k {
        assert i in at + {i} && keys'[i] == k;
      } else {
        assert Held(at, keys, k');
        var j :| j in at && keys[j] == k';
        assert j in at + {i} && keys'[j] == k';
      }
    }
  }

  /** The entry at `i` gives way to another: what a kick-out does to the contents. */
  lemma Exchange<K, V>(at: set<nat>, keys: seq<K>, vals: seq<V>, m: map<K, V>, i: nat, k: K)
    requires k in m && Stores(at, keys, vals, m - {k}) && i in at
    ensures keys[i] in m && keys[i] != k && m[keys[i]] == vals[i]
    ensures Stores(at, keys[i := k], vals[i := m[k]], m - {keys[i]})
  {
    TakeOut(at, keys, vals, m - {k}, i);
    PutIn(at - {i}, keys, vals, m - {k} - {keys[i]}, i, k, m[k]);
    assert at - {i} + {i} == at;
    assert (m - {k} - {keys[i]})[k := m[k]] == m - {keys[i]};
  }

  lemma StoreValue<K, V>(at: set<nat>, keys: seq<K>, vals: seq<V>, m: map<K, V>, i: nat, v: V)
    requires Stores(at, keys, vals, m) && i in at
    ensures Stores(at, keys, vals[i := v], m[keys[i] := v])
  {
    TakeOut(at, keys, vals, m, i);
    PutIn(at - {i}, keys, vals, m - {keys[i]}, i, keys[i], v);
    assert at - {i} + {i} == at && keys[i := keys[i]] == keys;
    assert (m - {keys[i]})[keys[i] := v] == m[keys[i] := v];
  }

  /** There are as many stored positions as map entries. */
  lemma {:induction false} StoresSize<K, V>(at: set<nat>, keys: seq<K>, vals: seq<V>, m: map<K, V>)
    requires Stores(at, keys, vals, m)
    ensures |at| == |m|
    decreases at
  {
    if i :| i in at {
      TakeOut(at, keys, vals, m, i);
      StoresSize(at - {i}, keys, vals, m - {keys[i]});
      assert m.Keys == (m - {keys[i]}).Keys + {keys[i]};
    } else {
      assert forall k :: k in m ==> Held(at, keys, k);
      assert m.Keys == {};
    }
  }

  /** Only the stored positions matter. */
  lemma StoresFrame<K, V>(at: set<nat>, keys: seq<K>, vals: seq<V>, keys': seq<K>, vals': seq<V>, m: map<K, V>)
    requires Stores(at, keys, vals, m)
    requires forall i :: i in at ==> i < |keys'| && i < |vals'| && keys'[i] == keys[i] && vals'[i] == vals[i]
    ensures Stores(at, keys', vals', m)
  {
    forall k | k in m ensures Held(at, keys', k) {
      assert Held(at, keys, k);
      var i :| i in at && keys[i] == k;
      assert keys'[i] == k;
    }
  }

  // ---------------------------------------------------------------- probe paths

  /** Steps `0 .. s-1` of the probe from hash value `h` see no empty bucket. */
  ghost predicate Clear(h: nat, st: seq<Flag>, s: nat)
    requires |st| >= 1
  {
    forall t: nat :: t < s ==> !st[At(h, t, |st|)].Empty?
  }

  ghost predicate Reachable(h: nat, st: seq<Flag>, i: nat)
    requires IsPow2(|st|) && i < |st|
  {
    Clear(h, st, StepOf(h, i, |st|))
  }

  /** Every live key can be reached by probing from its hash value. */
  ghost predicate Paths<K>(hash: K -> u32, st: seq<Flag>, keys: seq<K>) {
    && |st| <= |keys|
    && (|st| > 0 ==> IsPow2(|st|))
    && forall i :: i in LiveSet(st) ==> Reachable(hash(keys[i]), st, i)
  }

  /** Turning a tombstone or an empty bucket on a clear path into a live one keeps all paths. */
  lemma PathsPut<K>(hash: K -> u32, st: seq<Flag>, keys: seq<K>, i: nat, k: K)
    requires Paths(hash, st, keys) && i < |st| && Reachable(hash(k), st, i)
    ensures Paths(hash, st[i := Live], keys[i := k])
  {
    var st', keys' := st[i := Live], keys[i := k];
    forall j | j in LiveSet(st') ensures Reachable(hash(keys'[j]), st', j) {
      assert j == i || j in LiveSet(st);
      assert Reachable(hash(keys'[j]), st, j);
    }
  }

  /** A tombstone keeps the paths that lead through it. */
  lemma PathsDelete<K>(hash: K -> u32, st: seq<Flag>, keys: seq<K>, i: nat)
    requires Paths(hash, st, keys) && i < |st| && st[i].Live?
    ensures Paths(hash, st[i := Deleted], keys)
  {
    var st' := st[i := Deleted];
    forall j | j in LiveSet(st') ensures Reachable(hash(keys[j]), st', j) {
      assert j in LiveSet(st);
    }
  }

  lemma PathsFrame<K>(hash: K -> u32, st: seq<Flag>, keys: seq<K>, keys': seq<K>)
    requires Paths(hash, st, keys) && |st| <= |keys'|
    requires forall i :: i in LiveSet(st) ==> keys'[i] == keys[i]
    ensures Paths(hash, st, keys')
  {
  }

  /** The first `s` steps of the probe for `key` see neither an empty bucket nor the key. */
  ghost predicate Missed<K>(h: nat, st: seq<Flag>, keys: seq<K>, key: K, s: nat)
    requires 1 <= |st| <= |keys|
  {
    forall t: nat :: t < s ==>
      var i := At(h, t, |st|);
      !st[i].Empty? && (st[i].Live? ==> keys[i] != key)
  }

  /** A probe that ends at an empty bucket, or has seen every bucket, proves the key absent. */
  lemma Absent<K, V>(hash: K -> u32, st: seq<Flag>, keys: seq<K>, vals: seq<V>, m: map<K, V>, key: K, s: nat)
    requires |st| >= 1 && Paths(hash, st, keys) && Stores(LiveSet(st), keys, vals, m)
    requires Missed(hash(key), st, keys, key, s)
    requires s >= |st| || st[At(hash(key), s, |st|)].Empty?
    ensures key !in m
  {
    forall i | i in LiveSet(st) ensures keys[i] != key {
      var t := StepOf(hash(keys[i]), i, |st|);
      assert Reachable(hash(keys[i]), st, i);
      assert At(hash(keys[i]), t, |st|) == i;
    }
    assert key in m ==> Held(LiveSet(st), keys, key);
  }

  /** A bucket met on a clear probe is reachable. */
  lemma OnPath(h: nat, st: seq<Flag>, t: nat, s: nat)
    requires IsPow2(|st|) && Clear(h, st, s) && t <= s
    ensures Reachable(h, st, At(h, t, |st|))
  {
    var i := At(h, t, |st|);
    assert StepOf(h, i, |st|) <= t || t >= |st|;
  }

  // ---------------------------------------------------------------- the whole table

  /** What every operation keeps: sizes, counts, load, contents and probe paths. */
  ghost predicate TableOk<K, V>(hash: K -> u32, st: seq<Flag>, keys: seq<K>, vals: seq<V>, m: map<K, V>,
                                size: nat, occupied: nat, upper: nat)
  {
    && (|st| == 0 || (IsPow2(|st|) && 4 <= |st| <= MAX_BUCKETS))
    && size == |LiveSet(st)|
    && occupied == |UsedSet(st)|
    && upper == (if |st| == 0 then 0 else Upper(|st|))
    && (occupied <= upper || |st| == MAX_BUCKETS)
    && Stores(LiveSet(st), keys, vals, m)
    && Paths(hash, st, keys)
  }

  /** Below 2^31 buckets the load limit keeps a bucket empty, so no probe ever wraps around. */
  lemma EmptyBucketExists<K, V>(hash: K -> u32, st: seq<Flag>, keys: seq<K>, vals: seq<V>, m: map<K, V>,
                                size: nat, occupied: nat, upper: nat)
    requires TableOk(hash, st, keys, vals, m, size, occupied, upper) && 0 < |st| < MAX_BUCKETS
    ensures Empty in st && size <= occupied <= upper < |st| && size == |m|
    ensures forall h: nat, s: nat :: s >= 1 && Clear(h, st, s) ==> At(h, s, |st|) != At(h, 0, |st|)
  {
    LiveWithinUsed(st);
    UpperBounds(|st|);
    StoresSize(LiveSet(st), keys, vals, m);
    var e: nat :| e < |st| && st[e] == Empty;
    forall h: nat, s: nat | s >= 1 && Clear(h, st, s) ensures At(h, s, |st|) != At(h, 0, |st|) {
      assert s <= StepOf(h, e, |st|);
      StepsDiffer(h, 0, s, |st|);
    }
  }

  /** There is a table of 2^31 live buckets, in which no probe finds a free one. */
  lemma FullTableExists() returns (st: seq<Flag>, keys: seq<nat>, m: map<nat, nat>)
    ensures |st| == MAX_BUCKETS && Empty !in st && Deleted !in st && MAX_BUCKETS !in m
    ensures TableOk((k: nat) => k % 0x1_0000_0000, st, keys, keys, m, |st|, |st|, Upper(|st|))
  {
    var n := MAX_BUCKETS;
    st, keys := seq(n, _ => Live), seq(n, i => i);
    m := map k: nat {:trigger Held(LiveSet(st), keys, k)} | k < n :: k;
    LiveWithinUsed(st);
    assert IsPow2(n) by { Pow2Bounds(31); }
    forall k | k in m ensures Held(LiveSet(st), keys, k) { assert k in LiveSet(st) && keys[k] == k; }
  }

  lemma DeleteOk<K, V>(hash: K -> u32, st: seq<Flag>, keys: seq<K>, vals: seq<V>, m: map<K, V>,
                       size: nat, occupied: nat, upper: nat, x: nat)
    requires TableOk(hash, st, keys, vals, m, size, occupied, upper) && x < |st| && st[x].Live?
    ensures size >= 1
    ensures TableOk(hash, st[x := Deleted], keys, vals, m - {keys[x]}, size - 1, occupied, upper)
  {
    SetFlag(st, x, Deleted);
    assert x in LiveSet(st) && x in UsedSet(st);
    assert UsedSet(st) + {x} == UsedSet(st);
    TakeOut(LiveSet(st), keys, vals, m, x);
    PathsDelete(hash, st, keys, x);
  }

  lemma InsertOk<K, V>(hash: K -> u32, st: seq<Flag>, keys: seq<K>, vals: seq<V>, m: map<K, V>,
                       size: nat, occupied: nat, upper: nat, x: nat, key: K)
    requires TableOk(hash, st, keys, vals, m, size, occupied, upper) && x < |st| && !st[x].Live? && key !in m
    requires Reachable(hash(key), st, x)
    requires st[x].Empty? ==> occupied < upper || |st| == MAX_BUCKETS
    requires x < |vals|
    ensures TableOk(hash, st[x := Live], keys[x := key], vals, m[key := vals[x]],
                    size + 1, occupied + (if st[x].Empty? then 1 else 0), upper)
  {
    SetFlag(st, x, Live);
    assert x !in LiveSet(st);
    assert st[x].Deleted? ==> UsedSet(st) + {x} == UsedSet(st);
    assert st[x].Empty? ==> x !in UsedSet(st);
    PutIn(LiveSet(st), keys, vals, m, x, key, vals[x]);
    assert vals[x := vals[x]] == vals;
    PathsPut(hash, st, keys, x, key);
  }

  lemma AssignOk<K, V>(hash: K -> u32, st: seq<Flag>, keys: seq<K>, vals: seq<V>, m: map<K, V>,
                       size: nat, occupied: nat, upper: nat, x: nat, v: V)
    requires TableOk(hash, st, keys, vals, m, size, occupied, upper) && x < |st| && st[x].Live? && x < |vals|
    ensures TableOk(hash, st, keys, vals[x := v], m[keys[x] := v], size, occupied, upper)
  {
    assert x in LiveSet(st);
    StoreValue(LiveSet(st), keys, vals, m, x, v);
  }

  lemma CopyOk<K, V>(hash: K -> u32, st: seq<Flag>, keys: seq<K>, vals: seq<V>, m: map<K, V>,
                     size: nat, occupied: nat, upper: nat, keys': seq<K>, vals': seq<V>)
    requires TableOk(hash, st, keys, vals, m, size, occupied, upper)
    requires |st| <= |keys'| && |st| <= |vals'| && |st| <= |vals|
    requires forall i :: 0 <= i < |st| ==> keys'[i] == keys[i] && vals'[i] == vals[i]
    ensures TableOk(hash, st, keys', vals', m, size, occupied, upper)
  {
    StoresFrame(LiveSet(st), keys, vals, keys', vals', m);
    PathsFrame(hash, st, keys, keys');
  }

  // ---------------------------------------------------------------- in-place rehash

  /** `n` buckets answer a resize request: the least power of two that is at least 4 and at
      least the request, or 4 when that power does not fit in 32 bits. */
  ghost predicate SizeFor(request: u32, n: nat) {
    && IsPow2(n) && 4 <= n <= MAX_BUCKETS
    && if 1 <= request <= MAX_BUCKETS then request <= n && (n == 4 || n < 2 * request) else n == 4
  }

  method RoundUp(request: u32) returns (n: nat)
    ensures SizeFor(request, n)
  {
    RoundUpIsLeastPow2(request);
    assert 4 == Pow2(2);
    n := RoundUp32(request);
    if 1 <= request <= MAX_BUCKETS { HalfIsSmaller(request, n); }
    if n < 4 { n := 4; }
  }

  lemma HalfIsSmaller(x: nat, r: nat)
    requires LeastPow2(x, r) && x >= 1
    ensures r < 2 * x || r == 1
  {
    var k: nat :| r == Pow2(k);
    if k > 0 {
      var half := Pow2(k - 1);
      assert x <= half ==> r <= half;
    }
  }

  /** Just below a power of two a request rounds up to it. */
  lemma SizeBelow(n: nat, r: nat)
    requires IsPow2(n) && 4 <= n <= MAX_BUCKETS && SizeFor(n - 1, r)
    ensures r == n
  {
    if r < n { Pow2Next(r, n); } else if n < r { Pow2Next(n, r); }
  }

  /** Just above one it rounds up to the double, unless that no longer fits in 32 bits. */
  lemma SizeAbove(n: nat, r: nat)
    requires IsPow2(n) && 4 <= n <= MAX_BUCKETS && SizeFor(n + 1, r)
    ensures r == if n == MAX_BUCKETS then 4 else 2 * n
  {
    if n < MAX_BUCKETS {
      Pow2Next(n, r);
      if 2 * n < r {
        var k: nat :| n == Pow2(k);
        assert 2 * n == Pow2(k + 1);
        Pow2Next(2 * n, r);
      }
    }
  }

  /** Midway through a rehash: the entries sit in buckets still live in the old layout `o`
      or already placed in the new layout `w`, and in no bucket of both. */
  ghost predicate Moving<K, V>(hash: K -> u32, o: seq<Flag>, w: seq<Flag>, keys: seq<K>, vals: seq<V>, m: map<K, V>) {
    && |o| <= |keys| && |o| <= |vals| && |w| <= |vals| && IsPow2(|w|)
    && LiveSet(o) !! LiveSet(w)
    && UsedSet(w) == LiveSet(w)
    && Stores(LiveSet(o) + LiveSet(w), keys, vals, m)
    && Paths(hash, w, keys)
  }

  lemma StartMoving<K, V>(hash: K -> u32, o: seq<Flag>, n: nat, keys: seq<K>, vals: seq<V>, m: map<K, V>)
    requires |o| <= |keys| && |o| <= |vals| && IsPow2(n) && n <= |keys| && n <= |vals|
    requires Stores(LiveSet(o), keys, vals, m)
    ensures Moving(hash, o, AllEmpty(n), keys, vals, m)
  {
    var w := AllEmpty(n);
    assert LiveSet(w) == {} && UsedSet(w) == {};
    assert LiveSet(o) + LiveSet(w) == LiveSet(o);
  }

  /** The entry of old bucket `j` is taken in hand. */
  lemma PickUp<K, V>(hash: K -> u32, o: seq<Flag>, w: seq<Flag>, keys: seq<K>, vals: seq<V>, m: map<K, V>, j: nat)
    requires Moving(hash, o, w, keys, vals, m) && j < |o| && o[j].Live?
    ensures keys[j] in m && m[keys[j]] == vals[j]
    ensures Moving(hash, o[j := Deleted], w, keys, vals, m - {keys[j]})
  {
    var at := LiveSet(o) + LiveSet(w);
    assert j in at;
    SetFlag(o, j, Deleted);
    TakeOut(at, keys, vals, m, j);
    assert at - {j} == LiveSet(o[j := Deleted]) + LiveSet(w);
  }

  /** The entry in hand is written over an old entry, which is taken in hand instead. */
  lemma KickOut<K, V>(hash: K -> u32, o: seq<Flag>, w: seq<Flag>, keys: seq<K>, vals: seq<V>, m: map<K, V>, i: nat, key: K)
    requires key in m && Moving(hash, o, w, keys, vals, m - {key})
    requires i < |w| && w[i].Empty? && Reachable(hash(key), w, i)
    requires i < |o| && o[i].Live?
    ensures keys[i] in m && m[keys[i]] == vals[i]
    ensures Moving(hash, o[i := Deleted], w[i := Live], keys[i := key], vals[i := m[key]], m - {keys[i]})
  {
    var at := LiveSet(o) + LiveSet(w);
    assert i in at;
    SetFlag(o, i, Deleted);
    SetFlag(w, i, Live);
    Exchange(at, keys, vals, m, i, key);
    assert at == LiveSet(o[i := Deleted]) + LiveSet(w[i := Live]);
    PathsPut(hash, w, keys, i, key);
  }

  /** The entry in hand finds a bucket that is live in neither layout. */
  lemma PutDown<K, V>(hash: K -> u32, o: seq<Flag>, w: seq<Flag>, keys: seq<K>, vals: seq<V>, m: map<K, V>, i: nat, key: K)
    requires key in m && Moving(hash, o, w, keys, vals, m - {key})
    requires i < |w| && w[i].Empty? && Reachable(hash(key), w, i)
    requires i < |o| ==> !o[i].Live?
    ensures Moving(hash, o, w[i := Live], keys[i := key], vals[i := m[key]], m)
  {
    var at := LiveSet(o) + LiveSet(w);
    assert i !in at;
    SetFlag(w, i, Live);
    PutIn(at, keys, vals, m - {key}, i, key, m[key]);
    assert (m - {key})[key := m[key]] == m;
    assert at + {i} == LiveSet(o) + LiveSet(w[i := Live]);
    PathsPut(hash, w, keys, i, key);
  }

  /** With an entry in hand and fewer entries than new buckets, a new bucket is empty. */
  lemma RoomToPlace<K, V>(hash: K -> u32, o: seq<Flag>, w: seq<Flag>, keys: seq<K>, vals: seq<V>, m: map<K, V>, key: K)
    requires key in m && Moving(hash, o, w, keys, vals, m - {key}) && |m| <= |w|
    ensures Empty in w
  {
    var at := LiveSet(o) + LiveSet(w);
    StoresSize(at, keys, vals, m - {key});
    assert m.Keys == (m - {key}).Keys + {key};
    SubsetSize(LiveSet(w), at);
    LiveWithinUsed(w);
  }

  /** When no old bucket is live any more, the new layout alone holds the map. */
  lemma DoneMoving<K, V>(hash: K -> u32, o: seq<Flag>, w: seq<Flag>, keys: seq<K>, vals: seq<V>, m: map<K, V>)
    requires Moving(hash, o, w, keys, vals, m) && LiveSet(o) == {}
    ensures Deleted !in w
    ensures 4 <= |w| <= MAX_BUCKETS && |m| < Upper(|w|) ==>
      TableOk(hash, w, keys, vals, m, |m|, |m|, Upper(|w|))
  {
    assert forall i: nat :: i < |w| && w[i].Deleted? ==> i in UsedSet(w);
    assert LiveSet(o) + LiveSet(w) == LiveSet(w);
    StoresSize(LiveSet(w), keys, vals, m);
  }
}
