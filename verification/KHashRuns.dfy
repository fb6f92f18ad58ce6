/**
 Whole runs of a khash table: any sequence of calls, allocation failures included, answers
 as a finite map would, as long as no call stores a new key into a table of 2^31 live buckets.
 */
module KHashRuns {
  import opened Bits
  import opened Collections
  import opened Flags
  import opened Probe
  import opened Buckets
  import opened KHashTable

  datatype Op<K, V> =
    | Store(key: K, value: V, mem: Memory)
    | Fetch(key: K)
    | Remove(key: K)
    | Wipe
    | Request(n: u32, mem: Memory)

  datatype Answer<V> = Value(value: V) | Nothing | Done | Failed

  /** What a call sees of the table: the map, the number of buckets, and whether a put would resize
      and grow it. */
  datatype View<K, V> = View(contents: map<K, V>, buckets: nat, resizes: bool, grows: bool)

  ghost function ViewOf<K(0), V(0)>(h: KHash<K, V>): View<K, V>
    reads h
  {
    View(h.contents, h.nBuckets, h.PutResizes(), h.PutGrows())
  }

  /** A finite map in which a store fails exactly if a resize that it needs is out of memory. */
  ghost predicate MapStep<K, V>(w: View<K, V>, op: Op<K, V>, a: Answer<V>, m': map<K, V>) {
    var m := w.contents;
    match op
    case Store(k, v, mem) =>
      if w.resizes && OutOfMemory(mem, w.grows) then a.Failed? && m' == m
      else a.Done? && m' == m[k := v]
    case Fetch(k) => m' == m && a == if k in m then Value(m[k]) else Nothing
    case Remove(k) => m' == m - {k} && a == if k in m then Done else Nothing
    case Wipe => m' == map[] && a == Done
    case Request(r, mem) => m' == m && exists n: nat :: SizeFor(r, n) && a == Answered(m, w.buckets, n, mem)
  }

  /** A resize to `n` buckets fails exactly if the entries fit them and memory runs out. */
  function Answered<K, V>(m: map<K, V>, buckets: nat, n: nat, mem: Memory): Answer<V> {
    if |m| < Upper(n) && (!mem.flagsOk || (buckets < n && !(mem.keysOk && mem.valsOk))) then Failed else Done
  }

  /** A store of a key that is not there, with no bucket left to put it. */
  predicate Overfull<K, V>(m: map<K, V>, op: Op<K, V>) {
    op.Store? && op.key !in m && |m| == MAX_BUCKETS
  }

  /** What one call does: an overfull store overwrites the value of some other key. */
  ghost predicate Step<K(!new), V>(w: View<K, V>, op: Op<K, V>, a: Answer<V>, m': map<K, V>) {
    var m := w.contents;
    if Overfull(m, op) then
      a.Done? && exists k {:trigger m[k := op.value]} :: k in m && m' == m[k := op.value]
    else
      MapStep(w, op, a, m')
  }

  /** A call behaves as a map exactly when it is not an overfull store. */
  lemma MapUnlessOverfull<K(!new), V>(w: View<K, V>, op: Op<K, V>, a: Answer<V>, m': map<K, V>)
    requires Step(w, op, a, m')
    ensures MapStep(w, op, a, m') <==> !Overfull(w.contents, op)
  {
    if Overfull(w.contents, op) {
      var k :| k in w.contents && m' == w.contents[k := op.value];
      assert op.key !in m';
    }
  }

  /** The table `ws` between the calls of a run. */
  ghost predicate Run<K(!new), V>(ws: seq<View<K, V>>, ops: seq<Op<K, V>>, answers: seq<Answer<V>>) {
    && |ws| == |ops| + 1 && |answers| == |ops|
    && forall i :: 0 <= i < |ops| ==> Step(ws[i], ops[i], answers[i], ws[i + 1].contents)
  }

  ghost predicate MapRun<K, V>(ws: seq<View<K, V>>, ops: seq<Op<K, V>>, answers: seq<Answer<V>>) {
    && |ws| == |ops| + 1 && |answers| == |ops|
    && forall i :: 0 <= i < |ops| ==> MapStep(ws[i], ops[i], answers[i], ws[i + 1].contents)
  }

  /** A run of the table is a run of a map exactly when none of its stores is overfull. */
  lemma RunRefinesMap<K(!new), V>(ws: seq<View<K, V>>, ops: seq<Op<K, V>>, answers: seq<Answer<V>>)
    requires Run(ws, ops, answers)
    ensures MapRun(ws, ops, answers) <==> forall i :: 0 <= i < |ops| ==> !Overfull(ws[i].contents, ops[i])
  {
    if MapRun(ws, ops, answers) {
      forall i | 0 <= i < |ops| ensures !Overfull(ws[i].contents, ops[i]) {
        MapUnlessOverfull(ws[i], ops[i], answers[i], ws[i + 1].contents);
      }
    }
  }

  // ---------------------------------------------------------------- enough room for all keys

  /** The keys a run stores. */
  ghost function StoredKeys<K, V>(ops: seq<Op<K, V>>): set<K> {
    set i | 0 <= i < |ops| && ops[i].Store? :: ops[i].key
  }

  lemma {:induction false} KeysStayInside<K(!new), V>(ws: seq<View<K, V>>, ops: seq<Op<K, V>>, answers: seq<Answer<V>>, i: nat)
    requires Run(ws, ops, answers) && i <= |ops|
    ensures ws[i].contents.Keys <= ws[0].contents.Keys + StoredKeys(ops)
  {
    if i > 0 {
      KeysStayInside(ws, ops, answers, i - 1);
      assert Step(ws[i - 1], ops[i - 1], answers[i - 1], ws[i].contents);
    }
  }

  /** A run over at most 2^31 different keys, those present at first included, is a run of a map. */
  lemma FewKeysRefineMap<K(!new), V>(ws: seq<View<K, V>>, ops: seq<Op<K, V>>, answers: seq<Answer<V>>)
    requires Run(ws, ops, answers) && |ws[0].contents.Keys + StoredKeys(ops)| <= MAX_BUCKETS
    ensures MapRun(ws, ops, answers)
  {
    forall i | 0 <= i < |ops| ensures !Overfull(ws[i].contents, ops[i]) {
      KeysStayInside(ws, ops, answers, i);
      var m := ws[i].contents;
      if ops[i].Store? && ops[i].key !in m {
        var all := ws[0].contents.Keys + StoredKeys(ops);
        assert ops[i].key in StoredKeys(ops);
        SubsetSize(m.Keys + {ops[i].key}, all);
        assert |m.Keys| == |m|;
      }
    }
    RunRefinesMap(ws, ops, answers);
  }

  // ---------------------------------------------------------------- the calls

  /** The calls a user of the table makes for each operation. */
  method Perform<K(==, 0, !new), V(0)>(h: KHash<K, V>, op: Op<K, V>) returns (a: Answer<V>)
    requires h.Valid()
    modifies h, h.flags, h.keys, h.vals
    ensures h.Fresh(old(h.flags), old(h.keys), old(h.vals))
    ensures h.Valid() && Step(old(ViewOf(h)), op, a, h.contents)
  {
    match op
    case Store(k, v, mem) => a := PerformStore(h, k, v, mem);
    case Fetch(k) =>
      var x := h.Get(k);
      a := if x != h.nBuckets then Value(h.vals[x]) else Nothing;
    case Remove(k) =>
      var x := h.Get(k);
      a := if x != h.nBuckets then Done else Nothing;
      h.Delete(x);
    case Wipe =>
      h.Clear();
      a := Done;
    case Request(r, mem) =>
      var rc, n := h.Resize(r, mem);
      StoresSize(LiveSet(h.st), h.keys[..], h.vals[..], h.contents);
      a := if rc < 0 then Failed else Done;
      assert SizeFor(r, n);
  }

  /** `kh_put` and the store through `kh_value` at the bucket it returns. */
  method PerformStore<K(==, 0, !new), V(0)>(h: KHash<K, V>, k: K, v: V, mem: Memory) returns (a: Answer<V>)
    requires h.Valid()
    modifies h, h.flags, h.keys, h.vals
    ensures h.Fresh(old(h.flags), old(h.keys), old(h.vals))
    ensures h.Valid() && Step(old(ViewOf(h)), Store(k, v, mem), a, h.contents)
  {
    ghost var w := ViewOf(h);
    FullWhen(h, k);
    var x, ret := h.Put(k, mem);
    if ret < 0 {
      a := Failed;
    } else {
      a := Done;
      StoreAt(h, x, k, v, mem, w);
    }
  }

  /** The store at the bucket that `kh_put` returned. */
  method StoreAt<K(==, 0, !new), V(0)>(h: KHash<K, V>, x: nat, ghost k: K, v: V, ghost mem: Memory, ghost w: View<K, V>)
    requires h.Valid() && x < h.nBuckets && h.st[x].Live? && !(w.resizes && OutOfMemory(mem, w.grows))
    requires h.contents == w.contents || (h.keys[x] == k && h.contents == w.contents[k := h.vals[x]])
    requires h.keys[x] == k <==> !Overfull(w.contents, Store(k, v, mem))
    modifies h, h.vals
    ensures h.flags == old(h.flags) && h.keys == old(h.keys) && h.vals == old(h.vals)
    ensures h.Valid() && Step(w, Store(k, v, mem), Done, h.contents)
  {
    ghost var m, other := w.contents, h.keys[x];
    assert x in LiveSet(h.st);
    assert other in m || other == k;
    StoreStep(w, k, v, mem, other);
    h.Assign(x, v);
    assert h.contents == m[other := v];
  }

  lemma StoreStep<K(!new), V>(w: View<K, V>, k: K, v: V, mem: Memory, other: K)
    requires !(w.resizes && OutOfMemory(mem, w.grows))
    requires other == k <==> !Overfull(w.contents, Store(k, v, mem))
    requires other in w.contents || other == k
    ensures Step(w, Store(k, v, mem), Done, w.contents[other := v])
  {
  }

  /** The map has 2^31 entries exactly when the table is full. */
  lemma FullWhen<K(0), V(0)>(h: KHash<K, V>, k: K)
    requires h.Valid()
    ensures h.Exhausted(k) <==> k !in h.contents && |h.contents| == MAX_BUCKETS
  {
    StoresSize(LiveSet(h.st), h.keys[..], h.vals[..], h.contents);
    LiveWithinUsed(h.st);
  }

  /** Every run of calls goes as specified. */
  method Replay<K(==, 0, !new), V(0)>(h: KHash<K, V>, ops: seq<Op<K, V>>)
    returns (answers: seq<Answer<V>>, ghost ws: seq<View<K, V>>)
    requires h.Valid()
    modifies h, h.flags, h.keys, h.vals
    ensures h.Valid() && Run(ws, ops, answers)
    ensures ws[0] == old(ViewOf(h)) && ws[|ops|] == ViewOf(h)
  {
    answers, ws := [], [ViewOf(h)];
    var i := 0;
    while i < |ops|
      invariant i <= |ops| && h.Fresh(old(h.flags), old(h.keys), old(h.vals))
      invariant h.Valid() && Run(ws, ops[..i], answers) && ws[0] == old(ViewOf(h)) && ws[i] == ViewOf(h)
    {
      var a := Perform(h, ops[i]);
      answers, ws, i := answers + [a], ws + [ViewOf(h)], i + 1;
    }
    assert ops[..i] == ops;
  }

  // ---------------------------------------------------------------- a full table

  /** Storing 2^31 different keys fills the table. One more finds no bucket: the call answers
      that the key is present and returns the bucket of another. */
  method FillUp(mem: Memory) returns (h: KHash<int, int>, x: nat, ret: int)
    ensures h.Valid() && h.Exhausted(MAX_BUCKETS)
    ensures ret == 0 && x < h.nBuckets && h.keys[x] != MAX_BUCKETS
  {
    h := StoreAll(MAX_BUCKETS);
    FullWhen(h, MAX_BUCKETS);
    x, ret := h.Put(MAX_BUCKETS, mem);
    FullWhen(h, MAX_BUCKETS);
  }

  method StoreAll(n: nat) returns (h: KHash<int, int>)
    requires n <= MAX_BUCKETS
    ensures fresh(h) && fresh(h.flags) && fresh(h.keys) && fresh(h.vals)
    ensures h.Valid() && Counted(h.contents, n)
  {
    h := new KHash((k: int) => k % 0x1_0000_0000);
    var i := 0;
    while i < n
      invariant i <= n && fresh(h) && fresh(h.flags) && fresh(h.keys) && fresh(h.vals)
      invariant h.Valid() && Counted(h.contents, i)
    {
      StoreNext(h, i);
      i := i + 1;
    }
  }

  /** The map has the keys `0 .. n-1` and no others. */
  ghost predicate Counted(m: map<int, int>, n: nat) {
    |m| == n && forall k :: k in m ==> 0 <= k < n
  }

  method StoreNext(h: KHash<int, int>, i: nat)
    requires h.Valid() && Counted(h.contents, i) && i < MAX_BUCKETS
    modifies h, h.flags, h.keys, h.vals
    ensures h.Fresh(old(h.flags), old(h.keys), old(h.vals))
    ensures h.Valid() && Counted(h.contents, i + 1)
  {
    FullWhen(h, i);
    var _, _ := h.Put(i, Memory(true, true, true));
  }

  // ---------------------------------------------------------------- a reused tombstone

  /** The buckets that the probe for `h` looks at first, of four. */
  lemma FourBuckets(h: nat)
    requires h % 4 == 0
    ensures At(h, 0, 4) == 0 && At(h, 1, 4) == 1 && At(h, 2, 4) == 3
  {
    assert Tri(0) == 0 && Tri(1) == 1 && Tri(2) == 3;
  }

  /** The only entry of four buckets, if it was put there for a multiple of four, is in bucket 0. */
  lemma OnlyBucket(k: nat, st: seq<Flag>, x: nat)
    requires |st| == 4 && IsPow2(|st|) && k % 4 == 0 && Deleted !in st && LiveSet(st) == {x} && x < 4 && Reachable(k, st, x)
    ensures x == 0 && st == [Live, Empty, Empty, Empty]
  {
    FourBuckets(k);
    var t := StepOf(k, x, |st|);
    if t > 0 { assert !st[At(k, 0, |st|)].Empty?; }
    forall i: nat | i < 4 ensures st[i] == if i == x then Live else Empty {
      assert i in LiveSet(st) <==> i == x;
      assert st[i] in st;
    }
  }

  lemma OneEntry(h: KHash<int, int>, x: nat, key: int)
    requires h.Valid() && h.nBuckets == 4 && Deleted !in h.st && |h.contents| == 1
    requires x < 4 && h.st[x].Live? && h.keys[x] == key && h.hash(key) % 4 == 0
    ensures x == 0 && h.st == [Live, Empty, Empty, Empty] && h.nOccupied == 1
  {
    var st := h.st;
    StoresSize(LiveSet(st), h.keys[..], h.vals[..], h.contents);
    assert x in LiveSet(st);
    SameSize({x}, LiveSet(st));
    OnlyBucket(h.hash(key), st, x);
    assert UsedSet(st) == {0};
  }

  lemma UsedPair(before: seq<Flag>, x: nat)
    requires (before == [Live, Empty, Empty, Empty] && x == 1) || (before == [Deleted, Live, Empty, Empty] && x == 0)
    ensures before[x := Live] == [Live, Live, Empty, Empty] && |UsedSet(before[x := Live])| == 2
  {
    assert UsedSet([Live, Live, Empty, Empty]) == {0, 1};
  }

  /** Where key 4 goes after key 0, and key 8 once key 0 is deleted. */
  lemma SecondAndThird(x: nat, ret: int)
    ensures PutRule(4, [Live, Empty, Empty, Empty], x, ret) ==> ret == 1 && x == 1
    ensures PutRule(8, [Deleted, Live, Empty, Empty], x, ret) ==> ret == 2 && x == 0
  {
    FourBuckets(4);
    FourBuckets(8);
    var a, b := [Live, Empty, Empty, Empty], [Deleted, Live, Empty, Empty];
    if PutRule(4, a, x, ret) { PutRuleAt(4, a, x, ret, 1); }
    if PutRule(8, b, x, ret) {
      assert b[At(8, 0, |b|)].Deleted? && b[At(8, 1, |b|)].Live? && b[At(8, 2, |b|)].Empty?;
      PutRuleAt(8, b, x, ret, 2);
    }
  }

  /** The table of the example: four buckets, of which the first two are in use. */
  ghost predicate Small(h: KHash<int, int>, st: seq<Flag>)
    reads h, h.flags, h.keys, h.vals
  {
    && h.Valid() && h.nBuckets == 4 && h.upperBound == 3 && h.st == st
    && h.hash == Itself
  }

  /** A hash function that gives small numbers themselves. */
  function Itself(k: int): u32 {
    if 0 <= k < 100 then k else 0
  }

  method PutZero() returns (h: KHash<int, int>)
    ensures fresh(h) && fresh(h.flags) && fresh(h.keys) && fresh(h.vals)
    ensures Small(h, [Live, Empty, Empty, Empty]) && h.nOccupied == 1 && h.keys[0] == 0 && h.contents.Keys == {0}
  {
    h := new KHash(Itself);
    var x := PutFirst(h, 0);
    OneEntry(h, x, 0);
  }

  /** The first key of a table brings four buckets. */
  method PutFirst<K(==, 0), V(0)>(h: KHash<K, V>, key: K) returns (x: nat)
    requires h.Valid() && h.contents == map[] && h.nBuckets == h.size == h.nOccupied == h.upperBound == 0
    modifies h, h.flags, h.keys, h.vals
    ensures h.Fresh(old(h.flags), old(h.keys), old(h.vals))
    ensures h.Valid() && h.nBuckets == 4 && h.upperBound == 3 && Deleted !in h.st
    ensures x < 4 && h.st[x].Live? && h.keys[x] == key && h.contents.Keys == {key} && |h.contents| == 1
  {
    assert Upper(4) == 3;
    var ret;
    x, ret := h.Put(key, Memory(true, true, true));
    assert h.contents.Keys == {key};
  }

  method PutFour(h: KHash<int, int>)
    requires Small(h, [Live, Empty, Empty, Empty]) && h.nOccupied == 1 && h.keys[0] == 0 && h.contents.Keys == {0}
    modifies h, h.flags, h.keys, h.vals
    ensures h.Fresh(old(h.flags), old(h.keys), old(h.vals))
    ensures Small(h, [Live, Live, Empty, Empty]) && h.nOccupied == 2 && h.keys[0] == 0 && h.contents.Keys == {0, 4}
  {
    ghost var before := h.st;
    var x, ret := h.Put(4, Memory(true, true, true));
    SecondAndThird(x, ret);
    UsedPair(before, x);
  }

  method PutEight(h: KHash<int, int>) returns (x: nat, ret: int)
    requires Small(h, [Deleted, Live, Empty, Empty]) && h.nOccupied == 2 && h.contents.Keys == {4}
    modifies h, h.flags, h.keys, h.vals
    ensures h.Valid() && x == 0 && ret == 2 && h.nOccupied == 2 && h.contents.Keys == {4, 8}
  {
    ghost var before := h.st;
    x, ret := h.Put(8, Memory(true, true, true));
    SecondAndThird(x, ret);
    UsedPair(before, x);
  }

  /** Keys 0 and 4 share their first bucket. With 0 deleted, key 8 takes over its bucket and not the
      empty one that follows on its way. */
  method ReuseTombstone() returns (h: KHash<int, int>, x: nat, ret: int)
    ensures h.Valid() && x == 0 && ret == 2 && h.nOccupied == 2 && h.contents.Keys == {4, 8}
  {
    h := PutZero();
    PutFour(h);
    DeleteZero(h);
    x, ret := PutEight(h);
  }

  method DeleteZero(h: KHash<int, int>)
    requires Small(h, [Live, Live, Empty, Empty]) && h.nOccupied == 2 && h.keys[0] == 0 && h.contents.Keys == {0, 4}
    modifies h, h.flags
    ensures h.flags == old(h.flags) && h.keys == old(h.keys) && h.vals == old(h.vals)
    ensures Small(h, [Deleted, Live, Empty, Empty]) && h.nOccupied == 2 && h.contents.Keys == {4}
  {
    h.Delete(0);
  }
}
